/** The centralized page lock server: a table of page locks and what requests do to it. */
module PageLocks {

  datatype LockType = Read | Write | Unlock

  datatype Wait = Wait(name: string, kind: LockType)

  datatype Request = Request(asker: string, space: nat, page: nat, kind: LockType)

  datatype Reply = LockSuccess | LockFail | UnlockSuccess

  const TWO_32: nat := 0x1_0000_0000

  /** cal_fold: sums of 32-bit numbers, and only then made longer. */
  function Fold(space: nat, page: nat): (f: nat)
    ensures f < TWO_32
  {
    (space * 0x10_0000 % TWO_32 + space + page) % TWO_32
  }

  // ---------- what a request does, on values ----------

  /** PageLock_t */
  datatype Entry = Entry(space: nat, page: nat, version: nat, kind: LockType, holders: seq<string>, waiting: seq<Wait>)

  /** list::remove takes out every occurrence. */
  function Removed(s: seq<string>, name: string): seq<string> {
    if |s| == 0 then [] else (if s[0] == name then [] else [s[0]]) + Removed(s[1..], name)
  }

  function Unlocked(e: Entry, asker: string): Entry {
    var holders := Removed(e.holders, asker);
    if |holders| == 0 && |e.waiting| > 0 then
      e.(kind := e.waiting[0].kind, holders := [e.waiting[0].name], waiting := e.waiting[1..])
    else e.(kind := Unlock, holders := holders)
  }

  function Granted(e: Entry, asker: string, kind: LockType): Entry {
    e.(version := if kind == Write then e.version + 1 else e.version, kind := kind, holders := e.holders + [asker])
  }

  function Rank(kind: LockType): nat {
    match kind case Read => 0 case Write => 1 case Unlock => 2
  }

  /** A waiter that asks for more waits for that. */
  function Raised(w: Wait, asker: string, kind: LockType): Wait {
    if w.name == asker && Rank(kind) > Rank(w.kind) then w.(kind := kind) else w
  }

  function Refused(e: Entry, asker: string, kind: LockType): Entry {
    e.(waiting := seq(|e.waiting|, i requires 0 <= i < |e.waiting| => Raised(e.waiting[i], asker, kind)))
  }

  /** lock_compatibility_matrix */
  predicate Compatible(request: LockType, held: LockType) {
    request == Read && held == Read
  }

  type Table = map<nat, Entry>

  datatype Outcome = Outcome(table: Table, code: int, reply: Reply)

  /** check_lock_request */
  function Handle(t: Table, r: Request): Outcome {
    var f := Fold(r.space, r.page);
    if f !in t then Outcome(t[f := Entry(r.space, r.page, 0, r.kind, [r.asker], [])], 0, LockSuccess)
    else if r.kind == Unlock then Outcome(t[f := Unlocked(t[f], r.asker)], 2, UnlockSuccess)
    else if t[f].kind == Unlock || Compatible(r.kind, t[f].kind)
        then Outcome(t[f := Granted(t[f], r.asker, r.kind)], 1, LockSuccess)
    else Outcome(t[f := Refused(t[f], r.asker, r.kind)], -1, LockFail)
  }

  // ---------- what the asker is told ----------

  function HoldersOf(t: Table, f: nat): seq<string> {
    if f in t then t[f].holders else []
  }

  /** The asker has come to the holders, at their end, and nothing else has happened to them. */
  ghost predicate Joined(t: Table, next: Table, r: Request) {
    var f := Fold(r.space, r.page);
    && f in next
    && next[f] == Entry(if f in t then t[f].space else r.space, if f in t then t[f].page else r.page,
                        if f in t then t[f].version + (if r.kind == Write then 1 else 0) else 0,
                        r.kind, HoldersOf(t, f) + [r.asker], if f in t then t[f].waiting else [])
  }

  /** The entry is as it was, but that who waits for it already may wait for more. */
  ghost predicate LeftAlone(e: Entry, next: Entry, r: Request) {
    && next == e.(waiting := next.waiting) && |next.waiting| == |e.waiting|
    && forall i {:trigger next.waiting[i]} :: 0 <= i < |e.waiting| ==>
         && next.waiting[i].name == e.waiting[i].name
         && next.waiting[i].kind == if e.waiting[i].name == r.asker && (r.kind == Unlock || e.waiting[i].kind == Read)
                                    then r.kind else e.waiting[i].kind
  }

  /** The asker is no holder any more, and all others are. If there are none, who waited first takes over. */
  ghost predicate GivenBack(e: Entry, next: Entry, r: Request) {
    && next.space == e.space && next.page == e.page && next.version == e.version
    && if e.waiting != [] && (forall i {:trigger e.holders[i]} :: 0 <= i < |e.holders| ==> e.holders[i] == r.asker)
       then next.holders == [e.waiting[0].name] && next.kind == e.waiting[0].kind && next.waiting == e.waiting[1..]
       else next.kind == Unlock && next.waiting == e.waiting && OnlyWithout(e.holders, next.holders, r.asker)
  }

  /** The names are the same, in the same order, but for this one. */
  ghost predicate OnlyWithout(s: seq<string>, rest: seq<string>, name: string) {
    exists at: seq<nat> {:trigger PlacesOf(s, rest, name, at)} :: PlacesOf(s, rest, name, at)
  }

  /** What is left stood at the places at, and there was only name elsewhere. */
  ghost predicate PlacesOf(s: seq<string>, rest: seq<string>, name: string, at: seq<nat>) {
    && |at| == |rest| && (forall i, j {:trigger at[i], at[j]} :: 0 <= i < j < |at| ==> at[i] < at[j])
    && (forall i {:trigger at[i]} :: 0 <= i < |at| ==> at[i] < |s| && rest[i] == s[at[i]] && s[at[i]] != name)
    && (forall k {:trigger s[k]} :: 0 <= k < |s| && s[k] != name ==> k in at)
  }

  /** What a reply says about the table before and after. */
  ghost predicate Told(t: Table, next: Table, r: Request, code: int, reply: Reply) {
    var f := Fold(r.space, r.page);
    && f in next && next - {f} == t - {f}
    && (reply == UnlockSuccess <==> f in t && r.kind == Unlock)
    && (reply == LockFail <==>
          f in t && r.kind != Unlock && t[f].kind != Unlock && (r.kind == Write || t[f].kind == Write))
    && (reply == UnlockSuccess ==> code == 2 && GivenBack(t[f], next[f], r))
    && (reply == LockFail ==> code == -1 && LeftAlone(t[f], next[f], r))
    && (reply == LockSuccess ==> code == (if f in t then 1 else 0) && Joined(t, next, r))
  }

  lemma {:induction false} RemovedPlaces(s: seq<string>, name: string) returns (at: seq<nat>)
    ensures PlacesOf(s, Removed(s, name), name, at)
  {
    at := [];
    if |s| > 0 {
      var before := RemovedPlaces(s[1..], name);
      at := OnePlaceOn(s, Removed(s[1..], name), name, before);
      if s[0] == name {
        assert [] + Removed(s[1..], name) == Removed(s[1..], name);
      } else {
        at := OnePlaceMore(s, Removed(s[1..], name), name, at);
      }
    }
  }

  /** The places in s without its first element, as places in s. */
  lemma OnePlaceOn(s: seq<string>, rest: seq<string>, name: string, before: seq<nat>) returns (at: seq<nat>)
    requires |s| > 0 && PlacesOf(s[1..], rest, name, before)
    ensures |at| == |rest| && (forall i, j {:trigger at[i], at[j]} :: 0 <= i < j < |at| ==> at[i] < at[j])
    ensures forall i {:trigger at[i]} :: 0 <= i < |at| ==> 0 < at[i] < |s| && rest[i] == s[at[i]] && s[at[i]] != name
    ensures forall k {:trigger s[k]} :: 0 < k < |s| && s[k] != name ==> k in at
  {
    at := seq(|before|, i requires 0 <= i < |before| => before[i] + 1);
    forall i, j | 0 <= i < j < |at| ensures at[i] < at[j] {
      assert before[i] < before[j];
    }
    forall i | 0 <= i < |at| ensures at[i] < |s| && rest[i] == s[at[i]] && s[at[i]] != name {
      assert before[i] < |s[1..]|;
    }
    forall k | 0 < k < |s| && s[k] != name ensures k in at {
      assert s[1..][k - 1] == s[k];
      var i :| 0 <= i < |before| && before[i] == k - 1;
      assert at[i] == k;
    }
  }

  lemma OnePlaceMore(s: seq<string>, rest: seq<string>, name: string, later: seq<nat>) returns (at: seq<nat>)
    requires |s| > 0 && s[0] != name && |later| == |rest|
    requires forall i, j {:trigger later[i], later[j]} :: 0 <= i < j < |later| ==> later[i] < later[j]
    requires forall i {:trigger later[i]} :: 0 <= i < |later| ==>
               0 < later[i] < |s| && rest[i] == s[later[i]] && s[later[i]] != name
    requires forall k {:trigger s[k]} :: 0 < k < |s| && s[k] != name ==> k in later
    ensures PlacesOf(s, [s[0]] + rest, name, at)
  {
    at := [0] + later;
    forall i, j | 0 <= i < j < |at| ensures at[i] < at[j] {
      assert if i > 0 then later[i - 1] < later[j - 1] else 0 < later[j - 1];
    }
    forall i | 0 <= i < |at| ensures at[i] < |s| && ([s[0]] + rest)[i] == s[at[i]] && s[at[i]] != name {
      if i > 0 { assert later[i - 1] < |s|; }
    }
    forall k | 0 <= k < |s| && s[k] != name ensures k in at {
      assert at[0] == 0;
    }
  }

  /** There are no more of them than before, and the name is not among them. */
  lemma PlacesFewer(s: seq<string>, rest: seq<string>, name: string, at: seq<nat>)
    requires PlacesOf(s, rest, name, at)
    ensures |rest| <= |s| && name !in rest
  {
    if |at| > 0 {
      PlacesApart(at, |at| - 1);
      assert at[|at| - 1] < |s|;
    }
    forall i | 0 <= i < |rest| ensures rest[i] != name {
      assert at[i] < |s|;
    }
  }

  lemma {:induction false} PlacesApart(at: seq<nat>, i: nat)
    requires i < |at| && forall i, j {:trigger at[i], at[j]} :: 0 <= i < j < |at| ==> at[i] < at[j]
    ensures at[i] >= i
  {
    if i > 0 {
      PlacesApart(at, i - 1);
      assert at[i - 1] < at[i];
    }
  }

  lemma HandleTells(t: Table, r: Request)
    ensures var o := Handle(t, r); Told(t, o.table, r, o.code, o.reply)
  {
    var f := Fold(r.space, r.page);
    if f in t && r.kind == Unlock {
      var at := RemovedPlaces(t[f].holders, r.asker);
      RemovedIsEmpty(t[f].holders, r.asker);
    }
  }

  // ---------- the server ----------

  class PageLock {
    var space: nat
    var page: nat
    var version: nat
    var kind: LockType
    var holders: seq<string>
    var waiting: seq<Wait>

    /** insert_page_lock_t, but for the table */
    constructor (asker: string, r: Request)
      ensures View() == Entry(r.space, r.page, 0, r.kind, [asker], [])
    {
      space, page, version, kind, holders, waiting := r.space, r.page, 0, r.kind, [asker], [];
    }

    function View(): Entry
      reads this
    {
      Entry(space, page, version, kind, holders, waiting)
    }

    /** update_unlock_page_lock_t */
    method UpdateUnlock(asker: string)
      modifies this
      ensures View() == Unlocked(old(View()), asker)
    {
      kind := Unlock;
      holders := Removed(holders, asker);
      if |holders| == 0 {
        if |waiting| > 0 {
          holders := holders + [waiting[0].name];
          kind := waiting[0].kind;
          waiting := waiting[1..];
        }
      }
    }

    /** update_success_page_lock_t */
    method UpdateSuccess(asker: string, request: LockType)
      modifies this
      ensures View() == Granted(old(View()), asker, request)
    {
      if request == Write {
        version := version + 1;
      }
      kind := request;
      holders := holders + [asker];
    }

    /** update_fail_page_lock_t: a new waiter is prepared, but not put into the list. */
    method UpdateFail(asker: string, request: LockType)
      modifies this
      ensures View() == Refused(old(View()), asker, request)
    {
      var found, i := false, 0;
      while i < |waiting|
        invariant i <= |waiting| && |waiting| == |old(waiting)| && View() == old(View()).(waiting := waiting)
        invariant forall j {:trigger waiting[j]} :: 0 <= j < |waiting| ==>
                    waiting[j] == if j < i then Raised(old(waiting)[j], asker, request) else old(waiting)[j]
      {
        if waiting[i].name == asker {
          if Rank(request) > Rank(waiting[i].kind) {
            waiting := waiting[i := waiting[i].(kind := request)];
          }
          found := true;
        }
        i := i + 1;
      }
      if !found {
        var infor := Wait(asker, request);
      }
      assert waiting == Refused(old(View()), asker, request).waiting;
    }
  }

  class LockManager {
    var pageLockHash: map<nat, PageLock>

    constructor ()
      ensures Valid() && View() == map[]
    {
      pageLockHash := map[];
    }

    ghost predicate Valid()
      reads this
    {
      forall f, g {:trigger pageLockHash[f], pageLockHash[g]} ::
        f in pageLockHash && g in pageLockHash && f != g ==> pageLockHash[f] != pageLockHash[g]
    }

    ghost function Locks(): set<PageLock>
      reads this
    {
      set f | f in pageLockHash :: pageLockHash[f]
    }

    ghost function View(): Table
      reads this, Locks()
    {
      map f | f in pageLockHash :: pageLockHash[f].View()
    }

    /** check_lock_request */
    method CheckLockRequest(r: Request) returns (code: int, reply: Reply)
      requires Valid()
      modifies this, Locks()
      ensures Valid() && Outcome(View(), code, reply) == Handle(old(View()), r)
      ensures Told(old(View()), View(), r, code, reply)
    {
      HandleTells(View(), r);
      var f := Fold(r.space, r.page);
      if f !in pageLockHash {
        var lock := new PageLock(r.asker, r);
        pageLockHash := pageLockHash[f := lock];
        code, reply := 0, LockSuccess;
        assert View() == Handle(old(View()), r).table;
        return;
      }
      var lock := pageLockHash[f];
      if r.kind == Unlock {
        lock.UpdateUnlock(r.asker);
        code, reply := 2, UnlockSuccess;
      } else if lock.kind == Unlock || Compatible(r.kind, lock.kind) {
        lock.UpdateSuccess(r.asker, r.kind);
        code, reply := 1, LockSuccess;
      } else {
        lock.UpdateFail(r.asker, r.kind);
        code, reply := -1, LockFail;
      }
      assert View() == Handle(old(View()), r).table;
    }
  }

  // ---------- runs ----------

  /** The table after some requests. */
  function After(rs: seq<Request>): Table {
    if |rs| == 0 then map[] else Handle(After(rs[..|rs| - 1]), rs[|rs| - 1]).table
  }

  /** Who was given a lock, and of what kind. */
  datatype Grant = Grant(name: string, kind: LockType)

  function WithoutName(gs: seq<Grant>, name: string): seq<Grant> {
    if |gs| == 0 then [] else (if gs[0].name == name then [] else [gs[0]]) + WithoutName(gs[1..], name)
  }

  function Names(gs: seq<Grant>): (ns: seq<string>)
    ensures |ns| == |gs|
  {
    if |gs| == 0 then [] else [gs[0].name] + Names(gs[1..])
  }

  /** What was granted for the entry f by some requests, and not given back since. */
  function Grants(rs: seq<Request>, f: nat): seq<Grant> {
    if |rs| == 0 then []
    else
      var before, r := Grants(rs[..|rs| - 1], f), rs[|rs| - 1];
      if Fold(r.space, r.page) != f then before else GrantsNext(After(rs[..|rs| - 1]), r, before)
  }

  lemma {:induction false} NamesSnoc(gs: seq<Grant>, g: Grant)
    ensures Names(gs + [g]) == Names(gs) + [g.name]
  {
    if |gs| > 0 {
      NamesSnoc(gs[1..], g);
      assert (gs + [g])[1..] == gs[1..] + [g];
    }
  }

  lemma {:induction false} NamesWithout(gs: seq<Grant>, name: string)
    ensures Names(WithoutName(gs, name)) == Removed(Names(gs), name)
  {
    if |gs| > 0 {
      NamesWithout(gs[1..], name);
      assert Names(gs)[1..] == Names(gs[1..]);
      var rest := WithoutName(gs[1..], name);
      if gs[0].name == name {
        assert WithoutName(gs, name) == rest;
      } else {
        var all := [gs[0]] + rest;
        assert WithoutName(gs, name) == all && all[1..] == rest;
      }
    }
  }

  /** An entry's holders are those who were given its lock; nobody ever waits. */
  lemma {:induction false} HoldersAreGranted(rs: seq<Request>, f: nat)
    ensures f in After(rs) ==> After(rs)[f].holders == Names(Grants(rs, f)) && After(rs)[f].waiting == []
    ensures f !in After(rs) ==> Grants(rs, f) == []
  {
    if |rs| > 0 {
      var init, r := rs[..|rs| - 1], rs[|rs| - 1];
      HoldersAreGranted(init, f);
      if Fold(r.space, r.page) == f {
        HoldersStep(After(init), r, Grants(init, f));
      }
    }
  }

  /** The grants of an entry after one more request for it. */
  function GrantsNext(t: Table, r: Request, before: seq<Grant>): seq<Grant> {
    var code := Handle(t, r).code;
    if code == -1 then before
    else if code == 2 then WithoutName(before, r.asker)
    else before + [Grant(r.asker, r.kind)]
  }

  lemma HoldersStep(t: Table, r: Request, before: seq<Grant>)
    requires var f := Fold(r.space, r.page);
      if f in t then t[f].holders == Names(before) && t[f].waiting == [] else before == []
    ensures var f, next := Fold(r.space, r.page), Handle(t, r).table;
      f in next && next[f].holders == Names(GrantsNext(t, r, before)) && next[f].waiting == []
  {
    NamesSnoc(before, Grant(r.asker, r.kind));
    NamesWithout(before, r.asker);
  }

  /** Readers only, or one writer only, or nobody, as the entry says. */
  predicate Exclusive(e: Entry, gs: seq<Grant>) {
    match e.kind
    case Read => |gs| > 0 && forall i :: 0 <= i < |gs| ==> gs[i].kind == Read
    case Write => |gs| == 1 && gs[0].kind == Write
    case Unlock => |gs| == 0
  }

  ghost predicate TableExclusive(rs: seq<Request>) {
    forall f {:trigger After(rs)[f]} :: f in After(rs) ==> Exclusive(After(rs)[f], Grants(rs, f))
  }

  /** All holders are the one who asks. */
  predicate AllAre(holders: seq<string>, asker: string) {
    forall i {:trigger holders[i]} :: 0 <= i < |holders| ==> holders[i] == asker
  }

  /** Only the sole holder of a lock gives it back, and nobody gives back what was never asked for. */
  predicate Sole(t: Table, r: Request) {
    r.kind == Unlock ==> Fold(r.space, r.page) in t && AllAre(t[Fold(r.space, r.page)].holders, r.asker)
  }

  ghost predicate AlwaysExclusive(rs: seq<Request>) {
    TableExclusive(rs) && (|rs| > 0 ==> AlwaysExclusive(rs[..|rs| - 1]))
  }

  ghost predicate AlwaysSole(rs: seq<Request>) {
    |rs| > 0 ==> AlwaysSole(rs[..|rs| - 1]) && Sole(After(rs[..|rs| - 1]), rs[|rs| - 1])
  }

  lemma {:induction false} RemovedIsEmpty(s: seq<string>, name: string)
    ensures |Removed(s, name)| == 0 <==> AllAre(s, name)
  {
    if |s| > 0 {
      RemovedIsEmpty(s[1..], name);
      assert AllAre(s, name) <==> s[0] == name && AllAre(s[1..], name) by {
        assert AllAre(s, name) ==> forall i {:trigger s[1..][i]} :: 0 <= i < |s| - 1 ==> s[1..][i] == s[i + 1];
        assert forall i {:trigger s[i]} :: 0 < i < |s| ==> s[i] == s[1..][i - 1];
      }
    }
  }

  /** One request to a table where locks exclude each other. */
  lemma ExclusiveStep(rs: seq<Request>)
    requires |rs| > 0 && TableExclusive(rs[..|rs| - 1])
    ensures TableExclusive(rs) <==> Sole(After(rs[..|rs| - 1]), rs[|rs| - 1])
  {
    var init, r := rs[..|rs| - 1], rs[|rs| - 1];
    var t, f := After(init), Fold(r.space, r.page);
    HoldersAreGranted(init, f);
    assert f in t ==> Exclusive(t[f], Grants(init, f));
    if f in t && r.kind == Unlock {
      NamesWithout(Grants(init, f), r.asker);
      RemovedIsEmpty(t[f].holders, r.asker);
    }
    assert After(rs)[f] == After(rs)[f];
    forall g | g in After(rs) && g != f ensures Exclusive(After(rs)[g], Grants(rs, g)) {
      assert After(rs)[g] == t[g];
    }
  }

  /** Exclusion holds throughout a run if and only if every lock is given back by its sole holder. */
  lemma {:induction false} ExclusionIff(rs: seq<Request>)
    ensures AlwaysExclusive(rs) <==> AlwaysSole(rs)
  {
    if |rs| > 0 {
      ExclusionIff(rs[..|rs| - 1]);
      if AlwaysExclusive(rs[..|rs| - 1]) {
        ExclusiveStep(rs);
      }
    }
  }

  /** What happens otherwise: one of two readers gives its lock back, and a writer gets one at once. */
  lemma ReaderAndWriter(a: string, b: string, c: string, space: nat, page: nat)
    requires a != b
    ensures var rs := [Request(a, space, page, Read), Request(b, space, page, Read), Request(a, space, page, Unlock),
            Request(c, space, page, Write)];
      After(rs) == map[Fold(space, page) := Entry(space, page, 1, Write, [b, c], [])]
  {
    var r1, r2, r3, r4 := Request(a, space, page, Read), Request(b, space, page, Read),
      Request(a, space, page, Unlock), Request(c, space, page, Write);
    var f := Fold(space, page);
    assert [r1][..0] == [] && [r1, r2][..1] == [r1] && [r1, r2, r3][..2] == [r1, r2]
           && [r1, r2, r3, r4][..3] == [r1, r2, r3];
    assert [a] + [b] == [a, b] && [b] + [c] == [b, c];
    assert After([r1]) == map[f := Entry(space, page, 0, Read, [a], [])];
    assert After([r1, r2]) == map[f := Entry(space, page, 0, Read, [a, b], [])];
    assert [a, b][1..] == [b] && [b][1..] == [] && Removed([b], a) == [b];
    assert Removed([a, b], a) == [b];
    assert After([r1, r2, r3]) == map[f := Entry(space, page, 0, Unlock, [b], [])];
  }

  /** What the reply to one more request means on every run. Who is refused has changed nothing. */
  lemma ReplyMeans(rs: seq<Request>, r: Request)
    ensures var t, next, reply, f := After(rs), After(rs + [r]), Handle(After(rs), r).reply, Fold(r.space, r.page);
      && (reply == LockSuccess <==> f in next && next[f].holders == HoldersOf(t, f) + [r.asker])
      && (reply == UnlockSuccess <==> f in t && r.kind == Unlock)
      && (reply == UnlockSuccess ==> r.asker !in next[f].holders && next[f].kind == Unlock)
      && (reply == LockFail ==> next == t)
  {
    var t, f := After(rs), Fold(r.space, r.page);
    assert (rs + [r])[..|rs|] == rs;
    HandleTells(t, r);
    HoldersAreGranted(rs, f);
    var next := After(rs + [r]);
    if f in t && r.kind == Unlock {
      var at :| PlacesOf(t[f].holders, next[f].holders, r.asker, at);
      PlacesFewer(t[f].holders, next[f].holders, r.asker, at);
    }
  }

  /** Where locks exclude each other, whoever is told that he has a write lock is the only holder, whoever is told that
      he has a read lock shares it with readers, and whoever is refused is so because of another's write lock, or of
      readers when he wants to write. */
  lemma ReplyIsSafe(rs: seq<Request>, r: Request)
    requires AlwaysSole(rs + [r])
    ensures var f, gs, was, reply := Fold(r.space, r.page), Grants(rs + [r], Fold(r.space, r.page)),
        Grants(rs, Fold(r.space, r.page)), Handle(After(rs), r).reply;
      && (reply == LockSuccess && r.kind == Write ==> gs == [Grant(r.asker, Write)])
      && (reply == LockSuccess ==> r.kind != Unlock && gs == was + [Grant(r.asker, r.kind)])
      && (reply == LockSuccess && r.kind == Read ==> forall i {:trigger gs[i]} :: 0 <= i < |gs| ==> gs[i].kind == Read)
      && (reply == LockFail <==> r.kind != Unlock && exists i {:trigger was[i]} ::
            0 <= i < |was| && (r.kind == Write || was[i].kind == Write))
      && (reply == LockFail ==> gs == was)
      && (reply == UnlockSuccess ==> gs == [])
  {
    var all, f := rs + [r], Fold(r.space, r.page);
    assert all[..|rs|] == rs && all[|all| - 1] == r;
    ExclusionIff(rs);
    ExclusionIff(all);
    HoldersAreGranted(rs, f);
    HoldersAreGranted(all, f);
    assert f in After(rs) ==> Exclusive(After(rs)[f], Grants(rs, f));
    assert Exclusive(After(all)[f], Grants(all, f));
  }

  /** The number of write locks given on entry f, but for the one it may have been made with. */
  function WriteGrants(rs: seq<Request>, f: nat): nat {
    if |rs| == 0 then 0
    else
      var r := rs[|rs| - 1];
      WriteGrants(rs[..|rs| - 1], f)
      + if Fold(r.space, r.page) == f && r.kind == Write && Handle(After(rs[..|rs| - 1]), r).code == 1 then 1 else 0
  }

  /** On every run the version is the number of write locks given since the entry was made. */
  lemma {:induction false} VersionCounts(rs: seq<Request>, f: nat)
    ensures f in After(rs) ==> After(rs)[f].version == WriteGrants(rs, f)
    ensures f !in After(rs) ==> WriteGrants(rs, f) == 0
  {
    if |rs| > 0 {
      VersionCounts(rs[..|rs| - 1], f);
    }
  }

  // ---------- which pages share an entry ----------

  /** No two of the pages up to number 2^20 of the spaces up to s share an entry. */
  ghost predicate NoSharing(s: nat) {
    forall space, page, space', page' {:trigger Fold(space, page), Fold(space', page')} ::
      0 <= space <= s && 0 <= space' <= s && 0 <= page <= 0x10_0000 && 0 <= page' <= 0x10_0000 ==>
        Fold(space, page) == Fold(space', page') ==> space == space' && page == page'
  }

  /** That is so for up to 4094 spaces, and no more. */
  lemma NoSharingIff(s: nat)
    ensures NoSharing(s) <==> s <= 4094
  {
    if s > 4094 {
      assert Fold(4095, 0x10_0000) == Fold(0, 4095);
    } else {
      forall space, page, space', page' |
        0 <= space <= s && 0 <= space' <= s && 0 <= page <= 0x10_0000 && 0 <= page' <= 0x10_0000 &&
        Fold(space, page) == Fold(space', page')
        ensures space == space' && page == page'
      {
        FoldSmall(space, page);
        FoldSmall(space', page');
      }
    }
  }

  lemma FoldSmall(space: nat, page: nat)
    requires space <= 4094 && page <= 0x10_0000
    ensures Fold(space, page) == space * 0x10_0001 + page
  {
    FoldIs(space, page);
  }

  /** Pages with numbers beyond that share entries with the next space. */
  lemma SharingBeyond(space: nat, page: nat)
    ensures Fold(space, page + 0x10_0001) == Fold(space + 1, page)
  {
    FoldIs(space, page + 0x10_0001);
    FoldIs(space + 1, page);
  }

  lemma FoldIs(space: nat, page: nat)
    ensures Fold(space, page) == (space * 0x10_0001 + page) % TWO_32
  {
    var x := space * 0x10_0000;
    var q, r := x / TWO_32, x % TWO_32;
    assert space * 0x10_0001 + page == TWO_32 * q + (r + space + page);
  }
}
