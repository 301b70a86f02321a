/** Rate limit groups of bufferevents. A group's lock nests inside those of its members, so a thread that
    has the group's lock may only try the members' ones. One direction is shown; the other is the same. */
module BevGroups {
  import opened TokenBuckets

  // ---------- one sweep over the members ----------

  /** Where the walks of FOREACH_RANDOM_ORDER go: from member number which to the end, then from the
      first member up to that one. Each member is met once. */
  method RandomOrder<T(==)>(members: seq<T>, which: nat) returns (order: seq<T>)
    requires which < |members| || |members| == 0
    requires forall i, j :: 0 <= i < j < |members| ==> members[i] != members[j]
    ensures multiset(order) == multiset(members)
    ensures |members| > 0 ==> order == members[which..] + members[..which]
  {
    order := [];
    if |members| == 0 {
      return;
    }
    var first, i := members[which], which;
    while i < |members|
      invariant which <= i <= |members| && order == members[which..i]
    {
      order := order + [members[i]];
      i := i + 1;
    }
    i := 0;
    while i < |members| && members[i] != first
      invariant i <= which && order == members[which..] + members[..i]
    {
      order := order + [members[i]];
      i := i + 1;
    }
    TurnedIsSame(members, which);
  }

  lemma TurnedIsSame<T>(s: seq<T>, k: nat)
    requires k <= |s|
    ensures multiset(s[k..] + s[..k]) == multiset(s)
  {
    assert s == s[..k] + s[k..];
  }

  // ---------- all interleavings ----------

  type Member = nat

  datatype Own = Nobody | Owning(m: Member)

  /** What the thread that has a member's lock is about: nothing in particular; it has put the member into
      the group, given the group's lock back, and will suspend it if rsuspend; or it has taken it out of the
      group, given the group's lock back, and will unsuspend it. */
  datatype Phase = Plain | Joined(rsuspend: bool) | Left

  /** What the thread that has the group's lock is about. It goes over the members, of which those of todo
      are still to come; own is the member whose lock it had before. cleared are the members it has unsuspended. */
  datatype Sweep =
    | Off
    | Suspending(own: Own, todo: seq<Member>)
    | Unsuspending(own: Own, todo: seq<Member>, again: bool, cleared: set<Member>)

  /** The group's bucket, its configuration, and min_share. */
  datatype Bucket = Bucket(limit: Limit, last: Tick, rate: int, maximum: int, minShare: int)

  type RatedBucket = b: Bucket | RateOk(b.rate, b.maximum) witness Bucket(1, 0, 1, 1, 1)

  /** flagged are the bufferevents with BEV_SUSPEND_BW_GROUP; locked are those whose locks are taken. */
  datatype State = State(bucket: RatedBucket, suspended: bool, pending: bool, members: seq<Member>,
    flagged: set<Member>,
                         locked: map<Member, Phase>, sweep: Sweep)

  ghost predicate Init(s: State) {
    !s.suspended && !s.pending && s.members == [] && s.flagged == {} && s.sweep == Off && s.locked == map[]
  }

  /** The thread of the sweep is busy with it. */
  predicate Busy(s: State, m: Member) {
    !s.sweep.Off? && s.sweep.own == Owning(m)
  }

  ghost predicate Lock(s: State, r: State, m: Member) {
    m !in s.locked && r == s.(locked := s.locked[m := Plain])
  }

  ghost predicate Unlock(s: State, r: State, m: Member) {
    m in s.locked && s.locked[m] == Plain && !Busy(s, m) && r == s.(locked := s.locked - {m})
  }

  /** bufferevent_add_to_rate_limit_group, up to where the group's lock is given back, and the rest. */
  ghost predicate Join(s: State, r: State, m: Member) {
    && m in s.locked && s.locked[m] == Plain && m !in s.members && s.sweep == Off
    && r == s.(members := [m] + s.members, locked := s.locked[m := Joined(s.suspended)])
  }

  ghost predicate JoinEnd(s: State, r: State, m: Member) {
    && m in s.locked && s.locked[m].Joined?
    && r == s.(flagged := if s.locked[m].rsuspend then s.flagged + {m} else s.flagged, locked := s.locked[m := Plain])
  }

  /** bufferevent_remove_from_rate_limit_group, likewise. */
  ghost predicate Leave(s: State, r: State, m: Member, i: nat) {
    && m in s.locked && s.locked[m] == Plain && s.sweep == Off && i < |s.members| && s.members[i] == m
    && r == s.(members := s.members[..i] + s.members[i + 1..], locked := s.locked[m := Left])
  }

  ghost predicate LeaveEnd(s: State, r: State, m: Member) {
    m in s.locked && s.locked[m] == Left && r == s.(flagged := s.flagged - {m}, locked := s.locked[m := Plain])
  }

  /** bufferevent_get_rlim_max_ for a member of a group that is suspended. */
  ghost predicate Query(s: State, r: State, m: Member) {
    && m in s.locked && s.locked[m] == Plain && m in s.members && s.sweep == Off && s.suspended
    && r == s.(flagged := s.flagged + {m})
  }

  /** Who can start a sweep: a thread with the lock of a member, or one without. */
  ghost predicate CanOwn(s: State, own: Own) {
    own.Owning? ==> own.m in s.locked && s.locked[own.m] == Plain && own.m in s.members
  }

  /** The start of bev_group_suspend_reading_. */
  ghost predicate BeginSuspend(s: State, r: State, own: Own) {
    r == s.(suspended := true, pending := false, sweep := Suspending(own, s.members))
  }

  /** The order of FOREACH_RANDOM_ORDER; which does not matter if there are no members. */
  function Order(members: seq<Member>, which: nat): (r: seq<Member>)
    requires which < |members| || |members| == 0
    ensures forall m :: m in members <==> m in r
  {
    if |members| == 0 then []
    else
      assert members == members[..which] + members[which..];
      members[which..] + members[..which]
  }

  /** The start of bev_group_unsuspend_reading_ */
  ghost predicate BeginUnsuspend(s: State, r: State, own: Own, which: nat) {
    && (which < |s.members| || |s.members| == 0)
    && r == s.(suspended := false, sweep := Unsuspending(own, Order(s.members, which), false, {}))
  }

  /** The group part of bufferevent_decrement_read_buckets_ */
  ghost predicate Charge(s: State, r: State, m: Member, bytes: int, which: nat) {
    && s.sweep == Off && CanOwn(s, Owning(m)) && SSIZE_MIN <= s.bucket.limit - bytes <= SSIZE_MAX
    && var t := s.(bucket := s.bucket.(limit := s.bucket.limit - bytes));
    if t.bucket.limit <= 0 then BeginSuspend(t, r, Owning(m))
    else if s.suspended then BeginUnsuspend(t, r, Owning(m), which)
    else r == t
  }

  /** bufferevent_rate_limit_group_decrement_read */
  ghost predicate Adjust(s: State, r: State, own: Own, decr: int, which: nat) {
    && s.sweep == Off && CanOwn(s, own) && SSIZE_MIN <= s.bucket.limit - decr <= SSIZE_MAX
    && var t := s.(bucket := s.bucket.(limit := s.bucket.limit - decr));
    if s.bucket.limit > 0 && t.bucket.limit <= 0 then BeginSuspend(t, r, own)
    else if s.bucket.limit <= 0 && t.bucket.limit > 0 then BeginUnsuspend(t, r, own, which)
    else r == t
  }

  /** The group's bucket after an update. */
  function UpToDate(b: RatedBucket, now: Tick): RatedBucket {
    b.(limit := Updated(b.limit, b.rate, b.maximum, b.last, now), last := if Passed(b.last, now) then now else b.last)
  }

  /** bev_group_refill_callback_ */
  ghost predicate Refill(s: State, r: State, now: Tick, which: nat) {
    && s.sweep == Off
    && var t := s.(bucket := UpToDate(s.bucket, now));
    if s.pending || (s.suspended && t.bucket.limit >= t.bucket.minShare) then BeginUnsuspend(t, r, Nobody, which)
    else r == t
  }

  /** bufferevent_rate_limit_group_set_cfg and bufferevent_rate_limit_group_set_min_share */
  ghost predicate Configure(s: State, r: State, rate: int, maximum: int) {
    && s.sweep == Off && RateOk(rate, maximum)
    && exists share: int :: 0 <= share <= rate &&
         r == s.(bucket := Bucket(Min(s.bucket.limit, maximum), s.bucket.last, rate, maximum, share))
  }

  ghost predicate SetMinShare(s: State, r: State, share: int) {
    0 <= share <= s.bucket.rate && r == s.(bucket := s.bucket.(minShare := share))
  }

  /** The lock of m can be taken by the thread of the sweep: it is free, or its own. */
  predicate CanLock(s: State, m: Member) {
    m !in s.locked || Busy(s, m)
  }

  /** One round of a sweep; trying the lock may fail even if it is free. */
  ghost predicate Visit(s: State, r: State, got: bool) {
    && !s.sweep.Off? && |s.sweep.todo| > 0
    && var m, rest := s.sweep.todo[0], s.sweep.todo[1..];
    && (got ==> CanLock(s, m))
    && if s.sweep.Suspending? then
         r == s.(flagged := if got then s.flagged + {m} else s.flagged, sweep := Suspending(s.sweep.own, rest))
       else if got then
         r == s.(flagged := s.flagged - {m},
                sweep := Unsuspending(s.sweep.own, rest, s.sweep.again, s.sweep.cleared + {m}))
       else
         r == s.(sweep := Unsuspending(s.sweep.own, rest, true, s.sweep.cleared))
  }

  /** The end of a sweep: the group's lock is given back. */
  ghost predicate EndSweep(s: State, r: State) {
    && !s.sweep.Off? && |s.sweep.todo| == 0
    && r == s.(pending := if s.sweep.Unsuspending? then s.sweep.again else s.pending, sweep := Off)
  }

  ghost predicate Next(s: State, r: State) {
    || (exists m: Member :: Lock(s, r, m))
    || (exists m: Member :: Unlock(s, r, m))
    || (exists m: Member :: Join(s, r, m))
    || (exists m: Member :: JoinEnd(s, r, m))
    || (exists m: Member, i: nat :: Leave(s, r, m, i))
    || (exists m: Member :: LeaveEnd(s, r, m))
    || (exists m: Member :: Query(s, r, m))
    || (exists m: Member, bytes: int, which: nat :: Charge(s, r, m, bytes, which))
    || (exists own: Own, decr: int, which: nat :: Adjust(s, r, own, decr, which))
    || (exists now: Tick, which: nat :: Refill(s, r, now, which))
    || (exists rate: int, maximum: int :: Configure(s, r, rate, maximum))
    || (exists share: int :: SetMinShare(s, r, share))
    || (exists got: bool :: Visit(s, r, got))
    || EndSweep(s, r)
  }

  /** A run, from an empty group on. */
  ghost predicate IsRun(run: seq<State>) {
    && |run| > 0 && Init(run[0])
    && forall i {:trigger Next(run[i], run[i + 1])} :: 0 <= i < |run| - 1 ==> Next(run[i], run[i + 1])
  }

  // ---------- what every step keeps ----------

  /** The bufferevent is suspended for the group, or will be by the thread that put it there. */
  ghost predicate Marked(s: State, m: Member) {
    m in s.flagged || (m in s.locked && s.locked[m] == Joined(true))
  }

  /** Something will unsuspend the member. */
  ghost predicate Covered(s: State, m: Member) {
    if s.sweep.Unsuspending? then m in s.sweep.todo || s.sweep.again else s.suspended || s.pending
  }

  ghost predicate Inv(s: State) {
    && (forall i, j :: 0 <= i < j < |s.members| ==> s.members[i] != s.members[j])
    && (forall m {:trigger m in s.locked} :: m in s.locked ==>
          (s.locked[m].Joined? ==> m in s.members) && (s.locked[m].Left? ==> m !in s.members))
    && (forall m {:trigger m in s.flagged} :: m in s.flagged ==> m in s.members || (m in s.locked && s.locked[m].Left?))
    && (forall m {:trigger Marked(s, m)} :: m in s.members && Marked(s, m) ==> Covered(s, m))
    && (!s.sweep.Off? ==> (s.sweep.own.Owning? ==> s.sweep.own.m in s.locked && s.locked[s.sweep.own.m] == Plain))
    && (!s.sweep.Off? ==> forall i {:trigger s.sweep.todo[i]} :: 0 <= i < |s.sweep.todo| ==>
       s.sweep.todo[i] in s.members)
    && (s.sweep.Suspending? ==> s.suspended && !s.pending)
    && (s.sweep.Off? && s.pending ==> !s.suspended)
    && (s.sweep.Unsuspending? ==>
        !s.suspended && forall m {:trigger m in s.sweep.cleared} :: m in s.sweep.cleared ==> !Marked(s, m))
  }

  lemma InvJoin(s: State, r: State, m: Member)
    requires Inv(s) && Join(s, r, m)
    ensures Inv(r)
  {
    assert m !in s.flagged;
    forall x | x in r.members && Marked(r, x) ensures Covered(r, x) {
      assert x != m ==> Marked(s, x);
    }
  }

  lemma InvLeave(s: State, r: State, m: Member, i: nat)
    requires Inv(s) && Leave(s, r, m, i)
    ensures Inv(r)
  {
    forall x | x in s.members && x != m ensures x in r.members {
      var j :| 0 <= j < |s.members| && s.members[j] == x;
      assert r.members[if j < i then j else j - 1] == x;
    }
    assert m !in r.members;
    forall x | x in r.members && Marked(r, x) ensures Covered(r, x) { assert x in s.members && Marked(s, x); }
  }

  lemma InvLocks(s: State, r: State, m: Member)
    requires Inv(s) && (Lock(s, r, m) || Unlock(s, r, m) || JoinEnd(s, r, m) || LeaveEnd(s, r, m) || Query(s, r, m))
    ensures Inv(r)
  {
    forall x | x in r.members && Marked(r, x) ensures Covered(r, x) {
      assert Marked(s, x) || (x == m && Query(s, r, m));
    }
    forall x | r.sweep.Unsuspending? && x in r.sweep.cleared ensures !Marked(r, x) { assert !Marked(s, x); }
  }

  /** What the limit is does not matter. */
  lemma InvBucket(s: State, r: State, b: RatedBucket)
    requires Inv(s) && r == s.(bucket := b)
    ensures Inv(r)
  {
    forall x | x in r.members && Marked(r, x) ensures Covered(r, x) { assert Marked(s, x); }
    forall x | r.sweep.Unsuspending? && x in r.sweep.cleared ensures !Marked(r, x) { assert !Marked(s, x); }
  }

  lemma InvBegin(s: State, r: State, own: Own, which: nat)
    requires Inv(s) && s.sweep == Off && CanOwn(s, own)
    requires BeginSuspend(s, r, own) || BeginUnsuspend(s, r, own, which)
    ensures Inv(r)
  {
    forall x | x in r.members && Marked(r, x) ensures Covered(r, x) { assert Marked(s, x); }
  }

  lemma InvCharge(s: State, r: State, m: Member, bytes: int, which: nat)
    requires Inv(s) && Charge(s, r, m, bytes, which)
    ensures Inv(r)
  {
    var t := s.(bucket := s.bucket.(limit := s.bucket.limit - bytes));
    InvBucket(s, t, t.bucket);
    if r != t { InvBegin(t, r, Owning(m), which); }
  }

  lemma InvAdjust(s: State, r: State, own: Own, decr: int, which: nat)
    requires Inv(s) && Adjust(s, r, own, decr, which)
    ensures Inv(r)
  {
    var t := s.(bucket := s.bucket.(limit := s.bucket.limit - decr));
    InvBucket(s, t, t.bucket);
    if r != t { InvBegin(t, r, own, which); }
  }

  lemma InvRefill(s: State, r: State, now: Tick, which: nat)
    requires Inv(s) && Refill(s, r, now, which)
    ensures Inv(r)
  {
    var t := s.(bucket := UpToDate(s.bucket, now));
    InvBucket(s, t, t.bucket);
    if r != t { InvBegin(t, r, Nobody, which); }
  }

  lemma InvVisit(s: State, r: State, got: bool)
    requires Inv(s) && Visit(s, r, got)
    ensures Inv(r)
  {
    var m := s.sweep.todo[0];
    forall x | x in r.members && Marked(r, x) ensures Covered(r, x) {
      assert s.sweep.Unsuspending? ==> Marked(s, x);
      assert x in s.sweep.todo ==> x == m || x in s.sweep.todo[1..];
    }
    forall x | r.sweep.Unsuspending? && x in r.sweep.cleared ensures !Marked(r, x) {
      assert x in s.sweep.cleared ==> !Marked(s, x);
    }
  }

  lemma InvEnd(s: State, r: State)
    requires Inv(s) && EndSweep(s, r)
    ensures Inv(r)
  {
    forall x | x in r.members && Marked(r, x) ensures Covered(r, x) { assert Marked(s, x); }
  }

  lemma InvNext(s: State, r: State)
    requires Inv(s) && Next(s, r)
    ensures Inv(r)
  {
    if
    case exists m: Member :: Lock(s, r, m) => var m: Member :| Lock(s, r, m); InvLocks(s, r, m);
    case exists m: Member :: Unlock(s, r, m) => var m: Member :| Unlock(s, r, m); InvLocks(s, r, m);
    case exists m: Member :: JoinEnd(s, r, m) => var m: Member :| JoinEnd(s, r, m); InvLocks(s, r, m);
    case exists m: Member :: LeaveEnd(s, r, m) => var m: Member :| LeaveEnd(s, r, m); InvLocks(s, r, m);
    case exists m: Member :: Query(s, r, m) => var m: Member :| Query(s, r, m); InvLocks(s, r, m);
    case exists m: Member :: Join(s, r, m) => var m: Member :| Join(s, r, m); InvJoin(s, r, m);
    case exists m: Member, i: nat :: Leave(s, r, m, i) =>
      var m: Member, i: nat :| Leave(s, r, m, i);
      InvLeave(s, r, m, i);
    case exists m: Member, bytes: int, which: nat :: Charge(s, r, m, bytes, which) =>
      var m: Member, bytes: int, which: nat :| Charge(s, r, m, bytes, which);
      InvCharge(s, r, m, bytes, which);
    case exists own: Own, decr: int, which: nat :: Adjust(s, r, own, decr, which) =>
      var own: Own, decr: int, which: nat :| Adjust(s, r, own, decr, which);
      InvAdjust(s, r, own, decr, which);
    case exists now: Tick, which: nat :: Refill(s, r, now, which) =>
      var now: Tick, which: nat :| Refill(s, r, now, which);
      InvRefill(s, r, now, which);
    case exists rate: int, maximum: int :: Configure(s, r, rate, maximum) => InvBucket(s, r, r.bucket);
    case exists share: int :: SetMinShare(s, r, share) => InvBucket(s, r, r.bucket);
    case exists got: bool :: Visit(s, r, got) => var got: bool :| Visit(s, r, got); InvVisit(s, r, got);
    case EndSweep(s, r) => InvEnd(s, r);
  }

  lemma {:induction false} InvOnRuns(run: seq<State>, i: nat)
    requires IsRun(run) && i < |run|
    ensures Inv(run[i])
  {
    if i > 0 {
      var k := i - 1;
      InvOnRuns(run, k);
      assert Next(run[k], run[k + 1]);
      InvNext(run[k], run[k + 1]);
    }
  }

  /** In every interleaving: whenever nobody has the group's lock, a member that is suspended for the
      group is in a group that is suspended or has its pending bit set. */
  lemma NoLostMember(run: seq<State>, i: nat, m: Member)
    requires IsRun(run) && i < |run| && run[i].sweep == Off && m in run[i].members && m in run[i].flagged
    ensures run[i].suspended || run[i].pending
  {
    InvOnRuns(run, i);
    assert Marked(run[i], m);
  }

  /** A member whose lock the sweep of an unsuspension got is not suspended for the group when the sweep
      has ended; and if there is one whose lock it did not get, it will be tried again. */
  lemma UnsuspensionEnds(run: seq<State>, i: nat, m: Member)
    requires IsRun(run) && i + 1 < |run| && run[i].sweep.Unsuspending? && EndSweep(run[i], run[i + 1])
    ensures m in run[i].sweep.cleared ==> m !in run[i + 1].flagged
    ensures m in run[i + 1].members && m in run[i + 1].flagged ==> run[i + 1].pending
  {
    InvOnRuns(run, i);
    assert m in run[i].sweep.cleared ==> !Marked(run[i], m);
    assert Marked(run[i], m) <==> Marked(run[i + 1], m);
  }

  /** Each member is met by the sweep: it is still to come, was unsuspended, or could not be. */
  ghost predicate Met(s: State) {
    s.sweep.Unsuspending? ==>
      forall m {:trigger m in s.members} :: m in s.members ==>
          m in s.sweep.todo || m in s.sweep.cleared || s.sweep.again
  }

  /** One step, from the start of an unsuspension to its end: somebody's lock, or the next member. */
  lemma StepOfSweep(s: State, r: State)
    requires Next(s, r) && s.sweep.Unsuspending? && r.sweep.Unsuspending?
    ensures r.members == s.members && (r.sweep == s.sweep || exists got: bool :: Visit(s, r, got))
  {
  }

  /** An unsuspension begins with all members to come. */
  lemma StartOfSweep(s: State, r: State)
    requires Next(s, r) && !s.sweep.Unsuspending? && r.sweep.Unsuspending?
    ensures r.members == s.members && forall m :: m in r.members ==> m in r.sweep.todo
  {
    if m: Member, bytes: int, which: nat :| Charge(s, r, m, bytes, which) {
    } else if own: Own, decr: int, which: nat :| Adjust(s, r, own, decr, which) {
    } else {
      assert exists now: Tick, which: nat :: Refill(s, r, now, which);
    }
  }

  lemma MetNext(s: State, r: State)
    requires Met(s) && Next(s, r)
    ensures Met(r)
  {
    if r.sweep.Unsuspending? {
      if s.sweep.Unsuspending? {
        StepOfSweep(s, r);
        if r.sweep != s.sweep {
          var m := s.sweep.todo[0];
          assert forall x :: x in s.sweep.todo ==> x == m || x in s.sweep.todo[1..];
        }
      } else {
        StartOfSweep(s, r);
      }
    }
  }

  lemma {:induction false} MetOnRuns(run: seq<State>, i: nat)
    requires IsRun(run) && i < |run|
    ensures Met(run[i])
  {
    if i > 0 {
      var k := i - 1;
      MetOnRuns(run, k);
      assert Next(run[k], run[k + 1]);
      MetNext(run[k], run[k + 1]);
    }
  }

  /** If every lock could be got, an unsuspension leaves no member suspended for the group, and nothing pending. */
  lemma UnsuspensionClearsAll(run: seq<State>, i: nat, m: Member)
    requires IsRun(run) && i + 1 < |run| && run[i].sweep.Unsuspending? && EndSweep(run[i], run[i + 1])
    requires !run[i].sweep.again && m in run[i].members
    ensures !run[i + 1].pending && m !in run[i + 1].flagged
  {
    MetOnRuns(run, i);
    UnsuspensionEnds(run, i, m);
  }

  // ---------- the refill ----------

  /** A refill begins an unsuspension if somebody is suspended for the group, and the group is not suspended, or
      its limit has come back to the least share. */
  lemma RefillStarts(run: seq<State>, i: nat, now: Tick, which: nat, m: Member)
    requires IsRun(run) && i + 1 < |run| && Refill(run[i], run[i + 1], now, which)
    requires m in run[i].members && m in run[i].flagged
    requires !run[i].suspended || run[i + 1].bucket.limit >= run[i + 1].bucket.minShare
    ensures run[i + 1].sweep.Unsuspending? && m in run[i + 1].sweep.todo
  {
    NoLostMember(run, i, m);
  }

  /** The same unsuspension goes on from state a to state b. */
  ghost predicate Sweeping(run: seq<State>, a: nat, b: nat)
    requires b < |run|
  {
    forall k {:trigger run[k]} :: a <= k <= b ==> run[k].sweep.Unsuspending?
  }

  /** In state k the sweep comes to member m and tries its lock. */
  ghost predicate VisitOf(run: seq<State>, k: nat, m: Member, got: bool)
    requires k + 1 < |run|
  {
    Visit(run[k], run[k + 1], got) && run[k].sweep.todo[0] == m
  }

  /** A member that was still to come and is no longer has been visited; what came of it is remembered. */
  lemma {:induction false} Visited(run: seq<State>, a: nat, b: nat, m: Member) returns (k: nat, got: bool)
    requires IsRun(run) && a <= b < |run| && Sweeping(run, a, b)
    requires m in run[a].sweep.todo && m !in run[b].sweep.todo
    ensures a <= k < b && VisitOf(run, k, m, got)
    ensures if got then m in run[b].sweep.cleared else run[b].sweep.again
  {
    var c := b - 1;
    assert Next(run[c], run[c + 1]) && run[c].sweep.Unsuspending?;
    StepOfSweep(run[c], run[b]);
    if m in run[c].sweep.todo {
      assert run[b].sweep != run[c].sweep;
      k := c;
      got :| Visit(run[c], run[b], got);
      assert run[c].sweep.todo == [run[c].sweep.todo[0]] + run[c].sweep.todo[1..];
    } else {
      k, got := Visited(run, a, c, m);
    }
  }

  /** Whoever is suspended for a group that has recovered, or is not suspended, is visited once the refill has
      begun its sweep. If its lock was got, it is no longer suspended for the group when the sweep has ended;
      if not, the next refill will try again. */
  lemma RefillReaches(run: seq<State>, i: nat, j: nat, now: Tick, which: nat, m: Member) returns (k: nat, got: bool)
    requires IsRun(run) && i < j && j + 1 < |run| && Refill(run[i], run[i + 1], now, which)
    requires m in run[i].members && m in run[i].flagged
    requires !run[i].suspended || run[i + 1].bucket.limit >= run[i + 1].bucket.minShare
    requires Sweeping(run, i + 1, j) && EndSweep(run[j], run[j + 1])
    ensures i < k < j && VisitOf(run, k, m, got)
    ensures if got then m !in run[j + 1].flagged else run[j + 1].pending
  {
    RefillStarts(run, i, now, which, m);
    k, got := Visited(run, i + 1, j, m);
    UnsuspensionEnds(run, j, m);
  }

  // ---------- charges ----------

  /** A charge that uses the limit up begins a suspension with all members to come; one that does not ends one. */
  lemma ChargeStarts(s: State, r: State, m: Member, bytes: int, which: nat)
    requires Charge(s, r, m, bytes, which)
    ensures r.bucket == s.bucket.(limit := s.bucket.limit - bytes) && r.members == s.members
    ensures r.sweep.Suspending? <==> s.bucket.limit <= bytes
    ensures r.sweep.Unsuspending? <==> s.bucket.limit > bytes && s.suspended
    ensures r.sweep.Suspending? ==> r.sweep.todo == s.members && r.suspended && !r.pending
    ensures r.sweep.Unsuspending? ==>
              !r.suspended && r.pending == s.pending && forall x :: x in s.members ==> x in r.sweep.todo
  {
  }

  /** An adjustment by the user does so when the limit goes through zero. */
  lemma AdjustStarts(s: State, r: State, own: Own, decr: int, which: nat)
    requires Adjust(s, r, own, decr, which)
    ensures r.bucket == s.bucket.(limit := s.bucket.limit - decr) && r.members == s.members
    ensures r.sweep.Suspending? <==> r.bucket.limit <= 0 < s.bucket.limit
    ensures r.sweep.Unsuspending? <==> s.bucket.limit <= 0 < r.bucket.limit
    ensures r.sweep.Suspending? ==> r.sweep.todo == s.members && r.suspended && !r.pending
  {
  }

  /** The same suspension goes on from state a to state b. */
  ghost predicate Holding(run: seq<State>, a: nat, b: nat)
    requires b < |run|
  {
    forall k {:trigger run[k]} :: a <= k <= b ==> run[k].sweep.Suspending?
  }

  lemma StepOfHold(s: State, r: State)
    requires Inv(s) && Next(s, r) && s.sweep.Suspending? && r.sweep.Suspending?
    ensures r.members == s.members && (r.sweep == s.sweep || exists got: bool :: Visit(s, r, got))
    ensures forall x {:trigger x in s.members} :: x in s.members && x in s.flagged ==> x in r.flagged
  {
  }

  /** A member that was still to come and is no longer has been visited; if its lock was got it is suspended. */
  lemma {:induction false} Held(run: seq<State>, a: nat, b: nat, m: Member) returns (k: nat, got: bool)
    requires IsRun(run) && a <= b < |run| && Holding(run, a, b)
    requires m in run[a].members && m in run[a].sweep.todo && m !in run[b].sweep.todo
    ensures a <= k < b && VisitOf(run, k, m, got) && m in run[b].members
    ensures got ==> m in run[b].flagged
  {
    var c := b - 1;
    assert Next(run[c], run[c + 1]) && run[c].sweep.Suspending?;
    InvOnRuns(run, c);
    StepOfHold(run[c], run[b]);
    if m in run[c].sweep.todo {
      assert run[b].sweep != run[c].sweep;
      k := c;
      got :| Visit(run[c], run[b], got);
      assert run[c].sweep.todo == [run[c].sweep.todo[0]] + run[c].sweep.todo[1..];
      MembersHeld(run, a, c);
    } else {
      k, got := Held(run, a, c, m);
    }
  }

  lemma {:induction false} MembersHeld(run: seq<State>, a: nat, b: nat)
    requires IsRun(run) && a <= b < |run| && Holding(run, a, b)
    ensures run[b].members == run[a].members
  {
    if a < b {
      var c := b - 1;
      assert Next(run[c], run[c + 1]) && run[c].sweep.Suspending?;
      MembersHeld(run, a, c);
      InvOnRuns(run, c);
      StepOfHold(run[c], run[b]);
    }
  }

  /** In every interleaving: a charge that uses the limit up leaves the group suspended, and with it each member whose
      lock could be got. The others will find out when they are asked how much they may read. */
  lemma ChargeReaches(run: seq<State>, i: nat, j: nat, m: Member, bytes: int, which: nat, x: Member)
    returns (k: nat, got: bool)
    requires IsRun(run) && i < j && j + 1 < |run| && Charge(run[i], run[i + 1], m, bytes, which)
    requires run[i].bucket.limit <= bytes && x in run[i].members
    requires Holding(run, i + 1, j) && EndSweep(run[j], run[j + 1])
    ensures run[j + 1].suspended && !run[j + 1].pending
    ensures i < k < j && VisitOf(run, k, x, got) && (got ==> x in run[j + 1].flagged)
  {
    ChargeStarts(run[i], run[i + 1], m, bytes, which);
    k, got := Held(run, i + 1, j, x);
    InvOnRuns(run, j);
  }

  /** A refill begins an unsuspension just if one is pending, or the group is suspended and its limit has come back. */
  lemma RefillIff(s: State, r: State, now: Tick, which: nat)
    requires Refill(s, r, now, which)
    ensures r.bucket.limit == Updated(s.bucket.limit, s.bucket.rate, s.bucket.maximum, s.bucket.last, now)
    ensures r.bucket.last == if Passed(s.bucket.last, now) then now else s.bucket.last
    ensures r.sweep.Unsuspending? <==> s.pending || (s.suspended && r.bucket.limit >= s.bucket.minShare)
    ensures r.sweep.Off? <==> !s.pending && (s.suspended ==> r.bucket.limit < s.bucket.minShare)
    ensures r.sweep.Off? ==> r.suspended == s.suspended && r.pending == s.pending && r.flagged == s.flagged
  {
  }

  // ---------- members that come and go ----------

  /** The thread that has put m into the group, or taken it out, is not done with that from state a to state b. */
  ghost predicate Midway(run: seq<State>, a: nat, b: nat, m: Member) {
    b < |run| && forall i {:trigger run[i]} :: a <= i < b ==>
      !JoinEnd(run[i], run[i + 1], m) && !LeaveEnd(run[i], run[i + 1], m)
  }

  /** A step leaves m's thread, its flag and its place as they are. */
  ghost predicate Spares(s: State, r: State, m: Member) {
    && m in s.locked && m in r.locked && r.locked[m] == s.locked[m]
    && (m in r.flagged <==> m in s.flagged) && (m in r.members <==> m in s.members)
  }

  lemma LeaveSpares(s: State, r: State, x: Member, i: nat, m: Member)
    requires Leave(s, r, x, i) && m in s.locked && s.locked[m] != Plain
    ensures Spares(s, r, m)
  {
    assert s.members == s.members[..i] + [x] + s.members[i + 1..];
  }

  lemma VisitSpares(s: State, r: State, got: bool, m: Member)
    requires Visit(s, r, got) && Inv(s) && m in s.locked && s.locked[m] != Plain
    ensures Spares(s, r, m)
  {
  }

  lemma LocksSpare(s: State, r: State, x: Member, m: Member)
    requires m in s.locked && s.locked[m] != Plain && !JoinEnd(s, r, m) && !LeaveEnd(s, r, m)
    requires Lock(s, r, x) || Unlock(s, r, x) || JoinEnd(s, r, x) || LeaveEnd(s, r, x) || Query(s, r, x)
             || Join(s, r, x)
    ensures Spares(s, r, m)
  {
  }

  lemma SweepSpares(s: State, r: State, m: Member)
    requires s.sweep == Off && m in s.locked
    requires r == s.(bucket := r.bucket, suspended := r.suspended, pending := r.pending, sweep := r.sweep)
    ensures Spares(s, r, m)
  {
  }

  lemma StepOfPhase(s: State, r: State, m: Member)
    requires Next(s, r) && Inv(s) && m in s.locked && s.locked[m] != Plain
    requires !JoinEnd(s, r, m) && !LeaveEnd(s, r, m)
    ensures Spares(s, r, m)
  {
    if
    case exists x: Member :: Lock(s, r, x) => var x: Member :| Lock(s, r, x); LocksSpare(s, r, x, m);
    case exists x: Member :: Unlock(s, r, x) => var x: Member :| Unlock(s, r, x); LocksSpare(s, r, x, m);
    case exists x: Member :: JoinEnd(s, r, x) => var x: Member :| JoinEnd(s, r, x); LocksSpare(s, r, x, m);
    case exists x: Member :: LeaveEnd(s, r, x) => var x: Member :| LeaveEnd(s, r, x); LocksSpare(s, r, x, m);
    case exists x: Member :: Query(s, r, x) => var x: Member :| Query(s, r, x); LocksSpare(s, r, x, m);
    case exists x: Member :: Join(s, r, x) => var x: Member :| Join(s, r, x); LocksSpare(s, r, x, m);
    case exists x: Member, i: nat :: Leave(s, r, x, i) =>
      var x: Member, i: nat :| Leave(s, r, x, i);
      LeaveSpares(s, r, x, i, m);
    case exists x: Member, bytes: int, which: nat :: Charge(s, r, x, bytes, which) => SweepSpares(s, r, m);
    case exists own: Own, decr: int, which: nat :: Adjust(s, r, own, decr, which) => SweepSpares(s, r, m);
    case exists now: Tick, which: nat :: Refill(s, r, now, which) => SweepSpares(s, r, m);
    case exists rate: int, maximum: int :: Configure(s, r, rate, maximum) => SweepSpares(s, r, m);
    case exists share: int :: SetMinShare(s, r, share) =>
    case exists got: bool :: Visit(s, r, got) => var got: bool :| Visit(s, r, got); VisitSpares(s, r, got, m);
    case EndSweep(s, r) =>
  }

  lemma {:induction false} PhaseStays(run: seq<State>, a: nat, b: nat, m: Member)
    requires IsRun(run) && a <= b < |run| && Midway(run, a, b, m) && m in run[a].locked && run[a].locked[m] != Plain
    ensures m in run[b].locked && run[b].locked[m] == run[a].locked[m]
    ensures (m in run[b].flagged <==> m in run[a].flagged) && (m in run[b].members <==> m in run[a].members)
  {
    if a < b {
      PhaseStays(run, a, b - 1, m);
      InvOnRuns(run, b - 1);
      assert Next(run[b - 1], run[b - 1 + 1]);
      StepOfPhase(run[b - 1], run[b], m);
    }
  }

  /** Whoever is put into a group is suspended in the end if and only if the group was suspended at that time, whatever
      other threads do in between. */
  lemma JoinSettles(run: seq<State>, i: nat, j: nat, m: Member)
    requires IsRun(run) && i < j && j + 1 < |run| && Join(run[i], run[i + 1], m) && JoinEnd(run[j], run[j + 1], m)
    requires Midway(run, i + 1, j, m)
    ensures m in run[j + 1].members && (m in run[j + 1].flagged <==> run[i].suspended)
  {
    InvOnRuns(run, i);
    PhaseStays(run, i + 1, j, m);
  }

  /** Whoever is taken out of a group is not suspended for it in the end, and nobody puts him back meanwhile. */
  lemma LeaveSettles(run: seq<State>, i: nat, j: nat, m: Member, n: nat)
    requires IsRun(run) && i < j && j + 1 < |run| && Leave(run[i], run[i + 1], m, n) && LeaveEnd(run[j], run[j + 1], m)
    requires Midway(run, i + 1, j, m)
    ensures m !in run[j + 1].members && m !in run[j + 1].flagged
  {
    InvOnRuns(run, i + 1);
    assert m in run[i + 1].locked && run[i + 1].locked[m] == Left && m !in run[i + 1].members;
    PhaseStays(run, i + 1, j, m);
  }
}
