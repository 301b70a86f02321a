/** HASH_SRT: a bottom-up merge sort of the list of all items, in place. */
module UtHashSort {
  import opened ByteSeqs
  import opened UtHash
  import opened UtHashTable

  type Compare = (Key, Key) -> int

  /** cmp orders all keys; different keys may be equal in the order. */
  ghost predicate TotalPreorder(cmp: Compare) {
    && (forall a, b {:trigger cmp(a, b)} :: cmp(a, b) <= 0 || cmp(b, a) < 0)
    && (forall a, b {:trigger cmp(a, b)} :: cmp(a, b) < 0 ==> cmp(b, a) > 0)
    && (forall a, b, c {:trigger cmp(a, b), cmp(b, c)} :: cmp(a, b) <= 0 && cmp(b, c) <= 0 ==> cmp(a, c) <= 0)
  }

  /** x comes before y: by the order or, if that has them equal, by their places in the list to sort. */
  ghost predicate Before(cmp: Compare, pos: map<Item, nat>, x: Item, y: Item)
    reads x`key, y`key
  {
    && x in pos && y in pos
    && cmp(x.key, y.key) <= 0 && (cmp(y.key, x.key) <= 0 ==> pos[x] < pos[y])
  }

  lemma BeforeTransitive(cmp: Compare, pos: map<Item, nat>, x: Item, y: Item, z: Item)
    requires TotalPreorder(cmp) && Before(cmp, pos, x, y) && Before(cmp, pos, y, z)
    ensures Before(cmp, pos, x, z)
  {
    var a, b, c := x.key, y.key, z.key;
    assert cmp(a, b) <= 0 && cmp(b, c) <= 0;
    if cmp(c, a) <= 0 {
      assert cmp(c, a) <= 0 && cmp(a, b) <= 0;
      assert cmp(b, c) <= 0 && cmp(c, a) <= 0;
    }
  }

  ghost predicate Sorted(cmp: Compare, pos: map<Item, nat>, s: seq<Item>)
    reads s`key
  {
    forall i, j {:trigger Before(cmp, pos, s[i], s[j])} :: 0 <= i < j < |s| ==> Before(cmp, pos, s[i], s[j])
  }

  /** Each item of s comes before each of u. */
  ghost predicate AllBefore(cmp: Compare, pos: map<Item, nat>, s: seq<Item>, u: seq<Item>)
    reads s`key, u`key
  {
    forall i, j {:trigger Before(cmp, pos, s[i], u[j])} :: 0 <= i < |s| && 0 <= j < |u| ==> Before(cmp, pos, s[i], u[j])
  }

  /** All items of s come from the places lo to hi of the list to sort. */
  ghost predicate From(pos: map<Item, nat>, s: seq<Item>, lo: nat, hi: nat) {
    forall i {:trigger s[i]} :: 0 <= i < |s| ==> s[i] in pos && lo <= pos[s[i]] < hi
  }

  /** A run: sorted, and a rearrangement of what stood at its own places. */
  ghost predicate Run(cmp: Compare, pos: map<Item, nat>, s: seq<Item>, base: nat)
    reads s`key
  {
    Sorted(cmp, pos, s) && From(pos, s, base, base + |s|)
  }

  /** s, which starts at place base, consists of runs of w items, but for a shorter last one. */
  ghost predicate Runs(cmp: Compare, pos: map<Item, nat>, s: seq<Item>, base: nat, w: nat)
    requires w > 0
    reads s`key
    decreases |s|
  {
    if |s| <= w then Run(cmp, pos, s, base)
    else Run(cmp, pos, s[..w], base) && Runs(cmp, pos, s[w..], base + w, w)
  }

  /** k times w. */
  ghost function Times(k: nat, w: nat): nat {
    if k == 0 then 0 else Times(k - 1, w) + w
  }

  /** One more run after c full ones. */
  lemma {:induction false} RunsSnoc(cmp: Compare, pos: map<Item, nat>, s: seq<Item>, base: nat, w: nat, c: nat,
                                    run: seq<Item>)
    requires w > 0 && |s| == Times(c, w) && Runs(cmp, pos, s, base, w) && |run| <= w && Run(cmp, pos, run, base + |s|)
    ensures Runs(cmp, pos, s + run, base, w)
    decreases c
  {
    if c == 0 {
      assert s + run == run;
    } else {
      var rest := s[w..];
      RunsTail(cmp, pos, s, base, w);
      RunsSnoc(cmp, pos, rest, base + w, w, c - 1, run);
      assert (s + run)[..w] == s[..w] && (s + run)[w..] == rest + run;
      if |s + run| == w { assert s + run == s; }
    }
  }

  lemma RunsTail(cmp: Compare, pos: map<Item, nat>, s: seq<Item>, base: nat, w: nat)
    requires 0 < w <= |s| && Runs(cmp, pos, s, base, w)
    ensures Run(cmp, pos, s[..w], base) && Runs(cmp, pos, s[w..], base + w, w)
  {
    if |s| == w {
      assert s[..w] == s && s[w..] == [];
    }
  }

  /** The list to sort consists of runs of one item. */
  lemma {:induction false} RunsOfOne(cmp: Compare, pos: map<Item, nat>, s: seq<Item>, base: nat)
    requires forall i {:trigger s[i]} :: 0 <= i < |s| ==> s[i] in pos && pos[s[i]] == base + i
    ensures Runs(cmp, pos, s, base, 1)
    decreases |s|
  {
    if |s| > 1 {
      assert From(pos, s[..1], base, base + 1);
      RunsOfOne(cmp, pos, s[1..], base + 1);
    }
  }

  // ---------- the lists of a merge ----------

  ghost predicate DoneAt(s: seq<Item>, i: nat)
    requires i < |s|
    reads s`next, s`prev
  {
    s[i].prev == At(s, i - 1) && (i + 1 < |s| ==> s[i].next == s[i + 1])
  }

  /** The merged list; its last next is not set. */
  ghost predicate DoneLinked(s: seq<Item>)
    reads s`next, s`prev
  {
    forall i {:trigger DoneAt(s, i)} :: 0 <= i < |s| ==> DoneAt(s, i)
  }

  ghost predicate NextAt(s: seq<Item>, i: nat, end: Item?)
    requires i < |s|
    reads s`next
  {
    s[i].next == if i + 1 < |s| then s[i + 1] else end
  }

  /** A list that can be followed by next up to end. */
  ghost predicate NextLinked(s: seq<Item>, end: Item?)
    reads s`next
  {
    forall i {:trigger NextAt(s, i, end)} :: 0 <= i < |s| ==> NextAt(s, i, end)
  }

  ghost predicate Inside(s: seq<Item>, nodes: set<Item>) {
    forall i {:trigger s[i]} :: 0 <= i < |s| ==> s[i] in nodes
  }

  /** What is merged so far, what is left of the first run, and the list from the second run on; and the
      pointers to them. What is left of the first run leads to where the second one started. */
  ghost predicate Held(nodes: set<Item>, done: seq<Item>, ps: seq<Item>, rs: seq<Item>, end: Item?,
                       list: Item?, tail: Item?, p: Item?, q: Item?)
    reads done`next, done`prev, ps`next, rs`next
  {
    && Distinct(done + ps + rs) && Inside(done, nodes) && Inside(ps, nodes) && Inside(rs, nodes)
    && DoneLinked(done) && NextLinked(ps, end) && NextLinked(rs, null)
    && list == At(done, 0) && tail == At(done, |done| - 1)
    && (|ps| > 0 ==> p == ps[0]) && q == At(rs, 0)
  }

  lemma DistinctParts(done: seq<Item>, e: Item, ps: seq<Item>, rs: seq<Item>)
    requires Distinct(done + [e] + ps + rs)
    ensures e !in done && e !in ps && e !in rs
    ensures forall i {:trigger ps[i]} :: 0 <= i < |ps| ==> ps[i] !in done
    ensures forall i {:trigger rs[i]} :: 0 <= i < |rs| ==> rs[i] !in done
    ensures Distinct(done)
  {
    var t, n := done + [e] + ps + rs, |done|;
    forall i | 0 <= i < n ensures t[i] == done[i] && Differ(t[i], t[n]) {}
    forall i | 0 <= i < |ps| ensures ps[i] !in done && ps[i] != e {
      assert t[n + 1 + i] == ps[i];
      forall j | 0 <= j < n ensures done[j] != ps[i] { assert Differ(t[j], t[n + 1 + i]); }
      assert Differ(t[n], t[n + 1 + i]);
    }
    forall i | 0 <= i < |rs| ensures rs[i] !in done && rs[i] != e {
      var k := n + 1 + |ps| + i;
      assert t[k] == rs[i];
      forall j | 0 <= j < n ensures done[j] != rs[i] { assert Differ(t[j], t[k]); }
      assert Differ(t[n], t[k]);
    }
    forall i, j | 0 <= i < j < n ensures Differ(done[i], done[j]) { assert Differ(t[i], t[j]); }
  }

  /** Moving the head of the second list to the end of the merged one is a rotation. */
  lemma Rotated(done: seq<Item>, ps: seq<Item>, rs: seq<Item>)
    requires Distinct(done + ps + rs) && |rs| > 0
    ensures Distinct(done + [rs[0]] + ps + rs[1..])
    ensures multiset(done + [rs[0]] + ps + rs[1..]) == multiset(done + ps + rs)
  {
    var t, u, n, m := done + ps + rs, done + [rs[0]] + ps + rs[1..], |done|, |done| + |ps|;
    forall i, j | 0 <= i < j < |u| ensures Differ(u[i], u[j]) {
      var a := if i < n || i > m then i else if i == n then m else i - 1;
      var b := if j < n || j > m then j else if j == n then m else j - 1;
      assert t[a] == u[i] && t[b] == u[j];
      assert if a < b then Differ(t[a], t[b]) else Differ(t[b], t[a]);
    }
    assert rs == [rs[0]] + rs[1..];
  }

  /** Append e to the merged list. */
  method Append(e: Item, list: Item?, tail: Item?, ghost nodes: set<Item>, ghost done: seq<Item>, ghost ps: seq<Item>,
                ghost rs: seq<Item>, ghost end: Item?)
    returns (first: Item, last: Item)
    requires Distinct(done + [e] + ps + rs) && Inside(done, nodes) && e in nodes
    requires DoneLinked(done) && NextLinked(ps, end) && NextLinked(rs, null)
    requires list == At(done, 0) && tail == At(done, |done| - 1)
    modifies nodes`next, nodes`prev
    ensures first == (done + [e])[0] && last == e
    ensures DoneLinked(done + [e]) && NextLinked(ps, end) && NextLinked(rs, null)
  {
    DistinctParts(done, e, ps, rs);
    first, last := AppendWrites(e, list, tail, nodes);
    ghost var t := done + [e];
    forall i | 0 <= i < |t| ensures DoneAt(t, i) {
      if i < |done| {
        assert old(DoneAt(done, i)) && done[i] != e;
        if i < |done| - 1 { Other(done, i, |done| - 1); }
      }
    }
    forall i | 0 <= i < |ps| ensures NextAt(ps, i, end) { assert old(NextAt(ps, i, end)) && ps[i] != tail; }
    forall i | 0 <= i < |rs| ensures NextAt(rs, i, null) { assert old(NextAt(rs, i, null)) && rs[i] != tail; }
  }

  method AppendWrites(e: Item, list: Item?, tail: Item?, ghost nodes: set<Item>) returns (first: Item?, last: Item)
    requires e in nodes && (tail != null ==> tail in nodes)
    modifies nodes`next, nodes`prev
    ensures first == (if tail != null then list else e) && last == e && e.prev == tail
    ensures tail != null ==> tail.next == e
    ensures forall x {:trigger x.next} :: x in nodes && x != tail ==> x.next == old(x.next)
    ensures forall x {:trigger x.prev} :: x in nodes && x != e ==> x.prev == old(x.prev)
  {
    first := list;
    if tail != null {
      tail.next := e;
    } else {
      first := e;
    }
    e.prev := tail;
    last := e;
  }

  lemma NextTail(s: seq<Item>, end: Item?)
    requires NextLinked(s, end) && |s| > 0
    ensures NextLinked(s[1..], end) && s[0].next == if |s| > 1 then s[1] else end
  {
    assert NextAt(s, 0, end);
    forall i | 0 <= i < |s| - 1 ensures NextAt(s[1..], i, end) { assert NextAt(s, i + 1, end); }
  }

  /** Take the head of the first run. */
  method TakeP(list: Item?, tail: Item?, p: Item, q: Item?, ghost nodes: set<Item>, ghost done: seq<Item>,
               ghost ps: seq<Item>,
               ghost rs: seq<Item>, ghost end: Item?)
    returns (first: Item, last: Item, next: Item?)
    requires Held(nodes, done, ps, rs, end, list, tail, p, q) && |ps| > 0
    modifies nodes`next, nodes`prev
    ensures Held(nodes, done + [p], ps[1..], rs, end, first, last, next, q)
    ensures multiset(done + [p] + ps[1..] + rs) == multiset(done + ps + rs)
  {
    NextTail(ps, end);
    next := p.next;
    assert done + ps + rs == done + [p] + ps[1..] + rs;
    first, last := Append(p, list, tail, nodes, done, ps[1..], rs, end);
  }

  /** Take the head of the second run. */
  method TakeQ(list: Item?, tail: Item?, p: Item?, q: Item, ghost nodes: set<Item>, ghost done: seq<Item>,
               ghost ps: seq<Item>,
               ghost rs: seq<Item>, ghost end: Item?)
    returns (first: Item, last: Item, next: Item?)
    requires Held(nodes, done, ps, rs, end, list, tail, p, q)
    modifies nodes`next, nodes`prev
    ensures |rs| > 0 && Held(nodes, done + [q], ps, rs[1..], end, first, last, p, next)
    ensures multiset(done + [q] + ps + rs[1..]) == multiset(done + ps + rs)
  {
    NextTail(rs, null);
    next := q.next;
    Rotated(done, ps, rs);
    first, last := Append(q, list, tail, nodes, done, ps, rs[1..], end);
  }

  // ---------- merging two runs ----------

  /** The places of ps are before those of qs. */
  ghost predicate Ahead(pos: map<Item, nat>, ps: seq<Item>, qs: seq<Item>, lo: nat, mid: nat, hi: nat) {
    From(pos, ps, lo, mid) && From(pos, qs, mid, hi)
  }

  /** run is what two runs gave so far, ps and qs what is left of them. */
  ghost predicate Merged(cmp: Compare, pos: map<Item, nat>, run: seq<Item>, ps: seq<Item>, qs: seq<Item>, lo: nat,
                         mid: nat, hi: nat)
    reads run`key, ps`key, qs`key
  {
    && Sorted(cmp, pos, run) && Sorted(cmp, pos, ps) && Sorted(cmp, pos, qs)
    && AllBefore(cmp, pos, run, ps) && AllBefore(cmp, pos, run, qs)
    && lo <= mid <= hi && From(pos, run, lo, hi) && Ahead(pos, ps, qs, lo, mid, hi)
  }

  /** x goes to the end of run, coming before all that is left. */
  lemma MergedSnoc(cmp: Compare, pos: map<Item, nat>, run: seq<Item>, x: Item, ps: seq<Item>, qs: seq<Item>, lo: nat,
                   mid: nat, hi: nat)
    requires Sorted(cmp, pos, run) && Sorted(cmp, pos, ps) && Sorted(cmp, pos, qs)
    requires AllBefore(cmp, pos, run, [x]) && AllBefore(cmp, pos, run, ps) && AllBefore(cmp, pos, run, qs)
    requires AllBefore(cmp, pos, [x], ps) && AllBefore(cmp, pos, [x], qs)
    requires lo <= mid <= hi && From(pos, run, lo, hi) && x in pos && lo <= pos[x] < hi
             && Ahead(pos, ps, qs, lo, mid, hi)
    ensures Merged(cmp, pos, run + [x], ps, qs, lo, mid, hi)
  {
    var t := run + [x];
    forall i, j | 0 <= i < j < |t| ensures Before(cmp, pos, t[i], t[j]) {
      assert j == |run| ==> Before(cmp, pos, run[i], [x][0]);
      assert j < |run| ==> Before(cmp, pos, run[i], run[j]);
    }
    forall i, j | 0 <= i < |t| && 0 <= j < |ps| ensures Before(cmp, pos, t[i], ps[j]) {
      assert if i < |run| then Before(cmp, pos, run[i], ps[j]) else Before(cmp, pos, [x][0], ps[j]);
    }
    forall i, j | 0 <= i < |t| && 0 <= j < |qs| ensures Before(cmp, pos, t[i], qs[j]) {
      assert if i < |run| then Before(cmp, pos, run[i], qs[j]) else Before(cmp, pos, [x][0], qs[j]);
    }
  }

  /** A sorted list less its head, and the head before the rest. */
  lemma SortedTail(cmp: Compare, pos: map<Item, nat>, s: seq<Item>, run: seq<Item>)
    requires |s| > 0 && Sorted(cmp, pos, s) && AllBefore(cmp, pos, run, s)
    ensures Sorted(cmp, pos, s[1..]) && AllBefore(cmp, pos, [s[0]], s[1..])
    ensures AllBefore(cmp, pos, run, s[1..]) && AllBefore(cmp, pos, run, [s[0]])
  {
    var t := s[1..];
    forall i, j | 0 <= i < j < |t| ensures Before(cmp, pos, t[i], t[j]) { assert Before(cmp, pos, s[i + 1], s[j + 1]); }
    forall j | 0 <= j < |t| ensures Before(cmp, pos, s[0], t[j]) { assert Before(cmp, pos, s[0], s[j + 1]); }
    forall i, j | 0 <= i < |run| && 0 <= j < |t| ensures Before(cmp, pos, run[i],
      t[j]) { assert Before(cmp, pos, run[i], s[j + 1]); }
    forall i | 0 <= i < |run| ensures Before(cmp, pos, run[i], s[0]) {}
  }

  lemma BeforeAll(cmp: Compare, pos: map<Item, nat>, x: Item, s: seq<Item>)
    requires TotalPreorder(cmp) && Sorted(cmp, pos, s) && (|s| > 0 ==> Before(cmp, pos, x, s[0]))
    ensures AllBefore(cmp, pos, [x], s)
  {
    forall j | 0 <= j < |s| ensures Before(cmp, pos, x, s[j]) {
      if j > 0 {
        assert Before(cmp, pos, s[0], s[j]);
        BeforeTransitive(cmp, pos, x, s[0], s[j]);
      }
    }
  }

  /** The head of the first run is taken if it is not greater than that of the second. */
  lemma MergedTakeP(cmp: Compare, pos: map<Item, nat>, run: seq<Item>, ps: seq<Item>, qs: seq<Item>, lo: nat,
                    mid: nat, hi: nat)
    requires TotalPreorder(cmp) && Merged(cmp, pos, run, ps, qs, lo, mid, hi) && |ps| > 0
    requires |qs| > 0 ==> cmp(ps[0].key, qs[0].key) <= 0
    ensures Merged(cmp, pos, run + [ps[0]], ps[1..], qs, lo, mid, hi)
  {
    SortedTail(cmp, pos, ps, run);
    BeforeAll(cmp, pos, ps[0], qs);
    MergedSnoc(cmp, pos, run, ps[0], ps[1..], qs, lo, mid, hi);
  }

  lemma MergedTakeQ(cmp: Compare, pos: map<Item, nat>, run: seq<Item>, ps: seq<Item>, qs: seq<Item>, lo: nat,
                    mid: nat, hi: nat)
    requires TotalPreorder(cmp) && Merged(cmp, pos, run, ps, qs, lo, mid, hi) && |qs| > 0
    requires |ps| > 0 ==> cmp(ps[0].key, qs[0].key) > 0
    ensures Merged(cmp, pos, run + [qs[0]], ps, qs[1..], lo, mid, hi)
  {
    SortedTail(cmp, pos, qs, run);
    if |ps| > 0 {
      assert cmp(ps[0].key, qs[0].key) > 0;
      assert cmp(ps[0].key, qs[0].key) <= 0 || cmp(qs[0].key, ps[0].key) < 0;
    }
    BeforeAll(cmp, pos, qs[0], ps);
    MergedSnoc(cmp, pos, run, qs[0], ps, qs[1..], lo, mid, hi);
  }

  /** What stays the same during a merge: the items, their places, where the second run starts, and the
      places from which the two runs come. */
  datatype Ghosts = Ghosts(nodes: set<Item>, pos: map<Item, nat>, end: Item?, lo: nat, mid: nat, hi: nat)

  ghost function Least(a: nat, b: nat): nat {
    if a < b then a else b
  }

  /** The part of the list that starts with the second run which belongs to that run. */
  ghost function Second(rs: seq<Item>, qsize: nat): seq<Item> {
    rs[..Least(qsize, |rs|)]
  }

  /** One item went to the end, from one of the two runs. */
  ghost predicate Stepped(out: seq<Item>, run: seq<Item>, ps: seq<Item>, rs: seq<Item>, qsize: nat,
                          out': seq<Item>, run': seq<Item>, ps': seq<Item>, rs': seq<Item>, qsize': nat) {
    && |out'| == |out| + 1 && out' == out + [out'[|out|]] && run' == run + [out'[|out|]]
    && multiset(out' + ps' + rs') == multiset(out + ps + rs)
    && |ps'| + |Second(rs', qsize')| + 1 == |ps| + |Second(rs, qsize)|
    && rs'[|Second(rs', qsize')|..] == rs[|Second(rs, qsize)|..]
  }

  /** The merging loop takes the head of the first run. */
  method StepP(cmp: Compare, list: Item?, tail: Item?, p: Item, q: Item?, ghost qsize: nat, ghost g: Ghosts,
               ghost out: seq<Item>, ghost run: seq<Item>, ghost ps: seq<Item>, ghost rs: seq<Item>)
    returns (first: Item, last: Item, p': Item?, ghost out': seq<Item>, ghost run': seq<Item>, ghost ps': seq<Item>)
    requires TotalPreorder(cmp) && |ps| > 0 && (qsize > 0 && q != null ==> cmp(p.key, q.key) <= 0)
    requires Held(g.nodes, out, ps, rs, g.end, list, tail, p, q)
    requires Merged(cmp, g.pos, run, ps, Second(rs, qsize), g.lo, g.mid, g.hi)
    modifies g.nodes`next, g.nodes`prev
    ensures |ps'| == |ps| - 1 && Held(g.nodes, out', ps', rs, g.end, first, last, p', q)
    ensures Merged(cmp, g.pos, run', ps', Second(rs, qsize), g.lo, g.mid, g.hi)
    ensures Stepped(out, run, ps, rs, qsize, out', run', ps', rs, qsize)
  {
    out', run', ps' := out + [p], run + [p], ps[1..];
    MergedTakeP(cmp, g.pos, run, ps, Second(rs, qsize), g.lo, g.mid, g.hi);
    first, last, p' := TakeP(list, tail, p, q, g.nodes, out, ps, rs, g.end);
  }

  /** It takes the head of the second run. */
  method StepQ(cmp: Compare, list: Item?, tail: Item?, p: Item?, q: Item, qsize: nat, ghost g: Ghosts,
               ghost out: seq<Item>, ghost run: seq<Item>, ghost ps: seq<Item>, ghost rs: seq<Item>)
    returns (first: Item, last: Item, q': Item?, ghost out': seq<Item>, ghost run': seq<Item>, ghost rs': seq<Item>)
    requires TotalPreorder(cmp) && qsize > 0 && (|ps| > 0 ==> p != null && cmp(p.key, q.key) > 0)
    requires Held(g.nodes, out, ps, rs, g.end, list, tail, p, q)
    requires Merged(cmp, g.pos, run, ps, Second(rs, qsize), g.lo, g.mid, g.hi)
    modifies g.nodes`next, g.nodes`prev
    ensures Held(g.nodes, out', ps, rs', g.end, first, last, p, q')
    ensures Merged(cmp, g.pos, run', ps, Second(rs', qsize - 1), g.lo, g.mid, g.hi)
    ensures Stepped(out, run, ps, rs, qsize, out', run', ps, rs', qsize - 1)
  {
    ghost var qs := Second(rs, qsize);
    out', run', rs' := out + [q], run + [q], rs[1..];
    MergedTakeQ(cmp, g.pos, run, ps, qs, g.lo, g.mid, g.hi);
    assert Second(rs', qsize - 1) == qs[1..];
    first, last, q' := TakeQ(list, tail, p, q, g.nodes, out, ps, rs, g.end);
  }

  /** One round of the merging loop; out is all that was merged before, run the end of it. */
  method MergeStep(cmp: Compare, list: Item?, tail: Item?, p: Item?, q: Item?, psize: nat, qsize: nat, ghost g: Ghosts,
                   ghost out: seq<Item>, ghost run: seq<Item>, ghost ps: seq<Item>, ghost rs: seq<Item>)
    returns (first: Item?, last: Item?, p': Item?, q': Item?, psize': nat, qsize': nat,
             ghost out': seq<Item>, ghost run': seq<Item>, ghost ps': seq<Item>, ghost rs': seq<Item>)
    requires TotalPreorder(cmp) && psize == |ps| && (psize > 0 || (qsize > 0 && q != null))
    requires Held(g.nodes, out, ps, rs, g.end, list, tail, p, q)
    requires Merged(cmp, g.pos, run, ps, Second(rs, qsize), g.lo, g.mid, g.hi)
    modifies g.nodes`next, g.nodes`prev
    ensures psize' == |ps'| && Held(g.nodes, out', ps', rs', g.end, first, last, p', q')
    ensures Merged(cmp, g.pos, run', ps', Second(rs', qsize'), g.lo, g.mid, g.hi)
    ensures Stepped(out, run, ps, rs, qsize, out', run', ps', rs', qsize')
  {
    p', q', psize', qsize', ps', rs' := p, q, psize, qsize, ps, rs;
    var takeQ: bool;
    if psize == 0 {
      takeQ := true;
    } else if qsize == 0 || q == null {
      takeQ := false;
    } else {
      takeQ := cmp(p.key, q.key) > 0;
    }
    if takeQ {
      first, last, q', out', run', rs' := StepQ(cmp, list, tail, p, q, qsize, g, out, run, ps, rs);
      qsize' := qsize - 1;
    } else {
      first, last, p', out', run', ps' := StepP(cmp, list, tail, p, q, qsize, g, out, run, ps, rs);
      psize' := psize - 1;
    }
  }

  /** What is left to merge of ps0 and rs0, after out. */
  ghost predicate Left(g: Ghosts, done: seq<Item>, ps0: seq<Item>, rs0: seq<Item>, insize: nat,
                       out: seq<Item>, run: seq<Item>, ps: seq<Item>, rs: seq<Item>, qsize: nat) {
    && out == done + run && |run| + |ps| + |Second(rs, qsize)| == g.hi - g.lo
    && multiset(out + ps + rs) == multiset(done + ps0 + rs0)
    && rs[|Second(rs, qsize)|..] == rs0[|Second(rs0, insize)|..]
  }

  lemma LeftStep(g: Ghosts, done: seq<Item>, ps0: seq<Item>, rs0: seq<Item>, insize: nat,
                 out: seq<Item>, run: seq<Item>, ps: seq<Item>, rs: seq<Item>, qsize: nat,
                 out': seq<Item>, run': seq<Item>, ps': seq<Item>, rs': seq<Item>, qsize': nat)
    requires Left(g, done, ps0, rs0, insize, out, run, ps, rs, qsize)
    requires Stepped(out, run, ps, rs, qsize, out', run', ps', rs', qsize')
    ensures Left(g, done, ps0, rs0, insize, out', run', ps', rs', qsize')
  {
    var x := out'[|out|];
    assert (done + run) + [x] == done + (run + [x]);
  }

  /** Where a merge stands. */
  ghost predicate Merging(cmp: Compare, g: Ghosts, done: seq<Item>, ps0: seq<Item>, rs0: seq<Item>, insize: nat,
                          out: seq<Item>, run: seq<Item>, ps: seq<Item>, rs: seq<Item>, qsize: nat)
    reads run`key, ps`key, rs`key
  {
    && Merged(cmp, g.pos, run, ps, Second(rs, qsize), g.lo, g.mid, g.hi)
    && Left(g, done, ps0, rs0, insize, out, run, ps, rs, qsize)
  }

  /** One round of the merging loop, and where the merge stands then. */
  method MergeRound(cmp: Compare, list: Item?, tail: Item?, p: Item?, q: Item?, psize: nat, qsize: nat, ghost g: Ghosts,
                    ghost done: seq<Item>, ghost ps0: seq<Item>, ghost rs0: seq<Item>, ghost insize: nat,
                    ghost out: seq<Item>, ghost run: seq<Item>, ghost ps: seq<Item>, ghost rs: seq<Item>)
    returns (first: Item?, last: Item?, p': Item?, q': Item?, psize': nat, qsize': nat,
             ghost out': seq<Item>, ghost run': seq<Item>, ghost ps': seq<Item>, ghost rs': seq<Item>)
    requires TotalPreorder(cmp) && psize == |ps| && (psize > 0 || (qsize > 0 && q != null))
    requires Held(g.nodes, out, ps, rs, g.end, list, tail, p, q)
    requires Merging(cmp, g, done, ps0, rs0, insize, out, run, ps, rs, qsize)
    modifies g.nodes`next, g.nodes`prev
    ensures psize' == |ps'| && Held(g.nodes, out', ps', rs', g.end, first, last, p', q')
    ensures Merging(cmp, g, done, ps0, rs0, insize, out', run', ps', rs', qsize')
    ensures |ps'| + |Second(rs', qsize')| < |ps| + |Second(rs, qsize)|
  {
    first, last, p', q', psize', qsize', out', run', ps',
      rs' := MergeStep(cmp, list, tail, p, q, psize, qsize, g, out, run, ps, rs);
    LeftStep(g, done, ps0, rs0, insize, out, run, ps, rs, qsize, out', run', ps', rs', qsize');
  }

  lemma LeftEnd(cmp: Compare, g: Ghosts, done: seq<Item>, ps0: seq<Item>, rs0: seq<Item>, insize: nat,
                out: seq<Item>, run: seq<Item>, ps: seq<Item>, rs: seq<Item>, qsize: nat)
    requires Merging(cmp, g, done, ps0, rs0, insize, out, run, ps, rs, qsize) && |ps| == 0 && (qsize == 0 || |rs| == 0)
    ensures out == done + run && ps == [] && rs == rs0[|Second(rs0, insize)|..] && |run| == g.hi - g.lo
    ensures multiset(done + run + rs) == multiset(done + ps0 + rs0) && Run(cmp, g.pos, run, g.lo)
  {
    AllTaken(out, ps, rs, qsize);
    assert out + ps + rs == done + run + rs;
  }

  /** The merging loop, for the run of psize items from p and the one of insize items from q. */
  method MergeRuns(cmp: Compare, list0: Item?, tail0: Item?, p0: Item?, q0: Item?, psize0: nat, insize: nat,
                   ghost nodes: set<Item>,
                   ghost pos: map<Item, nat>, ghost done: seq<Item>, ghost ps0: seq<Item>, ghost rs0: seq<Item>)
    returns (list: Item?, tail: Item?, q: Item?, ghost run: seq<Item>)
    requires TotalPreorder(cmp) && psize0 == |ps0| && Held(nodes, done, ps0, rs0, q0, list0, tail0, p0, q0)
    requires Run(cmp, pos, ps0, |done|) && Run(cmp, pos, Second(rs0, insize), |done| + |ps0|)
    modifies nodes`next, nodes`prev
    ensures var rest := rs0[|Second(rs0, insize)|..];
      && Held(nodes, done + run, [], rest, q0, list, tail, q, q)
      && |run| == |ps0| + |Second(rs0, insize)| && Run(cmp, pos, run, |done|)
      && multiset(done + run + rest) == multiset(done + ps0 + rs0)
  {
    var p, psize, qsize;
    list, tail, p, q, psize, qsize, run := list0, tail0, p0, q0, psize0, insize, [];
    ghost var ps, rs, out := ps0, rs0, done;
    ghost var g := Ghosts(nodes, pos, q0, |done|, |done| + |ps0|, |done| + |ps0| + |Second(rs0, insize)|);
    MergeBegins(cmp, g, done, ps0, rs0, insize);
    while psize != 0 || (qsize != 0 && q != null)
      invariant psize == |ps| && Held(nodes, out, ps, rs, q0, list, tail, p, q)
      invariant Merging(cmp, g, done, ps0, rs0, insize, out, run, ps, rs, qsize)
      decreases |ps| + |Second(rs, qsize)|
    {
      list, tail, p, q, psize, qsize, out, run, ps, rs :=
        MergeRound(cmp, list, tail, p, q, psize, qsize, g, done, ps0, rs0, insize, out, run, ps, rs);
    }
    LeftEnd(cmp, g, done, ps0, rs0, insize, out, run, ps, rs, qsize);
    HeldDone(nodes, out, rs, q0, list, tail, p, q);
  }

  /** Without a first run its pointer does not matter. */
  lemma HeldDone(nodes: set<Item>, out: seq<Item>, rs: seq<Item>, end: Item?, list: Item?, tail: Item?,
                 p: Item?, q: Item?)
    requires Held(nodes, out, [], rs, end, list, tail, p, q)
    ensures Held(nodes, out, [], rs, end, list, tail, q, q)
  {
  }

  lemma MergeBegins(cmp: Compare, g: Ghosts, done: seq<Item>, ps: seq<Item>, rs: seq<Item>, insize: nat)
    requires g.lo == |done| && g.mid == g.lo + |ps| && g.hi == g.mid + |Second(rs, insize)|
    requires Run(cmp, g.pos, ps, g.lo) && Run(cmp, g.pos, Second(rs, insize), g.mid)
    ensures Merging(cmp, g, done, ps, rs, insize, done, [], ps, rs, insize)
  {
    assert done + [] == done;
  }

  /** When neither run has anything left, what is left of the list is the list. */
  lemma AllTaken(out: seq<Item>, ps: seq<Item>, rs: seq<Item>, qsize: nat)
    requires |ps| == 0 && (qsize == 0 || |rs| == 0)
    ensures |Second(rs, qsize)| == 0 && rs[|Second(rs, qsize)|..] == rs && ps == [] && out + ps + rs == out + [] + rs
  {
  }

  // ---------- a pass over the list ----------

  /** The first run, the second, and the runs after them. */
  lemma FirstRuns(cmp: Compare, pos: map<Item, nat>, s: seq<Item>, base: nat, w: nat)
    requires w > 0 && Runs(cmp, pos, s, base, w)
    ensures var ps := Second(s, w); var rest := s[|ps|..]; var qs := Second(rest, w);
      && Run(cmp, pos, ps, base) && Run(cmp, pos, qs, base + |ps|)
      && Runs(cmp, pos, rest[|qs|..], base + |ps| + |qs|, w)
  {
    var ps := Second(s, w);
    var rest := s[|ps|..];
    if |s| <= w {
      assert ps == s && rest == [] && Second(rest, w) == [];
    } else if |rest| <= w {
      assert Second(rest, w) == rest && rest[|rest|..] == [];
    }
  }

  /** The list from p on, as its first run and what follows. */
  lemma HeldSplit(nodes: set<Item>, done: seq<Item>, rs: seq<Item>, any: Item?, list: Item?, tail: Item?, p: Item?,
                  q: Item?, n: nat)
    requires Held(nodes, done, [], rs, any, list, tail, p, p) && 0 < n <= |rs| && q == At(rs, n)
    ensures Held(nodes, done, rs[..n], rs[n..], q, list, tail, p, q)
    ensures multiset(done + rs[..n] + rs[n..]) == multiset(done + rs)
  {
    var ps, rest := rs[..n], rs[n..];
    assert done + [] + rs == done + ps + rest && done + rs == done + ps + rest;
    forall i | 0 <= i < n ensures NextAt(ps, i, q) { assert NextAt(rs, i, null); }
    forall i | 0 <= i < |rest| ensures NextAt(rest, i, null) { assert NextAt(rs, n + i, null); }
  }

  /** The for loop that looks for the second run. */
  method Split(p: Item, insize: nat, ghost rs: seq<Item>) returns (q: Item?, psize: nat)
    requires NextLinked(rs, null) && p == At(rs, 0)
    ensures psize == Least(insize, |rs|) && q == At(rs, psize)
  {
    q, psize := p, 0;
    var i := 0;
    while i < insize && q != null
      invariant i == psize <= insize && psize <= |rs| && q == At(rs, psize)
    {
      psize := psize + 1;
      assert NextAt(rs, psize - 1, null);
      q := q.next;
      i := i + 1;
    }
  }

  /** The same, with what it means for the lists of a merge. */
  method SplitHeld(list: Item?, tail: Item?, p: Item, insize: nat, ghost nodes: set<Item>, ghost done: seq<Item>,
                   ghost rs: seq<Item>, ghost any: Item?)
    returns (q: Item?, psize: nat, ghost ps: seq<Item>, ghost after: seq<Item>)
    requires insize > 0 && Held(nodes, done, [], rs, any, list, tail, p, p)
    ensures ps == Second(rs, insize) && after == rs[|ps|..] && psize == |ps| > 0
    ensures Held(nodes, done, ps, after, q, list, tail, p, q) && multiset(done + ps + after) == multiset(done + rs)
  {
    q, psize := Split(p, insize, rs);
    ps := Second(rs, insize);
    after := rs[|ps|..];
    HeldSplit(nodes, done, rs, any, list, tail, p, q, psize);
  }

  /** Where a pass stands: k pairs of runs of w items are merged into done. */
  ghost predicate Passing(cmp: Compare, pos: map<Item, nat>, s: seq<Item>, done: seq<Item>, rs: seq<Item>, w: nat,
                          k: nat)
    requires w > 0
    reads done`key, rs`key
  {
    && Runs(cmp, pos, done, 0, 2 * w) && Runs(cmp, pos, rs, |done|, w)
    && |done| <= Times(k, 2 * w) && (|rs| > 0 ==> |done| == Times(k, 2 * w)) && (k > 0 ==> |done| > Times(k - 1, 2 * w))
    && multiset(done + rs) == multiset(s)
  }

  lemma PassingStep(cmp: Compare, pos: map<Item, nat>, s: seq<Item>, done: seq<Item>, rs: seq<Item>, w: nat, k: nat,
                    run: seq<Item>)
    requires w > 0 && |rs| > 0 && Passing(cmp, pos, s, done, rs, w, k) && Run(cmp, pos, run, |done|)
    requires var ps := Second(rs, w); var rest := rs[|ps|..]; var qs := Second(rest, w);
      |run| == |ps| + |qs| && multiset(done + run + rest[|qs|..]) == multiset(done + rs)
    ensures var ps := Second(rs, w); var rest := rs[|ps|..]; var qs := Second(rest, w);
      Passing(cmp, pos, s, done + run, rest[|qs|..], w, k + 1)
  {
    FirstRuns(cmp, pos, rs, |done|, w);
    RunsSnoc(cmp, pos, done, 0, 2 * w, k, run);
  }

  /** The two runs of a merge. */
  method SplitRuns(cmp: Compare, list: Item?, tail: Item?, p: Item, insize: nat, ghost nodes: set<Item>,
                   ghost pos: map<Item, nat>,
                   ghost s: seq<Item>, ghost done: seq<Item>, ghost rs: seq<Item>, ghost k: nat, ghost any: Item?)
    returns (q: Item?, psize: nat, ghost ps: seq<Item>, ghost after: seq<Item>)
    requires insize > 0 && Held(nodes, done, [], rs, any, list, tail, p, p) && Passing(cmp, pos, s, done, rs, insize, k)
    ensures ps == Second(rs, insize) && after == rs[|ps|..] && psize == |ps| > 0
    ensures Held(nodes, done, ps, after, q, list, tail, p, q) && multiset(done + ps + after) == multiset(done + rs)
    ensures Run(cmp, pos, ps, |done|) && Run(cmp, pos, Second(after, insize), |done| + |ps|)
  {
    q, psize, ps, after := SplitHeld(list, tail, p, insize, nodes, done, rs, any);
    FirstRuns(cmp, pos, rs, |done|, insize);
  }

  /** One round of the middle loop. */
  method MergePair(cmp: Compare, list0: Item?, tail0: Item?, p: Item, insize: nat, ghost nodes: set<Item>,
                   ghost pos: map<Item, nat>,
                   ghost s: seq<Item>, ghost done: seq<Item>, ghost rs: seq<Item>, ghost k: nat, ghost any0: Item?)
    returns (list: Item?, tail: Item?, q: Item?, ghost more: seq<Item>, ghost rest: seq<Item>, ghost any: Item?)
    requires TotalPreorder(cmp) && insize > 0 && Held(nodes, done, [], rs, any0, list0, tail0, p, p)
    requires Passing(cmp, pos, s, done, rs, insize, k)
    modifies nodes`next, nodes`prev
    ensures Held(nodes, more, [], rest, any, list, tail, q, q) && Passing(cmp, pos, s, more, rest, insize, k + 1)
    ensures |rest| < |rs|
  {
    var psize;
    ghost var ps, after;
    q, psize, ps, after := SplitRuns(cmp, list0, tail0, p, insize, nodes, pos, s, done, rs, k, any0);
    any := q;
    ghost var run;
    list, tail, q, run := MergeRuns(cmp, list0, tail0, p, q, psize, insize, nodes, pos, done, ps, after);
    more, rest := done + run, after[|Second(after, insize)|..];
    PassingStep(cmp, pos, s, done, rs, insize, k, run);
  }

  /** The list after a pass over the items s: linked both ways, the same items, in runs of twice as many. */
  ghost predicate PassDone(cmp: Compare, pos: map<Item, nat>, s: seq<Item>, insize: nat, nodes: set<Item>,
                           list: Item, tail: Item, nmerges: nat, r: seq<Item>)
    requires insize > 0
    reads r
  {
    && Distinct(r) && Inside(r, nodes) && Linked(r) && NextLinked(r, null) && multiset(r) == multiset(s) && |r| == |s|
    && list == At(r, 0) && tail == At(r, |r| - 1)
    && Runs(cmp, pos, r, 0, 2 * insize) && (nmerges <= 1 <==> |s| <= 2 * insize)
  }

  /** One pass: pairs of runs of insize items become runs of twice as many. */
  method Pass(cmp: Compare, list0: Item, insize: nat, ghost nodes: set<Item>, ghost pos: map<Item, nat>,
              ghost s: seq<Item>)
    returns (list: Item, tail: Item, nmerges: nat, ghost r: seq<Item>)
    requires TotalPreorder(cmp) && insize > 0 && Distinct(s) && Inside(s, nodes)
    requires NextLinked(s, null) && list0 == At(s, 0) && Runs(cmp, pos, s, 0, insize)
    modifies nodes`next, nodes`prev
    ensures PassDone(cmp, pos, s, insize, nodes, list, tail, nmerges, r)
  {
    var p: Item?, first: Item?, last: Item? := list0, null, null;
    nmerges, r := 0, [];
    ghost var rs, any := s, null;
    PassBegins(cmp, pos, s, insize, nodes, p);
    while p != null
      invariant Held(nodes, r, [], rs, any, first, last, p, p) && Passing(cmp, pos, s, r, rs, insize, nmerges)
      decreases |rs|
    {
      nmerges := nmerges + 1;
      first, last, p, r, rs, any := MergePair(cmp, first, last, p, insize, nodes, pos, s, r, rs, nmerges - 1, any);
    }
    list, tail := EndPass(cmp, first, last, p, insize, nmerges, nodes, pos, s, r, rs, any);
  }

  lemma PassBegins(cmp: Compare, pos: map<Item, nat>, s: seq<Item>, w: nat, nodes: set<Item>, p: Item?)
    requires w > 0 && Distinct(s) && Inside(s, nodes) && NextLinked(s, null) && p == At(s, 0) && Runs(cmp, pos, s, 0, w)
    ensures Held(nodes, [], [], s, null, null, null, p, p) && Passing(cmp, pos, s, [], s, w, 0)
  {
    assert [] + [] + s == s && [] + s == s;
  }

  /** The end of a pass, and what its number of merges tells. */
  method EndPass(cmp: Compare, first: Item?, last: Item?, p: Item?, ghost insize: nat, ghost nmerges: nat,
                 ghost nodes: set<Item>,
                 ghost pos: map<Item, nat>, ghost s: seq<Item>, ghost r: seq<Item>, ghost rs: seq<Item>,
                   ghost any: Item?)
    returns (list: Item, tail: Item)
    requires p == null && insize > 0 && |s| > 0
    requires Held(nodes, r, [], rs, any, first, last, p, p) && Passing(cmp, pos, s, r, rs, insize, nmerges)
    modifies nodes`next
    ensures PassDone(cmp, pos, s, insize, nodes, list, tail, nmerges, r)
  {
    PassEnds(cmp, pos, s, r, rs, insize, nmerges);
    assert r + [] + rs == r;
    list, tail := first, last;
    EndList(tail, r, nodes);
    forall i | 0 <= i < |r| ensures NextAt(r, i, null) { assert LinkAt(r, i); }
  }

  /** The merged list gets its end. */
  method EndList(tail: Item, ghost r: seq<Item>, ghost nodes: set<Item>)
    requires DoneLinked(r) && Distinct(r) && tail == At(r, |r| - 1) && tail in nodes
    modifies nodes`next
    ensures Linked(r)
  {
    tail.next := null;
    forall i | 0 <= i < |r| ensures LinkAt(r, i) {
      assert old(DoneAt(r, i));
      if i < |r| - 1 { Other(r, i, |r| - 1); }
    }
  }

  lemma PassEnds(cmp: Compare, pos: map<Item, nat>, s: seq<Item>, r: seq<Item>, rs: seq<Item>, w: nat, k: nat)
    requires w > 0 && |s| > 0 && |rs| == 0 && Passing(cmp, pos, s, r, rs, w, k)
    ensures multiset(r) == multiset(s) && |r| == |s| && (k <= 1 <==> |s| <= 2 * w)
  {
    assert r + rs == r;
    assert |r| == |multiset(r)| == |multiset(s)| == |s|;
    FewMerges(|s|, w, k);
  }

  lemma FewMerges(n: nat, w: nat, k: nat)
    requires w > 0 && 0 < n <= Times(k, 2 * w) && k > 0 && n > Times(k - 1, 2 * w)
    ensures k <= 1 <==> n <= 2 * w
  {
    assert Times(0, 2 * w) == 0;
    assert k > 1 ==> Times(k - 1, 2 * w) == Times(k - 2, 2 * w) + 2 * w;
  }

  // ---------- the sort ----------

  ghost function IndexOf(s: seq<Item>, x: Item): (i: nat)
    requires x in s
    ensures i < |s| && s[i] == x
  {
    var i :| 0 <= i < |s| && s[i] == x;
    i
  }

  /** The places of the items of a list. */
  ghost function Places(s: seq<Item>): map<Item, nat> {
    map x | x in s :: IndexOf(s, x)
  }

  lemma PlacesOf(s: seq<Item>)
    requires Distinct(s)
    ensures forall i {:trigger s[i]} :: 0 <= i < |s| ==> s[i] in Places(s) && Places(s)[s[i]] == i
  {
    forall i | 0 <= i < |s| ensures Places(s)[s[i]] == i {
      if IndexOf(s, s[i]) != i { Other(s, IndexOf(s, s[i]), i); }
    }
  }

  /** A list with the items of another one, each once. */
  lemma SameItems(s: seq<Item>, r: seq<Item>)
    requires multiset(r) == multiset(s)
    ensures |r| == |s|
    ensures forall i {:trigger s[i]} :: 0 <= i < |s| ==> s[i] in r
    ensures forall i {:trigger r[i]} :: 0 <= i < |r| ==> r[i] in s
  {
    assert |r| == |multiset(r)| == |multiset(s)| == |s|;
    forall i | 0 <= i < |s| ensures s[i] in r { assert s[i] in multiset(s); }
    forall i | 0 <= i < |r| ensures r[i] in s { assert r[i] in multiset(r); }
  }

  lemma KeysOkPermuted(hash: Key -> nat, s: seq<Item>, r: seq<Item>)
    requires multiset(r) == multiset(s) && Distinct(r)
    requires forall i {:trigger Hashed(hash, s[i])} :: 0 <= i < |s| ==> Hashed(hash, s[i])
    requires forall i, j {:trigger KeysDiffer(s[i], s[j])} :: 0 <= i < j < |s| ==> KeysDiffer(s[i], s[j])
    ensures forall i {:trigger Hashed(hash, r[i])} :: 0 <= i < |r| ==> Hashed(hash, r[i])
    ensures forall i, j {:trigger KeysDiffer(r[i], r[j])} :: 0 <= i < j < |r| ==> KeysDiffer(r[i], r[j])
  {
    SameItems(s, r);
    forall i | 0 <= i < |r| ensures Hashed(hash, r[i]) {
      assert Hashed(hash, s[IndexOf(s, r[i])]);
    }
    forall i, j | 0 <= i < j < |r| ensures KeysDiffer(r[i], r[j]) {
      var a, b := IndexOf(s, r[i]), IndexOf(s, r[j]);
      assert Differ(r[i], r[j]);
      assert if a < b then KeysDiffer(s[a], s[b]) else KeysDiffer(s[b], s[a]);
    }
  }

  /** The passes: the sorted list. */
  method SortList(cmp: Compare, head: Item, ghost nodes: set<Item>, ghost s: seq<Item>)
    returns (list: Item, tail: Item, ghost r: seq<Item>)
    requires TotalPreorder(cmp) && Distinct(s) && Inside(s, nodes) && NextLinked(s, null) && head == At(s, 0)
    modifies nodes`next, nodes`prev
    ensures Distinct(r) && Linked(r) && multiset(r) == multiset(s) && |r| == |s|
    ensures list == At(r, 0) && tail == At(r, |r| - 1)
    ensures Sorted(cmp, Places(s), r)
  {
    var insize, looping := 1, true;
    list, tail, r := head, head, s;
    ghost var pos := Places(s);
    PlacesOf(s);
    RunsOfOne(cmp, pos, s, 0);
    while looping
      invariant 0 < insize && Distinct(r) && Inside(r, nodes) && NextLinked(r, null) && list == At(r, 0)
      invariant multiset(r) == multiset(s) && |r| == |s|
      invariant Runs(cmp, pos, r, 0, insize) && (looping ==> insize <= |s|)
      invariant !looping ==> Linked(r) && tail == At(r, |r| - 1) && |r| <= insize
      decreases looping, |s| - insize
    {
      var nmerges;
      list, tail, nmerges, r := Pass(cmp, list, insize, nodes, pos, r);
      if nmerges <= 1 {
        looping := false;
      }
      insize := insize * 2;
    }
  }

  /** HASH_SRT: the list of all items is put into the order of cmp; items that are equal in it stay as
      they were. Buckets are not touched. */
  method Sort(t: Table, cmp: Compare)
    requires t.Valid() && TotalPreorder(cmp)
    modifies t`head, t`tail, t`items, t.items`next, t.items`prev
    ensures t.Valid() && multiset(t.items) == multiset(old(t.items))
    ensures Sorted(cmp, Places(old(t.items)), t.items)
  {
    if t.head != null {
      ghost var s, r := t.items, [];
      forall i | 0 <= i < |s| ensures NextAt(s, i, null) { assert LinkAt(s, i); }
      var list, tail;
      list, tail, r := SortList(cmp, t.head, (set x | x in s), s);
      KeysOkPermuted(t.hash, s, r);
      SameItems(s, r);
      SameMembers(s, r, t.chains, t.buckets, t.numBuckets);
      Install(t, list, tail, r);
    }
  }

  /** The sorted list becomes the table's. */
  method Install(t: Table, list: Item, tail: Item, ghost r: seq<Item>)
    requires Distinct(r) && Linked(r) && list == At(r, 0) && tail == At(r, |r| - 1)
    requires forall i {:trigger Hashed(t.hash, r[i])} :: 0 <= i < |r| ==> Hashed(t.hash, r[i])
    requires forall i, j {:trigger KeysDiffer(r[i], r[j])} :: 0 <= i < j < |r| ==> KeysDiffer(r[i], r[j])
    requires t.numItems == |r| && t.numBuckets == Pow2(t.log2NumBuckets)
             && BucketsOk(r, t.chains, t.buckets, t.numBuckets)
    modifies t`head, t`tail, t`items
    ensures t.Valid() && t.items == r
  {
    t.tail := tail;
    t.head := list;
    t.items := r;
  }

  /** What the order means: items are never out of order, and equal ones are as they were. */
  lemma SortedIsStable(cmp: Compare, s: seq<Item>, r: seq<Item>, i: nat, j: nat)
    requires TotalPreorder(cmp) && Distinct(s) && multiset(r) == multiset(s) && Sorted(cmp, Places(s), r) && i < j < |r|
    ensures cmp(r[i].key, r[j].key) <= 0
    ensures cmp(r[i].key, r[j].key) == 0 ==> exists a, b :: 0 <= a < b < |s| && s[a] == r[i] && s[b] == r[j]
  {
    SameItems(s, r);
    PlacesOf(s);
    var x, y := r[i], r[j];
    assert Before(cmp, Places(s), x, y);
    var a, b := IndexOf(s, x), IndexOf(s, y);
    if cmp(x.key, y.key) == 0 {
      var back := cmp(y.key, x.key);
      assert back <= 0;
      assert s[a] == x && s[b] == y && a < b;
    }
  }
}
