/** Putting events into the queues of an event base and taking them out. */
module EventQueues {
  import opened EventBases

  /** event_queue_insert_active */
  method InsertActive(b: EventBase, ev: Ev)
    requires b.Valid() && ev in b.evs && !ev.later
    modifies b`activeQueues, b`eventCountActive, b`eventCount, b`tally, ev`active
    ensures b.Valid() && ev.active && ev.pri < |old(b.activeQueues)|
    ensures b.activeQueues == if old(ev.active) then old(b.activeQueues)
                              else old(b.activeQueues)[ev.pri := old(b.activeQueues)[ev.pri] + [ev]]
  {
    ghost var k := Place(b.evs, ev);
    assert b.ActiveAt(b.evs[k]);
    if ev.active {
      return;
    }
    var qs := b.activeQueues;
    assert b.QueueAt(ev.pri);
    DistinctSnoc(qs[ev.pri], ev);
    b.SetActive(ev, true);
    b.eventCountActive := b.eventCountActive + 1;
    b.activeQueues := qs[ev.pri := qs[ev.pri] + [ev]];
    LengthsUpdate(qs, |qs|, ev.pri, qs[ev.pri] + [ev]);
    forall i | 0 <= i < |b.evs| ensures b.ActiveAt(b.evs[i]) {
      assert old(b.ActiveAt(b.evs[i]));
    }
    forall p | 0 <= p < |qs| ensures b.QueueAt(p) {
      assert old(b.QueueAt(p));
    }
  }

  /** event_queue_remove_active */
  method RemoveActive(b: EventBase, ev: Ev)
    requires b.Valid() && ev in b.evs && ev.active
    modifies b`activeQueues, b`eventCountActive, b`eventCount, b`tally, ev`active
    ensures b.Valid() && !ev.active && ev.pri < |old(b.activeQueues)|
    ensures b.activeQueues == old(b.activeQueues)[ev.pri := Remove(old(b.activeQueues)[ev.pri], ev)]
  {
    ghost var k := Place(b.evs, ev);
    assert b.ActiveAt(b.evs[k]);
    var qs := b.activeQueues;
    assert b.QueueAt(ev.pri);
    RemoveKeeps(qs[ev.pri], ev);
    b.SetActive(ev, false);
    b.eventCountActive := b.eventCountActive - 1;
    b.activeQueues := qs[ev.pri := Remove(qs[ev.pri], ev)];
    LengthsUpdate(qs, |qs|, ev.pri, Remove(qs[ev.pri], ev));
    forall i | 0 <= i < |b.evs| ensures b.ActiveAt(b.evs[i]) {
      assert old(b.ActiveAt(b.evs[i]));
    }
    forall p | 0 <= p < |qs| ensures b.QueueAt(p) {
      assert old(b.QueueAt(p));
      PartOfQueue(qs[p], if p == ev.pri then Remove(qs[p], ev) else qs[p], b.evs, p);
    }
  }

  lemma PartOfQueue(q: seq<Ev>, r: seq<Ev>, evs: seq<Ev>, p: nat)
    requires Within(q, evs) && forall i {:trigger q[i]} :: 0 <= i < |q| ==> q[i].pri == p
    requires r == q || Within(r, q)
    ensures Within(r, evs) && forall i {:trigger r[i]} :: 0 <= i < |r| ==> r[i].pri == p
  {
    forall i | 0 <= i < |r| ensures r[i] in evs && r[i].pri == p {
      var k :| 0 <= k < |q| && q[k] == r[i];
    }
  }

  /** event_queue_insert_active_later */
  method InsertLater(b: EventBase, ev: Ev)
    requires b.Valid() && ev in b.evs
    modifies b`laterQueue, b`eventCountActive, b`eventCount, b`tally, ev`later
    ensures b.Valid() && (ev.later <==> !ev.active)
    ensures b.laterQueue == if old(ev.later || ev.active) then old(b.laterQueue) else old(b.laterQueue) + [ev]
  {
    ghost var k := Place(b.evs, ev);
    assert b.ActiveAt(b.evs[k]);
    if ev.later || ev.active {
      return;
    }
    var q := b.laterQueue;
    DistinctSnoc(q, ev);
    b.SetLater(ev, true);
    b.eventCountActive := b.eventCountActive + 1;
    b.laterQueue := q + [ev];
    forall i | 0 <= i < |b.evs| ensures b.ActiveAt(b.evs[i]) {
      assert old(b.ActiveAt(b.evs[i]));
    }
    forall p | 0 <= p < |b.activeQueues| ensures b.QueueAt(p) {
      assert old(b.QueueAt(p));
    }
  }

  /** event_queue_remove_active_later */
  method RemoveLater(b: EventBase, ev: Ev)
    requires b.Valid() && ev in b.evs && ev.later
    modifies b`laterQueue, b`eventCountActive, b`eventCount, b`tally, ev`later
    ensures b.Valid() && !ev.later && b.laterQueue == Remove(old(b.laterQueue), ev)
  {
    ghost var k := Place(b.evs, ev);
    assert b.ActiveAt(b.evs[k]);
    var q := b.laterQueue;
    RemoveKeeps(q, ev);
    b.SetLater(ev, false);
    b.eventCountActive := b.eventCountActive - 1;
    b.laterQueue := Remove(q, ev);
    forall i | 0 <= i < |b.evs| ensures b.ActiveAt(b.evs[i]) {
      assert old(b.ActiveAt(b.evs[i]));
    }
    forall p | 0 <= p < |b.activeQueues| ensures b.QueueAt(p) {
      assert old(b.QueueAt(p));
    }
    forall i | 0 <= i < |b.laterQueue| ensures b.laterQueue[i] in b.evs {
      assert b.laterQueue[i] in q;
    }
  }

  // ---------- timeouts ----------

  /** insert_common_timeout_inorder: behind the last event that is not due after ev. */
  method InsertInOrder(q: seq<Ev>, ev: Ev) returns (r: seq<Ev>, ghost i: nat)
    requires Sorted(q) && Distinct(q) && ev !in q
    ensures i <= |q| && r == q[..i] + [ev] + q[i..]
    ensures Sorted(r) && Distinct(r) && forall x {:trigger x in r} {:trigger x in q} :: x in r <==> x in q || x == ev
    ensures i == 0 <==> |q| == 0 || ev.deadline < q[0].deadline
  {
    var k: int := |q|;
    while k > 0 && ev.deadline < q[k - 1].deadline
      invariant 0 <= k <= |q|
      invariant forall j {:trigger q[j]} :: k <= j < |q| ==> ev.deadline < q[j].deadline
    {
      k := k - 1;
    }
    i := k;
    assert k > 0 ==> InOrder(q[0], q[k - 1]) || k == 1;
    r := q[..k] + [ev] + q[k..];
    InsertKeeps(q, ev, i);
  }

  lemma InsertKeeps(q: seq<Ev>, ev: Ev, i: nat)
    requires Sorted(q) && Distinct(q) && ev !in q && i <= |q|
    requires i > 0 ==> q[i - 1].deadline <= ev.deadline
    requires forall j {:trigger q[j]} :: i <= j < |q| ==> ev.deadline < q[j].deadline
    ensures var r := q[..i] + [ev] + q[i..];
      Sorted(r) && Distinct(r) && forall x {:trigger x in r} {:trigger x in q} :: x in r <==> x in q || x == ev
  {
    var r := q[..i] + [ev] + q[i..];
    forall a, c | 0 <= a < c < |r| ensures InOrder(r[a], r[c]) && Differ(r[a], r[c]) {
      var x, y := if a <= i then a else a - 1, if c <= i then c else c - 1;
      if a != i && c != i {
        assert r[a] == q[x] && r[c] == q[y] && InOrder(q[x], q[y]) && Differ(q[x], q[y]);
      } else if c == i {
        assert r[a] == q[a] && (a < i - 1 ==> InOrder(q[a], q[i - 1]));
      } else {
        assert r[c] == q[y];
      }
    }
    forall x | x in q ensures x in r {
      var k :| 0 <= k < |q| && q[k] == x;
      assert r[if k < i then k else k + 1] == x;
    }
  }

  /** event_queue_insert_timeout */
  method InsertTimeout(b: EventBase, ev: Ev)
    requires b.Valid() && ev in b.evs && !ev.timeout && -1 <= ev.tag < |b.common|
    modifies b`heap, b`eventCount, b`tally, ev`timeout, b.common`events
    ensures b.Valid() && ev.timeout
    ensures b.heap == if ev.tag == -1 then old(b.heap) + {ev} else old(b.heap)
    ensures forall k {:trigger b.common[k].events} :: 0 <= k < |b.common| && k != ev.tag ==>
              b.common[k].events == old(b.common[k].events)
    ensures ev.tag >= 0 ==> IsInserted(old(b.common[ev.tag].events), b.common[ev.tag].events, ev)
  {
    if ev.tag == -1 {
      InsertIntoHeap(b, ev);
    } else {
      InsertIntoCommon(b, ev);
    }
  }

  method InsertIntoHeap(b: EventBase, ev: Ev)
    requires b.Valid() && ev in b.evs && !ev.timeout && ev.tag == -1
    modifies b`heap, b`eventCount, b`tally, ev`timeout
    ensures b.Valid() && ev.timeout && b.heap == old(b.heap) + {ev}
  {
    b.SetTimeout(ev, true);
    b.heap := b.heap + {ev};
    forall m | 0 <= m < |b.evs| ensures b.TimeoutAt(b.evs[m]) {
      assert old(b.TimeoutAt(b.evs[m]));
    }
    forall k | 0 <= k < |b.common| ensures b.CommonAt(k) {
      assert old(b.CommonAt(k));
    }
  }

  /** All timeouts but that of ev are where they belong. */
  ghost predicate OthersOk(b: EventBase, ev: Ev)
    reads b`heap, b`common, b`evs, b.common`events, b.evs`timeout, b.evs`tag, b.evs`deadline
  {
    && (forall i {:trigger b.TimeoutAt(b.evs[i])} :: 0 <= i < |b.evs| && b.evs[i] != ev ==> b.TimeoutAt(b.evs[i]))
    && (forall x {:trigger x in b.heap} :: x in b.heap ==> x in b.evs)
    && (forall k {:trigger b.CommonAt(k)} :: 0 <= k < |b.common| ==> b.CommonAt(k))
    && (forall k, l {:trigger b.common[k], b.common[l]} :: 0 <= k < l < |b.common| ==>
          b.common[k] != b.common[l] && b.common[k].timer != b.common[l].timer)
    && (forall k {:trigger b.common[k].timer} :: 0 <= k < |b.common| ==> b.common[k].timer in b.evs)
  }

  /** Setting or clearing EVLIST_TIMEOUT concerns that event only. */
  method FlagTimeout(b: EventBase, ev: Ev, to: bool)
    requires b.Valid() && ev in b.evs && ev.timeout != to
    modifies b`eventCount, b`tally, ev`timeout
    ensures b.ActiveOk() && b.CountOk() && OthersOk(b, ev) && ev.timeout == to
  {
    b.SetTimeout(ev, to);
    forall i | 0 <= i < |b.evs| && b.evs[i] != ev ensures b.TimeoutAt(b.evs[i]) {
      assert old(b.TimeoutAt(b.evs[i]));
    }
    forall k | 0 <= k < |b.common| ensures b.CommonAt(k) {
      assert old(b.CommonAt(k));
    }
  }

  method InsertIntoCommon(b: EventBase, ev: Ev)
    requires b.Valid() && ev in b.evs && !ev.timeout && 0 <= ev.tag < |b.common|
    modifies b`eventCount, b`tally, ev`timeout, b.common`events
    ensures b.Valid() && ev.timeout
    ensures forall k {:trigger b.common[k].events} :: 0 <= k < |b.common| && k != ev.tag ==>
              b.common[k].events == old(b.common[k].events)
    ensures IsInserted(old(b.common[ev.tag].events), b.common[ev.tag].events, ev)
  {
    ghost var n := Place(b.evs, ev);
    assert b.TimeoutAt(b.evs[n]);
    FlagTimeout(b, ev, true);
    ListInCommon(b, ev);
  }

  /** insert_common_timeout_inorder into the list of the event's common timeout */
  method ListInCommon(b: EventBase, ev: Ev)
    requires OthersOk(b, ev) && ev in b.evs && ev.timeout && 0 <= ev.tag < |b.common| && ev !in b.heap
    requires forall k {:trigger b.common[k].events} :: 0 <= k < |b.common| ==> ev !in b.common[k].events
    modifies {b.common[ev.tag]}`events
    ensures b.TimeoutOk()
    ensures IsInserted(old(b.common[ev.tag].events), b.common[ev.tag].events, ev)
  {
    var ctl := b.common[ev.tag];
    assert b.CommonAt(ev.tag);
    var r, i := InsertInOrder(ctl.events, ev);
    ctl.events := r;
    forall k | 0 <= k < |b.common| ensures (k != ev.tag ==> b.common[k] != ctl) && b.CommonAt(k) {
      assert old(b.CommonAt(k));
      if k != ev.tag { assert b.common[k] != b.common[ev.tag]; }
    }
    forall m | 0 <= m < |b.evs| ensures b.TimeoutAt(b.evs[m]) {
      assert b.evs[m] != ev ==> old(b.TimeoutAt(b.evs[m]));
    }
  }

  /** ev was put into q, in front if it is due before all others, and so that the first stays first otherwise. */
  ghost predicate IsInserted(q: seq<Ev>, r: seq<Ev>, ev: Ev)
    reads ev`deadline, q`deadline
  {
    exists i: nat :: i <= |q| && r == q[..i] + [ev] + q[i..] && (i == 0 <==> |q| == 0 || ev.deadline < q[0].deadline)
  }

  /** event_queue_remove_timeout */
  method RemoveTimeout(b: EventBase, ev: Ev)
    requires b.Valid() && ev in b.evs && ev.timeout
    modifies b`heap, b`eventCount, b`tally, ev`timeout, b.common`events
    ensures b.Valid() && !ev.timeout
    ensures -1 <= ev.tag < |b.common|
    ensures b.heap == if ev.tag == -1 then old(b.heap) - {ev} else old(b.heap)
    ensures forall k {:trigger b.common[k].events} :: 0 <= k < |b.common| && k != ev.tag ==>
              b.common[k].events == old(b.common[k].events)
    ensures ev.tag >= 0 ==>
              ev in old(b.common[ev.tag].events)
              && b.common[ev.tag].events == Remove(old(b.common[ev.tag].events), ev)
  {
    ghost var n := Place(b.evs, ev);
    assert b.TimeoutAt(b.evs[n]);
    FlagTimeout(b, ev, false);
    if ev.tag >= 0 {
      TakeFromCommon(b, ev);
    } else {
      b.heap := b.heap - {ev};
      forall m | 0 <= m < |b.evs| ensures b.TimeoutAt(b.evs[m]) {
        assert old(b.TimeoutAt(b.evs[m]));
      }
      forall k | 0 <= k < |b.common| ensures b.CommonAt(k) {
        assert old(b.CommonAt(k));
      }
    }
  }

  /** The event leaves the list of its common timeout. */
  method TakeFromCommon(b: EventBase, ev: Ev)
    requires OthersOk(b, ev) && ev in b.evs && !ev.timeout && 0 <= ev.tag < |b.common| && ev !in b.heap
    requires forall k {:trigger b.common[k].events} :: 0 <= k < |b.common| ==>
               (ev in b.common[k].events <==> ev.tag == k)
    modifies {b.common[ev.tag]}`events
    ensures b.TimeoutOk() && b.common[ev.tag].events == Remove(old(b.common[ev.tag].events), ev)
  {
    var ctl := b.common[ev.tag];
    assert b.CommonAt(ev.tag);
    RemoveKeeps(ctl.events, ev);
    RemoveSorted(ctl.events, ev);
    ctl.events := Remove(ctl.events, ev);
    forall k | 0 <= k < |b.common| ensures (k != ev.tag ==> b.common[k] != ctl) && b.CommonAt(k) {
      assert old(b.CommonAt(k));
      if k != ev.tag { assert b.common[k] != b.common[ev.tag]; }
    }
    forall m | 0 <= m < |b.evs| ensures b.TimeoutAt(b.evs[m]) {
      assert b.evs[m] != ev ==> old(b.TimeoutAt(b.evs[m]));
    }
  }

  lemma RemoveSorted(q: seq<Ev>, ev: Ev)
    requires Sorted(q) && ev in q
    ensures Sorted(Remove(q, ev))
    ensures |q| > 1 ==> q[0].deadline <= Remove(q, ev)[0].deadline
  {
    RemoveIs(q, ev);
    var i, r := Place(q, ev), Remove(q, ev);
    forall a, c | 0 <= a < c < |r| ensures InOrder(r[a], r[c]) {
      assert InOrder(q[if a < i then a else a + 1], q[if c < i then c else c + 1]);
    }
    assert |q| > 1 ==> InOrder(q[0], q[1]);
  }
}
