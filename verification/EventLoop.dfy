/** What the loop of an event base does: timeouts become active, and active events are called back. */
module EventLoop {
  import opened EventBases
  import opened EventQueues
  import opened EventOps

  /** event_remove_timer_nolock_ */
  method RemoveTimer(b: EventBase, ev: Ev)
    requires b.Valid() && Scheduled(b) && ev in b.evs && NoTimer(b, ev)
    modifies b`heap, b`eventCount, b`tally, b.common`events, ev`timeout, ev`ioDelay, ev`ioTag
    ensures b.Valid() && Scheduled(b) && !ev.timeout && (old(SameTimeouts(b)) ==> SameTimeouts(b))
    ensures if old(ev.timeout) then ev.ioDelay == 0 && ev.ioTag == -1
            else ev.ioDelay == old(ev.ioDelay) && ev.ioTag == old(ev.ioTag)
  {
    if ev.timeout {
      DelTimeout(b, ev);
      ev.ioDelay, ev.ioTag := 0, -1;
    }
    KeptFor(b);
    forall i | 0 <= i < |b.evs| && old(SameTimeouts(b)) ensures SameAt(b.evs[i]) { assert old(SameAt(b.evs[i])); }
  }

  /** Scheduled is a matter of its parts. */
  lemma KeptFor(b: EventBase)
    requires b.Valid()
    requires forall k {:trigger TimerAt(b, k)} :: 0 <= k < |b.common| ==> TimerAt(b, k)
    requires forall k {:trigger ScheduledAt(b, k)} :: 0 <= k < |b.common| ==> ScheduledAt(b, k)
    ensures Scheduled(b)
  {
    forall k | 0 <= k < |b.common| ensures b.common[k].timer in b.evs && b.CommonAt(k) {
      assert b.common[k].timer in b.evs;
    }
  }

  // ---------- later events ----------

  function OfPri(q: seq<Ev>, p: nat): seq<Ev> {
    if |q| == 0 then [] else (if q[0].pri == p then [q[0]] else []) + OfPri(q[1..], p)
  }

  method MoveToActive(b: EventBase, ev: Ev)
    requires |b.laterQueue| > 0 && ev.pri < |b.activeQueues|
    modifies b`activeQueues, b`laterQueue, ev`active, ev`later
    ensures b.laterQueue == old(b.laterQueue)[1..] && ev.active && !ev.later
    ensures b.activeQueues == old(b.activeQueues)[ev.pri := old(b.activeQueues)[ev.pri] + [ev]]
  {
    b.laterQueue := b.laterQueue[1..];
    ev.later := false;
    ev.active := true;
    b.activeQueues := b.activeQueues[ev.pri := b.activeQueues[ev.pri] + [ev]];
  }

  /** One round of the loop of event_queue_make_later_events_active. */
  method Promote(b: EventBase)
    requires b.Valid() && |b.laterQueue| > 0
    modifies b`activeQueues, b`laterQueue, b.laterQueue`active, b.laterQueue`later
    ensures b.Valid() && b.laterQueue == old(b.laterQueue)[1..]
    ensures var ev := old(b.laterQueue)[0];
      && ev.active && !ev.later && ev.pri < |old(b.activeQueues)|
      && b.activeQueues == old(b.activeQueues)[ev.pri := old(b.activeQueues)[ev.pri] + [ev]]
    ensures forall x {:trigger x.active} :: x in old(b.laterQueue)[1..] ==>
              x.active == old(x.active) && x.later == old(x.later)
    ensures forall k {:trigger ScheduledAt(b, k)} :: 0 <= k < |b.common| && old(ScheduledAt(b, k)) ==> ScheduledAt(b, k)
  {
    var q, qs := b.laterQueue, b.activeQueues;
    var ev := q[0];
    ghost var n := Place(b.evs, ev);
    assert b.ActiveAt(b.evs[n]) && b.QueueAt(ev.pri);
    DistinctSnoc(qs[ev.pri], ev);
    OnlyOne(q, 0);
    MoveToActive(b, ev);
    LengthsUpdate(qs, |qs|, ev.pri, qs[ev.pri] + [ev]);
    forall i | 0 <= i < |b.evs| ensures b.ActiveAt(b.evs[i]) {
      assert old(b.ActiveAt(b.evs[i]));
      assert b.evs[i] in q ==> b.evs[i] == ev || b.evs[i] in q[1..];
    }
    forall p | 0 <= p < |qs| ensures b.QueueAt(p) {
      assert old(b.QueueAt(p));
    }
    forall i, j | 0 <= i < j < |q[1..]| ensures Differ(q[1..][i], q[1..][j]) {
      assert Differ(q[i + 1], q[j + 1]);
    }
    forall i | 0 <= i < |b.evs| ensures b.TallyAt(i) {
      assert old(b.TallyAt(i));
    }
  }

  /** event_queue_make_later_events_active: the events wait behind those that are active, in their order. */
  method MakeLaterEventsActive(b: EventBase)
    requires b.Valid()
    modifies b`activeQueues, b`laterQueue, b.laterQueue`active, b.laterQueue`later
    ensures b.Valid() && b.laterQueue == [] && |b.activeQueues| == |old(b.activeQueues)|
    ensures forall p {:trigger b.activeQueues[p]} :: 0 <= p < |b.activeQueues| ==>
              b.activeQueues[p] == old(b.activeQueues)[p] + OfPri(old(b.laterQueue), p)
    ensures forall x {:trigger x.active} :: x in old(b.laterQueue) ==> x.active && !x.later
    ensures forall k {:trigger ScheduledAt(b, k)} :: 0 <= k < |b.common| && old(ScheduledAt(b, k)) ==> ScheduledAt(b, k)
  {
    ghost var q, qs, i := b.laterQueue, b.activeQueues, 0;
    while |b.laterQueue| > 0
      invariant b.Valid() && i <= |q| && b.laterQueue == q[i..] && |b.activeQueues| == |qs|
      invariant forall j {:trigger q[j]} :: 0 <= j < i ==> q[j].active && !q[j].later
      invariant forall k {:trigger ScheduledAt(b, k)} :: 0 <= k < |b.common| && old(ScheduledAt(b, k)) ==>
                  ScheduledAt(b, k)
      invariant forall p {:trigger b.activeQueues[p]} :: 0 <= p < |qs| ==>
                  b.activeQueues[p] + OfPri(q[i..], p) == qs[p] + OfPri(q, p)
      decreases |b.laterQueue|
    {
      ghost var were := b.activeQueues;
      assert forall x {:trigger x in b.laterQueue} :: x in b.laterQueue ==> x in q;
      forall j | 0 <= j < i ensures q[j] !in q[i..] {
        forall m | i <= m < |q| ensures q[j] != q[m] { assert Differ(q[j], q[m]); }
      }
      Promote(b);
      assert q[i..][1..] == q[i + 1..];
      forall p | 0 <= p < |qs| ensures b.activeQueues[p] + OfPri(q[i + 1..], p) == qs[p] + OfPri(q, p) {
        assert were[p] + OfPri(q[i..], p) == qs[p] + OfPri(q, p);
        assert (were[p] + [q[i]]) + OfPri(q[i + 1..], p) == were[p] + ([q[i]] + OfPri(q[i + 1..], p));
      }
      i := i + 1;
    }
    forall p | 0 <= p < |qs| ensures b.activeQueues[p] == qs[p] + OfPri(q, p) {
      assert b.activeQueues[p] + [] == b.activeQueues[p];
    }
  }

  // ---------- timeouts that are over ----------

  /** What is left alone of an event that is not due. */
  datatype Flags = Flags(active: bool, later: bool, inserted: bool, res: set<Res>)

  ghost function FlagsOf(x: Ev): Flags
    reads x`active, x`later, x`inserted, x`res
  {
    Flags(x.active, x.later, x.inserted, x.res)
  }

  /** The event was due, and became active for that reason. */
  ghost predicate CameDue(x: Ev, now: int)
    reads x`deadline, x`active, x`timeout, x`res
  {
    x.deadline <= now && x.active && !x.timeout && x.res == {TimedOut}
  }

  /** event_del_nolock_ and event_active_nolock_, for a timeout that is over. */
  method TimeOut(b: EventBase, ev: Ev)
    requires b.Valid() && Scheduled(b) && ev in b.evs && ev.timeout
    modifies b`activeQueues, b`laterQueue, b`heap, b`eventCountActive, b`eventCount, b`tally, b.common`events
    modifies ev`inserted, ev`timeout, ev`active, ev`later, ev`res
    ensures b.Valid() && Scheduled(b)
    ensures ev.active && !ev.timeout && !ev.inserted && !ev.later && ev.res == {TimedOut}
    ensures b.heap == old(b.heap) - {ev}
    ensures forall k {:trigger b.common[k].events} :: 0 <= k < |b.common| ==>
              b.common[k].events == if ev.tag == k then Remove(old(b.common[k].events), ev) else old(b.common[k].events)
  {
    Del(b, ev);
    Active(b, ev, {TimedOut});
    forall k | 0 <= k < |b.common| ensures ScheduledAt(b, k) {
      assert old(ScheduledAt(b, k));
    }
    KeptFor(b);
  }

  /** The top of the heap. */
  lemma {:induction false} Least(heap: set<Ev>) returns (ev: Ev)
    requires heap != {}
    ensures ev in heap && forall x {:trigger InOrder(ev, x)} :: x in heap ==> InOrder(ev, x)
    decreases |heap|
  {
    var y :| y in heap;
    if heap == {y} {
      ev := y;
    } else {
      var rest := heap - {y};
      assert heap == rest + {y};
      var z := Least(rest);
      ev := if y.deadline < z.deadline then y else z;
      forall x | x in heap ensures InOrder(ev, x) {
        assert x != y ==> InOrder(z, x);
      }
    }
  }

  /** min_heap_top_ */
  method Top(b: EventBase) returns (ev: Ev)
    requires b.heap != {}
    ensures ev in b.heap && forall x {:trigger x in b.heap} :: x in b.heap ==> ev.deadline <= x.deadline
  {
    ghost var least := Least(b.heap);
    assert forall x {:trigger x.deadline} :: x in b.heap ==> InOrder(least, x);
    ev :| ev in b.heap && forall x {:trigger x.deadline} :: x in b.heap ==> ev.deadline <= x.deadline;
  }

  /** An event of the heap, whose flags were those, is still there as it was, or was due. */
  ghost predicate HandledAt(b: EventBase, was: map<Ev, Flags>, now: int, x: Ev)
    reads b`heap, x`deadline, x`timeout, x`active, x`later, x`inserted, x`res
  {
    if x in b.heap then x in was && x.timeout && FlagsOf(x) == was[x] else CameDue(x, now)
  }

  ghost predicate Handled(b: EventBase, was: map<Ev, Flags>, now: int)
    reads b`heap, was.Keys`deadline, was.Keys`timeout, was.Keys`active, was.Keys`later, was.Keys`inserted, was.Keys`res
  {
    b.heap <= was.Keys && forall x {:trigger HandledAt(b, was, now, x)} :: x in was ==> HandledAt(b, was, now, x)
  }

  /** The lists of the common timeouts are those. */
  ghost predicate ListsAre(b: EventBase, lists: seq<seq<Ev>>)
    reads b`common, b.common`events
  {
    |lists| == |b.common| && forall k {:trigger b.common[k].events} :: 0 <= k < |lists| ==>
        b.common[k].events == lists[k]
  }

  /** timeout_process: just the events of the heap whose timeouts are over become active. */
  method TimeoutProcess(b: EventBase, now: int)
    requires b.Valid() && Scheduled(b)
    modifies b`activeQueues, b`laterQueue, b`heap, b`eventCountActive, b`eventCount, b`tally, b.common`events
    modifies b.heap`inserted, b.heap`timeout, b.heap`active, b.heap`later, b.heap`res
    ensures b.Valid() && Scheduled(b)
    ensures forall x {:trigger x in b.heap} :: x in b.heap <==> x in old(b.heap) && x.deadline > now
    ensures forall x {:trigger x in old(b.heap)} :: x in old(b.heap) && x.deadline <= now ==> CameDue(x, now)
    ensures forall x {:trigger x in old(b.heap)} :: x in old(b.heap) && x.deadline > now ==>
              x.timeout && FlagsOf(x) == old(FlagsOf(x))
    ensures forall k {:trigger b.common[k].events} :: 0 <= k < |b.common| ==>
              b.common[k].events == old(b.common[k].events)
  {
    ghost var was := map x | x in b.heap :: FlagsOf(x);
    ghost var lists := Lists(b, |b.common|);
    InHeap(b);
    TimeoutLoop(b, now, was, lists);
    HandledMeans(b, was, now);
  }

  ghost function Lists(b: EventBase, n: nat): (lists: seq<seq<Ev>>)
    requires n <= |b.common|
    reads b`common, b.common`events
    ensures |lists| == n && forall k {:trigger b.common[k].events} :: 0 <= k < n ==> b.common[k].events == lists[k]
  {
    if n == 0 then [] else Lists(b, n - 1) + [b.common[n - 1].events]
  }

  /** The loop of timeout_process. */
  method TimeoutLoop(b: EventBase, now: int, ghost was: map<Ev, Flags>, ghost lists: seq<seq<Ev>>)
    requires b.Valid() && Scheduled(b) && Handled(b, was, now) && ListsAre(b, lists)
    modifies b`activeQueues, b`laterQueue, b`heap, b`eventCountActive, b`eventCount, b`tally, b.common`events
    modifies b.heap`inserted, b.heap`timeout, b.heap`active, b.heap`later, b.heap`res
    ensures b.Valid() && Scheduled(b) && Handled(b, was, now) && ListsAre(b, lists)
    ensures forall x {:trigger x in b.heap} :: x in b.heap ==> x.deadline > now
  {
    var due := true;
    while due && b.heap != {}
      invariant b.Valid() && Scheduled(b) && Handled(b, was, now) && ListsAre(b, lists) && b.heap <= old(b.heap)
      invariant !due ==> forall x {:trigger x in b.heap} :: x in b.heap ==> x.deadline > now
      decreases due, |b.heap|
    {
      due := TimeoutRound(b, now, was, lists);
    }
  }

  /** One round of it: is the first event of the heap due? */
  method TimeoutRound(b: EventBase, now: int, ghost was: map<Ev, Flags>, ghost lists: seq<seq<Ev>>) returns (due: bool)
    requires b.Valid() && Scheduled(b) && Handled(b, was, now) && ListsAre(b, lists) && b.heap != {}
    modifies b`activeQueues, b`laterQueue, b`heap, b`eventCountActive, b`eventCount, b`tally, b.common`events
    modifies b.heap`inserted, b.heap`timeout, b.heap`active, b.heap`later, b.heap`res
    ensures b.Valid() && Scheduled(b) && Handled(b, was, now) && ListsAre(b, lists)
    ensures if due then b.heap < old(b.heap) && |b.heap| < |old(b.heap)|
            else b.heap == old(b.heap) && forall x {:trigger x in b.heap} :: x in b.heap ==> x.deadline > now
  {
    var ev := Top(b);
    due := ev.deadline <= now;
    if due {
      TimeOutNext(b, now, ev, was, lists);
    }
  }

  /** The first event of the heap is due. */
  method TimeOutNext(b: EventBase, now: int, ev: Ev, ghost was: map<Ev, Flags>, ghost lists: seq<seq<Ev>>)
    requires b.Valid() && Scheduled(b) && Handled(b, was, now) && ListsAre(b, lists) && ev in b.heap
             && ev.deadline <= now
    modifies b`activeQueues, b`laterQueue, b`heap, b`eventCountActive, b`eventCount, b`tally, b.common`events
    modifies ev`inserted, ev`timeout, ev`active, ev`later, ev`res
    ensures b.Valid() && Scheduled(b) && Handled(b, was, now) && ListsAre(b, lists) && b.heap == old(b.heap) - {ev}
  {
    InHeap(b);
    TimeOut(b, ev);
    forall x | x in was ensures HandledAt(b, was, now, x) {
      assert old(HandledAt(b, was, now, x));
    }
  }

  lemma HandledMeans(b: EventBase, was: map<Ev, Flags>, now: int)
    requires Handled(b, was, now) && forall x {:trigger x in b.heap} :: x in b.heap ==> x.deadline > now
    ensures forall x {:trigger x in b.heap} :: x in b.heap <==> x in was && x.deadline > now
    ensures forall x {:trigger x in was} :: x in was && x.deadline <= now ==> CameDue(x, now)
    ensures forall x {:trigger x in was} :: x in was && x.deadline > now ==> x.timeout && FlagsOf(x) == was[x]
  {
    forall x | x in was
      ensures (x in b.heap <==> x.deadline > now) && (x.deadline <= now ==> CameDue(x, now))
      ensures x.deadline > now ==> x.timeout && FlagsOf(x) == was[x] {
      assert HandledAt(b, was, now, x);
    }
  }

  /** Events in the heap have a timeout of their own. */
  lemma InHeap(b: EventBase)
    requires b.Valid()
    ensures forall x {:trigger x in b.heap} :: x in b.heap ==> x.timeout && x.tag == -1 && x in b.evs
  {
    forall x | x in b.heap ensures x.timeout && x.tag == -1 && x in b.evs {
      var n := Place(b.evs, x);
      assert b.TimeoutAt(b.evs[n]);
    }
  }

  /** common_timeout_callback: just the events at the front whose timeouts are over become active, and the
      timer is set for the next one. */
  method CommonTimeoutCallback(b: EventBase, k: nat, now: int) returns (ghost n: nat)
    requires b.Valid() && Scheduled(b) && k < |b.common| && b.common[k].running
    modifies b`activeQueues, b`laterQueue, b`heap, b`eventCountActive, b`eventCount, b`tally, b.common`events
    modifies {b.common[k]}`running
    modifies b.common[k].events`inserted, b.common[k].events`timeout, b.common[k].events`active,
             b.common[k].events`later, b.common[k].events`res
    modifies b.common[k].timer`timeout, b.common[k].timer`deadline, b.common[k].timer`tag, b.common[k].timer`active
    ensures b.Valid() && Scheduled(b) && !b.common[k].running && (old(SameTimeouts(b)) ==> SameTimeouts(b))
    ensures n <= |old(b.common[k].events)| && b.common[k].events == old(b.common[k].events)[n..]
    ensures forall i {:trigger old(b.common[k].events)[i]} :: 0 <= i < n ==>
              CameDue(old(b.common[k].events)[i], now)
    ensures forall i {:trigger old(b.common[k].events)[i]} :: n <= i < |old(b.common[k].events)| ==>
              old(b.common[k].events)[i].deadline > now
    ensures forall i {:trigger old(b.common[k].events)[i]} :: n <= i < |old(b.common[k].events)| ==>
              FlagsOf(old(b.common[k].events)[i]) == old(FlagsOf(b.common[k].events[i]))
  {
    ghost var q := b.common[k].events;
    forall i | 0 <= i < |q| ensures q[i] != b.common[k].timer {
      assert b.CommonAt(k) && TimerAt(b, k) && q[i] in b.common[k].events;
      ghost var m := Place(b.evs, q[i]);
      assert b.TimeoutAt(b.evs[m]);
    }
    n := DueEvents(b, k, now);
    assert b.CommonAt(k);
    forall i | n <= i < |q| ensures q[i].deadline > now {
      assert q[n..][i - n] == q[i];
      assert i > n ==> InOrder(q[n..][0], q[n..][i - n]);
    }
    CallbackEnds(b, k);
  }

  /** The end of common_timeout_callback: the timer is set if there is still an event. */
  method CallbackEnds(b: EventBase, k: nat)
    requires b.Valid() && Scheduled(b) && k < |b.common|
    modifies b`activeQueues, b`heap, b`eventCountActive, b`eventCount, b`tally, b.common`events
    modifies {b.common[k]}`running
    modifies b.common[k].timer`timeout, b.common[k].timer`deadline, b.common[k].timer`tag, b.common[k].timer`active
    ensures b.Valid() && Scheduled(b) && !b.common[k].running && (old(SameTimeouts(b)) ==> SameTimeouts(b))
    ensures b.common[k].events == old(b.common[k].events)
  {
    var c := b.common[k];
    c.running := false;
    forall m | 0 <= m < |b.common| ensures TimerAt(b, m) && (m != k ==> ScheduledAt(b, m) && b.CommonAt(m)) {
      assert old(TimerAt(b, m)) && old(ScheduledAt(b, m));
      assert m != k ==> b.common[m] != c;
    }
    if |c.events| > 0 {
      Schedule(b, k);
    } else {
      KeptFor(b);
    }
  }

  /** The loop of common_timeout_callback: the first n events are due, and the next one, if any, is not. */
  method DueEvents(b: EventBase, k: nat, now: int) returns (ghost n: nat)
    requires b.Valid() && Scheduled(b) && k < |b.common|
    modifies b`activeQueues, b`laterQueue, b`heap, b`eventCountActive, b`eventCount, b`tally, b.common`events
    modifies b.common[k].events`inserted, b.common[k].events`timeout, b.common[k].events`active,
             b.common[k].events`later, b.common[k].events`res
    ensures b.Valid() && Scheduled(b)
    ensures n <= |old(b.common[k].events)| && b.common[k].events == old(b.common[k].events)[n..]
    ensures forall i {:trigger old(b.common[k].events)[i]} :: 0 <= i < n ==>
              CameDue(old(b.common[k].events)[i], now)
    ensures n < |old(b.common[k].events)| ==> old(b.common[k].events)[n].deadline > now
    ensures forall i {:trigger old(b.common[k].events)[i]} :: n <= i < |old(b.common[k].events)| ==>
              FlagsOf(old(b.common[k].events)[i]) == old(FlagsOf(b.common[k].events[i]))
  {
    ghost var q := b.common[k].events;
    assert b.CommonAt(k);
    n := 0;
    while |b.common[k].events| > 0
      invariant n <= |q| && b.Valid() && Scheduled(b) && b.common[k].events == q[n..]
      invariant forall i {:trigger q[i]} :: 0 <= i < n ==> CameDue(q[i], now)
      invariant forall i {:trigger q[i]} :: n <= i < |q| ==> FlagsOf(q[i]) == old(FlagsOf(q[i]))
      decreases |q| - n
    {
      var ev := b.common[k].events[0];
      if ev.deadline > now {
        break;
      }
      OnlyOne(q, n);
      TimeOutFirst(b, k, ev);
      n := n + 1;
    }
  }

  /** The first event of a common timeout has timed out. */
  method TimeOutFirst(b: EventBase, k: nat, ev: Ev)
    requires b.Valid() && Scheduled(b) && k < |b.common| && |b.common[k].events| > 0 && ev == b.common[k].events[0]
    modifies b`activeQueues, b`laterQueue, b`heap, b`eventCountActive, b`eventCount, b`tally, b.common`events
    modifies ev`inserted, ev`timeout, ev`active, ev`later, ev`res
    ensures b.Valid() && Scheduled(b) && b.common[k].events == old(b.common[k].events)[1..]
    ensures ev.active && !ev.timeout && ev.res == {TimedOut}
  {
    assert b.CommonAt(k) && ev in b.common[k].events;
    ghost var i := Place(b.evs, ev);
    assert b.TimeoutAt(b.evs[i]);
    TimeOut(b, ev);
  }

  // ---------- calling back ----------

  /** One round of event_process_active_single_queue, up to where the callback is called: the first
      event leaves the queue; unless it is persistent, it leaves all queues. If it is the timer of a common
      timeout, that one's callback is now running. */
  method PopActive(b: EventBase, p: nat) returns (ev: Ev, j: nat)
    requires b.Valid() && Scheduled(b) && p < |b.activeQueues| && |b.activeQueues[p]| > 0
    modifies b`activeQueues, b`laterQueue, b`heap, b`eventCountActive, b`eventCount, b`tally, b.common`events,
             b.common`running
    modifies {b.activeQueues[p][0]}`inserted, {b.activeQueues[p][0]}`timeout, {b.activeQueues[p][0]}`active,
             {b.activeQueues[p][0]}`later
    ensures b.Valid() && Scheduled(b)
    ensures ev == old(b.activeQueues)[p][0] && b.activeQueues == old(b.activeQueues)[p := old(b.activeQueues)[p][1..]]
    ensures !ev.active && !ev.later
    ensures if ev.isEvent && !ev.persist then !ev.inserted && !ev.timeout
            else ev.inserted == old(b.activeQueues[p][0].inserted) && ev.timeout == old(b.activeQueues[p][0].timeout)
    ensures if j < |b.common| then b.common[j].timer == ev && b.common[j].running else NoTimer(b, ev)
  {
    ev := b.activeQueues[p][0];
    assert b.QueueAt(p) && ev in b.activeQueues[p] && b.activeQueues[p][0] in b.evs;
    ghost var n := Place(b.evs, ev);
    assert b.ActiveAt(b.evs[n]);
    assert Remove(b.activeQueues[p], ev) == b.activeQueues[p][1..];
    j := FindTimer(b, ev);
    label Before:
    if j < |b.common| {
      b.common[j].running := true;
    }
    assert forall m {:trigger ScheduledAt(b, m)} :: 0 <= m < |b.common| && old@Before(ScheduledAt(b, m)) ==>
             ScheduledAt(b, m);
    LeaveQueues(b, ev, j);
  }

  /** The common timeout whose timer an event is, or their number if it is none's. */
  method FindTimer(b: EventBase, ev: Ev) returns (k: nat)
    ensures k <= |b.common| && (k < |b.common| ==> b.common[k].timer == ev) && (k == |b.common| ==> NoTimer(b, ev))
  {
    k := 0;
    while k < |b.common| && b.common[k].timer != ev
      invariant k <= |b.common| && forall m {:trigger b.common[m].timer} :: 0 <= m < k ==> b.common[m].timer != ev
    {
      k := k + 1;
    }
  }

  /** An event that is called back leaves the active queue or, unless it is persistent, all queues. */
  method LeaveQueues(b: EventBase, ev: Ev, ghost j: nat)
    requires b.Valid() && ev in b.evs && ev.active
    requires forall k {:trigger TimerAt(b, k)} :: 0 <= k < |b.common| ==> TimerAt(b, k)
    requires forall k {:trigger ScheduledAt(b, k)} :: 0 <= k < |b.common| ==> ScheduledAt(b, k)
    requires j <= |b.common| && if j < |b.common| then b.common[j].timer == ev && b.common[j].running
               else NoTimer(b, ev)
    modifies b`activeQueues, b`laterQueue, b`heap, b`eventCountActive, b`eventCount, b`tally, b.common`events
    modifies ev`inserted, ev`timeout, ev`active, ev`later
    ensures b.Valid() && Scheduled(b) && !ev.active && !ev.later && ev.pri < |old(b.activeQueues)|
    ensures b.activeQueues == old(b.activeQueues)[ev.pri := Remove(old(b.activeQueues)[ev.pri], ev)]
    ensures if ev.isEvent && !ev.persist then !ev.inserted && !ev.timeout
            else ev.inserted == old(ev.inserted) && ev.timeout == old(ev.timeout)
  {
    ghost var n := Place(b.evs, ev);
    assert b.ActiveAt(b.evs[n]);
    if ev.isEvent && !ev.persist {
      Del(b, ev);
    } else {
      RemoveActive(b, ev);
    }
    forall m | 0 <= m < |b.common| ensures ScheduledAt(b, m) {
      assert old(ScheduledAt(b, m));
      if m != j && j < |b.common| { assert b.common[m] != b.common[j]; }
    }
    KeptFor(b);
  }

  /** event_persist_closure, up to where the callback is called: an event with an interval is added again,
      one interval after it was due; or after now, if that is over already or it is active for another reason.
      That its interval and its timeout belong to the same common timeout, as the source asserts, always holds. */
  method PersistClosure(b: EventBase, ev: Ev, now: int, mapped: bool) returns (ok: bool)
    requires b.Valid() && Scheduled(b) && SameTimeouts(b) && ev in b.evs && NoTimer(b, ev)
    modifies b`activeQueues, b`eventCountActive, b`heap, b`eventCount, b`tally, b.common`events
    modifies ev`inserted, ev`timeout, ev`deadline, ev`tag, ev`active, ev`ioDelay, ev`ioTag
    modifies Timers(b)`timeout, Timers(b)`deadline, Timers(b)`tag, Timers(b)`active
    ensures b.Valid() && Scheduled(b) && SameTimeouts(b)
    ensures ok == (old(ev.ioDelay == 0 && ev.ioTag == -1) || mapped || !ev.io
                   || old(ev.inserted || ev.active || ev.later))
    ensures ev.tag == old(ev.tag) && ev.ioDelay == old(ev.ioDelay) && ev.ioTag == old(ev.ioTag)
    ensures old(ev.ioDelay == 0 && ev.ioTag == -1) || !ok ==>
              ev.timeout == old(ev.timeout) && ev.deadline == old(ev.deadline) && ev.active == old(ev.active)
              && ev.inserted == old(ev.inserted) && b.activeQueues == old(b.activeQueues) && b.heap == old(b.heap)
    ensures old(ev.ioDelay != 0 || ev.ioTag != -1) && ok ==>
              ev.timeout && ev.active == (old(ev.active) && TimedOut !in ev.res)
              && ev.inserted == (old(ev.inserted) || (ev.io && !old(ev.active) && !old(ev.later)))
              && ev.deadline == if TimedOut in ev.res && old(ev.deadline + ev.ioDelay) >= now
                                then old(ev.deadline + ev.ioDelay) else now + old(ev.ioDelay)
  {
    ok := true;
    if ev.ioDelay != 0 || ev.ioTag != -1 {
      ghost var n := Place(b.evs, ev);
      assert b.TimeoutAt(b.evs[n]) && SameAt(b.evs[n]);
      assert ev.ioTag == ev.tag;
      var relativeTo := if TimedOut in ev.res then ev.deadline else now;
      var runAt := relativeTo + ev.ioDelay;
      if runAt < now {
        runAt := now + ev.ioDelay;
      }
      ok := Add(b, ev, Timeout(runAt, ev.ioTag), true, now, mapped);
    }
  }
}
