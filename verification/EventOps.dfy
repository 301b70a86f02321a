/** Adding, deleting and activating events. */
module EventOps {
  import opened EventBases
  import opened EventQueues

  /** What event_base_init_common_timeout makes of a common timeout's timer: an internal event for a
      timeout that is not common. */
  ghost predicate TimerAt(b: EventBase, k: nat)
    requires k < |b.common|
    reads b`common, b.common[k].timer`tag
  {
    var t := b.common[k].timer;
    t.isEvent && t.internal && !t.io && !t.persist && t.tag == -1
  }

  /** The common timeout will be looked at when its first event is due, or before. */
  ghost predicate ScheduledAt(b: EventBase, k: nat)
    requires k < |b.common|
    reads b`common, b.common`events, b.common`running
    reads b.common[k].timer`timeout, b.common[k].timer`active, b.common[k].timer`deadline, b.common[k].events`deadline
  {
    var c := b.common[k];
    |c.events| == 0 || c.timer.active || c.running || (c.timer.timeout && c.timer.deadline <= c.events[0].deadline)
  }

  /** No common timeout is lost, but perhaps number j. */
  ghost predicate ScheduledBut(b: EventBase, j: int)
    reads b, b.common, b.evs
  {
    && (forall k {:trigger TimerAt(b, k)} :: 0 <= k < |b.common| ==> b.common[k].timer in b.evs && TimerAt(b, k))
    && (forall k {:trigger ScheduledAt(b, k)} :: 0 <= k < |b.common| && k != j ==>
          b.common[k].timer in b.evs && b.CommonAt(k) && ScheduledAt(b, k))
  }

  /** No common timeout is lost. */
  ghost predicate Scheduled(b: EventBase)
    reads b, b.common, b.evs
  {
    ScheduledBut(b, -1)
  }

  /** An event of the user's, not the timer of a common timeout. */
  ghost predicate NoTimer(b: EventBase, ev: Ev)
    reads b`common
  {
    forall k {:trigger b.common[k].timer} :: 0 <= k < |b.common| ==> b.common[k].timer != ev
  }

  /** The interval of an event belongs to the same common timeout as its timeout; or it has none. */
  ghost predicate SameAt(ev: Ev)
    reads ev`ioDelay, ev`ioTag, ev`tag
  {
    ev.ioDelay != 0 || ev.ioTag != -1 ==> ev.ioTag == ev.tag
  }

  /** A timeout of that common timeout, or of none, goes with the interval of the event. */
  ghost predicate GoesWith(ev: Ev, tag: int)
    reads ev`ioDelay, ev`ioTag
  {
    ev.ioDelay != 0 || ev.ioTag != -1 ==> ev.ioTag == tag
  }

  ghost predicate SameButFor(b: EventBase, ev: Ev)
    reads b`evs, b.evs`ioDelay, b.evs`ioTag, b.evs`tag
  {
    forall i {:trigger SameAt(b.evs[i])} :: 0 <= i < |b.evs| && b.evs[i] != ev ==> SameAt(b.evs[i])
  }

  ghost predicate SameTimeouts(b: EventBase)
    reads b`evs, b.evs`ioDelay, b.evs`ioTag, b.evs`tag
  {
    forall i {:trigger SameAt(b.evs[i])} :: 0 <= i < |b.evs| ==> SameAt(b.evs[i])
  }

  /** Without ev, the first event is due no earlier. */
  lemma RemoveFirst(q: seq<Ev>, ev: Ev)
    requires Sorted(q) && ev in q
    ensures |Remove(q, ev)| > 0 ==> |q| > 0 && q[0].deadline <= Remove(q, ev)[0].deadline
  {
    RemoveSorted(q, ev);
    RemoveIs(q, ev);
  }

  method DelTimeout(b: EventBase, ev: Ev)
    requires b.Valid() && ev in b.evs
    modifies b`heap, b`eventCount, b`tally, b.common`events, ev`timeout
    ensures b.Valid() && !ev.timeout && b.heap == old(b.heap) - {ev}
    ensures forall k {:trigger b.common[k].events} :: 0 <= k < |b.common| ==>
              b.common[k].events == if old(ev.timeout) && ev.tag == k then Remove(old(b.common[k].events), ev)
                  else old(b.common[k].events)
    ensures forall k {:trigger ScheduledAt(b, k)} :: 0 <= k < |b.common| && b.common[k].timer != ev ==>
              old(ScheduledAt(b, k)) ==> ScheduledAt(b, k)
  {
    ghost var n := Place(b.evs, ev);
    assert b.TimeoutAt(b.evs[n]);
    if ev.timeout {
      RemoveTimeout(b, ev);
      forall k | 0 <= k < |b.common| && b.common[k].timer != ev && old(ScheduledAt(b, k)) ensures ScheduledAt(b, k) {
        assert old(b.CommonAt(k));
        if ev.tag == k { RemoveFirst(old(b.common[k].events), ev); }
      }
    }
  }

  method DelActive(b: EventBase, ev: Ev)
    requires b.Valid() && ev in b.evs
    modifies b`activeQueues, b`laterQueue, b`eventCountActive, b`eventCount, b`tally, ev`active, ev`later
    ensures b.Valid() && !ev.active && !ev.later
    ensures ev.pri < |old(b.activeQueues)|
    ensures b.activeQueues == if old(ev.active)
              then old(b.activeQueues)[ev.pri := Remove(old(b.activeQueues)[ev.pri], ev)] else old(b.activeQueues)
    ensures b.laterQueue == if old(ev.later) then Remove(old(b.laterQueue), ev) else old(b.laterQueue)
    ensures forall k {:trigger ScheduledAt(b, k)} :: 0 <= k < |b.common| && b.common[k].timer != ev ==>
              old(ScheduledAt(b, k)) ==> ScheduledAt(b, k)
  {
    ghost var n := Place(b.evs, ev);
    assert b.ActiveAt(b.evs[n]);
    if ev.active {
      RemoveActive(b, ev);
    } else if ev.later {
      RemoveLater(b, ev);
    }
  }

  /** event_del_nolock_: the event stands in no queue any more. */
  method Del(b: EventBase, ev: Ev)
    requires b.Valid() && ev in b.evs
    modifies b`activeQueues, b`laterQueue, b`heap, b`eventCountActive, b`eventCount, b`tally, b.common`events
    modifies ev`inserted, ev`timeout, ev`active, ev`later
    ensures b.Valid() && !ev.inserted && !ev.timeout && !ev.active && !ev.later
    ensures ev.pri < |old(b.activeQueues)|
    ensures b.activeQueues == if old(ev.active)
              then old(b.activeQueues)[ev.pri := Remove(old(b.activeQueues)[ev.pri], ev)] else old(b.activeQueues)
    ensures b.laterQueue == if old(ev.later) then Remove(old(b.laterQueue), ev) else old(b.laterQueue)
    ensures b.heap == old(b.heap) - {ev}
    ensures forall k {:trigger b.common[k].events} :: 0 <= k < |b.common| ==>
              b.common[k].events == if old(ev.timeout) && ev.tag == k then Remove(old(b.common[k].events), ev)
                  else old(b.common[k].events)
    ensures forall k {:trigger ScheduledAt(b, k)} :: 0 <= k < |b.common| && b.common[k].timer != ev ==>
              old(ScheduledAt(b, k)) ==> ScheduledAt(b, k)
  {
    DelTimeout(b, ev);
    DelQueues(b, ev);
  }

  method DelQueues(b: EventBase, ev: Ev)
    requires b.Valid() && ev in b.evs
    modifies b`activeQueues, b`laterQueue, b`eventCountActive, b`eventCount, b`tally, ev`inserted, ev`active, ev`later
    ensures b.Valid() && !ev.inserted && !ev.active && !ev.later && ev.pri < |old(b.activeQueues)|
    ensures b.activeQueues == if old(ev.active)
              then old(b.activeQueues)[ev.pri := Remove(old(b.activeQueues)[ev.pri], ev)] else old(b.activeQueues)
    ensures b.laterQueue == if old(ev.later) then Remove(old(b.laterQueue), ev) else old(b.laterQueue)
    ensures forall k {:trigger ScheduledAt(b, k)} :: 0 <= k < |b.common| && b.common[k].timer != ev ==>
              old(ScheduledAt(b, k)) ==> ScheduledAt(b, k)
  {
    DelActive(b, ev);
    if ev.inserted {
      b.SetInserted(ev, false);
    }
  }

  /** event_callback_activate_nolock_: true unless the callback was active or to be so later. */
  method Activate(b: EventBase, ev: Ev) returns (r: bool)
    requires b.Valid() && ev in b.evs
    modifies b`activeQueues, b`laterQueue, b`eventCountActive, b`eventCount, b`tally, ev`active, ev`later
    ensures b.Valid() && ev.active && !ev.later
    ensures r == old(!ev.active && !ev.later) && ev.pri < |old(b.activeQueues)|
    ensures b.activeQueues == if old(ev.active) then old(b.activeQueues)
                              else old(b.activeQueues)[ev.pri := old(b.activeQueues)[ev.pri] + [ev]]
    ensures b.laterQueue == if old(ev.later) then Remove(old(b.laterQueue), ev) else old(b.laterQueue)
    ensures forall k {:trigger ScheduledAt(b, k)} :: 0 <= k < |b.common| && old(ScheduledAt(b, k)) ==> ScheduledAt(b, k)
  {
    ghost var n := Place(b.evs, ev);
    assert b.ActiveAt(b.evs[n]);
    r := true;
    if ev.later {
      RemoveLater(b, ev);
      r := false;
    } else if ev.active {
      return false;
    }
    InsertActive(b, ev);
  }

  /** event_active_nolock_: results of an event that is still waiting are put together. */
  method Active(b: EventBase, ev: Ev, res: set<Res>)
    requires b.Valid() && ev in b.evs
    modifies b`activeQueues, b`laterQueue, b`eventCountActive, b`eventCount, b`tally, ev`active, ev`later, ev`res
    ensures b.Valid() && ev.active && !ev.later
    ensures ev.res == (if old(ev.active || ev.later) then old(ev.res) + res else res) && ev.pri < |old(b.activeQueues)|
    ensures b.activeQueues == if old(ev.active) then old(b.activeQueues)
                              else old(b.activeQueues)[ev.pri := old(b.activeQueues)[ev.pri] + [ev]]
    ensures b.laterQueue == if old(ev.later) then Remove(old(b.laterQueue), ev) else old(b.laterQueue)
    ensures forall k {:trigger ScheduledAt(b, k)} :: 0 <= k < |b.common| && old(ScheduledAt(b, k)) ==> ScheduledAt(b, k)
  {
    ghost var n := Place(b.evs, ev);
    assert b.ActiveAt(b.evs[n]);
    if ev.active {
      ev.res := ev.res + res;
      return;
    } else if ev.later {
      ev.res := ev.res + res;
    } else {
      ev.res := res;
    }
    var r := Activate(b, ev);
  }

  /** event_active_later_nolock_ */
  method ActiveLater(b: EventBase, ev: Ev, res: set<Res>)
    requires b.Valid() && ev in b.evs
    modifies b`laterQueue, b`eventCountActive, b`eventCount, b`tally, ev`later, ev`res
    ensures b.Valid() && (ev.later <==> !ev.active)
    ensures ev.res == if old(ev.active || ev.later) then old(ev.res) + res else res
    ensures b.laterQueue == if old(ev.active || ev.later) then old(b.laterQueue) else old(b.laterQueue) + [ev]
    ensures forall k {:trigger ScheduledAt(b, k)} :: 0 <= k < |b.common| && old(ScheduledAt(b, k)) ==> ScheduledAt(b, k)
  {
    ghost var n := Place(b.evs, ev);
    assert b.ActiveAt(b.evs[n]);
    if ev.active || ev.later {
      ev.res := ev.res + res;
      return;
    }
    ev.res := res;
    InsertLater(b, ev);
  }

  // ---------- adding ----------

  /** Setting ev_timeout and putting the event into the heap or the list of its common timeout. */
  method PlaceTimeout(b: EventBase, ev: Ev, deadline: int, tag: int)
    requires b.Valid() && ev in b.evs && !ev.timeout && -1 <= tag < |b.common|
    modifies b`heap, b`eventCount, b`tally, b.common`events, ev`timeout, ev`deadline, ev`tag
    ensures b.Valid() && ev.timeout && ev.deadline == deadline && ev.tag == tag
    ensures b.heap == if tag == -1 then old(b.heap) + {ev} else old(b.heap)
    ensures forall k {:trigger b.common[k].events} :: 0 <= k < |b.common| && k != tag ==>
              b.common[k].events == old(b.common[k].events)
    ensures tag >= 0 ==> IsInserted(old(b.common[tag].events), b.common[tag].events, ev)
  {
    ghost var n := Place(b.evs, ev);
    assert b.TimeoutAt(b.evs[n]);
    forall k | 0 <= k < |b.common| ensures ev !in b.common[k].events { }
    ev.deadline, ev.tag := deadline, tag;
    forall k | 0 <= k < |b.common| ensures b.CommonAt(k) {
      assert old(b.CommonAt(k));
      var q := b.common[k].events;
      forall i, j | 0 <= i < j < |q| ensures InOrder(q[i], q[j]) {
        assert old(InOrder(q[i], q[j])) && q[i] in q && q[j] in q;
      }
    }
    forall m | 0 <= m < |b.evs| ensures b.TimeoutAt(b.evs[m]) {
      assert old(b.TimeoutAt(b.evs[m]));
    }
    InsertTimeout(b, ev);
  }

  /** The part of event_add_nolock_ that is about the timeout: a timeout that the event has is forgotten,
      and so is that it is active for one. */
  method AddTimeout(b: EventBase, ev: Ev, deadline: int, tag: int)
    requires b.Valid() && ev in b.evs && -1 <= tag < |b.common|
    modifies b`activeQueues, b`eventCountActive, b`heap, b`eventCount, b`tally, b.common`events
    modifies ev`timeout, ev`deadline, ev`tag, ev`active
    ensures b.Valid() && ev.timeout && ev.deadline == deadline && ev.tag == tag
    ensures ev.active == (old(ev.active) && TimedOut !in ev.res) && ev.pri < |old(b.activeQueues)|
    ensures b.activeQueues == if old(ev.active) && TimedOut in ev.res
                              then old(b.activeQueues)[ev.pri := Remove(old(b.activeQueues)[ev.pri], ev)]
                                  else old(b.activeQueues)
    ensures tag >= 0 ==> |b.common[tag].events| > 0
    ensures forall k {:trigger ScheduledAt(b, k)} :: 0 <= k < |b.common| && b.common[k].timer != ev ==>
              old(ScheduledAt(b, k)) ==> (k == tag && b.common[k].events[0] == ev) || ScheduledAt(b, k)
    ensures forall k {:trigger b.common[k].events} :: 0 <= k < |b.common| && tag == -1 && old(ev.tag) == -1 ==>
              b.common[k].events == old(b.common[k].events)
  {
    DelTimeout(b, ev);
    DelTimedOut(b, ev);
    PlaceKeeps(b, ev, deadline, tag);
  }

  /** Rescheduling a timeout takes the event out of the active queue if it is there for one. */
  method DelTimedOut(b: EventBase, ev: Ev)
    requires b.Valid() && ev in b.evs
    modifies b`activeQueues, b`eventCountActive, b`eventCount, b`tally, ev`active
    ensures b.Valid() && ev.active == (old(ev.active) && TimedOut !in ev.res) && ev.pri < |old(b.activeQueues)|
    ensures b.activeQueues == if old(ev.active) && TimedOut in ev.res
                              then old(b.activeQueues)[ev.pri := Remove(old(b.activeQueues)[ev.pri], ev)]
                                  else old(b.activeQueues)
    ensures forall k {:trigger ScheduledAt(b, k)} :: 0 <= k < |b.common| && b.common[k].timer != ev ==>
              old(ScheduledAt(b, k)) ==> ScheduledAt(b, k)
  {
    ghost var n := Place(b.evs, ev);
    assert b.ActiveAt(b.evs[n]);
    if ev.active && TimedOut in ev.res {
      RemoveActive(b, ev);
    }
  }

  method PlaceKeeps(b: EventBase, ev: Ev, deadline: int, tag: int)
    requires b.Valid() && ev in b.evs && !ev.timeout && -1 <= tag < |b.common|
    modifies b`heap, b`eventCount, b`tally, b.common`events, ev`timeout, ev`deadline, ev`tag
    ensures b.Valid() && ev.timeout && ev.deadline == deadline && ev.tag == tag
    ensures forall k {:trigger b.common[k].events} :: 0 <= k < |b.common| && k != tag ==>
              b.common[k].events == old(b.common[k].events)
    ensures tag >= 0 ==> |b.common[tag].events| > 0
    ensures forall k {:trigger ScheduledAt(b, k)} :: 0 <= k < |b.common| && b.common[k].timer != ev ==>
              old(ScheduledAt(b, k)) ==> (k == tag && b.common[k].events[0] == ev) || ScheduledAt(b, k)
  {
    ghost var n := Place(b.evs, ev);
    assert b.TimeoutAt(b.evs[n]);
    PlaceTimeout(b, ev, deadline, tag);
    if tag >= 0 {
      ghost var q, r := old(b.common[tag].events), b.common[tag].events;
      ghost var i: nat :| i <= |q| && r == q[..i] + [ev] + q[i..]
        && (i == 0 <==> |q| == 0 || ev.deadline < q[0].deadline);
      assert i > 0 ==> r[0] == q[0];
    }
    forall k | 0 <= k < |b.common| && b.common[k].timer != ev && old(ScheduledAt(b, k))
      ensures (k == tag && b.common[k].events[0] == ev) || ScheduledAt(b, k) {
      ghost var q := old(b.common[k].events);
      assert |q| > 0 ==> q[0] in q;
    }
  }

  /** common_timeout_schedule: the timer is set for when the first event is due. */
  method Schedule(b: EventBase, k: nat)
    requires b.Valid() && k < |b.common| && ScheduledBut(b, k) && |b.common[k].events| > 0
    modifies b`activeQueues, b`eventCountActive, b`heap, b`eventCount, b`tally, b.common`events
    modifies b.common[k].timer`timeout, b.common[k].timer`deadline, b.common[k].timer`tag, b.common[k].timer`active
    ensures b.Valid() && Scheduled(b) && (old(SameTimeouts(b)) ==> SameTimeouts(b))
    ensures forall m {:trigger b.common[m].events} :: 0 <= m < |b.common| ==>
              b.common[m].events == old(b.common[m].events)
    ensures var c := b.common[k]; |c.events| > 0 && c.timer.timeout && c.timer.deadline == c.events[0].deadline
  {
    var t := b.common[k].timer;
    assert TimerAt(b, k) && b.CommonAt(k);
    var head := b.common[k].events[0];
    assert head.tag == k by {
      ghost var n := Place(b.evs, head);
      assert b.TimeoutAt(b.evs[n]) && head in b.common[k].events;
    }
    AddTimeout(b, t, head.deadline, -1);
    forall m | 0 <= m < |b.common| ensures TimerAt(b, m) && ScheduledAt(b, m) && b.CommonAt(m) {
      assert old(TimerAt(b, m));
      assert m != k ==> old(ScheduledAt(b, m)) && b.common[m] != b.common[k] && b.common[m].timer != t;
    }
    forall i | 0 <= i < |b.evs| && old(SameTimeouts(b)) ensures SameAt(b.evs[i]) {
      assert old(SameAt(b.evs[i]));
    }
  }

  /** A timeout as it is given: when, absolute or from now on, and the index of a common timeout or -1. */
  datatype Timeout = NoTimeout | Timeout(t: int, tag: int)

  /** The timers of the common timeouts. */
  ghost function Timers(b: EventBase): set<Ev>
    reads b`common
  {
    set k | 0 <= k < |b.common| :: b.common[k].timer
  }

  /** event_add_nolock_; mapped says whether the event's descriptor or signal could be added to its map. */
  method Add(b: EventBase, ev: Ev, tv: Timeout, absolute: bool, now: int, mapped: bool) returns (ok: bool)
    requires b.Valid() && Scheduled(b) && ev in b.evs && NoTimer(b, ev)
    requires tv.Timeout? ==> -1 <= tv.tag < |b.common|
    modifies b`activeQueues, b`eventCountActive, b`heap, b`eventCount, b`tally, b.common`events
    modifies ev`inserted, ev`timeout, ev`deadline, ev`tag, ev`active, ev`ioDelay, ev`ioTag
    modifies Timers(b)`timeout, Timers(b)`deadline, Timers(b)`tag, Timers(b)`active
    ensures b.Valid() && Scheduled(b)
    ensures old(SameTimeouts(b) && (tv.Timeout? && (absolute || !ev.Repeats()) ==> GoesWith(ev, tv.tag))) ==>
              SameTimeouts(b)
    ensures ok == (mapped || !ev.io || old(ev.inserted || ev.active || ev.later))
    ensures ev.inserted == (old(ev.inserted) || (ok && ev.io && !old(ev.active) && !old(ev.later)))
    ensures ok && tv.Timeout? ==> ev.timeout && ev.tag == tv.tag && ev.deadline == if absolute then tv.t else now + tv.t
    ensures ok && tv.Timeout? ==> ev.active == (old(ev.active) && TimedOut !in ev.res)
    ensures !ok || tv.NoTimeout? ==> b.activeQueues == old(b.activeQueues) && b.heap == old(b.heap)
    ensures !ok || tv.NoTimeout? ==>
              ev.timeout == old(ev.timeout) && ev.active == old(ev.active) && ev.deadline == old(ev.deadline)
              && ev.tag == old(ev.tag)
    ensures if ok && tv.Timeout? && ev.Repeats() && !absolute then ev.ioDelay == tv.t && ev.ioTag == tv.tag
            else ev.ioDelay == old(ev.ioDelay) && ev.ioTag == old(ev.ioTag)
  {
    ok := AddToMap(b, ev, mapped);
    if ok && tv.Timeout? {
      AddWithTimeout(b, ev, tv.t, tv.tag, absolute, now);
    }
  }

  /** The part of event_add_nolock_ that is about the descriptor or the signal. */
  method AddToMap(b: EventBase, ev: Ev, mapped: bool) returns (ok: bool)
    requires b.Valid() && Scheduled(b) && ev in b.evs && NoTimer(b, ev)
    modifies b`eventCount, b`tally, ev`inserted
    ensures b.Valid() && Scheduled(b)
    ensures ok == (mapped || !ev.io || old(ev.inserted || ev.active || ev.later))
    ensures ev.inserted == (old(ev.inserted) || (ok && ev.io && !old(ev.active) && !old(ev.later)))
  {
    ok := true;
    if ev.io && !(ev.inserted || ev.active || ev.later) {
      ok := mapped;
      if ok {
        b.SetInserted(ev, true);
      }
    }
  }

  /** The part of event_add_nolock_ that is about the timeout: a persistent event that is not a signal
      remembers it as its interval. */
  method AddWithTimeout(b: EventBase, ev: Ev, t: int, tag: int, absolute: bool, now: int)
    requires b.Valid() && Scheduled(b) && ev in b.evs && NoTimer(b, ev) && -1 <= tag < |b.common|
    modifies b`activeQueues, b`eventCountActive, b`heap, b`eventCount, b`tally, b.common`events
    modifies ev`timeout, ev`deadline, ev`tag, ev`active, ev`ioDelay, ev`ioTag
    modifies Timers(b)`timeout, Timers(b)`deadline, Timers(b)`tag, Timers(b)`active
    ensures b.Valid() && Scheduled(b) && ev.timeout && ev.tag == tag && ev.deadline == if absolute then t else now + t
    ensures ev.active == (old(ev.active) && TimedOut !in ev.res)
    ensures if ev.Repeats() && !absolute then ev.ioDelay == t && ev.ioTag == tag
            else ev.ioDelay == old(ev.ioDelay) && ev.ioTag == old(ev.ioTag)
    ensures old(SameTimeouts(b) && ((absolute || !ev.Repeats()) ==> GoesWith(ev, tag))) ==> SameTimeouts(b)
  {
    if ev.Repeats() && !absolute {
      ev.ioDelay, ev.ioTag := t, tag;
    }
    assert old(SameTimeouts(b)) ==> SameButFor(b, ev) by {
      forall i | 0 <= i < |b.evs| && b.evs[i] != ev && old(SameTimeouts(b)) ensures SameAt(b.evs[i]) {
        assert old(SameAt(b.evs[i]));
      }
    }
    AddDeadline(b, ev, if absolute then t else now + t, tag);
  }

  method AddDeadline(b: EventBase, ev: Ev, deadline: int, tag: int)
    requires b.Valid() && Scheduled(b) && ev in b.evs && NoTimer(b, ev) && -1 <= tag < |b.common|
    modifies b`activeQueues, b`eventCountActive, b`heap, b`eventCount, b`tally, b.common`events
    modifies ev`timeout, ev`deadline, ev`tag, ev`active
    modifies Timers(b)`timeout, Timers(b)`deadline, Timers(b)`tag, Timers(b)`active
    ensures b.Valid() && Scheduled(b) && ev.timeout && ev.tag == tag && ev.deadline == deadline
    ensures ev.active == (old(ev.active) && TimedOut !in ev.res)
    ensures old(SameButFor(b, ev)) && GoesWith(ev, tag) ==> SameTimeouts(b)
  {
    AddTimeout(b, ev, deadline, tag);
    forall k | 0 <= k < |b.common| ensures TimerAt(b, k) && (k != tag ==> ScheduledAt(b, k) && b.CommonAt(k)) {
      assert old(TimerAt(b, k)) && old(ScheduledAt(b, k)) && b.common[k].timer != ev;
    }
    if tag >= 0 {
      if b.common[tag].events[0] == ev {
        Schedule(b, tag);
      } else {
        assert old(ScheduledAt(b, tag)) && b.CommonAt(tag);
      }
    }
    forall i | 0 <= i < |b.evs| && old(SameButFor(b, ev)) && GoesWith(ev, tag) ensures SameAt(b.evs[i]) {
      assert b.evs[i] != ev ==> old(SameAt(b.evs[i]));
    }
  }

  // ---------- new events ----------

  /** event_assign, and the like for other callbacks: the base comes to know a new event. */
  ghost method Assign(b: EventBase, ev: Ev)
    requires b.Valid() && ev !in b.evs && ev.pri < |b.activeQueues| && ev.tag == -1
    requires !ev.inserted && !ev.timeout && !ev.active && !ev.later
    modifies b`evs, b`tally
    ensures b.Valid() && b.evs == old(b.evs) + [ev]
    ensures old(SameTimeouts(b)) && SameAt(ev) ==> SameTimeouts(b)
    ensures forall k {:trigger ScheduledAt(b, k)} :: 0 <= k < |b.common| && old(ScheduledAt(b, k)) ==> ScheduledAt(b, k)
  {
    var evs, tally := b.evs, b.tally;
    DistinctSnoc(evs, ev);
    SumSnoc(tally, 0, |tally|);
    b.evs, b.tally := evs + [ev], tally + [0];
    forall i | 0 <= i < |b.evs| ensures b.ActiveAt(b.evs[i]) && b.TimeoutAt(b.evs[i]) && b.TallyAt(i) {
      if i < |evs| {
        assert old(b.ActiveAt(evs[i]) && b.TimeoutAt(evs[i]) && b.TallyAt(i));
      } else {
        assert ev.pri < |b.activeQueues| && old(b.QueueAt(ev.pri));
        forall k | 0 <= k < |b.common| ensures ev !in b.common[k].events { assert old(b.CommonAt(k)); }
      }
    }
    forall p | 0 <= p < |b.activeQueues| ensures b.QueueAt(p) { assert old(b.QueueAt(p)); }
    forall k | 0 <= k < |b.common| ensures b.CommonAt(k) { assert old(b.CommonAt(k)); }
    assert old(SameTimeouts(b)) && SameAt(ev) ==> SameTimeouts(b) by {
      forall i | 0 <= i < |evs| && old(SameTimeouts(b)) ensures SameAt(b.evs[i]) { assert old(SameAt(evs[i])); }
    }
  }

  lemma {:induction false} SumSnoc(t: seq<nat>, x: nat, n: nat)
    requires n <= |t|
    ensures Sum(t + [x], n) == Sum(t, n)
    ensures n == |t| ==> Sum(t + [x], n + 1) == Sum(t, n) + x
  {
    if n > 0 {
      SumSnoc(t, x, n - 1);
    }
  }

  const MAX_COMMON_TIMEOUTS: nat := 256

  /** The duration that is looked for: that of a common timeout, or one of more than a million microseconds, is
      carried into seconds; a million microseconds are not. */
  function Carried(d: Duration, common: bool): Duration {
    if common || d.usec > 1000000 then Duration(d.sec + d.usec / 1000000, d.usec % 1000000) else d
  }

  /** There is one common timeout for each pair of seconds and up to a million microseconds. */
  ghost predicate Durations(b: EventBase)
    reads b`common
  {
    && (forall i {:trigger b.common[i]} :: 0 <= i < |b.common| ==> b.common[i].duration.usec <= 1000000)
    && (forall i, j {:trigger b.common[i], b.common[j]} ::
          0 <= i < j < |b.common| ==> b.common[i].duration != b.common[j].duration)
  }

  /** So two of them take the same time if and only if one is a million microseconds long where the other has a
      second. */
  lemma SameTime(b: EventBase, i: nat, j: nat)
    requires Durations(b) && i < |b.common| && j < |b.common| && i != j
    ensures var d, e := b.common[i].duration, b.common[j].duration;
      d.Total() == e.Total() <==>
      || (d.usec == 0 && e.usec == 1000000 && d.sec == e.sec + 1)
      || (e.usec == 0 && d.usec == 1000000 && e.sec == d.sec + 1)
  {
    var d, e := b.common[i].duration, b.common[j].duration;
    assert d != e by {
      if i < j { assert d != e; } else { assert e != d; }
    }
  }

  /** event_base_init_common_timeout: the index of the common timeout of that duration, which may be new;
      or -1 if there are too many already. common says whether the duration is that of a common timeout of b. */
  method InitCommonTimeout(b: EventBase, d: Duration, common: bool) returns (k: int)
    requires b.Valid() && Scheduled(b) && |b.activeQueues| > 0
    modifies b`common, b`evs, b`tally
    ensures b.Valid() && Scheduled(b) && (old(SameTimeouts(b)) ==> SameTimeouts(b))
    ensures old(Durations(b)) ==> Durations(b)
    ensures k != -1 ==> 0 <= k < |b.common| && b.common[k].duration == Carried(d, common)
    ensures k != -1 ==> b.common[k].duration.Total() == d.Total()
    ensures k == -1 ==> b.common == old(b.common) && |b.common| == MAX_COMMON_TIMEOUTS
    ensures |old(b.common)| <= MAX_COMMON_TIMEOUTS ==> |b.common| <= MAX_COMMON_TIMEOUTS
    ensures old(b.common) <= b.common && |b.common| <= |old(b.common)| + 1
    ensures (exists i :: 0 <= i < |old(b.common)| && old(b.common)[i].duration == Carried(d, common)) ==>
              b.common == old(b.common) && k != -1
    ensures b.activeQueues == old(b.activeQueues)
  {
    var duration := d;
    if common || duration.usec > 1000000 {
      duration := Duration(duration.sec + duration.usec / 1000000, duration.usec % 1000000);
    }
    var i := 0;
    while i < |b.common|
      invariant i <= |b.common| && forall j {:trigger b.common[j]} :: 0 <= j < i ==> b.common[j].duration != duration
    {
      if b.common[i].duration == duration {
        return i;
      }
      i := i + 1;
    }
    if |b.common| == MAX_COMMON_TIMEOUTS {
      return -1;
    }
    var ctl := new CommonTimeout(duration);
    Assign(b, ctl.timer);
    AppendCommon(b, ctl);
    k := |b.common| - 1;
  }

  /** A million microseconds and a second get two common timeouts. */
  method TwoForOneSecond(b: EventBase) returns (k: int, n: int)
    requires b.Valid() && Scheduled(b) && |b.activeQueues| > 0 && |b.common| + 2 <= MAX_COMMON_TIMEOUTS && Durations(b)
    modifies b`common, b`evs, b`tally
    ensures b.Valid() && Scheduled(b) && Durations(b) && 0 <= k < |b.common| && 0 <= n < |b.common| && k != n
    ensures b.common[k].duration.Total() == b.common[n].duration.Total() == 1000000
  {
    k := InitCommonTimeout(b, Duration(0, 1000000), false);
    n := InitCommonTimeout(b, Duration(1, 0), false);
  }

  method AppendCommon(b: EventBase, ctl: CommonTimeout)
    requires b.Valid() && ScheduledBut(b, -1) && ctl.timer in b.evs && ctl.events == [] && ctl !in b.common
    requires NoTimer(b, ctl.timer)
    requires ctl.timer.isEvent && ctl.timer.internal && !ctl.timer.io && !ctl.timer.persist && ctl.timer.tag == -1
    modifies b`common
    ensures b.Valid() && Scheduled(b) && b.common == old(b.common) + [ctl]
  {
    ghost var n := |b.common|;
    b.common := b.common + [ctl];
    forall k | 0 <= k < |b.common| ensures b.CommonAt(k) && TimerAt(b, k) && ScheduledAt(b, k)
      && b.common[k].timer in b.evs {
      if k < n {
        assert old(b.CommonAt(k) && TimerAt(b, k) && ScheduledAt(b, k));
      }
    }
    forall i | 0 <= i < |b.evs| ensures b.TimeoutAt(b.evs[i]) {
      assert old(b.TimeoutAt(b.evs[i]));
    }
  }

  // ---------- the check ----------

  /** event_base_assert_ok_nolock_, as far as it looks at common timeouts and active queues: no check fails. */
  method AssertOk(b: EventBase) returns (ok: bool)
    requires b.Valid()
    ensures ok
  {
    ok := true;
    var i := 0;
    while i < |b.common|
      invariant i <= |b.common| && ok
    {
      var q, j := b.common[i].events, 0;
      assert b.CommonAt(i);
      while j < |q|
        invariant j <= |q| && ok
      {
        ghost var n := Place(b.evs, q[j]);
        assert b.TimeoutAt(b.evs[n]) && q[j] in b.common[i].events;
        assert j > 0 ==> InOrder(q[j - 1], q[j]);
        ok := ok && (j == 0 || q[j - 1].deadline <= q[j].deadline) && q[j].timeout && q[j].tag == i;
        j := j + 1;
      }
      i := i + 1;
    }
    var count, p := 0, 0;
    while p < |b.activeQueues|
      invariant p <= |b.activeQueues| && ok && count == Lengths(b.activeQueues, p)
    {
      var q, j := b.activeQueues[p], 0;
      assert b.QueueAt(p);
      while j < |q|
        invariant j <= |q| && ok && count == Lengths(b.activeQueues, p) + j
      {
        ghost var n := Place(b.evs, q[j]);
        assert b.ActiveAt(b.evs[n]) && b.activeQueues[p][j].pri == p && q[j] in b.activeQueues[p];
        ok := ok && q[j].active && !q[j].later && q[j].pri == p;
        count, j := count + 1, j + 1;
      }
      p := p + 1;
    }
    var j := 0;
    while j < |b.laterQueue|
      invariant j <= |b.laterQueue| && ok && count == Lengths(b.activeQueues, |b.activeQueues|) + j
    {
      ghost var n := Place(b.evs, b.laterQueue[j]);
      assert b.ActiveAt(b.evs[n]);
      ok := ok && b.laterQueue[j].later && !b.laterQueue[j].active;
      count, j := count + 1, j + 1;
    }
    ok := ok && count == b.eventCountActive;
  }
}
