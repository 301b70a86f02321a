/** An event base: events, the queues they stand in, and the counters over these. */
module EventBases {

  /** Bits of ev_res. */
  datatype Res = TimedOut | Readable | Writable | Signalled

  /** struct event, or a bare event_callback; io if it has a descriptor or a signal. Times are microseconds; tag is
      the index of a common timeout that the source keeps in the high bits of tv_usec, or -1. */
  class Ev {
    const isEvent: bool
    const internal: bool
    const io: bool
    const signal: bool
    const persist: bool
    const pri: nat

    var inserted: bool
    var timeout: bool
    var active: bool
    var later: bool
    var res: set<Res>
    var deadline: int
    var tag: int
    var ioDelay: int
    var ioTag: int

    constructor (isEvent: bool, internal: bool, io: bool, signal: bool, persist: bool, pri: nat)
      ensures this.isEvent == isEvent && this.internal == internal && this.io == io && this.signal == signal
              && this.persist == persist && this.pri == pri
      ensures !inserted && !timeout && !active && !later && res == {} && tag == -1 && ioDelay == 0 && ioTag == -1
    {
      this.isEvent, this.internal, this.io, this.signal := isEvent, internal, io, signal;
      this.persist, this.pri := persist, pri;
      inserted, timeout, active, later, res := false, false, false, false, {};
      deadline, tag, ioDelay, ioTag := 0, -1, 0, -1;
    }

    /** The closure is EV_CLOSURE_EVENT_PERSIST; a signal has another one. */
    predicate Repeats() {
      persist && !signal
    }
  }

  /** struct timeval, without the bits that mark a common timeout */
  datatype Duration = Duration(sec: nat, usec: nat) {
    function Total(): nat {
      sec * 1000000 + usec
    }
  }

  /** struct common_timeout_list; running from when its timer's callback is called until that is done. */
  class CommonTimeout {
    const duration: Duration
    const timer: Ev
    var events: seq<Ev>
    var running: bool

    constructor (duration: Duration)
      ensures this.duration == duration && events == [] && !running
      ensures fresh(timer) && timer.isEvent && timer.internal && !timer.io && !timer.persist && timer.pri == 0
      ensures !timer.inserted && !timer.timeout && !timer.active && !timer.later && timer.tag == -1
              && timer.ioDelay == 0 && timer.ioTag == -1
    {
      this.duration := duration;
      timer := new Ev(true, true, false, false, false, 0);
      events, running := [], false;
    }
  }

  // ---------- queues ----------

  ghost predicate Differ(x: Ev, y: Ev) {
    x != y
  }

  ghost predicate Distinct(q: seq<Ev>) {
    forall i, j {:trigger Differ(q[i], q[j])} :: 0 <= i < j < |q| ==> Differ(q[i], q[j])
  }

  /** TAILQ_REMOVE */
  function Remove(q: seq<Ev>, e: Ev): seq<Ev> {
    if |q| == 0 then [] else if q[0] == e then q[1..] else [q[0]] + Remove(q[1..], e)
  }

  /** The place of an element. */
  ghost function Place(q: seq<Ev>, e: Ev): (i: nat)
    requires e in q
    ensures i < |q| && q[i] == e
    ensures forall j {:trigger q[j]} :: 0 <= j < i ==> q[j] != e
  {
    if q[0] == e then 0 else 1 + Place(q[1..], e)
  }

  lemma {:induction false} RemoveIs(q: seq<Ev>, e: Ev)
    requires e in q
    ensures Remove(q, e) == q[..Place(q, e)] + q[Place(q, e) + 1..]
  {
    if q[0] != e {
      RemoveIs(q[1..], e);
    }
  }

  lemma RemoveDistinct(q: seq<Ev>, e: Ev)
    requires Distinct(q) && e in q
    ensures Distinct(Remove(q, e)) && e !in Remove(q, e)
  {
    RemoveIs(q, e);
    var i, r := Place(q, e), Remove(q, e);
    forall a, b | 0 <= a < b < |r| ensures Differ(r[a], r[b]) {
      assert Differ(q[if a < i then a else a + 1], q[if b < i then b else b + 1]);
    }
    forall a | 0 <= a < |r| ensures r[a] != e {
      assert if a < i then Differ(q[a], q[i]) else Differ(q[i], q[a + 1]);
    }
  }

  lemma RemoveKeeps(q: seq<Ev>, e: Ev)
    requires Distinct(q) && e in q
    ensures var r := Remove(q, e);
      Distinct(r) && |r| == |q| - 1 && forall x {:trigger x in r} {:trigger x in q} :: x in r <==> x in q && x != e
    ensures Within(Remove(q, e), q)
  {
    RemoveIs(q, e);
    RemoveDistinct(q, e);
    var i, r := Place(q, e), Remove(q, e);
    forall a | 0 <= a < |r| ensures r[a] in q {
      assert q[if a < i then a else a + 1] == r[a];
    }
    forall x | x in q && x != e ensures x in r {
      var k :| 0 <= k < |q| && q[k] == x;
      assert r[if k < i then k else k - 1] == x;
    }
  }

  lemma DistinctSnoc(q: seq<Ev>, e: Ev)
    requires Distinct(q) && e !in q
    ensures Distinct(q + [e])
  {
    var r := q + [e];
    forall a, b | 0 <= a < b < |r| ensures Differ(r[a], r[b]) {
      assert b < |q| ==> Differ(q[a], q[b]);
    }
  }

  ghost function Lengths(qs: seq<seq<Ev>>, n: nat): nat
    requires n <= |qs|
  {
    if n == 0 then 0 else Lengths(qs, n - 1) + |qs[n - 1]|
  }

  lemma {:induction false} LengthsUpdate(qs: seq<seq<Ev>>, n: nat, p: nat, q: seq<Ev>)
    requires n <= |qs| && p < |qs|
    ensures Lengths(qs[p := q], n) == Lengths(qs, n) + if p < n then |q| - |qs[p]| else 0
  {
    if n > 0 {
      LengthsUpdate(qs, n - 1, p, q);
    }
  }

  ghost function Sum(t: seq<nat>, n: nat): nat
    requires n <= |t|
  {
    if n == 0 then 0 else Sum(t, n - 1) + t[n - 1]
  }

  lemma {:induction false} SumUpdate(t: seq<nat>, n: nat, i: nat, x: nat)
    requires n <= |t| && i < |t|
    ensures Sum(t[i := x], n) == Sum(t, n) + if i < n then x - t[i] else 0
  {
    if n > 0 {
      SumUpdate(t, n - 1, i, x);
    }
  }

  ghost function One(b: bool): nat {
    if b then 1 else 0
  }

  /** The number of queues that an event stands in and that are counted. */
  ghost function Weight(e: Ev): nat
    reads e`inserted, e`timeout, e`active, e`later
  {
    if e.internal then 0 else One(e.inserted) + One(e.timeout) + One(e.active) + One(e.later)
  }

  ghost predicate Within(q: seq<Ev>, evs: seq<Ev>) {
    forall i {:trigger q[i]} :: 0 <= i < |q| ==> q[i] in evs
  }

  ghost predicate Sorted(q: seq<Ev>)
    reads q`deadline
  {
    forall i, j {:trigger InOrder(q[i], q[j])} :: 0 <= i < j < |q| ==> InOrder(q[i], q[j])
  }

  ghost predicate InOrder(x: Ev, y: Ev)
    reads x`deadline, y`deadline
  {
    x.deadline <= y.deadline
  }

  class EventBase {
    var activeQueues: seq<seq<Ev>>
    var laterQueue: seq<Ev>
    /** The min-heap, of which only its members matter here. */
    var heap: set<Ev>
    var common: seq<CommonTimeout>
    var eventCount: int
    var eventCountActive: int

    /** All events and callbacks of the base, and the number of counted queues each stands in. */
    ghost var evs: seq<Ev>
    ghost var tally: seq<nat>

    // ---------- the invariant ----------

    ghost predicate ActiveAt(e: Ev)
      reads this`activeQueues, this`laterQueue, e`active, e`later
    {
      && e.pri < |activeQueues|
      && (e.active <==> e in activeQueues[e.pri]) && (e.later <==> e in laterQueue) && !(e.active && e.later)
    }

    ghost predicate QueueAt(p: nat)
      requires p < |activeQueues|
      reads this`activeQueues, this`evs
    {
      && Distinct(activeQueues[p]) && Within(activeQueues[p], evs)
      && forall i {:trigger activeQueues[p][i]} :: 0 <= i < |activeQueues[p]| ==> activeQueues[p][i].pri == p
    }

    /** Each event stands in just the active queues its flags name. */
    ghost predicate ActiveOk()
      reads this`activeQueues, this`laterQueue, this`evs, this`eventCountActive, evs`active, evs`later
    {
      && (forall i {:trigger ActiveAt(evs[i])} :: 0 <= i < |evs| ==> ActiveAt(evs[i]))
      && (forall p {:trigger QueueAt(p)} :: 0 <= p < |activeQueues| ==> QueueAt(p))
      && Distinct(laterQueue) && Within(laterQueue, evs)
      && eventCountActive == Lengths(activeQueues, |activeQueues|) + |laterQueue|
    }

    ghost predicate TimeoutAt(e: Ev)
      reads this`heap, this`common, common`events, e`timeout, e`tag
    {
      && -1 <= e.tag < |common|
      && (e in heap <==> e.timeout && e.tag == -1)
      && (forall k {:trigger common[k].events} :: 0 <= k < |common| ==>
         (e in common[k].events <==> e.timeout && e.tag == k))
    }

    /** A common timeout's list is in order. */
    ghost predicate CommonAt(k: nat)
      requires k < |common|
      reads this`common, this`evs, common`events, evs`deadline
    {
      Distinct(common[k].events) && Within(common[k].events, evs) && Sorted(common[k].events)
    }

    /** Each event with a timeout stands in the heap or in the list of its common timeout. */
    ghost predicate TimeoutOk()
      reads this`heap, this`common, this`evs, common`events, evs`timeout, evs`tag, evs`deadline
    {
      && (forall i {:trigger TimeoutAt(evs[i])} :: 0 <= i < |evs| ==> TimeoutAt(evs[i]))
      && (forall x {:trigger x in heap} :: x in heap ==> x in evs)
      && (forall k {:trigger CommonAt(k)} :: 0 <= k < |common| ==> CommonAt(k))
      && (forall k, l {:trigger common[k], common[l]} :: 0 <= k < l < |common| ==>
         common[k] != common[l] && common[k].timer != common[l].timer)
      && (forall k {:trigger common[k].timer} :: 0 <= k < |common| ==> common[k].timer in evs)
    }

    ghost predicate TallyAt(i: nat)
      requires i < |evs| && i < |tally|
      reads this`evs, this`tally, evs`inserted, evs`timeout, evs`active, evs`later
    {
      tally[i] == Weight(evs[i])
    }

    /** The count of events is that of the queue memberships of events that are not internal. */
    ghost predicate CountOk()
      reads this`evs, this`tally, this`eventCount, evs`inserted, evs`timeout, evs`active, evs`later
    {
      && Distinct(evs) && |tally| == |evs| && eventCount == Sum(tally, |tally|)
      && (forall i {:trigger TallyAt(i)} :: 0 <= i < |evs| ==> TallyAt(i))
    }

    /** What event_base_assert_ok_nolock_ checks, and more. */
    ghost predicate Valid()
      reads this, evs, common
    {
      ActiveOk() && TimeoutOk() && CountOk()
    }

    constructor (priorities: nat)
      ensures Valid() && evs == [] && common == [] && |activeQueues| == priorities
    {
      activeQueues, laterQueue, heap, common := seq(priorities, _ => []), [], {}, [];
      eventCount, eventCountActive, evs, tally := 0, 0, [], [];
      new;
      NoLengths(activeQueues, priorities);
    }

    // ---------- the counters ----------

    /** All other events are counted as they should be, and ev as w. */
    ghost predicate CountedAs(ev: Ev, w: nat)
      requires ev in evs
      reads this`evs, this`tally, this`eventCount, evs`inserted, evs`timeout, evs`active, evs`later
    {
      && Distinct(evs) && |tally| == |evs| && eventCount == Sum(tally, |tally|) && tally[Place(evs, ev)] == w
      && (forall i {:trigger TallyAt(i)} :: 0 <= i < |evs| && evs[i] != ev ==> TallyAt(i))
    }

    /** INCR_EVENT_COUNT or DECR_EVENT_COUNT, with one of the flags that are counted. */
    method Recount(ev: Ev, up: bool, ghost w: nat)
      requires ev in evs && CountedAs(ev, w)
      requires Weight(ev) == if ev.internal then w else if up then w + 1 else w - 1
      modifies this`eventCount, this`tally
      ensures CountOk()
    {
      ghost var i, was := Place(evs, ev), tally;
      OnlyOne(evs, i);
      if !ev.internal {
        eventCount := eventCount + if up then 1 else -1;
      }
      tally := was[i := Weight(ev)];
      SumUpdate(was, |was|, i, Weight(ev));
      forall j | 0 <= j < |evs| ensures TallyAt(j) {
        assert j != i ==> evs[j] != ev && old(TallyAt(j));
      }
    }

    /** Setting or clearing EVLIST_ACTIVE. */
    method SetActive(ev: Ev, to: bool)
      requires CountOk() && ev in evs && ev.active != to
      modifies this`eventCount, this`tally, ev`active
      ensures CountOk() && ev.active == to
    {
      ghost var w := Weight(ev);
      assert TallyAt(Place(evs, ev));
      ev.active := to;
      forall i | 0 <= i < |evs| && evs[i] != ev ensures TallyAt(i) { assert old(TallyAt(i)); }
      Recount(ev, to, w);
    }

    /** The same for EVLIST_ACTIVE_LATER. */
    method SetLater(ev: Ev, to: bool)
      requires CountOk() && ev in evs && ev.later != to
      modifies this`eventCount, this`tally, ev`later
      ensures CountOk() && ev.later == to
    {
      ghost var w := Weight(ev);
      assert TallyAt(Place(evs, ev));
      ev.later := to;
      forall i | 0 <= i < |evs| && evs[i] != ev ensures TallyAt(i) { assert old(TallyAt(i)); }
      Recount(ev, to, w);
    }

    /** The same for EVLIST_TIMEOUT. */
    method SetTimeout(ev: Ev, to: bool)
      requires CountOk() && ev in evs && ev.timeout != to
      modifies this`eventCount, this`tally, ev`timeout
      ensures CountOk() && ev.timeout == to
    {
      ghost var w := Weight(ev);
      assert TallyAt(Place(evs, ev));
      ev.timeout := to;
      forall i | 0 <= i < |evs| && evs[i] != ev ensures TallyAt(i) { assert old(TallyAt(i)); }
      Recount(ev, to, w);
    }

    /** event_queue_insert_inserted and event_queue_remove_inserted */
    method SetInserted(ev: Ev, to: bool)
      requires CountOk() && ev in evs && ev.inserted != to
      modifies this`eventCount, this`tally, ev`inserted
      ensures CountOk() && ev.inserted == to
    {
      ghost var w := Weight(ev);
      assert TallyAt(Place(evs, ev));
      ev.inserted := to;
      forall i | 0 <= i < |evs| && evs[i] != ev ensures TallyAt(i) { assert old(TallyAt(i)); }
      Recount(ev, to, w);
    }
  }

  lemma {:induction false} NoLengths(qs: seq<seq<Ev>>, n: nat)
    requires n <= |qs| && forall p {:trigger qs[p]} :: 0 <= p < |qs| ==> qs[p] == []
    ensures Lengths(qs, n) == 0
  {
    if n > 0 {
      NoLengths(qs, n - 1);
    }
  }

  lemma OnlyOne(q: seq<Ev>, i: nat)
    requires Distinct(q) && i < |q|
    ensures forall j {:trigger q[j]} :: 0 <= j < |q| && j != i ==> q[j] != q[i]
  {
    forall j | 0 <= j < |q| && j != i ensures q[j] != q[i] {
      assert if j < i then Differ(q[j], q[i]) else Differ(q[i], q[j]);
    }
  }
}
