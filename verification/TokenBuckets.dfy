/** Token buckets: how many bytes may be read or written, tick by tick. */
module TokenBuckets {
  const TWO_32: int := 0x1_0000_0000
  const TWO_64: int := 0x1_0000_0000_0000_0000
  const INT_MAX: int := 0x7FFF_FFFF
  const SSIZE_MAX: int := 0x7FFF_FFFF_FFFF_FFFF
  const SSIZE_MIN: int := -0x8000_0000_0000_0000

  /** size_t and ev_ssize_t arithmetic */
  function Unsigned(x: int): (r: int)
    ensures 0 <= r < TWO_64
  {
    x % TWO_64
  }

  function Signed(x: int): int {
    if Unsigned(x) > SSIZE_MAX then Unsigned(x) - TWO_64 else Unsigned(x)
  }

  type Tick = x: int | 0 <= x < TWO_32
  type Limit = x: int | SSIZE_MIN <= x <= SSIZE_MAX witness 0

  function Min(a: int, b: int): int {
    if a < b then a else b
  }

  /** One direction of a configuration that ev_token_bucket_cfg_new lets pass. */
  predicate RateOk(rate: int, maximum: int) {
    1 <= rate <= maximum <= SSIZE_MAX
  }

  /** What ev_token_bucket_update_ does to one limit when n ticks have passed. */
  function Refilled(limit: Limit, rate: int, maximum: int, n: int): (r: Limit)
    requires RateOk(rate, maximum) && 1 <= n <= INT_MAX
  {
    if Unsigned(maximum - limit) / n < rate then maximum else Signed(limit + Unsigned(n * rate))
  }

  /** What it is meant to do. */
  function Naive(limit: int, rate: int, maximum: int, n: int): int {
    Min(maximum, limit + n * rate)
  }

  lemma DivLess(d: int, n: int, rate: int)
    requires n >= 1 && d >= 0
    ensures d / n < rate <==> d < n * rate
  {
    var q, r := d / n, d % n;
    assert d == n * q + r;
    if q < rate { assert n * (q + 1) <= n * rate; } else { assert n * rate <= n * q; }
  }

  /** The arithmetic that avoids overflow gives what is meant for just those limits that are not above
      the maximum or that so many ticks would carry past the end of the unsigned range. */
  lemma RefilledIsNaive(limit: Limit, rate: int, maximum: int, n: int)
    requires RateOk(rate, maximum) && 1 <= n <= INT_MAX
    ensures Refilled(limit, rate, maximum, n) == Naive(limit, rate, maximum, n)
            <==> limit <= maximum || Unsigned(maximum - limit) <= n * rate
  {
    RefilledBySum(limit, rate, maximum, n);
    SumIsMeant(limit, maximum, n * rate);
  }

  lemma RefilledBySum(limit: Limit, rate: int, maximum: int, n: int)
    requires RateOk(rate, maximum) && 1 <= n <= INT_MAX
    ensures 1 <= n * rate
    ensures Refilled(limit, rate, maximum, n)
            == if Unsigned(maximum - limit) < n * rate then maximum else Signed(limit + Unsigned(n * rate))
  {
    DivLess(Unsigned(maximum - limit), n, rate);
  }

  lemma SumIsMeant(limit: Limit, maximum: int, sum: int)
    requires 1 <= maximum <= SSIZE_MAX && 1 <= sum
    ensures (if Unsigned(maximum - limit) < sum then maximum else Signed(limit + Unsigned(sum)))
              == Min(maximum, limit + sum)
            <==> limit <= maximum || Unsigned(maximum - limit) <= sum
  {
    assert Unsigned(maximum - limit) == if limit <= maximum then maximum - limit else TWO_64 + maximum - limit;
    assert sum <= Unsigned(maximum - limit) ==> Unsigned(sum) == sum;
  }

  /** Two refills are one for all the ticks. */
  lemma RefillTwice(limit: Limit, rate: int, maximum: int, n: int, m: int)
    requires RateOk(rate, maximum) && 1 <= n && 1 <= m && n + m <= INT_MAX && limit <= maximum
    ensures Refilled(Refilled(limit, rate, maximum, n), rate, maximum, m) == Refilled(limit, rate, maximum, n + m)
  {
    var once, twice := Naive(limit, rate, maximum, n), Naive(limit, rate, maximum, n + m);
    BelowIsNaive(limit, rate, maximum, n, once);
    BelowIsNaive(limit, rate, maximum, n + m, twice);
    NaiveTwice(limit, rate, maximum, n, m);
    BelowIsNaive(once, rate, maximum, m, twice);
  }

  lemma BelowIsNaive(limit: Limit, rate: int, maximum: int, n: int, r: int)
    requires RateOk(rate, maximum) && 1 <= n <= INT_MAX && limit <= maximum && r == Naive(limit, rate, maximum, n)
    ensures Refilled(limit, rate, maximum, n) == r <= maximum
  {
    RefilledIsNaive(limit, rate, maximum, n);
  }

  lemma NaiveTwice(limit: int, rate: int, maximum: int, n: int, m: int)
    requires rate >= 0 && m >= 0
    ensures Naive(Naive(limit, rate, maximum, n), rate, maximum, m) == Naive(limit, rate, maximum, n + m)
  {
    assert (n + m) * rate == n * rate + m * rate && m * rate >= 0;
  }

  /** A positive limit comes out of a refill zero or negative just when it was above the maximum and the
      sum does not fit into a signed word. */
  lemma RefillLosesSign(limit: Limit, rate: int, maximum: int, n: int)
    requires RateOk(rate, maximum) && 1 <= n <= INT_MAX && limit > 0
    ensures Refilled(limit, rate, maximum, n) <= 0 <==>
            maximum < limit && n * rate <= Unsigned(maximum - limit) && SSIZE_MAX < limit + n * rate
                            && limit + n * rate <= TWO_64
  {
    RefilledBySum(limit, rate, maximum, n);
    SumLosesSign(limit, maximum, n * rate);
  }

  lemma SumLosesSign(limit: Limit, maximum: int, sum: int)
    requires 1 <= maximum <= SSIZE_MAX && 1 <= sum && limit > 0
    ensures (if Unsigned(maximum - limit) < sum then maximum else Signed(limit + Unsigned(sum))) <= 0 <==>
            maximum < limit && sum <= Unsigned(maximum - limit) && SSIZE_MAX < limit + sum && limit + sum <= TWO_64
  {
    assert Unsigned(maximum - limit) == if limit <= maximum then maximum - limit else TWO_64 + maximum - limit;
    assert sum <= Unsigned(maximum - limit) ==> Unsigned(sum) == sum;
  }

  /** One unit above a huge limit is already below zero. */
  lemma SignIsLost()
    ensures Refilled(SSIZE_MAX, 1, 1, 1) == SSIZE_MIN
  {
    assert Unsigned(1 - SSIZE_MAX) == TWO_64 + 1 - SSIZE_MAX;
  }

  datatype Cfg = Cfg(readRate: int, readMaximum: int, writeRate: int, writeMaximum: int)

  predicate CfgOk(cfg: Cfg) {
    RateOk(cfg.readRate, cfg.readMaximum) && RateOk(cfg.writeRate, cfg.writeMaximum)
  }

  /** Ticks from last to now, and whether they count: time neither stood still nor went back. */
  function TicksBetween(last: Tick, now: Tick): (n: int)
    ensures 0 <= n < TWO_32
  {
    (now - last) % TWO_32
  }

  predicate Passed(last: Tick, now: Tick) {
    1 <= TicksBetween(last, now) <= INT_MAX
  }

  /** Ticks add up, even if their number wraps around. */
  lemma TicksAddUp(a: Tick, b: Tick, c: Tick)
    requires TicksBetween(a, b) + TicksBetween(b, c) < TWO_32
    ensures TicksBetween(a, c) == TicksBetween(a, b) + TicksBetween(b, c)
  {
  }

  /** One limit after an update. */
  function Updated(limit: Limit, rate: int, maximum: int, last: Tick, now: Tick): (r: Limit)
    requires RateOk(rate, maximum)
  {
    if Passed(last, now) then Refilled(limit, rate, maximum, TicksBetween(last, now)) else limit
  }

  /** A second update at the same tick does nothing. */
  lemma LookTwice(limit: Limit, rate: int, maximum: int, last: Tick, now: Tick)
    requires RateOk(rate, maximum)
    ensures var once := Updated(limit, rate, maximum, last, now);
      Updated(once, rate, maximum, if Passed(last, now) then now else last, now) == once
  {
    SameTick(Updated(limit, rate, maximum, last, now), rate, maximum, now);
  }

  lemma SameTick(limit: Limit, rate: int, maximum: int, now: Tick)
    requires RateOk(rate, maximum)
    ensures Updated(limit, rate, maximum, now, now) == limit
  {
  }

  /** An update at tick now turns a positive limit into one that is not: it is above the maximum, and the sum does
      not fit into a signed word. */
  predicate LosesSign(limit: Limit, rate: int, maximum: int, last: Tick, now: Tick)
    requires RateOk(rate, maximum)
  {
    var sum := limit + TicksBetween(last, now) * rate;
    && Passed(last, now) && 0 < maximum < limit && SSIZE_MAX < sum <= TWO_64
    && sum - limit <= Unsigned(maximum - limit)
  }

  lemma UpdateLosesSign(limit: Limit, rate: int, maximum: int, last: Tick, now: Tick)
    requires RateOk(rate, maximum) && limit > 0
    ensures Updated(limit, rate, maximum, last, now) <= 0 <==> LosesSign(limit, rate, maximum, last, now)
  {
    if Passed(last, now) {
      RefillLosesSign(limit, rate, maximum, TicksBetween(last, now));
    }
  }

  /** A limit that is not above the maximum is positive after an update if and only if the ticks passed make up
      for what it lacks. */
  lemma EnoughTicks(limit: Limit, rate: int, maximum: int, last: Tick, now: Tick)
    requires RateOk(rate, maximum) && limit <= maximum && Passed(last, now)
    ensures Updated(limit, rate, maximum, last, now) > 0 <==> limit + TicksBetween(last, now) * rate > 0
  {
    RefilledIsNaive(limit, rate, maximum, TicksBetween(last, now));
  }

  /** struct ev_token_bucket */
  class Bucket {
    var readLimit: Limit
    var writeLimit: Limit
    var lastUpdated: Tick

    /** All of it, and whether that is still so. */
    ghost function Now(): (Limit, Limit, Tick)
      reads this
    {
      (readLimit, writeLimit, lastUpdated)
    }

    ghost predicate Same(was: (Limit, Limit, Tick))
      reads this
    {
      Now() == was
    }

    /** The level for reading. */
    ghost function Reading(): Level
      reads this
    {
      Level(readLimit, lastUpdated)
    }

    constructor ()
      ensures readLimit == 0 && writeLimit == 0 && lastUpdated == 0
    {
      readLimit, writeLimit, lastUpdated := 0, 0, 0;
    }

    /** ev_token_bucket_init_ */
    method Init(cfg: Cfg, now: Tick, reinitialize: bool)
      requires CfgOk(cfg)
      modifies this
      ensures reinitialize ==> readLimit == Min(old(readLimit), cfg.readMaximum)
                               && writeLimit == Min(old(writeLimit), cfg.writeMaximum)
                                  && lastUpdated == old(lastUpdated)
      ensures !reinitialize ==> readLimit == cfg.readRate && writeLimit == cfg.writeRate && lastUpdated == now
    {
      if reinitialize {
        if readLimit > cfg.readMaximum {
          readLimit := cfg.readMaximum;
        }
        if writeLimit > cfg.writeMaximum {
          writeLimit := cfg.writeMaximum;
        }
      } else {
        readLimit, writeLimit := cfg.readRate, cfg.writeRate;
        lastUpdated := now;
      }
    }

    /** ev_token_bucket_update_ */
    method Update(cfg: Cfg, now: Tick) returns (updated: bool)
      requires CfgOk(cfg)
      modifies this
      ensures updated <==> Passed(old(lastUpdated), now)
      ensures readLimit == Updated(old(readLimit), cfg.readRate, cfg.readMaximum, old(lastUpdated), now)
      ensures writeLimit == Updated(old(writeLimit), cfg.writeRate, cfg.writeMaximum, old(lastUpdated), now)
      ensures lastUpdated == if updated then now else old(lastUpdated)
    {
      var nTicks := (now - lastUpdated) % TWO_32;
      if nTicks == 0 || nTicks > INT_MAX {
        return false;
      }
      if Unsigned(cfg.readMaximum - readLimit) / nTicks < cfg.readRate {
        readLimit := cfg.readMaximum;
      } else {
        readLimit := Signed(readLimit + Unsigned(nTicks * cfg.readRate));
      }
      if Unsigned(cfg.writeMaximum - writeLimit) / nTicks < cfg.writeRate {
        writeLimit := cfg.writeMaximum;
      } else {
        writeLimit := Signed(writeLimit + Unsigned(nTicks * cfg.writeRate));
      }
      lastUpdated := now;
      return true;
    }
  }

  /** Updating on the way makes no difference, also when the tick number wraps around. */
  lemma UpdateTwice(limit: Limit, rate: int, maximum: int, a: Tick, b: Tick, c: Tick)
    requires RateOk(rate, maximum) && limit <= maximum && Passed(a, b) && Passed(b, c)
    requires TicksBetween(a, b) + TicksBetween(b, c) <= INT_MAX
    ensures Updated(Updated(limit, rate, maximum, a, b), rate, maximum, b, c) == Updated(limit, rate, maximum, a, c)
  {
    TicksAddUp(a, b, c);
    RefillTwice(limit, rate, maximum, TicksBetween(a, b), TicksBetween(b, c));
  }

  // ---------- runs ----------

  /** Bytes are charged, or the limit is brought up to date. */
  datatype Act = Charge(bytes: nat) | Look(now: Tick)

  /** One limit and the tick of its last update. */
  datatype Level = Level(limit: Limit, last: Tick)

  /** One step of the code, in words of 64 bits. */
  function Then(l: Level, rate: int, maximum: int, a: Act): Level
    requires RateOk(rate, maximum)
  {
    match a
    case Charge(bytes) => l.(limit := Signed(l.limit - bytes))
    case Look(now) => Level(Updated(l.limit, rate, maximum, l.last, now), if Passed(l.last, now) then now else l.last)
  }

  function Run(l: Level, rate: int, maximum: int, acts: seq<Act>): Level
    requires RateOk(rate, maximum)
  {
    if |acts| == 0 then l
    else Then(Run(l, rate, maximum, acts[..|acts| - 1]), rate, maximum, acts[|acts| - 1])
  }

  /** No charge goes below the least word. */
  predicate NoWrap(l: Level, rate: int, maximum: int, acts: seq<Act>)
    requires RateOk(rate, maximum)
  {
    |acts| == 0 ||
    var init, a := acts[..|acts| - 1], acts[|acts| - 1];
    && NoWrap(l, rate, maximum, init)
    && (a.Charge? ==> SSIZE_MIN <= Run(l, rate, maximum, init).limit - a.bytes)
  }

  /** One step of a run, in the middle of it. */
  lemma {:induction false} NoWrapAt(l: Level, rate: int, maximum: int, acts: seq<Act>, i: nat)
    requires RateOk(rate, maximum) && i < |acts| && NoWrap(l, rate, maximum, acts)
    ensures acts[i].Charge? ==> SSIZE_MIN <= Run(l, rate, maximum, acts[..i]).limit - acts[i].bytes
    ensures Run(l, rate, maximum, acts[..i + 1]) == Then(Run(l, rate, maximum, acts[..i]), rate, maximum, acts[i])
    decreases |acts|
  {
    assert acts[..i + 1][..i] == acts[..i];
    if i < |acts| - 1 {
      var init := acts[..|acts| - 1];
      assert init[..i] == acts[..i] && init[..i + 1] == acts[..i + 1];
      NoWrapAt(l, rate, maximum, init, i);
    }
  }

  /** The tick of the last update after a run that began with tick last. */
  function LastLook(last: Tick, acts: seq<Act>): Tick {
    if |acts| == 0 then last
    else
      var before, a := LastLook(last, acts[..|acts| - 1]), acts[|acts| - 1];
      if a.Look? && Passed(before, a.now) then a.now else before
  }

  /** The ticks that passed, from one update to the next. */
  function TicksIn(last: Tick, acts: seq<Act>): nat {
    if |acts| == 0 then 0
    else
      var init, a := acts[..|acts| - 1], acts[|acts| - 1];
      var before := LastLook(last, init);
      TicksIn(last, init) + if a.Look? && Passed(before, a.now) then TicksBetween(before, a.now) else 0
  }

  function Charged(acts: seq<Act>): nat {
    if |acts| == 0 then 0
    else Charged(acts[..|acts| - 1]) + match acts[|acts| - 1] case Charge(bytes) => bytes case Look(_) => 0
  }

  /** The same run with unbounded numbers and the update as it is meant. */
  function NaiveRun(limit: int, last: Tick, rate: int, maximum: int, acts: seq<Act>): int {
    if |acts| == 0 then limit
    else
      var init := acts[..|acts| - 1];
      var before, at := NaiveRun(limit, last, rate, maximum, init), LastLook(last, init);
      match acts[|acts| - 1]
      case Charge(bytes) => before - bytes
      case Look(now) => if Passed(at, now) then Naive(before, rate, maximum, TicksBetween(at, now)) else before
  }

  lemma StepIsNaive(l: Level, rate: int, maximum: int, a: Act)
    requires RateOk(rate, maximum) && l.limit <= maximum && (a.Charge? ==> SSIZE_MIN <= l.limit - a.bytes)
    ensures Then(l, rate, maximum, a).limit <= maximum
    ensures Then(l, rate, maximum, a).limit ==
            match a
            case Charge(bytes) => l.limit - bytes
            case Look(now) =>
              if Passed(l.last, now) then Naive(l.limit, rate, maximum, TicksBetween(l.last, now)) else l.limit
  {
    if a.Look? && Passed(l.last, a.now) {
      RefilledIsNaive(l.limit, rate, maximum, TicksBetween(l.last, a.now));
    }
  }

  /** On every run that starts with no more than the maximum, the code computes what is meant. */
  lemma {:induction false} RunIsNaive(l: Level, rate: int, maximum: int, acts: seq<Act>)
    requires RateOk(rate, maximum) && l.limit <= maximum && NoWrap(l, rate, maximum, acts)
    ensures Run(l, rate, maximum, acts).limit == NaiveRun(l.limit, l.last, rate, maximum, acts) <= maximum
    ensures Run(l, rate, maximum, acts).last == LastLook(l.last, acts)
  {
    if |acts| > 0 {
      var init, a := acts[..|acts| - 1], acts[|acts| - 1];
      RunIsNaive(l, rate, maximum, init);
      StepIsNaive(Run(l, rate, maximum, init), rate, maximum, a);
    }
  }

  lemma {:induction false} NaiveConserves(limit: int, last: Tick, rate: int, maximum: int, acts: seq<Act>)
    requires rate >= 1
    ensures Charged(acts) + NaiveRun(limit, last, rate, maximum, acts) <= limit + rate * TicksIn(last, acts)
  {
    if |acts| > 0 {
      var init, a := acts[..|acts| - 1], acts[|acts| - 1];
      NaiveConserves(limit, last, rate, maximum, init);
      var before, at := TicksIn(last, init), LastLook(last, init);
      if a.Look? && Passed(at, a.now) {
        MoreTicks(NaiveRun(limit, last, rate, maximum, init), rate, maximum, before, TicksBetween(at, a.now));
      }
    }
  }

  /** n ticks bring no more than n times the rate. */
  lemma MoreTicks(limit: int, rate: int, maximum: int, before: nat, n: nat)
    ensures Naive(limit, rate, maximum, n) - limit <= rate * (before + n) - rate * before
  {
    assert rate * (before + n) == rate * before + n * rate;
  }

  /** Over every such run: the bytes charged and what is left are no more than what was there and what the ticks
      brought; and no more is left than the maximum. */
  lemma Conservation(l: Level, rate: int, maximum: int, acts: seq<Act>)
    requires RateOk(rate, maximum) && l.limit <= maximum && NoWrap(l, rate, maximum, acts)
    ensures Charged(acts) + Run(l, rate, maximum, acts).limit <= l.limit + rate * TicksIn(l.last, acts)
    ensures Run(l, rate, maximum, acts).limit <= maximum
  {
    RunIsNaive(l, rate, maximum, acts);
    NaiveConserves(l.limit, l.last, rate, maximum, acts);
  }
}
