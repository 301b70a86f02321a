/** Bufferevents: suspending each direction for one or more reasons, and the rate limit of one bufferevent. */
module BevLimits {
  import opened TokenBuckets

  /** bufferevent_suspend_flags */
  datatype Why = Watermark | Bw | BwGroup | Lookup | FiltRead

  /** A configuration is compared by its address. */
  class Config {
    const cfg: Cfg

    constructor (cfg: Cfg)
      ensures this.cfg == cfg
    {
      this.cfg := cfg;
    }
  }

  function Max(a: int, b: int): int {
    if a < b then b else a
  }

  /** Signed division, which rounds towards zero. */
  function TruncDiv(a: int, b: int): int
    requires b > 0
  {
    if a >= 0 then a / b else -(-a / b)
  }

  /** q is a divided by b, rounded towards zero. */
  predicate IsQuotient(a: int, b: int, q: int) {
    if a >= 0 then q * b <= a < (q + 1) * b else (q - 1) * b < a <= q * b
  }

  lemma TruncDivIs(a: int, b: int)
    requires b > 0
    ensures IsQuotient(a, b, TruncDiv(a, b)) && forall q :: IsQuotient(a, b, q) ==> q == TruncDiv(a, b)
  {
    var d := TruncDiv(a, b);
    var n := if a >= 0 then a else -a;
    assert n == b * (n / b) + n % b;
    assert n / b * b <= n < (n / b + 1) * b;
    assert a < 0 ==> (d - 1) * b == -((n / b + 1) * b) && d * b == -(n / b * b);
    forall q | IsQuotient(a, b, q) ensures q == d {
      if q < d { MoreIsNone(a, b, q, d); }
      if d < q { MoreIsNone(a, b, d, q); }
    }
  }

  lemma MoreIsNone(a: int, b: int, p: int, q: int)
    requires b > 0 && p < q && IsQuotient(a, b, p)
    ensures !IsQuotient(a, b, q)
  {
    assert (p + 1) * b <= q * b && p * b <= (q - 1) * b;
  }

  /** A member's share is the least share or, if that is more, an equal part of what is left. */
  lemma ShareIs(limit: Limit, members: int, minShare: Limit) returns (q: int)
    requires members > 0
    ensures IsQuotient(limit, members, q)
    ensures Group(false, limit, members, minShare).Share() == if q > minShare then q else minShare
  {
    TruncDivIs(limit, members);
    q := TruncDiv(limit, members);
  }

  /** What a member sees of its group's state in one direction, under the group's lock. */
  datatype GroupView = NoGroup | Group(suspended: bool, limit: Limit, members: int, minShare: Limit) {
    /** An equal part of what is left, but no less than the least share. */
    function Share(): int
      requires Group? && members > 0
    {
      Max(minShare, TruncDiv(limit, members))
    }
  }

  class Bufferevent {
    var readSuspended: set<Why>
    var writeSuspended: set<Why>
    var readEnabled: bool
    var writeEnabled: bool
    /** What the backend was told last, direction by direction. */
    var readOn: bool
    var writeOn: bool

    /** struct bufferevent_rate_limit */
    var limiting: bool
    var cfg: Config?
    const limit: Bucket
    /** The refill timer: waiting, due but not yet called back, called back. */
    var pending: bool
    var active: bool
    var running: bool

    constructor ()
      ensures FlagsOk() && Watched() && Alert() && !limiting && cfg == null
      ensures fresh(limit)
    {
      limit := new Bucket();
      readSuspended, writeSuspended, readEnabled, writeEnabled, readOn, writeOn := {}, {}, false, false, false, false;
      limiting, cfg, pending, active, running := false, null, false, false, false;
    }

    /** The backend works in a direction if and only if that is enabled and there is no reason against it. */
    ghost predicate FlagsOk()
      reads this
    {
      && (readOn <==> readEnabled && readSuspended == {})
      && (writeOn <==> writeEnabled && writeSuspended == {})
    }

    /** A direction that is suspended for the limit will be looked at again. */
    ghost predicate Watched()
      reads this
    {
      && (cfg != null ==> limiting && CfgOk(cfg.cfg))
      && (cfg == null ==> Bw !in readSuspended && Bw !in writeSuspended && !pending && !active)
      && (Bw in readSuspended || Bw in writeSuspended ==> pending || active || running)
    }

    /** A direction whose limit is used up is suspended. */
    ghost predicate Alert()
      reads this, limit
    {
      cfg != null ==> (limit.readLimit <= 0 ==> Bw in readSuspended) && (limit.writeLimit <= 0 ==> Bw in writeSuspended)
    }

    // ---------- the flags ----------

    /** bufferevent_suspend_read_ */
    method SuspendRead(what: Why)
      requires FlagsOk()
      modifies this`readSuspended, this`readOn
      ensures FlagsOk() && readSuspended == old(readSuspended) + {what}
    {
      if readSuspended == {} {
        readOn := false;
      }
      readSuspended := readSuspended + {what};
    }

    /** bufferevent_unsuspend_read_ */
    method UnsuspendRead(what: Why)
      requires FlagsOk()
      modifies this`readSuspended, this`readOn
      ensures FlagsOk() && readSuspended == old(readSuspended) - {what}
    {
      readSuspended := readSuspended - {what};
      if readSuspended == {} && readEnabled {
        readOn := true;
      }
    }

    /** bufferevent_suspend_write_ */
    method SuspendWrite(what: Why)
      requires FlagsOk()
      modifies this`writeSuspended, this`writeOn
      ensures FlagsOk() && writeSuspended == old(writeSuspended) + {what}
    {
      if writeSuspended == {} {
        writeOn := false;
      }
      writeSuspended := writeSuspended + {what};
    }

    /** bufferevent_unsuspend_write_ */
    method UnsuspendWrite(what: Why)
      requires FlagsOk()
      modifies this`writeSuspended, this`writeOn
      ensures FlagsOk() && writeSuspended == old(writeSuspended) - {what}
    {
      writeSuspended := writeSuspended - {what};
      if writeSuspended == {} && writeEnabled {
        writeOn := true;
      }
    }

    /** bufferevent_enable */
    method Enable(read: bool, write: bool)
      requires FlagsOk()
      modifies this`readEnabled, this`writeEnabled, this`readOn, this`writeOn
      ensures FlagsOk() && readEnabled == (old(readEnabled) || read) && writeEnabled == (old(writeEnabled) || write)
    {
      var implRead, implWrite := read, write;
      if readSuspended != {} {
        implRead := false;
      }
      if writeSuspended != {} {
        implWrite := false;
      }
      readEnabled, writeEnabled := readEnabled || read, writeEnabled || write;
      readOn, writeOn := readOn || implRead, writeOn || implWrite;
    }

    /** bufferevent_disable */
    method Disable(read: bool, write: bool)
      requires FlagsOk()
      modifies this`readEnabled, this`writeEnabled, this`readOn, this`writeOn
      ensures FlagsOk() && readEnabled == (old(readEnabled) && !read) && writeEnabled == (old(writeEnabled) && !write)
    {
      readEnabled, writeEnabled := readEnabled && !read, writeEnabled && !write;
      readOn, writeOn := readOn && !read, writeOn && !write;
    }

    // ---------- the limit ----------

    /** event_add and event_del of the refill timer; a callback that has begun is not stopped. */
    method AddTimer()
      modifies this`pending
      ensures pending
    {
      pending := true;
    }

    method DelTimer()
      modifies this`pending, this`active
      ensures !pending && !active
    {
      pending, active := false, false;
    }

    /** bufferevent_set_rate_limit */
    method SetRateLimit(to: Config?, now: Tick)
      requires FlagsOk() && Watched() && (to != null ==> CfgOk(to.cfg))
      modifies this, limit
      ensures FlagsOk() && Watched() && (old(Alert()) ==> Alert())
      ensures cfg == to && limiting == (old(limiting) || to != null)
      ensures to == null || to == old(cfg) ==> limit.Same(old(limit.Now()))
      ensures to == null ==> readSuspended == old(readSuspended) - {Bw} && writeSuspended == old(writeSuspended) - {Bw}
      ensures to == null && limiting ==> !pending && !active
      ensures to != null && to == old(cfg) ==>
                readSuspended == old(readSuspended) && writeSuspended == old(writeSuspended)
                && pending == old(pending) && active == old(active)
      ensures to != null && to != old(cfg) ==>
                && (Bw in readSuspended <==> limit.readLimit <= 0) && (Bw in writeSuspended <==> limit.writeLimit <= 0)
                && limit.readLimit == (if old(cfg) != null then Min(old(limit.readLimit), to.cfg.readMaximum)
                     else to.cfg.readRate)
                && limit.writeLimit == (if old(cfg) != null then Min(old(limit.writeLimit), to.cfg.writeMaximum)
                     else to.cfg.writeRate)
                && limit.lastUpdated == (if old(cfg) != null then old(limit.lastUpdated) else now)
                && active == (old(active) && old(cfg) == null)
                && pending == (Bw in readSuspended || Bw in writeSuspended || (old(pending) && old(cfg) == null))
      ensures running == old(running)
      ensures readSuspended - {Bw} == old(readSuspended) - {Bw} && writeSuspended - {Bw} == old(writeSuspended) - {Bw}
      ensures readEnabled == old(readEnabled) && writeEnabled == old(writeEnabled)
    {
      if to == null {
        if limiting {
          cfg := null;
          UnsuspendRead(Bw);
          UnsuspendWrite(Bw);
          DelTimer();
        }
        return;
      }
      if limiting && cfg == to {
        return;
      }
      limiting := true;
      var reinit := cfg != null;
      cfg := to;
      limit.Init(to.cfg, now, reinit);
      if reinit {
        DelTimer();
      }
      var suspended := SuspendUsedUp();
      if suspended {
        AddTimer();
      }
    }

    /** The part of bufferevent_set_rate_limit that compares the limits with zero. */
    method SuspendUsedUp() returns (suspended: bool)
      requires FlagsOk()
      modifies this`readSuspended, this`readOn, this`writeSuspended, this`writeOn
      ensures FlagsOk() && (suspended <==> limit.readLimit <= 0 || limit.writeLimit <= 0)
      ensures readSuspended == if limit.readLimit > 0 then old(readSuspended) - {Bw} else old(readSuspended) + {Bw}
      ensures writeSuspended == if limit.writeLimit > 0 then old(writeSuspended) - {Bw} else old(writeSuspended) + {Bw}
    {
      suspended := false;
      if limit.readLimit > 0 {
        UnsuspendRead(Bw);
      } else {
        SuspendRead(Bw);
        suspended := true;
      }
      if limit.writeLimit > 0 {
        UnsuspendWrite(Bw);
      } else {
        SuspendWrite(Bw);
        suspended := true;
      }
    }

    /** bufferevent_decrement_read_buckets_, as far as it is not about the group */
    method DecrementReadBuckets(bytes: int)
      requires FlagsOk() && Watched()
      requires SSIZE_MIN <= limit.readLimit - bytes <= SSIZE_MAX
      modifies this`readSuspended, this`readOn, this`pending, this`active, limit`readLimit
      ensures FlagsOk() && Watched() && (old(Alert()) ==> Alert())
      ensures cfg == null ==> limit.readLimit == old(limit.readLimit) && readSuspended == old(readSuspended)
      ensures cfg == null ==> pending == old(pending) && active == old(active)
      ensures cfg != null ==>
                limit.readLimit == old(limit.readLimit) - bytes && (Bw in readSuspended <==> limit.readLimit <= 0)
      ensures cfg != null ==>
                pending == (limit.readLimit <= 0
                  || (old(pending) && !(old(Bw in readSuspended) && Bw !in writeSuspended)))
                && active ==
                   (old(active) && !(limit.readLimit > 0 && old(Bw in readSuspended) && Bw !in writeSuspended))
      ensures readSuspended - {Bw} == old(readSuspended) - {Bw}
    {
      if !limiting {
        return;
      }
      if cfg != null {
        limit.readLimit := limit.readLimit - bytes;
        if limit.readLimit <= 0 {
          SuspendRead(Bw);
          AddTimer();
        } else if Bw in readSuspended {
          if Bw !in writeSuspended {
            DelTimer();
          }
          UnsuspendRead(Bw);
        }
      }
    }

    /** bufferevent_decrement_write_buckets_, as far as it is not about the group */
    method DecrementWriteBuckets(bytes: int)
      requires FlagsOk() && Watched()
      requires SSIZE_MIN <= limit.writeLimit - bytes <= SSIZE_MAX
      modifies this`writeSuspended, this`writeOn, this`pending, this`active, limit`writeLimit
      ensures FlagsOk() && Watched() && (old(Alert()) ==> Alert())
      ensures cfg == null ==> limit.writeLimit == old(limit.writeLimit) && writeSuspended == old(writeSuspended)
      ensures cfg == null ==> pending == old(pending) && active == old(active)
      ensures cfg != null ==>
                limit.writeLimit == old(limit.writeLimit) - bytes && (Bw in writeSuspended <==> limit.writeLimit <= 0)
      ensures cfg != null ==>
                pending == (limit.writeLimit <= 0
                  || (old(pending) && !(old(Bw in writeSuspended) && Bw !in readSuspended)))
                && active ==
                   (old(active) && !(limit.writeLimit > 0 && old(Bw in writeSuspended) && Bw !in readSuspended))
      ensures writeSuspended - {Bw} == old(writeSuspended) - {Bw}
    {
      if !limiting {
        return;
      }
      if cfg != null {
        limit.writeLimit := limit.writeLimit - bytes;
        if limit.writeLimit <= 0 {
          SuspendWrite(Bw);
          AddTimer();
        } else if Bw in writeSuspended {
          if Bw !in readSuspended {
            DelTimer();
          }
          UnsuspendWrite(Bw);
        }
      }
    }

    /** bufferevent_decrement_read_limit, which may also be used to fill up. It acts when the limit goes
        through zero, and so leaves a direction suspended that was refilled but not yet looked at. */
    method DecrementReadLimit(decr: int)
      requires FlagsOk() && Watched() && cfg != null
      requires SSIZE_MIN <= limit.readLimit - decr <= SSIZE_MAX
      modifies this`readSuspended, this`readOn, this`pending, this`active, limit`readLimit
      ensures FlagsOk() && Watched() && (old(Alert()) ==> Alert())
      ensures limit.readLimit == old(limit.readLimit) - decr
      ensures readSuspended == if old(limit.readLimit) <= 0 < limit.readLimit then old(readSuspended) - {Bw}
                else if limit.readLimit <= 0 < old(limit.readLimit) then old(readSuspended) + {Bw}
                else old(readSuspended)
      ensures var stops := old(limit.readLimit) <= 0 < limit.readLimit && Bw !in writeSuspended;
              && pending == ((old(pending) || limit.readLimit <= 0 < old(limit.readLimit)) && !stops)
              && active == (old(active) && !stops)
    {
      var oldLimit := limit.readLimit;
      limit.readLimit := limit.readLimit - decr;
      var newLimit := limit.readLimit;
      if oldLimit > 0 && newLimit <= 0 {
        SuspendRead(Bw);
        AddTimer();
      } else if oldLimit <= 0 && newLimit > 0 {
        if Bw !in writeSuspended {
          DelTimer();
        }
        UnsuspendRead(Bw);
      }
    }

    /** bufferevent_decrement_write_limit */
    method DecrementWriteLimit(decr: int)
      requires FlagsOk() && Watched() && cfg != null
      requires SSIZE_MIN <= limit.writeLimit - decr <= SSIZE_MAX
      modifies this`writeSuspended, this`writeOn, this`pending, this`active, limit`writeLimit
      ensures FlagsOk() && Watched() && (old(Alert()) ==> Alert())
      ensures limit.writeLimit == old(limit.writeLimit) - decr
      ensures writeSuspended == if old(limit.writeLimit) <= 0 < limit.writeLimit then old(writeSuspended) - {Bw}
                else if limit.writeLimit <= 0 < old(limit.writeLimit) then old(writeSuspended) + {Bw}
                else old(writeSuspended)
      ensures var stops := old(limit.writeLimit) <= 0 < limit.writeLimit && Bw !in readSuspended;
              && pending == ((old(pending) || limit.writeLimit <= 0 < old(limit.writeLimit)) && !stops)
              && active == (old(active) && !stops)
    {
      var oldLimit := limit.writeLimit;
      limit.writeLimit := limit.writeLimit - decr;
      var newLimit := limit.writeLimit;
      if oldLimit > 0 && newLimit <= 0 {
        SuspendWrite(Bw);
        AddTimer();
      } else if oldLimit <= 0 && newLimit > 0 {
        if Bw !in readSuspended {
          DelTimer();
        }
        UnsuspendWrite(Bw);
      }
    }

    /** An update at the given tick turns no limit, of a direction that is not suspended, from positive to used up. */
    ghost predicate KeepsAlert(now: Tick)
      requires cfg != null ==> CfgOk(cfg.cfg)
      reads this, limit
    {
      cfg != null ==>
        && (Bw in readSuspended ||
            !LosesSign(limit.readLimit, cfg.cfg.readRate, cfg.cfg.readMaximum, limit.lastUpdated, now))
        && (Bw in writeSuspended ||
            !LosesSign(limit.writeLimit, cfg.cfg.writeRate, cfg.cfg.writeMaximum, limit.lastUpdated, now))
    }

    lemma SignsAfter(now: Tick)
      requires cfg != null && CfgOk(cfg.cfg)
      ensures limit.readLimit > 0 ==>
                (Updated(limit.readLimit, cfg.cfg.readRate, cfg.cfg.readMaximum, limit.lastUpdated, now) <= 0 <==>
                 LosesSign(limit.readLimit, cfg.cfg.readRate, cfg.cfg.readMaximum, limit.lastUpdated, now))
      ensures limit.writeLimit > 0 ==>
                (Updated(limit.writeLimit, cfg.cfg.writeRate, cfg.cfg.writeMaximum, limit.lastUpdated, now) <= 0 <==>
                 LosesSign(limit.writeLimit, cfg.cfg.writeRate, cfg.cfg.writeMaximum, limit.lastUpdated, now))
    {
      if limit.readLimit > 0 {
        UpdateLosesSign(limit.readLimit, cfg.cfg.readRate, cfg.cfg.readMaximum, limit.lastUpdated, now);
      }
      if limit.writeLimit > 0 {
        UpdateLosesSign(limit.writeLimit, cfg.cfg.writeRate, cfg.cfg.writeMaximum, limit.lastUpdated, now);
      }
    }

    /** bufferevent_update_buckets */
    method UpdateBuckets(now: Tick)
      requires cfg != null && CfgOk(cfg.cfg)
      modifies limit
      ensures limit.readLimit == Updated(old(limit.readLimit), cfg.cfg.readRate, cfg.cfg.readMaximum,
                old(limit.lastUpdated), now)
      ensures limit.writeLimit == Updated(old(limit.writeLimit), cfg.cfg.writeRate, cfg.cfg.writeMaximum,
                old(limit.lastUpdated), now)
      ensures limit.lastUpdated == if old(Passed(limit.lastUpdated, now)) then now else old(limit.lastUpdated)
    {
      if now != limit.lastUpdated {
        var updated := limit.Update(cfg.cfg, now);
      } else {
        SameTick(limit.readLimit, cfg.cfg.readRate, cfg.cfg.readMaximum, now);
        SameTick(limit.writeLimit, cfg.cfg.writeRate, cfg.cfg.writeMaximum, now);
      }
    }

    method UpdateWatched(now: Tick)
      requires FlagsOk() && Watched() && cfg != null
      modifies limit
      ensures FlagsOk() && Watched() && (old(Alert()) ==> (Alert() <==> old(KeepsAlert(now))))
      ensures limit.readLimit == Updated(old(limit.readLimit), cfg.cfg.readRate, cfg.cfg.readMaximum,
                old(limit.lastUpdated), now)
      ensures limit.writeLimit == Updated(old(limit.writeLimit), cfg.cfg.writeRate, cfg.cfg.writeMaximum,
                old(limit.lastUpdated), now)
      ensures limit.lastUpdated == if old(Passed(limit.lastUpdated, now)) then now else old(limit.lastUpdated)
    {
      SignsAfter(now);
      UpdateBuckets(now);
    }

    /** bufferevent_get_rlim_max_: what may be read, or written, now, after an update of the limits. */
    method RlimMax(isWrite: bool, maxSingle: Limit, now: Tick, group: GroupView) returns (r: int)
      requires FlagsOk() && Watched() && (group.Group? ==> limiting && group.members > 0)
      modifies this`readSuspended, this`readOn, this`writeSuspended, this`writeOn, limit
      ensures FlagsOk() && Watched() && (old(Alert()) ==> (Alert() <==> old(KeepsAlert(now))))
      ensures readSuspended ==
                old(readSuspended) + if group.Group? && group.suspended && !isWrite then {BwGroup} else {}
      ensures writeSuspended ==
                old(writeSuspended) + if group.Group? && group.suspended && isWrite then {BwGroup} else {}
      ensures cfg != null ==>
                limit.readLimit == Updated(old(limit.readLimit), cfg.cfg.readRate, cfg.cfg.readMaximum,
                  old(limit.lastUpdated), now)
      ensures cfg != null ==>
                limit.writeLimit == Updated(old(limit.writeLimit), cfg.cfg.writeRate, cfg.cfg.writeMaximum,
                  old(limit.lastUpdated), now)
      ensures cfg != null ==>
                limit.lastUpdated == if old(Passed(limit.lastUpdated, now)) then now else old(limit.lastUpdated)
      ensures cfg == null ==> limit.Same(old(limit.Now()))
      ensures var own := if cfg == null then maxSingle else if isWrite then limit.writeLimit else limit.readLimit;
              r == if !limiting then maxSingle
                   else Max(0, if group.NoGroup? then own else Min(own, if group.suspended then 0 else group.Share()))
    {
      var maxSoFar := maxSingle;
      if !limiting {
        return maxSoFar;
      }
      if cfg != null {
        UpdateWatched(now);
        maxSoFar := if isWrite then limit.writeLimit else limit.readLimit;
      }
      if group.Group? {
        var share := ShareOfGroup(isWrite, group);
        if maxSoFar > share {
          maxSoFar := share;
        }
      }
      r := if maxSoFar < 0 then 0 else maxSoFar;
    }

    /** The member's share; a member that could not be locked when its group was suspended finds out here. */
    method ShareOfGroup(isWrite: bool, group: GroupView) returns (share: int)
      requires FlagsOk() && group.Group? && group.members > 0
      modifies this`readSuspended, this`readOn, this`writeSuspended, this`writeOn
      ensures FlagsOk()
      ensures readSuspended == old(readSuspended) + if group.suspended && !isWrite then {BwGroup} else {}
      ensures writeSuspended == old(writeSuspended) + if group.suspended && isWrite then {BwGroup} else {}
      ensures share == if group.suspended then 0 else group.Share()
    {
      if group.suspended {
        if isWrite {
          SuspendWrite(BwGroup);
        } else {
          SuspendRead(BwGroup);
        }
        return 0;
      }
      share := TruncDiv(group.limit, group.members);
      if share < group.minShare {
        share := group.minShare;
      }
    }

    /** The timer runs out, and its callback is called. */
    method TimerFires()
      requires Watched() && pending
      modifies this`pending, this`active
      ensures Watched() && !pending && active
    {
      pending, active := false, true;
    }

    method CallbackBegins()
      requires Watched() && active
      modifies this`active, this`running
      ensures Watched() && !active && running
    {
      active, running := false, true;
    }

    lemma EnoughAfter(now: Tick)
      requires cfg != null && CfgOk(cfg.cfg)
      ensures Passed(limit.lastUpdated, now) && limit.readLimit <= cfg.cfg.readMaximum ==>
                (Updated(limit.readLimit, cfg.cfg.readRate, cfg.cfg.readMaximum, limit.lastUpdated, now) > 0 <==>
                 limit.readLimit + TicksBetween(limit.lastUpdated, now) * cfg.cfg.readRate > 0)
      ensures Passed(limit.lastUpdated, now) && limit.writeLimit <= cfg.cfg.writeMaximum ==>
                (Updated(limit.writeLimit, cfg.cfg.writeRate, cfg.cfg.writeMaximum, limit.lastUpdated, now) > 0 <==>
                 limit.writeLimit + TicksBetween(limit.lastUpdated, now) * cfg.cfg.writeRate > 0)
    {
      if Passed(limit.lastUpdated, now) && limit.readLimit <= cfg.cfg.readMaximum {
        EnoughTicks(limit.readLimit, cfg.cfg.readRate, cfg.cfg.readMaximum, limit.lastUpdated, now);
      }
      if Passed(limit.lastUpdated, now) && limit.writeLimit <= cfg.cfg.writeMaximum {
        EnoughTicks(limit.writeLimit, cfg.cfg.writeRate, cfg.cfg.writeMaximum, limit.lastUpdated, now);
      }
    }

    /** bev_refill_callback_ */
    method RefillCallback(now: Tick)
      requires FlagsOk() && Watched() && running
      modifies this`readSuspended, this`readOn, this`writeSuspended, this`writeOn, this`pending, this`running, limit
      ensures FlagsOk() && Watched() && !running
      ensures cfg == null ==> readSuspended == old(readSuspended) && writeSuspended == old(writeSuspended)
      ensures cfg == null ==> pending == old(pending) && limit.Same(old(limit.Now()))
      ensures cfg != null ==>
                limit.lastUpdated == if old(Passed(limit.lastUpdated, now)) then now else old(limit.lastUpdated)
      ensures cfg != null ==>
                && limit.readLimit == Updated(old(limit.readLimit), cfg.cfg.readRate, cfg.cfg.readMaximum,
                   old(limit.lastUpdated), now)
                && limit.writeLimit == Updated(old(limit.writeLimit), cfg.cfg.writeRate, cfg.cfg.writeMaximum,
                   old(limit.lastUpdated), now)
                && readSuspended == (if limit.readLimit > 0 then old(readSuspended) - {Bw} else old(readSuspended))
                && writeSuspended == (if limit.writeLimit > 0 then old(writeSuspended) - {Bw} else old(writeSuspended))
      ensures cfg != null ==> pending == (old(pending) || Bw in readSuspended || Bw in writeSuspended)
      ensures old(Alert()) ==> (Alert() <==> old(KeepsAlert(now)))
      ensures cfg != null && old(Passed(limit.lastUpdated, now)) ==>
                var n := old(TicksBetween(limit.lastUpdated, now));
                && (old(Bw in readSuspended && limit.readLimit <= cfg.cfg.readMaximum) ==>
                      (Bw !in readSuspended <==> old(limit.readLimit) + n * cfg.cfg.readRate > 0))
                && (old(Bw in writeSuspended && limit.writeLimit <= cfg.cfg.writeMaximum) ==>
                      (Bw !in writeSuspended <==> old(limit.writeLimit) + n * cfg.cfg.writeRate > 0))
    {
      if !limiting || cfg == null {
        running := false;
        return;
      }
      SignsAfter(now);
      EnoughAfter(now);
      var updated := limit.Update(cfg.cfg, now);
      var again := UnsuspendRefilled();
      if again {
        AddTimer();
      }
      running := false;
    }

    /** The part of bev_refill_callback_ that looks at the updated limits. */
    method UnsuspendRefilled() returns (again: bool)
      requires FlagsOk()
      modifies this`readSuspended, this`readOn, this`writeSuspended, this`writeOn
      ensures FlagsOk() && (again <==> Bw in readSuspended || Bw in writeSuspended)
      ensures readSuspended == if limit.readLimit > 0 then old(readSuspended) - {Bw} else old(readSuspended)
      ensures writeSuspended == if limit.writeLimit > 0 then old(writeSuspended) - {Bw} else old(writeSuspended)
    {
      again := false;
      if Bw in readSuspended {
        if limit.readLimit > 0 {
          UnsuspendRead(Bw);
        } else {
          again := true;
        }
      }
      if Bw in writeSuspended {
        if limit.writeLimit > 0 {
          UnsuspendWrite(Bw);
        } else {
          again := true;
        }
      }
    }
  }

  /** A second question at the same tick changes nothing more and, with the same view of the group, has the same
      answer. */
  method AskTwice(b: Bufferevent, isWrite: bool, maxSingle: Limit, now: Tick, group: GroupView) returns (r: int, q: int)
    requires b.FlagsOk() && b.Watched() && (group.Group? ==> b.limiting && group.members > 0)
    modifies b, b.limit
    ensures r == q && b.FlagsOk() && b.Watched()
    ensures b.cfg == old(b.cfg) && (b.cfg != null ==>
              && b.limit.readLimit == Updated(old(b.limit.readLimit), b.cfg.cfg.readRate, b.cfg.cfg.readMaximum,
                   old(b.limit.lastUpdated), now)
              && b.limit.writeLimit == Updated(old(b.limit.writeLimit), b.cfg.cfg.writeRate, b.cfg.cfg.writeMaximum,
                   old(b.limit.lastUpdated), now))
  {
    r := b.RlimMax(isWrite, maxSingle, now, group);
    if b.cfg != null {
      ghost var c, last := b.cfg.cfg, old(b.limit.lastUpdated);
      LookTwice(old(b.limit.readLimit), c.readRate, c.readMaximum, last, now);
      LookTwice(old(b.limit.writeLimit), c.writeRate, c.writeMaximum, last, now);
    }
    q := b.RlimMax(isWrite, maxSingle, now, group);
  }

  /** A charge for reading, or a question what may be read. */
  method ServeOne(b: Bufferevent, a: Act)
    requires b.FlagsOk() && b.Watched() && b.cfg != null
    requires a.Charge? ==> SSIZE_MIN <= b.limit.readLimit - a.bytes
    modifies b, b.limit
    ensures b.FlagsOk() && b.Watched() && b.cfg == old(b.cfg)
    ensures b.limit.Reading() == Then(old(b.limit.Reading()), b.cfg.cfg.readRate, b.cfg.cfg.readMaximum, a)
  {
    match a {
      case Charge(bytes) =>
        b.DecrementReadBuckets(bytes);
      case Look(now) =>
        var r := b.RlimMax(false, 0, now, NoGroup);
    }
  }

  /** Charges for reading, and questions what may be read, one after another. */
  method Serve(b: Bufferevent, acts: seq<Act>)
    requires b.FlagsOk() && b.Watched() && b.cfg != null
    requires var c := b.cfg.cfg; NoWrap(b.limit.Reading(), c.readRate, c.readMaximum, acts)
    modifies b, b.limit
    ensures b.FlagsOk() && b.Watched()
    ensures b.cfg == old(b.cfg) && b.limit.Reading() == Run(old(b.limit.Reading()), b.cfg.cfg.readRate,
              b.cfg.cfg.readMaximum, acts)
    ensures var c := b.cfg.cfg; old(b.limit.readLimit) <= c.readMaximum ==>
              Charged(acts) + b.limit.readLimit
              <= old(b.limit.readLimit) + c.readRate * TicksIn(old(b.limit.lastUpdated), acts)
  {
    ghost var l, c := b.limit.Reading(), b.cfg.cfg;
    var i := 0;
    assert acts[..0] == [];
    while i < |acts|
      invariant i <= |acts| && b.FlagsOk() && b.Watched() && b.cfg == old(b.cfg)
      invariant b.limit.Reading() == Run(l, c.readRate, c.readMaximum, acts[..i])
    {
      NoWrapAt(l, c.readRate, c.readMaximum, acts, i);
      ServeOne(b, acts[i]);
      i := i + 1;
    }
    assert acts[..i] == acts;
    if l.limit <= c.readMaximum { Conservation(l, c.readRate, c.readMaximum, acts); }
  }

  /** A run after which a limit is used up and the direction is not suspended: a user fills the bucket up to the
      largest word, and one tick passes. */
  method UsedUpUnnoticed() returns (b: Bufferevent, r: int)
    ensures fresh(b) && b.FlagsOk() && b.Watched() && !b.Alert() && r == 0
  {
    b := new Bufferevent();
    var config := new Config(Cfg(1, 1, 1, 1));
    b.SetRateLimit(config, 0);
    b.DecrementReadLimit(1 - SSIZE_MAX);
    SignIsLost();
    r := b.RlimMax(false, 0, 1, NoGroup);
  }
}
