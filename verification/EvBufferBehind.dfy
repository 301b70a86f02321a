/** What evbuffer_add does to a buffer whose last_with_datap does not lead to the last chain with data. */
module EvBufferBehind {
  import opened ByteSeqs
  import opened EvBuffers
  import opened EvBufferFront
  import opened EvBufferMove

  /** evbuffer_add puts so many bytes into the chain that it finds by last_with_datap. */
  predicate TakesMore(chain: Chain, len: nat)
    reads chain`buffer, chain`misalign, chain`off
  {
    !chain.immutable && (len <= chain.Space() || chain.ShouldRealign(len))
  }

  /** There are bytes behind the chain of last_with_datap. */
  lemma BytesBehind(live: seq<seq<Byte>>, d: nat)
    requires d + 1 < |live| && (0 < d ==> HasData(live, d)) && !IsLastWithData(live, d)
    ensures |FlatTo(live, d + 1)| < |Flat(live)|
    ensures exists j :: d + 1 <= j < |live| && !Idle(live, j)
  {
    var j :| d < j < |live| && !Idle(live, j);
    FlatToGrows(live, d + 1, j);
    FlatToGrows(live, j + 1, |live|);
    assert FlatTo(live, j + 1) == FlatTo(live, j) + live[j];
  }

  /** Bytes put behind part number d. */
  lemma FlatGrowInside(live: seq<seq<Byte>>, d: nat, x: seq<Byte>)
    requires d < |live|
    ensures var n := |FlatTo(live, d + 1)|;
      n <= |Flat(live)| && Flat(live[d := live[d] + x]) == Flat(live)[..n] + x + Flat(live)[n..]
  {
    var grown := live[d := live[d] + x];
    FlatAt(live, d);
    FlatAt(grown, d);
    FlatSplit(live, d);
    assert grown[..d] == live[..d] && grown[d + 1..] == live[d + 1..];
    Inserted(FlatTo(live, d), live[d], x, Flat(live[d + 1..]));
  }

  lemma Inserted(a: seq<Byte>, b: seq<Byte>, x: seq<Byte>, c: seq<Byte>)
    ensures a + (b + x) + c == (a + b + c)[..|a + b|] + x + (a + b + c)[|a + b|..]
  {
    assert (a + b + c)[..|a + b|] == a + b && (a + b + c)[|a + b|..] == c;
  }

  /** evbuffer_chains_all_empty */
  method AllEmpty(buf: EvBuffer, chain: Chain?, ghost i: nat) returns (empty: bool)
    requires Counted(buf) && i <= |buf.chains| && chain == At(buf.chains, i)
    ensures empty <==> forall j {:trigger Idle(buf.live, j)} :: i <= j < |buf.chains| ==> Idle(buf.live, j)
  {
    var c := chain;
    ghost var k := i;
    while c != null
      invariant i <= k <= |buf.chains| && c == At(buf.chains, k)
      invariant forall j {:trigger Idle(buf.live, j)} :: i <= j < k ==> Idle(buf.live, j)
      decreases |buf.chains| - k
    {
      assert HoldsOne(buf.chains[k], buf.live[k]) && LinkAt(buf.chains, k);
      if c.off != 0 {
        assert !Idle(buf.live, k);
        return false;
      }
      c, k := c.next, k + 1;
    }
    empty := true;
  }

  /** Put bytes into the free space of a chain. */
  method GrowAt(buf: EvBuffer, chain: Chain, ghost d: nat, data: seq<Byte>)
    requires Distinct(buf.chains) && Holds(buf.chains, buf.live) && d < |buf.chains| && chain == buf.chains[d]
    requires !chain.immutable && |data| <= chain.Space()
    modifies buf`totalLen, buf`live, chain`buffer, chain`off, chain`bytes
    ensures Holds(buf.chains, buf.live) && buf.live == old(buf.live)[d := old(buf.live)[d] + data]
    ensures buf.totalLen == old(buf.totalLen) + |data|
  {
    ghost var cs, parts := buf.chains, buf.live;
    assert HoldsOne(cs[d], parts[d]);
    buf.totalLen := buf.totalLen + |data|;
    chain.Append(data);
    forall j | 0 <= j < |cs| && j != d ensures HoldsOne(cs[j], parts[j]) {
      OtherChain(cs, d, j);
      assert old(HoldsOne(cs[j], parts[j]));
    }
    HoldsUpdate(cs, parts, d);
    buf.live := parts[d := parts[d] + data];
  }

  /** evbuffer_chain_align */
  method AlignAt(buf: EvBuffer, chain: Chain, ghost d: nat)
    requires Distinct(buf.chains) && Holds(buf.chains, buf.live) && d < |buf.chains| && chain == buf.chains[d]
    requires !chain.immutable
    modifies chain`buffer, chain`misalign
    ensures Holds(buf.chains, buf.live) && chain.misalign == 0 && |chain.buffer| == old(|chain.buffer|)
  {
    ghost var cs, parts := buf.chains, buf.live;
    assert HoldsOne(cs[d], parts[d]);
    chain.Align();
    forall j | 0 <= j < |cs| && j != d ensures HoldsOne(cs[j], parts[j]) {
      OtherChain(cs, d, j);
      assert old(HoldsOne(cs[j], parts[j]));
    }
    HoldsUpdate(cs, parts, d);
    assert parts[d := chain.bytes] == parts;
  }

  /** evbuffer_add: the bytes go into the middle of the contents or, if they do not fit there, the chains that are to
      be freed as the empty ones at the end are not all empty, and the assertion on that fails. */
  method AddBehind(buf: EvBuffer, data: seq<Byte>) returns (done: bool)
    requires StaysBehind(buf) && buf.totalLen + |data| <= SIZE_MAX
    modifies buf`totalLen, buf`live, buf.chains`buffer, buf.chains`misalign, buf.chains`off, buf.chains`bytes
    ensures done <==> old(TakesMore(buf.chains[buf.datum], |data|))
    ensures var n := |FlatTo(old(buf.live), old(buf.datum) + 1)|;
      && n < |old(buf.Contents())|
      && (done ==> StaysBehind(buf) && buf.Contents() == old(buf.Contents())[..n] + data + old(buf.Contents())[n..])
      && (!done ==> buf.Contents() == old(buf.Contents()))
  {
    ghost var cs, live, d := buf.chains, buf.live, buf.datum;
    BytesBehind(live, d);
    FlatGrowInside(live, d, data);
    assert d > 0 ==> LinkAt(cs, d - 1);
    assert LinkAt(cs, d) && HoldsOne(cs[d], live[d]) && HoldsOne(cs[d + 1], live[d + 1]);
    var chain := buf.LastWithDataChain();
    if !chain.immutable {
      if |data| <= chain.Space() {
        GrowAt(buf, chain, d, data);
        BehindStill(buf, live, d, data);
        return true;
      } else if chain.ShouldRealign(|data|) {
        AlignAt(buf, chain, d);
        GrowAt(buf, chain, d, data);
        BehindStill(buf, live, d, data);
        return true;
      }
    }
    // evbuffer_free_trailing_empty_chains
    var empty;
    if chain.off == 0 {
      empty := AllEmpty(buf, chain, d);
    } else {
      empty := AllEmpty(buf, chain.next, d + 1);
    }
    assert !empty;
    done := false;
  }

  lemma BehindStill(buf: EvBuffer, live: seq<seq<Byte>>, d: nat, data: seq<Byte>)
    requires Listed(buf) && d == buf.datum && d + 1 < |live| == |buf.chains| && buf.live == live[d := live[d] + data]
    requires !IsLastWithData(live, d) && Idle(live, d + 1) && (0 < d ==> HasData(live, d))
    requires buf.lwdOwner == (if d == 0 then null else buf.chains[d - 1])
    requires buf.totalLen == |Flat(buf.live)| <= SIZE_MAX
    ensures StaysBehind(buf)
  {
    BytesBehind(live, d);
    var j :| d + 1 <= j < |live| && !Idle(live, j);
    assert !Idle(buf.live, j);
  }

  /** The same with other chains around that are not of the buffer. */
  method AddBehindApart(dst: EvBuffer, data: seq<Byte>, ghost rest: seq<Chain>, ghost parts: seq<seq<Byte>>)
    returns (done: bool)
    requires StaysBehind(dst) && dst.totalLen + |data| <= SIZE_MAX
    requires Linked(rest) && Holds(rest, parts) && (forall c :: c in dst.chains ==> c !in rest)
    modifies dst`totalLen, dst`live, dst.chains`buffer, dst.chains`misalign, dst.chains`off, dst.chains`bytes
    ensures Linked(rest) && Holds(rest, parts)
    ensures done <==> old(TakesMore(dst.chains[dst.datum], |data|))
    ensures var n := |FlatTo(old(dst.live), old(dst.datum) + 1)|;
      && n < |old(dst.Contents())|
      && (done ==> StaysBehind(dst) && dst.Contents() == old(dst.Contents())[..n] + data + old(dst.Contents())[n..])
      && (!done ==> dst.Contents() == old(dst.Contents()))
  {
    done := AddBehind(dst, data);
    forall j | 0 <= j < |rest| ensures HoldsOne(rest[j], parts[j]) {
      assert rest[j] in rest;
      assert old(HoldsOne(rest[j], parts[j]));
    }
  }

  /** part stands before number n of the bytes moved, if it could be put there. */
  ghost predicate Spliced(moved: seq<Byte>, part: seq<Byte>, n: nat, done: bool, now: seq<Byte>) {
    n < |moved| && now == if done then moved[..n] + part + moved[n..] else moved
  }

  /** The last t of all bytes stand before others, from number n on, or are missing. */
  ghost predicate Misplaced(all: seq<Byte>, n: nat, t: nat, done: bool, now: seq<Byte>) {
    && n + t < |all|
    && now == if done then all[..n] + all[|all| - t..] + all[n..|all| - t] else all[..|all| - t]
  }

  /** The bytes that come to dst, if the chains among them leave its last_with_datap behind. */
  method TakeGap(src: EvBuffer, dst: EvBuffer, chain: Chain, previous: Chain, ghost i: nat, remaining: nat, nread: nat)
    returns (done: bool, ghost n: nat)
    requires Listed(src) && dst.Valid() && Apart(dst, src) && Stops(src.live, FirstToWatch(dst), i)
    requires 0 < i <= src.datum < |src.chains| && chain == src.chains[i] && previous == src.chains[i - 1]
    requires nread == |FlatTo(src.live, i)| && remaining < |src.live[i]| && dst.totalLen + nread + remaining <= SIZE_MAX
    modifies dst, dst.chains, src.chains[..i]
    ensures Linked(src.chains[i..]) && Holds(src.chains[i..], src.live[i..])
    ensures forall c :: c in dst.chains ==> c !in src.chains[i..]
    ensures var moved, part := old(dst.Contents()) + FlatTo(src.live, i), src.live[i][..remaining];
      Spliced(moved, part, n, done, dst.Contents())
    ensures done ==> StaysBehind(dst)
  {
    MoveApart(dst, src, previous, i, nread);
    assert HoldsOne(src.chains[i..][0], src.live[i..][0]);
    n := |FlatTo(dst.live, dst.datum + 1)|;
    var part := chain.Part(0, remaining);
    assert part == src.live[i][..remaining];
    done := AddBehindApart(dst, part, src.chains[i..], src.live[i..]);
  }

  /** The source keeps the chains from number i on, less the first r bytes. */
  method StartRest(src: EvBuffer, dst: EvBuffer, chain: Chain, ghost i: nat, r: nat, len: nat)
    requires 0 < i <= src.datum < |src.chains| == |src.live| && chain == src.chains[i] && r < |src.live[i]|
    requires StaysBehind(dst) && src != dst && (forall c :: c in dst.chains ==> c !in src.chains[i..])
    requires Distinct(src.chains[i..]) && Linked(src.chains[i..]) && Holds(src.chains[i..], src.live[i..])
    requires IsLastWithData(src.live, src.datum) && |FlatTo(src.live, i)| + r == len
    requires src.last == src.chains[|src.chains| - 1] && len < src.totalLen == |Flat(src.live)| <= SIZE_MAX
    requires src.lwdOwner == if src.datum == i then null else src.chains[src.datum - 1]
    modifies src, chain`off, chain`misalign, chain`bytes
    ensures src.Valid() && src.Contents() == old(src.Contents())[len..] && StaysBehind(dst)
    ensures dst.Contents() == old(dst.Contents())
  {
    Dropped(src.live, src.datum, i, r);
    StartAtApart(src, dst, chain, i, r, len);
    StillBehind(dst);
  }

  lemma StillBehind(dst: EvBuffer)
    requires Counted(dst) && dst.datum + 1 < |dst.chains| && Idle(dst.live, dst.datum + 1)
    requires (0 < dst.datum ==> HasData(dst.live, dst.datum)) && !IsLastWithData(dst.live, dst.datum)
    ensures StaysBehind(dst)
  {
  }

  /** evbuffer_remove_buffer, when it moves an empty chain before one with data: what is moved comes to the end of the
      destination, but the t bytes that are copied afterwards come in front of the last bytes moved, or evbuffer_add
      fails. */
  method RemoveGap(src: EvBuffer, dst: EvBuffer, datlen: nat)
    returns (done: bool, ghost n: nat, ghost i: nat, ghost t: nat)
    requires src.Valid() && dst.Valid() && Apart(dst, src)
    requires MovesGap(src, dst, datlen) && src.totalLen + dst.totalLen <= SIZE_MAX
    modifies src, dst, src.chains, dst.chains
    ensures i < |old(src.live)| && |FlatTo(old(src.live), i)| + t == datlen && t < |old(src.live)[i]|
    ensures Misplaced(old(dst.Contents()) + old(src.Contents())[..datlen], n, t, done, dst.Contents())
    ensures done ==> StaysBehind(dst) && src.Valid() && src.Contents() == old(src.Contents())[datlen..]
  {
    var chain, previous, remaining;
    chain, previous, remaining, i := PassChains(src, datlen);
    GapPassed(src, dst, datlen, i, remaining);
    t := remaining;
    ghost var a, b, c := dst.Contents(), FlatTo(src.live, i), src.live[i][..remaining];
    done, n := GapRest(src, dst, chain, previous, i, remaining, datlen);
    GapBytes(a, b, c, n, done, dst.Contents());
  }

  /** The part of that after the loop that passes the chains. */
  method GapRest(src: EvBuffer, dst: EvBuffer, chain: Chain, previous: Chain, ghost i: nat, remaining: nat, datlen: nat)
    returns (done: bool, ghost n: nat)
    requires Listed(src) && IsLastWithData(src.live, src.datum) && src.totalLen == |Flat(src.live)| <= SIZE_MAX
    requires dst.Valid() && Apart(dst, src) && Stops(src.live, FirstToWatch(dst), i)
    requires src.totalLen + dst.totalLen <= SIZE_MAX && datlen < src.totalLen
    requires 0 < i <= src.datum < |src.chains| && chain == src.chains[i] && previous == src.chains[i - 1]
    requires |FlatTo(src.live, i)| + remaining == datlen && remaining < |src.live[i]|
    requires src.lwdOwner == if src.datum == i then null else src.chains[src.datum - 1]
    modifies src, dst, src.chains, dst.chains
    ensures var moved, part := old(dst.Contents() + FlatTo(src.live, i)), old(src.live[i])[..remaining];
      Spliced(moved, part, n, done, dst.Contents())
    ensures done ==> StaysBehind(dst) && src.Valid() && src.Contents() == old(src.Contents())[datlen..]
  {
    DistinctDrop(src.chains, i);
    done, n := TakeGap(src, dst, chain, previous, i, remaining, datlen - remaining);
    if done {
      StartRest(src, dst, chain, i, remaining, datlen);
    }
  }

  lemma GapPassed(src: EvBuffer, dst: EvBuffer, datlen: nat, i: nat, remaining: nat)
    requires IsLastWithData(dst.live, dst.datum) && src != dst && MovesGap(src, dst, datlen)
    requires i < |src.live| && |FlatTo(src.live, i)| + remaining == datlen && remaining < |src.live[i]|
    ensures 0 < i && Stops(src.live, FirstToWatch(dst), i)
    ensures datlen <= |Flat(src.live)| && FlatTo(src.live, i) + src.live[i][..remaining] == Flat(src.live)[..datlen]
  {
    assert FlatTo(src.live, i + 1) == FlatTo(src.live, i) + src.live[i];
    MovesGapIs(src, dst, datlen, i);
    Taken(src.live, i, remaining);
  }

  lemma GapBytes(a: seq<Byte>, b: seq<Byte>, c: seq<Byte>, n: nat, done: bool, now: seq<Byte>)
    requires Spliced(a + b, c, n, done, now)
    ensures Misplaced(a + (b + c), n, |c|, done, now)
  {
    var all, moved, t := a + (b + c), a + b, |c|;
    assert all == moved + c && all[|all| - t..] == c && all[..n] == moved[..n] && all[n..|all| - t] == moved[n..];
    assert moved == all[..|all| - t];
  }
}
