/** Adding and removing bytes at the front of an evbuffer. */
module EvBufferFront {
  import opened ByteSeqs
  import opened EvBuffers

  lemma DistinctDrop(cs: seq<Chain>, i: nat)
    requires Distinct(cs) && i <= |cs|
    ensures Distinct(cs[i..])
  {
    forall j, k | 0 <= j < k < |cs| - i ensures Differ(cs[i..][j], cs[i..][k]) {
      assert Differ(cs[i + j], cs[i + k]);
    }
  }

  lemma LinkedDrop(cs: seq<Chain>, i: nat)
    requires Linked(cs) && i <= |cs|
    ensures Linked(cs[i..])
  {
    forall j | 0 <= j < |cs| - i ensures LinkAt(cs[i..], j) {
      assert LinkAt(cs, i + j);
    }
  }

  lemma HoldsDrop(cs: seq<Chain>, live: seq<seq<Byte>>, i: nat)
    requires Holds(cs, live) && i <= |cs|
    ensures Holds(cs[i..], live[i..])
  {
    forall j | 0 <= j < |cs| - i ensures HoldsOne(cs[i..][j], live[i..][j]) {
      assert HoldsOne(cs[i + j], live[i + j]);
    }
  }

  /** The bytes of the first i parts are no more than those of the first k. */
  lemma {:induction false} FlatToGrows(live: seq<seq<Byte>>, i: nat, k: nat)
    requires i <= k <= |live|
    ensures |FlatTo(live, i)| <= |FlatTo(live, k)|
  {
    if i < k {
      FlatToGrows(live, i, k - 1);
    }
  }

  /** No bytes lie behind the last part with data. */
  lemma {:induction false} FlatToDatum(live: seq<seq<Byte>>, d: nat, k: nat)
    requires IsLastWithData(live, d) && d < k <= |live|
    ensures FlatTo(live, k) == FlatTo(live, d + 1)
  {
    if d + 1 < k {
      FlatToDatum(live, d, k - 1);
      assert Idle(live, k - 1);
    }
  }

  /** Dropping i parts and the first r bytes of the next one, for i at most the last part with data. */
  lemma Dropped(live: seq<seq<Byte>>, d: nat, i: nat, r: nat)
    requires IsLastWithData(live, d) && i <= d < |live| && r < |live[i]|
    ensures var rest := live[i..][0 := live[i][r..]];
      && IsLastWithData(rest, d - i)
      && (Gapless(live, d) ==> Gapless(rest, d - i))
      && |FlatTo(live, i)| + r <= |Flat(live)|
      && Flat(rest) == Flat(live)[|FlatTo(live, i)| + r..]
  {
    var rest := live[i..][0 := live[i][r..]];
    forall j | d - i < j < |rest| ensures Idle(rest, j) {
      assert Idle(live, i + j);
    }
    forall j | 0 <= j < d - i ensures Gapless(live, d) ==> HasData(rest, j) {
      assert Gapless(live, d) ==> HasData(live, i + j);
    }
    FlatAt(live, i);
    FlatSplit(live, i);
    assert rest == [live[i][r..]] + live[i + 1..];
    FlatCons(live[i][r..], live[i + 1..]);
  }

  /** The loop of evbuffer_drain and of evbuffer_remove_buffer: pass the chains all of whose bytes
      are among the first len. */
  method PassChains(buf: EvBuffer, len: nat) returns (chain: Chain, previous: Chain?, remaining: nat, ghost i: nat)
    requires buf.Valid() && len < buf.totalLen
    modifies buf`lwdOwner
    ensures i <= buf.datum < |buf.chains| && chain == buf.chains[i]
    ensures previous == if i == 0 then null else buf.chains[i - 1]
    ensures |FlatTo(buf.live, i)| + remaining == len && remaining < |buf.live[i]|
    ensures buf.lwdOwner == if buf.datum == i then null else buf.chains[buf.datum - 1]
  {
    ghost var cs, live, d := buf.chains, buf.live, buf.datum;
    i, remaining, previous := 0, len, null;
    FlatToDatum(live, d, |live|);
    var c := buf.first;
    assert HoldsOne(cs[0], live[0]);
    while c.off <= remaining
      invariant i <= d && c == cs[i] && HoldsOne(cs[i], live[i])
      invariant previous == if i == 0 then null else cs[i - 1]
      invariant |FlatTo(live, i)| + remaining == len
      invariant buf.lwdOwner == if d <= i then null else cs[d - 1]
      decreases d - i
    {
      assert FlatTo(live, i + 1) == FlatTo(live, i) + live[i];
      assert LinkAt(cs, i) && HoldsOne(cs[i + 1], live[i + 1]);
      var next := c.next;
      remaining := remaining - c.off;
      assert 0 < d ==> LinkAt(cs, d - 1);
      assert i < d;
      OtherChain(cs, d, i);
      assert i > 0 ==> Differ(cs[0], cs[i]);
      assert i != d - 1 ==> Differ(cs[i], cs[d - 1]);
      if c == buf.LastWithDataChain() {
        assert false; // some of the bytes stay, and the last of them are in this chain
      }
      if buf.lwdOwner == c {
        buf.lwdOwner := null;
      }
      previous, c := c, next;
      i := i + 1;
    }
    chain := c;
  }

  /** The end of evbuffer_drain: the buffer now starts at chain, less its first r bytes. */
  method StartAt(buf: EvBuffer, chain: Chain, ghost i: nat, r: nat, len: nat)
    requires i <= buf.datum < |buf.chains| == |buf.live| && chain == buf.chains[i]
    requires Distinct(buf.chains[i..]) && Linked(buf.chains[i..]) && Holds(buf.chains[i..], buf.live[i..])
    requires r < |buf.live[i]| && len <= buf.totalLen
    modifies buf`first, buf`chains, buf`live, buf`datum, buf`totalLen, chain`off, chain`misalign, chain`bytes
    ensures buf.chains == old(buf.chains)[i..] && buf.first == chain
    ensures buf.live == old(buf.live)[i..][0 := old(buf.live[i])[r..]]
    ensures buf.datum == old(buf.datum) - i && buf.totalLen == old(buf.totalLen) - len
    ensures Linked(buf.chains) && Distinct(buf.chains) && Holds(buf.chains, buf.live)
  {
    ghost var cs, parts := buf.chains[i..], buf.live[i..];
    assert HoldsOne(cs[0], parts[0]);
    buf.first := chain;
    buf.totalLen := buf.totalLen - len;
    buf.chains, buf.live, buf.datum := cs, parts[0 := parts[0][r..]], buf.datum - i;
    chain.Advance(r);
    forall j | 0 <= j < |cs| && j != 0 ensures HoldsOne(cs[j], parts[j]) {
      OtherChain(cs, 0, j);
      assert old(HoldsOne(cs[j], parts[j]));
    }
    HoldsUpdate(cs, parts, 0);
  }

  /** evbuffer_drain */
  method Drain(buf: EvBuffer, len: nat)
    requires buf.Valid()
    modifies buf, buf.chains
    ensures buf.Valid() && (forall c :: c in buf.chains ==> c in old(buf.chains))
    ensures buf.Contents() == if len >= |old(buf.Contents())| then [] else old(buf.Contents())[len..]
    ensures old(buf.NoGap()) ==> buf.NoGap()
  {
    if buf.totalLen == 0 {
      return;
    }
    if len >= buf.totalLen {
      buf.first, buf.last, buf.lwdOwner, buf.totalLen := null, null, null, 0;
      buf.chains, buf.live, buf.datum := [], [], 0;
    } else {
      var chain, previous, remaining, i := PassChains(buf, len);
      Dropped(buf.live, buf.datum, i, remaining);
      DistinctDrop(buf.chains, i);
      LinkedDrop(buf.chains, i);
      HoldsDrop(buf.chains, buf.live, i);
      StartAt(buf, chain, i, remaining, len);
    }
  }

  /** Give the free space of an empty chain to its front. */
  method MisalignEmpty(buf: EvBuffer, chain: Chain)
    requires buf.Valid() && |buf.chains| > 0 && chain == buf.chains[0] && chain.off == 0 && !chain.immutable
    modifies chain`misalign
    ensures buf.Valid() && chain.misalign == |chain.buffer|
  {
    assert HoldsOne(buf.chains[0], buf.live[0]);
    chain.misalign := |chain.buffer|;
    forall j | 0 <= j < |buf.chains| && j != 0 ensures HoldsOne(buf.chains[j], buf.live[j]) {
      OtherChain(buf.chains, 0, j);
      assert old(HoldsOne(buf.chains[j], buf.live[j]));
    }
    HoldsUpdate(buf.chains, buf.live, 0);
    assert buf.live[0 := chain.bytes] == buf.live;
  }

  /** Putting data before the first part. */
  lemma FlatGrowFirst(live: seq<seq<Byte>>, d: nat, data: seq<Byte>)
    requires IsLastWithData(live, d) && live != []
    ensures var grown := live[0 := data + live[0]];
      && Flat(grown) == data + Flat(live)
      && IsLastWithData(grown, d)
      && (Gapless(live, d) ==> Gapless(grown, d))
  {
    var grown := live[0 := data + live[0]];
    FlatAt(live, 0);
    FlatUpdate(live, 0, data + live[0]);
    assert live[..0] == [];
    forall i | d < i < |live| ensures Idle(grown, i) {
      assert Idle(live, i);
    }
    forall i | 0 <= i < d ensures HasData(live, i) ==> HasData(grown, i) {}
  }

  /** Put data into the free space before the data of the first chain. */
  method GrowFirst(buf: EvBuffer, chain: Chain, data: seq<Byte>)
    requires buf.Valid() && |buf.chains| > 0 && chain == buf.chains[0]
    requires !chain.immutable && |data| <= chain.misalign && buf.totalLen + |data| <= SIZE_MAX
    modifies buf`totalLen, buf`live, chain`buffer, chain`off, chain`misalign, chain`bytes
    ensures buf.Valid()
    ensures buf.live == old(buf.live)[0 := data + old(buf.live)[0]]
    ensures buf.Contents() == data + old(buf.Contents())
    ensures chain.misalign == old(chain.misalign) - |data|
    ensures old(buf.NoGap()) ==> buf.NoGap()
  {
    ghost var cs, parts := buf.chains, buf.live;
    assert HoldsOne(cs[0], parts[0]);
    FlatGrowFirst(parts, buf.datum, data);
    buf.totalLen := buf.totalLen + |data|;
    chain.Push(data);
    forall j | 0 <= j < |cs| && j != 0 ensures HoldsOne(cs[j], parts[j]) {
      OtherChain(cs, 0, j);
      assert old(HoldsOne(cs[j], parts[j]));
    }
    HoldsUpdate(cs, parts, 0);
    buf.live := parts[0 := data + parts[0]];
  }

  lemma ChainInFront(cs: seq<Chain>, live: seq<seq<Byte>>, d: nat, c: Chain)
    requires Distinct(cs) && Holds(cs, live) && c !in cs && c.Wf()
    requires IsLastWithData(live, d) && |live| > 0 && |live[d]| > 0
    ensures Distinct([c] + cs) && Holds([c] + cs, [c.bytes] + live)
    ensures IsLastWithData([c.bytes] + live, d + 1) && Flat([c.bytes] + live) == c.bytes + Flat(live)
    ensures Gapless(live, d) && |c.bytes| > 0 ==> Gapless([c.bytes] + live, d + 1)
  {
    var t, parts := [c] + cs, [c.bytes] + live;
    FlatCons(c.bytes, live);
    forall i, j | 0 <= i < j < |t| ensures Differ(t[i], t[j]) {
      assert t[j] == cs[j - 1];
      assert i > 0 ==> t[i] == cs[i - 1] && Differ(cs[i - 1], cs[j - 1]);
    }
    forall i | 0 <= i < |t| ensures HoldsOne(t[i], parts[i]) {
      assert i > 0 ==> HoldsOne(cs[i - 1], live[i - 1]);
    }
    forall i | d + 1 < i < |parts| ensures Idle(parts, i) {
      assert Idle(live, i - 1);
    }
    forall i | 0 <= i < d + 1 ensures Gapless(live, d) && |c.bytes| > 0 ==> HasData(parts, i) {
      assert i > 0 && Gapless(live, d) ==> HasData(live, i - 1);
    }
  }

  /** The end of evbuffer_prepend: link tmp in front of the list. */
  method LinkInFront(buf: EvBuffer, tmp: Chain)
    requires Linked(buf.chains) && buf.first == At(buf.chains, 0) && tmp !in buf.chains
    modifies buf`first, buf`lwdOwner, buf`totalLen, buf`chains, buf`live, buf`datum, tmp`next
    ensures buf.chains == [tmp] + old(buf.chains) && buf.live == [tmp.bytes] + old(buf.live)
    ensures buf.datum == old(buf.datum) + 1 && buf.totalLen == old(buf.totalLen) + tmp.off
    ensures buf.first == tmp && buf.lwdOwner == if old(buf.lwdOwner) == null then tmp else old(buf.lwdOwner)
    ensures Linked(buf.chains)
  {
    ghost var was := buf.chains;
    var chain := buf.first;
    buf.first := tmp;
    if buf.lwdOwner == null {
      buf.lwdOwner := tmp;
    }
    buf.totalLen := buf.totalLen + tmp.off;
    buf.chains, buf.live, buf.datum := [tmp] + buf.chains, [tmp.bytes] + buf.live, buf.datum + 1;
    tmp.next := chain;
    forall i | 0 <= i < |buf.chains| ensures LinkAt(buf.chains, i) {
      assert i > 0 ==> old(LinkAt(buf.chains, i - 1)) && buf.chains[i] == was[i - 1];
    }
  }

  /** evbuffer_prepend */
  method Prepend(buf: EvBuffer, data: seq<Byte>) returns (ok: bool)
    requires buf.Valid()
    modifies buf, buf.chains
    ensures buf.Valid() && (forall c :: c in buf.chains ==> c in old(buf.chains) || fresh(c))
    ensures ok == (|data| <= SIZE_MAX - |old(buf.Contents())|)
    ensures buf.Contents() == if ok then data + old(buf.Contents()) else old(buf.Contents())
    ensures old(buf.NoGap() && (|data| > 0 || buf.first == null || !buf.first.immutable)) ==> buf.NoGap()
    ensures old(|data| == 0 && buf.first != null && buf.first.immutable) ==>
              !buf.NoGap() && buf.live == [[]] + old(buf.live)
  {
    if |data| > SIZE_MAX - buf.totalLen {
      return false;
    }
    var chain := buf.first;
    if chain == null {
      chain := new Chain.New(|data|);
      buf.ChainInsert(chain);
    }
    ok := true;
    assert HoldsOne(buf.chains[0], buf.live[0]);
    if chain.immutable {
      PrependInNewChain(buf, chain, data);
    } else {
      if chain.off == 0 {
        MisalignEmpty(buf, chain);
      }
      PrependToMutable(buf, chain, data);
    }
  }

  method PrependToMutable(buf: EvBuffer, chain: Chain, data: seq<Byte>)
    requires buf.Valid() && |buf.chains| > 0 && chain == buf.chains[0] && !chain.immutable
    requires chain.off == 0 ==> chain.misalign == |chain.buffer|
    requires buf.totalLen + |data| <= SIZE_MAX
    modifies buf, buf.chains
    ensures buf.Valid() && (forall c :: c in buf.chains ==> c in old(buf.chains) || fresh(c))
    ensures buf.Contents() == data + old(buf.Contents())
    ensures old(buf.NoGap()) ==> buf.NoGap()
  {
    var k := |data|;
    assert HoldsOne(buf.chains[0], buf.live[0]);
    if chain.misalign >= k {
      GrowFirst(buf, chain, data);
      return;
    } else if chain.misalign > 0 {
      k := k - chain.misalign;
      GrowFirst(buf, chain, data[k..]);
    }
    PrependInNewChain(buf, chain, data[..k]);
    assert data == data[..k] + data[k..];
  }

  method PrependInNewChain(buf: EvBuffer, chain: Chain, data: seq<Byte>)
    requires buf.Valid() && |buf.chains| > 0 && chain == buf.chains[0]
    requires |buf.live[0]| > 0
    requires buf.totalLen + |data| <= SIZE_MAX
    modifies buf
    ensures buf.Valid() && (forall c :: c in buf.chains ==> c in old(buf.chains) || fresh(c))
    ensures buf.Contents() == data + old(buf.Contents())
    ensures old(buf.NoGap()) && |data| > 0 ==> buf.NoGap()
    ensures buf.live == [data] + old(buf.live) && (|data| == 0 ==> !buf.NoGap())
  {
    var tmp := new Chain.New(|data|);
    tmp.misalign := |tmp.buffer|;
    tmp.Push(data);
    assert tmp.bytes == data + [] == data;
    ChainInFront(buf.chains, buf.live, buf.datum, tmp);
    LinkInFront(buf, tmp);
    assert HasData(buf.live, 0) <==> |data| > 0;
  }
}
