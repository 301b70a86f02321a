/** The chain list of an evbuffer, and the operations at its two ends. */
module EvBuffers {
  import opened ByteSeqs

  const SIZE_MAX: nat := 0xFFFF_FFFF_FFFF_FFFF
  const CHAIN_MAX: nat := 0x7FFF_FFFF_FFFF_FFFF
  const CHAIN_SIZE: nat := 48
  const MIN_BUFFER_SIZE: nat := 1024
  const CHAIN_MAX_AUTO_SIZE: nat := 4096
  const MAX_TO_COPY_IN_EXPAND: nat := 4096
  const MAX_TO_REALIGN_IN_EXPAND: nat := 2048

  /** n is the least allocation, doubled any number of times. */
  predicate Doubling(n: nat) {
    n == MIN_BUFFER_SIZE || (MIN_BUFFER_SIZE < n && n % 2 == 0 && Doubling(n / 2))
  }

  /** cap is what is left for data of the least allocation that holds size bytes and the chain itself:
      the least one doubled, or exactly what is needed for huge sizes. */
  predicate RoundedUp(size: nat, cap: nat) {
    var need, n := size + CHAIN_SIZE, cap + CHAIN_SIZE;
    if need < CHAIN_MAX / 2
    then need <= n && Doubling(n) && (n == MIN_BUFFER_SIZE || n < 2 * need)
    else n == need
  }

  /** The bytes that the allocator of a chain leaves for data, at least the size asked for. */
  method ChainCapacity(size: nat) returns (cap: nat)
    ensures size <= cap && 0 < cap && RoundedUp(size, cap)
  {
    var need := size + CHAIN_SIZE;
    var toAlloc := need;
    if need < CHAIN_MAX / 2 {
      toAlloc := MIN_BUFFER_SIZE;
      while toAlloc < need
        invariant Doubling(toAlloc) && MIN_BUFFER_SIZE <= toAlloc
        invariant toAlloc == MIN_BUFFER_SIZE || toAlloc < 2 * need
      {
        toAlloc := toAlloc * 2;
      }
    }
    cap := toAlloc - CHAIN_SIZE;
  }

  /** A partly filled chunk; its memory is allocated in one block with it (or is the user's, read-only,
      for a reference chain). The bytes in use start at misalign and are off many. */
  class Chain {
    const immutable: bool
    var next: Chain?
    var buffer: seq<Byte>
    var misalign: nat
    var off: nat
    /** The bytes in use. */
    ghost var bytes: seq<Byte>

    ghost predicate ByteAt(i: nat)
      requires i < |bytes| && misalign + |bytes| <= |buffer|
      reads this`buffer, this`misalign, this`bytes
    {
      buffer[misalign + i] == bytes[i]
    }

    /** Reference chains hold data up to the end of their memory and are never empty. */
    ghost predicate Wf()
      reads this`buffer, this`misalign, this`off, this`bytes
    {
      && 0 < |buffer|
      && off == |bytes|
      && misalign + off <= |buffer|
      && (immutable ==> 0 < off && misalign + off == |buffer|)
      && (forall i {:trigger ByteAt(i)} :: 0 <= i < |bytes| ==> ByteAt(i))
    }

    /** CHAIN_SPACE_LEN: the bytes free after the data. */
    function Space(): int
      reads this`buffer, this`misalign, this`off
    {
      if immutable then 0 else |buffer| - (misalign + off)
    }

    /** len bytes in use, from number pos on. */
    function Part(pos: nat, len: nat): (r: seq<Byte>)
      requires pos + len <= off && Wf()
      reads this`buffer, this`misalign, this`off, this`bytes
      ensures r == bytes[pos..pos + len]
    {
      PartIs(pos, len);
      buffer[misalign + pos..misalign + pos + len]
    }

    lemma PartIs(pos: nat, len: nat)
      requires pos + len <= off && Wf()
      ensures buffer[misalign + pos..misalign + pos + len] == bytes[pos..pos + len]
    {
      var a, b := buffer[misalign + pos..misalign + pos + len], bytes[pos..pos + len];
      forall i | 0 <= i < len ensures a[i] == b[i] {
        assert ByteAt(pos + i);
      }
    }

    constructor New(size: nat)
      ensures Wf() && size <= |buffer| && RoundedUp(size, |buffer|)
      ensures !immutable && next == null && misalign == 0 && off == 0
    {
      var cap := ChainCapacity(size);
      immutable := false;
      next := null;
      buffer := seq(cap, _ => 0);
      misalign, off := 0, 0;
      bytes := [];
    }

    /** The chain that evbuffer_add_reference makes. */
    constructor Reference(data: seq<Byte>)
      requires |data| > 0
      ensures Wf() && buffer == bytes == data && immutable && next == null
    {
      immutable := true;
      next := null;
      buffer := data;
      misalign, off := 0, |data|;
      bytes := data;
    }

    /** memcpy of data into the chain's memory at index at. */
    method Write(at: nat, data: seq<Byte>)
      requires at + |data| <= |buffer|
      modifies this`buffer
      ensures |buffer| == old(|buffer|)
      ensures forall i {:trigger buffer[i]} :: 0 <= i < |buffer| ==>
                buffer[i] == if at <= i < at + |data| then data[i - at] else old(buffer)[i]
    {
      buffer := buffer[..at] + data + buffer[at + |data|..];
    }

    /** evbuffer_chain_should_realign */
    predicate ShouldRealign(datlen: nat)
      reads this`buffer, this`misalign, this`off
    {
      && datlen <= |buffer| - off
      && off < |buffer| / 2
      && off <= MAX_TO_REALIGN_IN_EXPAND
    }

    /** evbuffer_chain_align: move the data to the start of the memory. */
    method Align()
      requires Wf() && !immutable
      modifies this`misalign, this`buffer
      ensures Wf() && misalign == 0 && |buffer| == old(|buffer|)
    {
      Write(0, Part(0, off));
      misalign := 0;
    }

    /** Put data behind the bytes in use. */
    method Append(data: seq<Byte>)
      requires Wf() && |data| <= Space() && !immutable
      modifies this`buffer, this`off, this`bytes
      ensures Wf() && |buffer| == old(|buffer|) && bytes == old(bytes) + data
    {
      Write(misalign + off, data);
      off := off + |data|;
      bytes := bytes + data;
      forall i | 0 <= i < |bytes| ensures ByteAt(i) {
        assert i < old(off) ==> old(ByteAt(i));
      }
    }

    /** Put data before the bytes in use. */
    method Push(data: seq<Byte>)
      requires Wf() && |data| <= misalign && !immutable
      modifies this`buffer, this`off, this`misalign, this`bytes
      ensures Wf() && |buffer| == old(|buffer|) && bytes == data + old(bytes)
      ensures misalign == old(misalign) - |data|
    {
      Write(misalign - |data|, data);
      off, misalign := off + |data|, misalign - |data|;
      bytes := data + bytes;
      forall i | 0 <= i < |bytes| ensures ByteAt(i) {
        assert |data| <= i ==> old(ByteAt(i - |data|));
      }
    }

    /** Give up the first n bytes in use. */
    method Advance(n: nat)
      requires Wf() && n <= off && (immutable ==> n < off)
      modifies this`off, this`misalign, this`bytes
      ensures Wf() && bytes == old(bytes)[n..]
    {
      misalign, off := misalign + n, off - n;
      bytes := bytes[n..];
      forall i | 0 <= i < |bytes| ensures ByteAt(i) {
        assert old(ByteAt(i + n));
      }
    }
  }

  ghost function Nodes(cs: seq<Chain>): set<object> {
    set c | c in cs
  }

  /** Chain number i, or null past the end. */
  ghost function At(cs: seq<Chain>, i: nat): Chain? {
    if i < |cs| then cs[i] else null
  }

  ghost predicate Differ(c: Chain, d: Chain) {
    c != d
  }

  /** No chain occurs twice. */
  ghost predicate Distinct(cs: seq<Chain>) {
    forall i, j {:trigger Differ(cs[i], cs[j])} :: 0 <= i < j < |cs| ==> Differ(cs[i], cs[j])
  }

  ghost predicate LinkAt(cs: seq<Chain>, i: nat)
    requires i < |cs|
    reads cs`next
  {
    cs[i].next == At(cs, i + 1)
  }

  ghost predicate Linked(cs: seq<Chain>)
    reads cs`next
  {
    forall i {:trigger LinkAt(cs, i)} :: 0 <= i < |cs| ==> LinkAt(cs, i)
  }

  ghost predicate HoldsOne(c: Chain, part: seq<Byte>)
    reads c`buffer, c`misalign, c`off, c`bytes
  {
    c.Wf() && c.bytes == part
  }

  /** Each chain holds the bytes of its part. */
  ghost predicate Holds(cs: seq<Chain>, live: seq<seq<Byte>>)
    reads cs`buffer, cs`misalign, cs`off, cs`bytes
  {
    && |cs| == |live|
    && (forall i {:trigger HoldsOne(cs[i], live[i])} :: 0 <= i < |cs| ==> HoldsOne(cs[i], live[i]))
  }

  /** Only chain number i may have changed: every chain still holds its part. */
  lemma HoldsUpdate(cs: seq<Chain>, parts: seq<seq<Byte>>, i: nat)
    requires i < |cs| == |parts| && cs[i].Wf()
    requires forall j {:trigger HoldsOne(cs[j], parts[j])} :: 0 <= j < |cs| && j != i ==> HoldsOne(cs[j], parts[j])
    ensures Holds(cs, parts[i := cs[i].bytes])
  {
    var other := parts[i := cs[i].bytes];
    forall j | 0 <= j < |cs| ensures HoldsOne(cs[j], other[j]) {
      assert j != i ==> HoldsOne(cs[j], parts[j]);
    }
  }

  /** Chain number i is not any other chain of the list. */
  lemma OtherChain(cs: seq<Chain>, i: nat, j: nat)
    requires Distinct(cs) && i < |cs| && j < |cs| && i != j
    ensures cs[i] != cs[j]
  {
    assert if i < j then Differ(cs[i], cs[j]) else Differ(cs[j], cs[i]);
  }

  lemma DistinctSnoc(cs: seq<Chain>, e: nat, c: Chain)
    requires Distinct(cs) && e <= |cs| && c !in cs
    ensures Distinct(cs[..e] + [c])
  {
    forall i, j | 0 <= i < j < e ensures Differ(cs[i], cs[j]) {}
  }

  lemma HoldsSnoc(cs: seq<Chain>, live: seq<seq<Byte>>, e: nat, c: Chain)
    requires Holds(cs, live) && c.Wf() && e <= |cs|
    ensures Holds(cs[..e] + [c], live[..e] + [c.bytes])
  {
    forall i | 0 <= i < e ensures HoldsOne(cs[i], live[i]) {}
  }

  ghost predicate Idle(live: seq<seq<Byte>>, i: nat) {
    i < |live| ==> |live[i]| == 0
  }

  /** d is the index of the last part with data, or 0 if there is none. */
  ghost predicate IsLastWithData(live: seq<seq<Byte>>, d: nat) {
    && (|live| == 0 ==> d == 0)
    && (|live| > 0 ==> d < |live|)
    && (forall i {:trigger Idle(live, i)} :: d < i < |live| ==> Idle(live, i))
    && (0 < d ==> |live[d]| > 0)
  }

  ghost predicate HasData(live: seq<seq<Byte>>, i: nat) {
    i < |live| ==> |live[i]| > 0
  }

  /** No part before number d is empty. */
  ghost predicate Gapless(live: seq<seq<Byte>>, d: nat) {
    forall i {:trigger HasData(live, i)} :: 0 <= i < d ==> HasData(live, i)
  }

  /** The number of parts that stay when the empty ones at the end are freed. */
  ghost function Kept(live: seq<seq<Byte>>, d: nat): (e: nat)
    requires IsLastWithData(live, d)
    ensures e <= |live|
  {
    if |live| == 0 || |live[d]| == 0 then d else d + 1
  }

  lemma FlatAfter(live: seq<seq<Byte>>, d: nat, e: nat)
    requires IsLastWithData(live, d) && d < e <= |live|
    ensures Flat(live[e..]) == []
  {
    forall i | e <= i < |live| ensures |live[i]| == 0 {
      assert Idle(live, i);
    }
    FlatEmpty(live[e..]);
  }

  lemma FlatKept(live: seq<seq<Byte>>, d: nat)
    requires IsLastWithData(live, d)
    ensures Flat(live) == Flat(live[..Kept(live, d)])
  {
    if live != [] {
      FlatAt(live, d);
      FlatAfter(live, d, d + 1);
      FlatTake(live, d);
    }
  }

  /** Growing the last part with data grows the whole at its end. */
  lemma FlatGrowLast(live: seq<seq<Byte>>, d: nat, data: seq<Byte>)
    requires IsLastWithData(live, d) && live != []
    ensures Flat(live[d := live[d] + data]) == Flat(live) + data
    ensures IsLastWithData(live[d := live[d] + data], d)
    ensures Gapless(live, d) ==> Gapless(live[d := live[d] + data], d)
  {
    FlatAt(live, d);
    FlatUpdate(live, d, live[d] + data);
    FlatAfter(live, d, d + 1);
    var grown := live[d := live[d] + data];
    forall i | d < i < |live| ensures Idle(grown, i) {
      assert Idle(live, i);
    }
    forall i | 0 <= i < d ensures HasData(live, i) ==> HasData(grown, i) {}
  }

  /** The list after a chain holding x took the place of the empty chains at its end. */
  lemma InsertedLast(live: seq<seq<Byte>>, d: nat, x: seq<Byte>)
    requires IsLastWithData(live, d)
    ensures var e := Kept(live, d);
      && IsLastWithData(live[..e] + [x], if |x| == 0 then d else e)
      && (Gapless(live, d) ==> Gapless(live[..e] + [x], if |x| == 0 then d else e))
      && Flat(live[..e] + [x]) == Flat(live) + x
  {
    var e := Kept(live, d);
    FlatKept(live, d);
    FlatSnoc(live[..e], x);
    forall i | d < i < e + 1 ensures |x| == 0 ==> Idle(live[..e] + [x], i) {}
    forall i | 0 <= i < e ensures HasData(live, i) ==> HasData(live[..e] + [x], i) {}
  }

  class EvBuffer {
    var first: Chain?
    var last: Chain?
    /** last_with_datap: the chain whose next field it points at, or null for the buffer's first. */
    var lwdOwner: Chain?
    var totalLen: nat
    ghost var chains: seq<Chain>
    ghost var live: seq<seq<Byte>>
    ghost var datum: nat

    ghost predicate Valid()
      reads this, chains
    {
      && Distinct(chains)
      && Linked(chains)
      && Holds(chains, live)
      && first == At(chains, 0)
      && last == (if |chains| == 0 then null else chains[|chains| - 1])
      && IsLastWithData(live, datum)
      && lwdOwner == (if datum == 0 then null else chains[datum - 1])
      && totalLen == |Flat(live)| <= SIZE_MAX
    }

    /** The bytes of the buffer. */
    ghost function Contents(): seq<Byte>
      reads this
    {
      Flat(live)
    }

    /** No empty chain stands before a chain with data. */
    ghost predicate NoGap()
      reads this
    {
      Gapless(live, datum)
    }

    ghost function Repr(): set<object>
      reads this
    {
      {this} + Nodes(chains)
    }

    /** *buf->last_with_datap */
    function LastWithDataChain(): Chain?
      reads this, lwdOwner
    {
      if lwdOwner == null then first else lwdOwner.next
    }

    constructor ()
      ensures Valid() && fresh(Repr()) && chains == [] && Contents() == [] && NoGap()
    {
      first, last, lwdOwner, totalLen := null, null, null, 0;
      chains, live, datum := [], [], 0;
    }

    /** The first half of evbuffer_free_trailing_empty_chains: find the pointer, at or after
        last_with_datap, that leads to an empty chain or to none. */
    method TrailingEmptyChains() returns (owner: Chain?, ghost e: nat)
      requires Valid() && chains != []
      ensures e == Kept(live, datum) <= |chains|
      ensures owner == if e == 0 then null else chains[e - 1]
    {
      owner, e := lwdOwner, datum;
      var ch := LastWithDataChain();
      assert 0 < datum ==> LinkAt(chains, datum - 1);
      while ch != null && ch.off != 0
        invariant datum <= e <= |chains| && e <= datum + 1
        invariant ch == At(chains, e)
        invariant owner == if e == 0 then null else chains[e - 1]
        invariant e == datum + 1 ==> |live[datum]| > 0
        decreases |chains| - e
      {
        assert HoldsOne(chains[e], live[e]) && LinkAt(chains, e);
        assert datum < e ==> Idle(live, e);
        owner, e, ch := ch, e + 1, ch.next;
      }
      assert ch != null ==> HoldsOne(chains[e], live[e]);
    }

    /** The last steps of evbuffer_chain_insert: the pointer that owner holds (the buffer's first if null)
        leads to chain, which ends the list. */
    method LinkAfter(owner: Chain?, ghost e: nat, chain: Chain)
      requires Distinct(chains) && Linked(chains) && |live| == |chains| && e <= |chains|
      requires owner == if e == 0 then null else chains[e - 1]
      requires first == At(chains, 0)
      requires chain !in chains && chain.next == null && chain.Wf()
      modifies this, chains`next
      ensures chains == old(chains)[..e] + [chain] && live == old(live)[..e] + [chain.bytes]
      ensures datum == if chain.off == 0 then old(datum) else e
      ensures first == chains[0] && last == chain
      ensures lwdOwner == if chain.off == 0 then old(lwdOwner) else owner
      ensures totalLen == old(totalLen) + chain.off
      ensures Linked(chains)
    {
      ghost var was := chains;
      chains, live := chains[..e] + [chain], live[..e] + [chain.bytes];
      if owner == null { first := chain; } else { owner.next := chain; }
      if chain.off != 0 {
        lwdOwner, datum := owner, e;
      }
      last := chain;
      totalLen := totalLen + chain.off;
      forall i | 0 <= i < |chains| ensures LinkAt(chains, i) {
        if i < e {
          assert old(LinkAt(chains, i));
          assert i + 1 < e ==> Differ(was[i], was[e - 1]);
        }
      }
    }

    /** evbuffer_chain_insert: add one chain at the end, in place of the empty chains there. */
    method ChainInsert(chain: Chain)
      requires Valid() && chain.Wf() && chain.next == null
      requires chain !in chains && totalLen + chain.off <= SIZE_MAX
      modifies this, chains`next
      ensures Valid()
      ensures var e := old(Kept(live, datum));
        && chains == old(chains)[..e] + [chain] && live == old(live)[..e] + [chain.bytes]
        && datum == if chain.off == 0 then old(datum) else e
      ensures Contents() == old(Contents()) + chain.bytes
      ensures old(NoGap()) ==> NoGap()
    {
      ghost var e := Kept(live, datum);
      InsertedLast(live, datum, chain.bytes);
      DistinctSnoc(chains, e, chain);
      HoldsSnoc(chains, live, e, chain);
      var owner: Chain? := null;
      assert 0 < datum ==> LinkAt(chains, datum - 1);
      if LastWithDataChain() != null {
        owner, e := TrailingEmptyChains();
      }
      LinkAfter(owner, e, chain);
    }

    /** Put data into the free space of the last chain with data. */
    method Grow(chain: Chain, data: seq<Byte>)
      requires Valid() && |chains| > 0 && chain == chains[datum]
      requires !chain.immutable && |data| <= chain.Space() && totalLen + |data| <= SIZE_MAX
      modifies this`totalLen, this`live, chain`buffer, chain`off, chain`bytes
      ensures Valid()
      ensures live == old(live)[datum := old(live)[datum] + data]
      ensures Contents() == old(Contents()) + data
      ensures old(NoGap()) ==> NoGap()
      ensures chain.bytes == live[datum] && |chain.buffer| == old(|chain.buffer|)
    {
      ghost var parts := live;
      assert HoldsOne(chains[datum], live[datum]);
      FlatGrowLast(live, datum, data);
      totalLen := totalLen + |data|;
      chain.Append(data);
      forall j | 0 <= j < |chains| && j != datum ensures HoldsOne(chains[j], parts[j]) {
        OtherChain(chains, datum, j);
        assert old(HoldsOne(chains[j], live[j]));
      }
      HoldsUpdate(chains, parts, datum);
      live := parts[datum := parts[datum] + data];
    }

    /** evbuffer_chain_align on the last chain with data. */
    method AlignLast(chain: Chain)
      requires Valid() && |chains| > 0 && chain == chains[datum] && !chain.immutable
      modifies chain`buffer, chain`misalign
      ensures Valid() && chain.misalign == 0 && |chain.buffer| == old(|chain.buffer|)
    {
      assert HoldsOne(chains[datum], live[datum]);
      chain.Align();
      forall j | 0 <= j < |chains| && j != datum ensures HoldsOne(chains[j], live[j]) {
        OtherChain(chains, datum, j);
        assert old(HoldsOne(chains[j], live[j]));
      }
      HoldsUpdate(chains, live, datum);
      assert live[datum := chain.bytes] == live;
    }

    /** evbuffer_add */
    method Add(data: seq<Byte>) returns (ok: bool)
      requires Valid()
      modifies this, chains
      ensures Valid() && (forall c :: c in chains ==> c in old(chains) || fresh(c))
      ensures ok == (|data| <= SIZE_MAX - |old(Contents())|)
      ensures Contents() == if ok then old(Contents()) + data else old(Contents())
      ensures old(NoGap()) ==> NoGap()
      ensures ok && old(chains) == [] ==>
                |chains| == 1 && RoundedUp(|data|, |chains[0].buffer|) && chains[0].misalign == 0
                  && !chains[0].immutable
    {
      if |data| > SIZE_MAX - totalLen {
        return false;
      }
      var chain := LastWithDataChain();
      assert 0 < datum ==> LinkAt(chains, datum - 1);
      if chain == null {
        chain := last;
      }
      if chain == null {
        chain := new Chain.New(|data|);
        ChainInsert(chain);
      }
      assert HoldsOne(chains[datum], live[datum]);
      var remain := 0;
      if !chain.immutable {
        remain := chain.Space();
        if |data| <= remain {
          Grow(chain, data);
          return true;
        } else if chain.ShouldRealign(|data|) {
          AlignLast(chain);
          Grow(chain, data);
          return true;
        }
      }
      AddInNewChain(chain, remain, data);
      return true;
    }

    /** The end of evbuffer_add: the data does not fit into the last chain with data. */
    method AddInNewChain(chain: Chain, remain: nat, data: seq<Byte>)
      requires Valid() && |chains| > 0 && chain == chains[datum]
      requires remain == chain.Space() && (chain.immutable || remain < |data|)
      requires totalLen + |data| <= SIZE_MAX
      modifies this, chains
      ensures Valid() && (forall c :: c in chains ==> c in old(chains) || fresh(c))
      ensures Contents() == old(Contents()) + data
      ensures |chains| > 0 && fresh(chains[|chains| - 1])
      ensures var had := old(|chain.buffer|);
        var more := if had <= 2048 then 2 * had else had;
        RoundedUp(if |data| > more then |data| else more, |chains[|chains| - 1].buffer|)
      ensures old(NoGap()) ==> NoGap()
    {
      var toAlloc := |chain.buffer|;
      if toAlloc <= CHAIN_MAX_AUTO_SIZE / 2 {
        toAlloc := toAlloc * 2;
      }
      if |data| > toAlloc {
        toAlloc := |data|;
      }
      var tmp := new Chain.New(toAlloc);
      GrowAndInsert(chain, remain, data, tmp);
    }

    /** Bytes for a chain that is not yet in the buffer. */
    method FillOutside(tmp: Chain, data: seq<Byte>)
      requires Valid() && tmp !in chains && tmp.Wf() && !tmp.immutable && tmp.off == 0 && |data| <= tmp.Space()
      modifies tmp`buffer, tmp`off, tmp`bytes
      ensures Valid() && tmp.Wf() && tmp.bytes == data && |tmp.buffer| == old(|tmp.buffer|)
    {
      tmp.Append(data);
      assert [] + data == data;
      forall j | 0 <= j < |chains| ensures HoldsOne(chains[j], live[j]) {
        assert chains[j] in chains && old(HoldsOne(chains[j], live[j]));
      }
    }

    /** What fits goes to the one chain, the rest to the new one. */
    method GrowAndInsert(chain: Chain, remain: nat, data: seq<Byte>, tmp: Chain)
      requires Valid() && |chains| > 0 && chain == chains[datum]
      requires remain == chain.Space() && (chain.immutable || remain < |data|)
      requires totalLen + |data| <= SIZE_MAX
      requires tmp.Wf() && tmp !in chains && !tmp.immutable && tmp.next == null && tmp.off == 0
      requires |data| <= tmp.Space()
      modifies this, chains, tmp
      ensures Valid() && (forall c :: c in chains ==> c in old(chains) || c == tmp)
      ensures Contents() == old(Contents()) + data
      ensures |chains| > 0 && chains[|chains| - 1] == tmp && |tmp.buffer| == old(|tmp.buffer|)
      ensures old(NoGap()) ==> NoGap()
    {
      ghost var a, b, c := Contents(), data[..remain], data[remain..];
      assert a + b + c == a + data && (remain == 0 ==> a + b == a);
      if remain > 0 {
        Grow(chain, data[..remain]);
      }
      FillOutside(tmp, data[remain..]);
      ChainInsert(tmp);
    }
  }
}
