/** Moving bytes from one evbuffer to another without copying the chains. */
module EvBufferMove {
  import opened ByteSeqs
  import opened EvBuffers
  import opened EvBufferFront

  /** Two buffers with no chain in common. */
  ghost predicate Apart(a: EvBuffer, b: EvBuffer)
    reads a, b
  {
    a != b && forall c :: c in a.chains ==> c !in b.chains
  }

  lemma DistinctConcat(a: seq<Chain>, e: nat, b: seq<Chain>)
    requires Distinct(a) && Distinct(b) && e <= |a|
    requires forall c :: c in a ==> c !in b
    ensures Distinct(a[..e] + b)
  {
    var t := a[..e] + b;
    forall i, j | 0 <= i < j < |t| ensures Differ(t[i], t[j]) {
      if j < e {
        assert Differ(a[i], a[j]);
      } else if e <= i {
        assert Differ(b[i - e], b[j - e]);
      } else {
        assert t[i] in a && t[j] in b;
      }
    }
  }

  lemma HoldsConcat(a: seq<Chain>, la: seq<seq<Byte>>, e: nat, b: seq<Chain>, lb: seq<seq<Byte>>)
    requires Holds(a, la) && Holds(b, lb) && e <= |a|
    ensures Holds(a[..e] + b, la[..e] + lb)
  {
    var t, p := a[..e] + b, la[..e] + lb;
    forall i | 0 <= i < |t| ensures HoldsOne(t[i], p[i]) {
      assert i < e ==> HoldsOne(a[i], la[i]);
      assert e <= i ==> HoldsOne(b[i - e], lb[i - e]);
    }
  }

  /** If there are bytes at all, the last part with data has some. */
  lemma DatumHasData(live: seq<seq<Byte>>, d: nat)
    requires IsLastWithData(live, d) && |Flat(live)| > 0
    ensures d < |live| && |live[d]| > 0
  {
    if |live| > 0 {
      FlatToDatum(live, d, |live|);
    }
  }

  /** The parts of a list with data go behind those of another, less its empty ones at the end. */
  lemma Joined(a: seq<seq<Byte>>, da: nat, b: seq<seq<Byte>>, db: nat)
    requires IsLastWithData(a, da) && IsLastWithData(b, db) && |Flat(b)| > 0
    ensures var e := Kept(a, da);
      && IsLastWithData(a[..e] + b, e + db)
      && Flat(a[..e] + b) == Flat(a) + Flat(b)
      && (Gapless(a, da) && Gapless(b, db) ==> Gapless(a[..e] + b, e + db))
  {
    var e := Kept(a, da);
    var t := a[..e] + b;
    FlatKept(a, da);
    FlatConcat(a[..e], b);
    DatumHasData(b, db);
    forall i | e + db < i < |t| ensures Idle(t, i) {
      assert Idle(b, i - e);
    }
    forall i | 0 <= i < e + db ensures Gapless(a, da) && Gapless(b, db) ==> HasData(t, i) {
      assert i < da ==> (Gapless(a, da) ==> HasData(a, i));
      assert e <= i ==> (Gapless(b, db) ==> HasData(b, i - e));
    }
  }

  /** The pointer that owner holds (the buffer's first if null) leads to head, the first of more. */
  method LinkList(dst: EvBuffer, owner: Chain?, ghost e: nat, head: Chain, tail: Chain,
                  ghost more: seq<Chain>, ghost parts: seq<seq<Byte>>)
    requires Distinct(dst.chains) && Linked(dst.chains) && |dst.live| == |dst.chains| && e <= |dst.chains|
    requires owner == if e == 0 then null else dst.chains[e - 1]
    requires dst.first == At(dst.chains, 0)
    requires Linked(more) && |more| > 0 && head == more[0] && tail == more[|more| - 1]
    requires forall c :: c in dst.chains ==> c !in more
    modifies dst`first, dst`last, dst`chains, dst`live, dst.chains`next
    ensures dst.chains == old(dst.chains)[..e] + more && dst.live == old(dst.live)[..e] + parts
    ensures dst.first == dst.chains[0] && dst.last == tail == dst.chains[|dst.chains| - 1]
    ensures Linked(dst.chains)
  {
    ghost var was := dst.chains;
    dst.chains, dst.live := was[..e] + more, dst.live[..e] + parts;
    dst.last := tail;
    assert e > 0 ==> was[e - 1] in was;
    if owner == null { dst.first := head; } else { owner.next := head; }
    forall i | 0 <= i < |dst.chains| ensures LinkAt(dst.chains, i) {
      if i < e {
        assert old(LinkAt(was, i));
        assert i + 1 < e ==> Differ(was[i], was[e - 1]);
      } else {
        assert old(LinkAt(more, i - e));
        assert more[i - e] in more;
      }
    }
  }

  /** ZERO_CHAIN */
  method ZeroChain(buf: EvBuffer)
    modifies buf
    ensures buf.Valid() && buf.chains == [] && buf.Contents() == [] && buf.NoGap()
  {
    buf.first, buf.last, buf.lwdOwner, buf.totalLen := null, null, null, 0;
    buf.chains, buf.live, buf.datum := [], [], 0;
  }

  /** COPY_CHAIN */
  method CopyChain(dst: EvBuffer, src: EvBuffer)
    requires src.Valid() && dst != src
    modifies dst
    ensures dst.Valid() && dst.chains == src.chains && dst.live == src.live && dst.datum == src.datum
  {
    dst.first := src.first;
    dst.lwdOwner := src.lwdOwner;
    dst.last := src.last;
    dst.totalLen := src.totalLen;
    dst.chains, dst.live, dst.datum := src.chains, src.live, src.datum;
  }

  /** APPEND_CHAIN */
  method AppendChain(dst: EvBuffer, src: EvBuffer)
    requires dst.Valid() && src.Valid() && Apart(dst, src)
    requires dst.totalLen > 0 && src.totalLen > 0 && dst.totalLen + src.totalLen <= SIZE_MAX
    modifies dst, dst.chains
    ensures dst.Valid() && dst.Contents() == old(dst.Contents()) + src.Contents()
    ensures dst.chains == old(dst.chains[..Kept(dst.live, dst.datum)]) + src.chains
    ensures old(dst.NoGap()) && src.NoGap() ==> dst.NoGap()
  {
    Joined(dst.live, dst.datum, src.live, src.datum);
    DatumHasData(src.live, src.datum);
    DatumHasData(dst.live, dst.datum);
    var owner, e := dst.TrailingEmptyChains();
    DistinctConcat(dst.chains, e, src.chains);
    HoldsConcat(dst.chains, dst.live, e, src.chains, src.live);
    LinkList(dst, owner, e, src.first, src.last, src.chains, src.live);
    AppendCounts(dst, src, owner, e);
  }

  method AppendCounts(dst: EvBuffer, src: EvBuffer, owner: Chain?, ghost e: nat)
    requires dst != src
    modifies dst`lwdOwner, dst`totalLen, dst`datum
    ensures dst.lwdOwner == if src.lwdOwner == null then owner else src.lwdOwner
    ensures dst.totalLen == old(dst.totalLen) + src.totalLen && dst.datum == e + src.datum
  {
    dst.lwdOwner := if src.lwdOwner == null then owner else src.lwdOwner;
    dst.totalLen := dst.totalLen + src.totalLen;
    dst.datum := e + src.datum;
  }

  /** evbuffer_add_buffer */
  method AddBuffer(outbuf: EvBuffer, inbuf: EvBuffer)
    requires outbuf.Valid() && inbuf.Valid() && (outbuf == inbuf || Apart(outbuf, inbuf))
    requires outbuf.totalLen + inbuf.totalLen <= SIZE_MAX
    modifies outbuf, inbuf, outbuf.chains
    ensures outbuf.Valid() && inbuf.Valid() && (outbuf == inbuf || Apart(outbuf, inbuf))
    ensures forall c :: c in outbuf.chains || c in inbuf.chains ==> c in old(outbuf.chains) || c in old(inbuf.chains)
    ensures outbuf != inbuf ==> inbuf.Contents() == [] && outbuf.Contents() == old(outbuf.Contents() + inbuf.Contents())
    ensures outbuf == inbuf ==> outbuf.Contents() == old(outbuf.Contents())
    ensures old(inbuf.NoGap()) ==> inbuf.NoGap()
    ensures old(outbuf.NoGap() && inbuf.NoGap()) ==> outbuf.NoGap()
  {
    if inbuf.totalLen == 0 || outbuf == inbuf {
      return;
    }
    if outbuf.totalLen == 0 {
      CopyChain(outbuf, inbuf);
    } else {
      AppendChain(outbuf, inbuf);
    }
    ZeroChain(inbuf);
  }

  /** The parts of a list go before those of one with data; each empty part at the end of the former
      is then a gap. */
  lemma JoinedBefore(a: seq<seq<Byte>>, da: nat, b: seq<seq<Byte>>, db: nat)
    requires IsLastWithData(a, da) && IsLastWithData(b, db) && |Flat(a)| > 0 && |Flat(b)| > 0
    ensures IsLastWithData(a + b, |a| + db) && Flat(a + b) == Flat(a) + Flat(b)
    ensures Gapless(a + b, |a| + db) <==> Gapless(a, da) && Gapless(b, db) && da + 1 == |a|
  {
    var t := a + b;
    FlatConcat(a, b);
    DatumHasData(a, da);
    DatumHasData(b, db);
    forall i | |a| + db < i < |t| ensures Idle(t, i) {
      assert Idle(b, i - |a|);
    }
    forall i | 0 <= i < |a| ensures HasData(t, i) == HasData(a, i) {}
    forall i | 0 <= i < |b| ensures HasData(t, |a| + i) == HasData(b, i) {}
    if Gapless(t, |a| + db) {
      forall i | 0 <= i < |a| ensures HasData(a, i) {
        assert HasData(t, i);
      }
      forall i | 0 <= i < db ensures HasData(b, i) {
        assert HasData(t, |a| + i);
      }
      assert da + 1 < |a| ==> Idle(a, da + 1) && HasData(a, da + 1);
    }
    if Gapless(a, da) && Gapless(b, db) && da + 1 == |a| {
      forall i | 0 <= i < |a| + db ensures HasData(t, i) {
        assert i < da ==> HasData(a, i);
        assert |a| <= i ==> HasData(b, i - |a|);
      }
    }
  }

  /** The pointer writes of PREPEND_CHAIN. */
  method PrependLinks(dst: EvBuffer, src: EvBuffer)
    requires Linked(src.chains) && Linked(dst.chains) && Apart(dst, src) && Distinct(src.chains)
    requires |src.chains| > 0 && |dst.chains| > 0
    requires src.first == src.chains[0] && src.last == src.chains[|src.chains| - 1] && dst.first == dst.chains[0]
    requires dst.lwdOwner != null ==> dst.lwdOwner.next != null
    requires dst.lwdOwner != src.last
    modifies dst, src.chains`next
    ensures dst.chains == src.chains + old(dst.chains) && dst.live == src.live + old(dst.live)
    ensures dst.datum == |src.chains| + old(dst.datum) && dst.totalLen == old(dst.totalLen) + src.totalLen
    ensures dst.first == src.first && dst.last == old(dst.last)
    ensures dst.lwdOwner == if old(dst.lwdOwner) == null then src.last else old(dst.lwdOwner)
    ensures Linked(dst.chains)
  {
    ghost var was, n := dst.chains, |src.chains|;
    var head := dst.first;
    dst.first := src.first;
    dst.totalLen := dst.totalLen + src.totalLen;
    dst.chains, dst.live, dst.datum := src.chains + dst.chains, src.live + dst.live, |src.chains| + dst.datum;
    if dst.LastWithDataChain() == null {
      assert false; // dst has chains, and now src's before them
    } else if dst.lwdOwner == null {
      dst.lwdOwner := src.last;
    }
    src.last.next := head;
    assert src.last in src.chains;
    forall i | 0 <= i < |dst.chains| ensures LinkAt(dst.chains, i) {
      if i < n {
        assert old(LinkAt(src.chains, i));
        assert i + 1 < n ==> Differ(src.chains[i], src.chains[n - 1]);
      } else {
        assert old(LinkAt(was, i - n));
        assert was[i - n] in was;
      }
    }
  }

  /** PREPEND_CHAIN */
  method PrependChain(dst: EvBuffer, src: EvBuffer)
    requires dst.Valid() && src.Valid() && Apart(dst, src)
    requires dst.totalLen > 0 && src.totalLen > 0 && dst.totalLen + src.totalLen <= SIZE_MAX
    modifies dst, src.chains`next
    ensures dst.Valid() && dst.Contents() == src.Contents() + old(dst.Contents())
    ensures dst.chains == src.chains + old(dst.chains) && dst.live == src.live + old(dst.live)
    ensures dst.NoGap() <==> old(dst.NoGap() && src.NoGap() && src.datum + 1 == |src.chains|)
  {
    ghost var cs, parts := src.chains, src.live;
    JoinedBefore(src.live, src.datum, dst.live, dst.datum);
    DatumHasData(src.live, src.datum);
    DatumHasData(dst.live, dst.datum);
    DistinctConcat(cs, |cs|, dst.chains);
    HoldsConcat(cs, parts, |cs|, dst.chains, dst.live);
    assert cs[..|cs|] == cs && parts[..|parts|] == parts;
    assert dst.datum > 0 ==> LinkAt(dst.chains, dst.datum - 1) && dst.lwdOwner in dst.chains;
    assert src.last in cs;
    PrependLinks(dst, src);
  }

  /** evbuffer_prepend_buffer */
  method PrependBuffer(outbuf: EvBuffer, inbuf: EvBuffer)
    requires outbuf.Valid() && inbuf.Valid() && (outbuf == inbuf || Apart(outbuf, inbuf))
    requires outbuf.totalLen + inbuf.totalLen <= SIZE_MAX
    modifies outbuf, inbuf, inbuf.chains
    ensures outbuf.Valid() && inbuf.Valid() && (outbuf == inbuf || Apart(outbuf, inbuf))
    ensures forall c :: c in outbuf.chains || c in inbuf.chains ==> c in old(outbuf.chains) || c in old(inbuf.chains)
    ensures outbuf != inbuf ==> inbuf.Contents() == [] && outbuf.Contents() == old(inbuf.Contents() + outbuf.Contents())
    ensures outbuf == inbuf ==> outbuf.Contents() == old(outbuf.Contents())
    ensures old(inbuf.NoGap()) ==> inbuf.NoGap()
    ensures outbuf != inbuf && old(inbuf.totalLen > 0 && outbuf.totalLen > 0) ==>
              outbuf.chains == old(inbuf.chains + outbuf.chains) && outbuf.live == old(inbuf.live + outbuf.live) &&
              (outbuf.NoGap() <==> old(outbuf.NoGap() && inbuf.NoGap() && inbuf.datum + 1 == |inbuf.chains|))
    ensures outbuf != inbuf && old(inbuf.totalLen > 0 && outbuf.totalLen == 0) ==>
              (outbuf.NoGap() <==> old(inbuf.NoGap()))
  {
    if inbuf.totalLen == 0 || outbuf == inbuf {
      return;
    }
    if outbuf.totalLen == 0 {
      CopyChain(outbuf, inbuf);
    } else {
      PrependChain(outbuf, inbuf);
    }
    ZeroChain(inbuf);
  }

  /** Distinct, linked and full chains: a valid buffer but for its counts and its last_with_datap. */
  ghost predicate Listed(buf: EvBuffer)
    reads buf, buf.chains
  {
    && Distinct(buf.chains) && Linked(buf.chains) && Holds(buf.chains, buf.live)
    && buf.first == At(buf.chains, 0)
    && buf.last == (if |buf.chains| == 0 then null else buf.chains[|buf.chains| - 1])
  }

  /** A valid buffer, but last_with_datap need not lead to the last chain with data. */
  ghost predicate Counted(buf: EvBuffer)
    reads buf, buf.chains
  {
    && Listed(buf)
    && (if |buf.chains| == 0 then buf.datum == 0 else buf.datum < |buf.chains|)
    && buf.lwdOwner == (if buf.datum == 0 then null else buf.chains[buf.datum - 1])
    && buf.totalLen == |Flat(buf.live)| <= SIZE_MAX
  }

  /** last_with_datap leads to a chain that an empty one comes after, and then one with data. */
  ghost predicate StaysBehind(buf: EvBuffer)
    reads buf, buf.chains
  {
    && Counted(buf) && !buf.Valid() && buf.datum + 1 < |buf.chains| && Idle(buf.live, buf.datum + 1)
    && (0 < buf.datum ==> HasData(buf.live, buf.datum))
  }

  /** advance_last_with_data */
  method AdvanceLastWithData(buf: EvBuffer)
    requires Listed(buf) && (|buf.chains| == 0 ==> buf.datum == 0) && (|buf.chains| > 0 ==> buf.datum < |buf.chains|)
    requires buf.lwdOwner == if buf.datum == 0 then null else buf.chains[buf.datum - 1]
    modifies buf`lwdOwner, buf`datum
    ensures |buf.chains| == 0 ==> buf.datum == 0
    ensures |buf.chains| > 0 ==> old(buf.datum) <= buf.datum < |buf.chains|
    ensures buf.lwdOwner == if buf.datum == 0 then null else buf.chains[buf.datum - 1]
    ensures forall i {:trigger HasData(buf.live, i)} :: old(buf.datum) < i <= buf.datum ==> HasData(buf.live, i)
    ensures buf.datum + 1 < |buf.chains| ==> Idle(buf.live, buf.datum + 1)
  {
    ghost var cs, live, d := buf.chains, buf.live, buf.datum;
    assert d > 0 ==> LinkAt(cs, d - 1);
    var c := buf.LastWithDataChain();
    if c == null {
      return;
    }
    assert LinkAt(cs, d) && HoldsOne(cs[d], live[d]);
    assert d + 1 < |cs| ==> HoldsOne(cs[d + 1], live[d + 1]);
    while c.next != null && c.next.off != 0
      invariant d <= buf.datum < |cs| && c == cs[buf.datum] && LinkAt(cs, buf.datum)
      invariant buf.datum + 1 < |cs| ==> HoldsOne(cs[buf.datum + 1], live[buf.datum + 1])
      invariant buf.lwdOwner == if buf.datum == 0 then null else cs[buf.datum - 1]
      invariant forall i {:trigger HasData(live, i)} :: d < i <= buf.datum ==> HasData(live, i)
      decreases |cs| - buf.datum
    {
      buf.lwdOwner, c := c, c.next;
      buf.datum := buf.datum + 1;
      assert LinkAt(cs, buf.datum);
      assert buf.datum + 1 < |cs| ==> HoldsOne(cs[buf.datum + 1], live[buf.datum + 1]);
    }
  }

  /** From number s on, and before number i, an empty part stands before one with data. */
  ghost predicate Stops(b: seq<seq<Byte>>, s: nat, i: nat) {
    exists j, k {:trigger HasData(b, j), HasData(b, k)} :: s <= j < k < i && !HasData(b, j) && HasData(b, k)
  }

  lemma StaysEmpty(b: seq<seq<Byte>>, s: nat, i: nat, j: nat, k: nat)
    requires !Stops(b, s, i) && s <= j < k < i && !HasData(b, j)
    ensures !HasData(b, k)
  {
  }

  /** The first i parts of one list go behind those of another, less its empty ones. The walk to the first
      empty part, number m + 1, finds the last part with data unless there is an empty part before one with
      data. The very first part of all may be empty. */
  lemma JoinedSome(a: seq<seq<Byte>>, da: nat, b: seq<seq<Byte>>, i: nat, m: nat)
    requires IsLastWithData(a, da) && 0 < i <= |b|
    requires var t := a[..Kept(a, da)] + b[..i];
      && da <= m < |t| && (forall j {:trigger HasData(t, j)} :: da < j <= m ==> HasData(t, j))
      && (m + 1 < |t| ==> Idle(t, m + 1))
    ensures var t := a[..Kept(a, da)] + b[..i];
      && (IsLastWithData(t, m) <==> !Stops(b, if Kept(a, da) == 0 then 1 else 0, i)) && (0 < m ==> HasData(t, m))
      && (Gapless(a, da) && Gapless(b, i) ==> Gapless(t, m))
  {
    var e := Kept(a, da);
    var t, s: nat := a[..e] + b[..i], if e == 0 then 1 else 0;
    forall j | 0 <= j < i ensures HasData(b, j) <==> HasData(t, e + j) {}
    if Stops(b, s, i) {
      var j, k :| s <= j < k < i && !HasData(b, j) && HasData(b, k);
      assert !HasData(t, e + j) && HasData(t, e + k);
      assert !Idle(t, e + k);
    } else {
      forall j | m < j < |t| ensures Idle(t, j) {
        if m + 1 < j { StaysEmpty(b, s, i, m + 1 - e, j - e); }
      }
    }
    assert 0 < m ==> HasData(t, m) && |t[m]| > 0;
    if Gapless(a, da) && Gapless(b, i) {
      forall j | 0 <= j < m ensures HasData(t, j) {
        assert j < da ==> HasData(a, j);
        assert e <= j ==> HasData(b, j - e);
      }
    }
  }

  lemma JoinedFlat(a: seq<seq<Byte>>, da: nat, b: seq<seq<Byte>>, i: nat)
    requires IsLastWithData(a, da) && i <= |b|
    ensures Flat(a[..Kept(a, da)] + b[..i]) == Flat(a) + FlatTo(b, i)
  {
    FlatKept(a, da);
    FlatConcat(a[..Kept(a, da)], b[..i]);
    FlatSplit(b, i);
  }

  lemma ListTake(cs: seq<Chain>, live: seq<seq<Byte>>, i: nat)
    requires Distinct(cs) && Holds(cs, live) && i <= |cs|
    ensures Distinct(cs[..i]) && Holds(cs[..i], live[..i])
  {
    forall j, k | 0 <= j < k < i ensures Differ(cs[..i][j], cs[..i][k]) {
      assert Differ(cs[j], cs[k]);
    }
    forall j | 0 <= j < i ensures HoldsOne(cs[..i][j], live[..i][j]) {
      assert HoldsOne(cs[j], live[j]);
    }
  }

  /** The bytes of i parts and the first r of the next one are a prefix of all bytes. */
  lemma Taken(live: seq<seq<Byte>>, i: nat, r: nat)
    requires i < |live| && r <= |live[i]|
    ensures |FlatTo(live, i)| + r <= |Flat(live)|
    ensures FlatTo(live, i) + live[i][..r] == Flat(live)[..|FlatTo(live, i)| + r]
  {
    FlatAt(live, i);
    FlatSplit(live, i);
  }

  /** End the list of chains at its chain number i - 1. */
  method CutList(previous: Chain, ghost cs: seq<Chain>, ghost i: nat)
    requires Linked(cs) && Distinct(cs) && 0 < i < |cs| && previous == cs[i - 1]
    modifies previous`next
    ensures Linked(cs[..i]) && Linked(cs[i..])
  {
    previous.next := null;
    forall j | 0 <= j < i ensures LinkAt(cs[..i], j) {
      assert old(LinkAt(cs, j));
      assert j + 1 < i ==> Differ(cs[j], cs[i - 1]);
    }
    forall j | 0 <= j < |cs| - i ensures LinkAt(cs[i..], j) {
      assert old(LinkAt(cs, i + j));
      assert Differ(cs[i - 1], cs[i + j]);
    }
  }

  /** The pointer writes with which evbuffer_remove_buffer moves the first i chains cs of another buffer
      to the end of dst. */
  method MoveLinks(dst: EvBuffer, owner: Chain?, ghost e: nat, head: Chain, previous: Chain, nread: nat,
                   ghost cs: seq<Chain>, ghost parts: seq<seq<Byte>>, ghost i: nat)
    requires Distinct(dst.chains) && Linked(dst.chains) && |dst.live| == |dst.chains| && e <= |dst.chains|
    requires owner == if e == 0 then null else dst.chains[e - 1]
    requires dst.first == At(dst.chains, 0)
    requires Linked(cs) && Distinct(cs) && 0 < i < |cs| == |parts| && head == cs[0] && previous == cs[i - 1]
    requires forall c :: c in dst.chains ==> c !in cs
    modifies dst`first, dst`last, dst`chains, dst`live, dst`totalLen, dst.chains`next, previous`next
    ensures dst.chains == old(dst.chains)[..e] + cs[..i] && dst.live == old(dst.live)[..e] + parts[..i]
    ensures dst.first == dst.chains[0] && dst.last == dst.chains[|dst.chains| - 1]
    ensures dst.totalLen == old(dst.totalLen) + nread
    ensures Linked(dst.chains) && Linked(cs[i..])
  {
    assert previous in cs;
    ghost var rest := cs[i..];
    CutList(previous, cs, i);
    label Cut:
    LinkList(dst, owner, e, head, previous, cs[..i], parts[..i]);
    forall j | 0 <= j < |rest| ensures LinkAt(rest, j) {
      assert old@Cut(LinkAt(rest, j));
      assert rest[j] in cs;
    }
    dst.totalLen := dst.totalLen + nread;
  }

  /** The first i chains of src, up to previous, come behind dst's chains less the empty ones. */
  method MoveFront(dst: EvBuffer, src: EvBuffer, previous: Chain, ghost i: nat, nread: nat)
    requires dst.Valid() && Listed(src) && Apart(dst, src)
    requires 0 < i < |src.chains| && previous == src.chains[i - 1]
    requires dst.totalLen + nread <= SIZE_MAX
    modifies dst`first, dst`last, dst`chains, dst`live, dst`totalLen, dst.chains`next, previous`next
    ensures Listed(dst) && Linked(src.chains[i..]) && dst.totalLen == old(dst.totalLen) + nread
    ensures dst.chains == old(dst.chains[..Kept(dst.live, dst.datum)]) + src.chains[..i]
    ensures dst.live == old(dst.live[..Kept(dst.live, dst.datum)]) + src.live[..i]
    ensures dst.lwdOwner == if dst.datum == 0 then null else dst.chains[dst.datum - 1]
  {
    ghost var cs, parts := src.chains, src.live;
    var owner, e := null, dst.datum;
    if dst.first != null {
      owner, e := dst.TrailingEmptyChains();
    }
    ListTake(cs, parts, i);
    DistinctConcat(dst.chains, e, cs[..i]);
    HoldsConcat(dst.chains, dst.live, e, cs[..i], parts[..i]);
    MoveLinks(dst, owner, e, src.first, previous, nread, cs, parts, i);
  }

  /** The number of the first chain to move that the walk of advance_last_with_data would stop at if it is empty. */
  ghost function FirstToWatch(dst: EvBuffer): nat
    requires IsLastWithData(dst.live, dst.datum)
    reads dst
  {
    if Kept(dst.live, dst.datum) == 0 then 1 else 0
  }

  /** The middle of evbuffer_remove_buffer: the first i chains of src, up to previous, end dst. Its
      last_with_datap stays behind just when one of them is empty and stands before one with data. */
  method MoveChains(dst: EvBuffer, src: EvBuffer, previous: Chain, ghost i: nat, nread: nat)
    requires dst.Valid() && Listed(src) && Apart(dst, src)
    requires 0 < i <= src.datum < |src.chains| && previous == src.chains[i - 1] && nread == |FlatTo(src.live, i)|
    requires dst.totalLen + nread <= SIZE_MAX
    modifies dst, dst.chains`next, previous`next
    ensures Counted(dst) && (dst.Valid() <==> !old(Stops(src.live, FirstToWatch(dst), i)))
    ensures !dst.Valid() ==> StaysBehind(dst)
    ensures dst.Contents() == old(dst.Contents()) + FlatTo(src.live, i)
    ensures dst.chains == old(dst.chains[..Kept(dst.live, dst.datum)]) + src.chains[..i]
    ensures Linked(src.chains[i..])
    ensures old(dst.NoGap()) && src.NoGap() ==> dst.NoGap()
  {
    ghost var a, da := dst.live, dst.datum;
    JoinedFlat(a, da, src.live, i);
    MoveFront(dst, src, previous, i, nread);
    AdvanceLastWithData(dst);
    assert dst.live == a[..Kept(a, da)] + src.live[..i];
    JoinedSome(a, da, src.live, i, dst.datum);
  }

  /** evbuffer_remove_buffer moves an empty chain before one with data. */
  ghost predicate MovesGap(src: EvBuffer, dst: EvBuffer, datlen: nat)
    requires IsLastWithData(dst.live, dst.datum)
    reads src, dst
  {
    && src != dst && datlen < src.totalLen
    && exists j, k {:trigger HasData(src.live, j), HasData(src.live, k)} ::
         FirstToWatch(dst) <= j < k < |src.live| && !HasData(src.live, j) && HasData(src.live, k)
         && |FlatTo(src.live, k + 1)| <= datlen
  }

  lemma MovesGapIs(src: EvBuffer, dst: EvBuffer, datlen: nat, i: nat)
    requires IsLastWithData(dst.live, dst.datum) && src != dst && i < |src.live| && datlen < src.totalLen
    requires |FlatTo(src.live, i)| <= datlen < |FlatTo(src.live, i + 1)|
    ensures MovesGap(src, dst, datlen) <==> Stops(src.live, FirstToWatch(dst), i)
  {
    var s := FirstToWatch(dst);
    if MovesGap(src, dst, datlen) {
      var j, k :| s <= j < k < |src.live| && !HasData(src.live, j) && HasData(src.live, k)
                  && |FlatTo(src.live, k + 1)| <= datlen;
      if i <= k { FlatToGrows(src.live, i + 1, k + 1); }
    }
    if Stops(src.live, s, i) {
      var j, k :| s <= j < k < i && !HasData(src.live, j) && HasData(src.live, k);
      FlatToGrows(src.live, k + 1, i);
    }
  }

  /** All the bytes are in one chain, not the first, and it keeps some: the empty chains before it stay, but
      last_with_datap is set to lead to the first of them. */
  ghost predicate Forgets(src: EvBuffer, dst: EvBuffer, datlen: nat)
    reads src
  {
    && src != dst && 0 < datlen < src.totalLen
    && 0 < src.datum < |src.live| && |FlatTo(src.live, src.datum)| == 0
  }

  /** evbuffer_remove_buffer */
  method RemoveBuffer(src: EvBuffer, dst: EvBuffer, datlen: nat) returns (result: nat)
    requires src.Valid() && dst.Valid() && (src == dst || Apart(dst, src))
    requires !MovesGap(src, dst, datlen) && src.totalLen + dst.totalLen <= SIZE_MAX
    modifies src, dst, src.chains, dst.chains
    ensures Counted(src) && (src.Valid() <==> !old(Forgets(src, dst, datlen)))
    ensures dst.Valid() && (src == dst || Apart(dst, src))
    ensures src == dst ==> result == 0 && src.Contents() == old(src.Contents())
    ensures src != dst ==> result == if datlen <= |old(src.Contents())| then datlen else |old(src.Contents())|
    ensures src != dst ==> src.Contents() == old(src.Contents())[result..]
    ensures src != dst ==> dst.Contents() == old(dst.Contents()) + old(src.Contents())[..result]
    ensures old(src.NoGap()) ==> src.NoGap() && (old(dst.NoGap()) ==> dst.NoGap())
    ensures forall c :: c in src.chains || c in dst.chains ==> c in old(src.chains) || c in old(dst.chains) || fresh(c)
  {
    if datlen == 0 || dst == src {
      return 0;
    }
    if datlen >= src.totalLen {
      result := src.totalLen;
      AddBuffer(dst, src);
      return;
    }
    result := datlen;
    RemovePart(src, dst, datlen);
  }

  /** The rest of evbuffer_remove_buffer, when the source keeps some bytes. */
  method RemovePart(src: EvBuffer, dst: EvBuffer, datlen: nat)
    requires src.Valid() && dst.Valid() && Apart(dst, src) && 0 < datlen < src.totalLen
    requires !MovesGap(src, dst, datlen) && src.totalLen + dst.totalLen <= SIZE_MAX
    modifies src, dst, src.chains, dst.chains
    ensures Counted(src) && (src.Valid() <==> !old(Forgets(src, dst, datlen))) && dst.Valid() && Apart(dst, src)
    ensures src.Contents() == old(src.Contents())[datlen..]
    ensures dst.Contents() == old(dst.Contents()) + old(src.Contents())[..datlen]
    ensures old(src.NoGap()) ==> src.NoGap() && (old(dst.NoGap()) ==> dst.NoGap())
    ensures forall c :: c in src.chains || c in dst.chains ==> c in old(src.chains) || c in old(dst.chains) || fresh(c)
  {
    var chain, previous, remaining, i := PassChains(src, datlen);
    assert FlatTo(src.live, i + 1) == FlatTo(src.live, i) + src.live[i];
    MovesGapIs(src, dst, datlen, i);
    OnlyDatum(src.live, src.datum, i, datlen);
    if datlen - remaining > 0 {
      RemoveRest(src, dst, chain, previous, i, remaining, datlen);
    } else {
      RemoveHere(src, dst, chain, i, remaining);
    }
  }

  /** If the first datlen bytes end in part number i, and that is the last one with data, and no bytes stand
      before it, then it has all the bytes. */
  lemma OnlyDatum(live: seq<seq<Byte>>, d: nat, i: nat, datlen: nat)
    requires i <= d < |live| && |FlatTo(live, i)| <= datlen < |FlatTo(live, i + 1)|
    ensures |FlatTo(live, d)| == 0 <==> i == d && |FlatTo(live, i)| == 0
  {
    if i < d { FlatToGrows(live, i + 1, d); }
  }

  /** The part of evbuffer_remove_buffer after the loop that passes the chains, if there are bytes in these. */
  method RemoveRest(src: EvBuffer, dst: EvBuffer, chain: Chain, previous: Chain, ghost i: nat, remaining: nat,
                    datlen: nat)
    requires Listed(src) && IsLastWithData(src.live, src.datum) && src.totalLen == |Flat(src.live)| <= SIZE_MAX
    requires dst.Valid() && Apart(dst, src) && !Stops(src.live, FirstToWatch(dst), i)
    requires src.totalLen + dst.totalLen <= SIZE_MAX && datlen < src.totalLen
    requires 0 < i <= src.datum < |src.chains| && chain == src.chains[i] && previous == src.chains[i - 1]
    requires |FlatTo(src.live, i)| + remaining == datlen && remaining < |src.live[i]|
    requires src.lwdOwner == if src.datum == i then null else src.chains[src.datum - 1]
    modifies src, dst, src.chains, dst.chains
    ensures src.Valid() && dst.Valid() && Apart(dst, src)
    ensures src.Contents() == old(src.Contents())[datlen..]
    ensures dst.Contents() == old(dst.Contents()) + old(src.Contents())[..datlen]
    ensures old(src.NoGap()) ==> src.NoGap() && (old(dst.NoGap()) ==> dst.NoGap())
    ensures forall c :: c in src.chains || c in dst.chains ==> c in old(src.chains) || c in old(dst.chains) || fresh(c)
  {
    Dropped(src.live, src.datum, i, remaining);
    DistinctDrop(src.chains, i);
    TakeInto(src, dst, chain, previous, i, remaining, datlen);
    StartAtApart(src, dst, chain, i, remaining, datlen);
  }

  /** The same if the chains passed, if any, are empty: they stay where they are. */
  method RemoveHere(src: EvBuffer, dst: EvBuffer, chain: Chain, ghost i: nat, remaining: nat)
    requires Listed(src) && IsLastWithData(src.live, src.datum) && src.totalLen == |Flat(src.live)| <= SIZE_MAX
    requires dst.Valid() && Apart(dst, src) && src.totalLen + dst.totalLen <= SIZE_MAX
    requires i <= src.datum < |src.chains| && chain == src.chains[i]
    requires |FlatTo(src.live, i)| == 0 && remaining < |src.live[i]|
    requires src.lwdOwner == if src.datum == i then null else src.chains[src.datum - 1]
    modifies src, dst, src.chains, dst.chains
    ensures Counted(src) && (src.Valid() <==> old(i < src.datum) || i == 0) && dst.Valid() && Apart(dst, src)
    ensures remaining <= |old(src.Contents())| && src.Contents() == old(src.Contents())[remaining..]
    ensures dst.Contents() == old(dst.Contents()) + old(src.Contents())[..remaining]
    ensures old(src.NoGap()) ==> src.NoGap()
    ensures old(dst.NoGap()) ==> dst.NoGap()
    ensures src.chains == old(src.chains) && forall c :: c in dst.chains ==> c in old(dst.chains) || fresh(c)
  {
    Taken(src.live, i, remaining);
    DroppedInside(src.live, src.datum, i, remaining);
    assert HoldsOne(chain, src.live[i]);
    AddApart(dst, chain.Part(0, remaining), src.chains, src.live);
    StayApart(src, dst, chain, i, remaining);
  }

  lemma FlatDropAt(live: seq<seq<Byte>>, i: nat, r: nat)
    requires i < |live| && r <= |live[i]| && FlatTo(live, i) == []
    ensures r <= |Flat(live)| && Flat(live[i := live[i][r..]]) == Flat(live)[r..]
  {
    var rest, tail := live[i := live[i][r..]], Flat(live[i + 1..]);
    FlatAt(live, i);
    FlatAt(rest, i);
    FlatSplit(live, i);
    assert rest[..i] == live[..i] && rest[i + 1..] == live[i + 1..];
    assert Flat(live) == live[i] + tail && Flat(rest) == live[i][r..] + tail;
  }

  /** The first bytes of all are dropped from part number i, before which all are empty. */
  lemma DroppedInside(live: seq<seq<Byte>>, d: nat, i: nat, r: nat)
    requires IsLastWithData(live, d) && i <= d < |live| && r < |live[i]| && |FlatTo(live, i)| == 0
    ensures var rest, e := live[i := live[i][r..]], if d == i then 0 else d;
      && r <= |Flat(live)| && Flat(rest) == Flat(live)[r..]
      && (IsLastWithData(rest, e) <==> i < d || i == 0)
      && (Gapless(live, d) ==> Gapless(rest, e))
  {
    var rest, e := live[i := live[i][r..]], if d == i then 0 else d;
    FlatDropAt(live, i, r);
    if i < d || i == 0 {
      forall j | e < j < |rest| ensures Idle(rest, j) { assert Idle(live, j); }
    } else {
      assert !Idle(rest, i);
    }
    if Gapless(live, d) {
      forall j | 0 <= j < e ensures HasData(rest, j) { assert HasData(live, j); }
    }
  }

  /** The source keeps its chains, less the first r bytes of one. */
  method DropAt(src: EvBuffer, chain: Chain, ghost i: nat, r: nat)
    requires Distinct(src.chains) && Holds(src.chains, src.live)
    requires i < |src.chains| && chain == src.chains[i] && r < |src.live[i]| && r <= src.totalLen
    modifies src`live, src`datum, src`totalLen, chain`off, chain`misalign, chain`bytes
    ensures Holds(src.chains, src.live) && src.live == old(src.live)[i := old(src.live[i])[r..]]
    ensures src.datum == (if old(src.datum) == i then 0 else old(src.datum)) && src.totalLen == old(src.totalLen) - r
  {
    ghost var cs, parts := src.chains, src.live;
    assert HoldsOne(chain, parts[i]);
    src.totalLen := src.totalLen - r;
    src.live, src.datum := parts[i := parts[i][r..]], if src.datum == i then 0 else src.datum;
    chain.Advance(r);
    forall j | 0 <= j < |cs| && j != i ensures HoldsOne(cs[j], parts[j]) {
      OtherChain(cs, i, j);
      assert old(HoldsOne(cs[j], parts[j]));
    }
    HoldsUpdate(cs, parts, i);
  }

  /** That does not concern the other buffer. */
  method StayApart(src: EvBuffer, dst: EvBuffer, chain: Chain, ghost i: nat, r: nat)
    requires dst.Valid() && src != dst && Listed(src)
    requires i < |src.chains| && chain == src.chains[i] && r < |src.live[i]| && r <= src.totalLen
    requires forall c :: c in dst.chains ==> c !in src.chains
    modifies src`live, src`datum, src`totalLen, chain`off, chain`misalign, chain`bytes
    ensures Listed(src) && src.live == old(src.live)[i := old(src.live[i])[r..]]
    ensures src.datum == (if old(src.datum) == i then 0 else old(src.datum)) && src.totalLen == old(src.totalLen) - r
    ensures dst.Valid()
  {
    DropAt(src, chain, i, r);
    forall j | 0 <= j < |dst.chains| ensures HoldsOne(dst.chains[j], dst.live[j]) {
      assert dst.chains[j] in dst.chains;
      assert old(HoldsOne(dst.chains[j], dst.live[j]));
    }
  }

  /** The source now starts at chain, less its first r bytes, which does not concern the other buffer. */
  method StartAtApart(src: EvBuffer, dst: EvBuffer, chain: Chain, ghost i: nat, r: nat, len: nat)
    requires Holds(dst.chains, dst.live) && src != dst
    requires i <= src.datum < |src.chains| == |src.live| && chain == src.chains[i]
    requires Distinct(src.chains[i..]) && Linked(src.chains[i..]) && Holds(src.chains[i..], src.live[i..])
    requires r < |src.live[i]| && len <= src.totalLen
    requires forall c :: c in dst.chains ==> c !in src.chains[i..]
    modifies src`first, src`chains, src`live, src`datum, src`totalLen, chain`off, chain`misalign, chain`bytes
    ensures src.chains == old(src.chains)[i..] && src.first == chain
    ensures src.live == old(src.live)[i..][0 := old(src.live[i])[r..]]
    ensures src.datum == old(src.datum) - i && src.totalLen == old(src.totalLen) - len
    ensures Linked(src.chains) && Distinct(src.chains) && Holds(src.chains, src.live)
    ensures Holds(dst.chains, dst.live)
  {
    assert chain == src.chains[i..][0];
    StartAt(src, chain, i, r, len);
    forall j | 0 <= j < |dst.chains| ensures HoldsOne(dst.chains[j], dst.live[j]) {
      assert dst.chains[j] in dst.chains;
      assert old(HoldsOne(dst.chains[j], dst.live[j]));
    }
  }

  /** What stays of cs has no chain in common with what another list and the first i of cs give. */
  lemma RestApart(a: seq<Chain>, e: nat, cs: seq<Chain>, i: nat)
    requires Distinct(cs) && i <= |cs| && e <= |a| && (forall c :: c in a ==> c !in cs)
    ensures forall c :: c in a[..e] + cs[..i] ==> c !in cs[i..]
    ensures forall c :: c in a ==> c !in cs[i..]
  {
    forall c | c in a ensures c !in cs[i..] {}
    forall j, k | 0 <= j < i <= k < |cs| ensures cs[j] != cs[k] {
      assert Differ(cs[j], cs[k]);
    }
    forall c | c in cs[..i] ensures c !in cs[i..] {
      var j :| 0 <= j < i && cs[..i][j] == c;
      assert cs[j] == c;
    }
  }

  /** The bytes go to dst; those of the last chain concerned by a copy. */
  method TakeInto(src: EvBuffer, dst: EvBuffer, chain: Chain, previous: Chain, ghost i: nat, remaining: nat,
                  datlen: nat)
    requires Listed(src) && src.totalLen == |Flat(src.live)| <= SIZE_MAX
    requires dst.Valid() && Apart(dst, src) && !Stops(src.live, FirstToWatch(dst), i)
    requires src.totalLen + dst.totalLen <= SIZE_MAX && datlen < src.totalLen
    requires 0 < i <= src.datum < |src.chains| && chain == src.chains[i] && previous == src.chains[i - 1]
    requires |FlatTo(src.live, i)| + remaining == datlen && remaining < |src.live[i]|
    modifies dst, dst.chains, src.chains[..i]
    ensures dst.Valid() && (forall c :: c in dst.chains ==> c !in src.chains[i..])
    ensures Linked(src.chains[i..]) && Holds(src.chains[i..], src.live[i..])
    ensures dst.Contents() == old(dst.Contents()) + old(src.Contents())[..datlen]
    ensures old(dst.NoGap()) && src.NoGap() ==> dst.NoGap()
    ensures forall c :: c in dst.chains ==> c in src.chains || c in old(dst.chains) || fresh(c)
  {
    Taken(src.live, i, remaining);
    ghost var a, b, c := dst.Contents(), FlatTo(src.live, i), src.live[i][..remaining];
    assert a + b + c == a + (b + c);
    MoveApart(dst, src, previous, i, datlen - remaining);
    assert HoldsOne(src.chains[i..][0], src.live[i..][0]);
    var part := chain.Part(0, remaining);
    assert part == c;
    AddApart(dst, part, src.chains[i..], src.live[i..]);
  }

  /** The chains that move to dst leave the others of the source as they are. */
  method MoveApart(dst: EvBuffer, src: EvBuffer, previous: Chain, ghost i: nat, nread: nat)
    requires dst.Valid() && Listed(src) && Apart(dst, src)
    requires 0 < i <= src.datum < |src.chains| && previous == src.chains[i - 1] && nread == |FlatTo(src.live, i)|
    requires dst.totalLen + nread <= SIZE_MAX
    modifies dst, dst.chains`next, previous`next
    ensures !old(Stops(src.live, FirstToWatch(dst), i)) ==> dst.Valid()
    ensures old(Stops(src.live, FirstToWatch(dst), i)) ==> StaysBehind(dst)
    ensures forall c :: c in dst.chains ==> c !in src.chains[i..]
    ensures Linked(src.chains[i..]) && Holds(src.chains[i..], src.live[i..])
    ensures dst.Contents() == old(dst.Contents()) + FlatTo(src.live, i)
    ensures old(dst.NoGap()) && src.NoGap() ==> dst.NoGap()
    ensures forall j :: 0 <= j < |dst.chains| ==> dst.chains[j] in src.chains[..i] || dst.chains[j] in old(dst.chains)
  {
    HoldsDrop(src.chains, src.live, i);
    RestApart(dst.chains, Kept(dst.live, dst.datum), src.chains, i);
    MoveChains(dst, src, previous, i, nread);
  }

  /** evbuffer_add, with other chains around that are not of the buffer. */
  method AddApart(dst: EvBuffer, data: seq<Byte>, ghost rest: seq<Chain>, ghost parts: seq<seq<Byte>>)
    requires dst.Valid() && dst.totalLen + |data| <= SIZE_MAX
    requires Linked(rest) && Holds(rest, parts) && (forall c :: c in dst.chains ==> c !in rest)
    modifies dst, dst.chains
    ensures dst.Valid() && dst.Contents() == old(dst.Contents()) + data
    ensures Linked(rest) && Holds(rest, parts) && (forall c :: c in dst.chains ==> c !in rest)
    ensures forall c :: c in dst.chains ==> c in old(dst.chains) || fresh(c)
    ensures old(dst.NoGap()) ==> dst.NoGap()
  {
    var ok := dst.Add(data);
    forall j | 0 <= j < |rest| ensures LinkAt(rest, j) && HoldsOne(rest[j], parts[j]) {
      assert rest[j] in rest;
      assert old(LinkAt(rest, j)) && old(HoldsOne(rest[j], parts[j]));
    }
  }
}
