/** Committing bytes that were written to reserved space. */
module EvBufferCommit {
  import opened ByteSeqs
  import opened EvBuffers
  import opened EvBufferFront
  import opened EvBufferMove
  import opened EvBufferReserve

  /** len bytes of the memory of a chain. */
  ghost function Mem(c: Chain, at: nat, len: nat): seq<Byte>
    reads c`buffer
  {
    if at + len <= |c.buffer| then c.buffer[at..at + len] else []
  }

  /** What now stands in the memory of vector v. */
  ghost function Written(v: IoVec): seq<Byte>
    reads v.chain`buffer
  {
    Mem(v.chain, v.at, v.len)
  }

  /** x[j] is what stands in the memory of vector number j. */
  ghost predicate WrittenAt(vecs: seq<IoVec>, x: seq<seq<Byte>>, j: nat)
    requires j < |vecs| && j < |x|
    reads vecs[j].chain`buffer
  {
    Written(vecs[j]) == x[j]
  }

  ghost predicate AllWritten(vecs: seq<IoVec>, x: seq<seq<Byte>>)
    reads set v | v in vecs :: v.chain
  {
    && |x| == |vecs|
    && (forall j {:trigger WrittenAt(vecs, x, j)} :: 0 <= j < |vecs| ==> WrittenAt(vecs, x, j))
  }

  /** Growing a part at or after the last one with data, all parts between being empty. */
  lemma FlatGrowAt(live: seq<seq<Byte>>, d: nat, i: nat, x: seq<Byte>)
    requires IsLastWithData(live, d) && d <= i < |live|
    ensures var grown := live[i := live[i] + x];
      && Flat(grown) == Flat(live) + x
      && IsLastWithData(grown, if |x| == 0 then d else i)
      && (Gapless(live, d) && (|x| > 0 ==> i <= d + 1 && (d < i ==> |live[d]| > 0)) ==>
         Gapless(grown, if |x| == 0 then d else i))
  {
    var grown := live[i := live[i] + x];
    FlatAt(live, i);
    FlatUpdate(live, i, live[i] + x);
    FlatAfter(live, d, i + 1);
    assert i > d ==> Idle(live, i);
    forall j | i < j < |live| ensures Idle(grown, j) {
      assert Idle(live, j);
    }
    if |x| == 0 {
      assert live[i] + x == live[i];
      assert grown == live;
    }
    forall j | 0 <= j < i ensures j < d ==> (HasData(live, j) ==> HasData(grown, j)) {}
    assert HasData(grown, d) <==> |grown[d]| > 0;
  }

  /** Take len bytes of the free space of chain number i, which stand there already, into use; the
      count of bytes and the last chain with data follow. */
  method CommitOne(buf: EvBuffer, chain: Chain, owner: Chain?, ghost i: nat, len: nat)
    requires buf.Valid() && buf.datum <= i < |buf.chains| && chain == buf.chains[i]
    requires owner == if i == 0 then null else buf.chains[i - 1]
    requires len <= chain.Space() && buf.totalLen + len <= SIZE_MAX
    modifies buf`totalLen, buf`live, buf`datum, buf`lwdOwner, chain`off, chain`bytes
    ensures buf.Valid() && chain.off == old(chain.off) + len
    ensures buf.datum == if len == 0 then old(buf.datum) else i
    ensures buf.live == old(buf.live)[i := old(buf.live)[i] + Mem(chain, old(chain.misalign + chain.off), len)]
    ensures buf.totalLen == old(buf.totalLen) + len
  {
    ghost var cs, parts := buf.chains, buf.live;
    assert HoldsOne(cs[i], parts[i]);
    ghost var x := Mem(chain, chain.misalign + chain.off, len);
    FlatGrowAt(parts, buf.datum, i, x);
    TakeChainIntoUse(cs, parts, chain, i, len, x);
    CountCommitted(buf, owner, i, len, parts[i := parts[i] + x]);
    assert Holds(cs, buf.live);
  }

  method TakeChainIntoUse(ghost cs: seq<Chain>, ghost parts: seq<seq<Byte>>, chain: Chain, ghost i: nat, len: nat,
                          ghost x: seq<Byte>)
    requires Distinct(cs) && Holds(cs, parts) && i < |cs| && chain == cs[i]
    requires len <= chain.Space() && x == Mem(chain, chain.misalign + chain.off, len)
    modifies chain`off, chain`bytes
    ensures chain.off == old(chain.off) + len && Holds(cs, parts[i := parts[i] + x])
  {
    assert HoldsOne(cs[i], parts[i]);
    TakeIntoUse(chain, len, x);
    forall j | 0 <= j < |cs| && j != i ensures HoldsOne(cs[j], parts[j]) {
      OtherChain(cs, i, j);
      assert old(HoldsOne(cs[j], parts[j]));
    }
    HoldsUpdate(cs, parts, i);
  }

  method TakeIntoUse(chain: Chain, len: nat, ghost x: seq<Byte>)
    requires chain.Wf() && len <= chain.Space() && x == Mem(chain, chain.misalign + chain.off, len)
    modifies chain`off, chain`bytes
    ensures chain.Wf() && chain.bytes == old(chain.bytes) + x
  {
    chain.bytes := chain.bytes + x;
    chain.off := chain.off + len;
    forall j | 0 <= j < |chain.bytes| ensures chain.ByteAt(j) {
      assert j < old(chain.off) ==> old(chain.ByteAt(j));
    }
  }

  method CountCommitted(buf: EvBuffer, owner: Chain?, ghost i: nat, len: nat, ghost parts: seq<seq<Byte>>)
    modifies buf`totalLen, buf`live, buf`datum, buf`lwdOwner
    ensures buf.totalLen == old(buf.totalLen) + len && buf.live == parts
    ensures buf.datum == if len == 0 then old(buf.datum) else i
    ensures buf.lwdOwner == if len == 0 then old(buf.lwdOwner) else owner
  {
    buf.totalLen := buf.totalLen + len;
    buf.live := parts;
    if len > 0 {
      buf.lwdOwner, buf.datum := owner, i;
    }
  }

  lemma {:induction false} LenToGrows(vecs: seq<IoVec>, i: nat, k: nat)
    requires i <= k <= |vecs|
    ensures LenTo(vecs, i) <= LenTo(vecs, k)
  {
    if i < k {
      LenToGrows(vecs, i, k - 1);
    }
  }

  /** The vector is the free space of the last chain. */
  ghost predicate FitsLast(buf: EvBuffer, v: IoVec)
    reads buf, buf.last
  {
    && buf.last != null && v.chain == buf.last
    && v.at == buf.last.misalign + buf.last.off && v.len <= buf.last.Space()
  }

  /** The parts, and the last one with data, after the first n of the parts x went to those from number f on. */
  ghost function CommitLive(live: seq<seq<Byte>>, f: nat, x: seq<seq<Byte>>, n: nat): (r: seq<seq<Byte>>)
    requires f + n <= |live| && n <= |x|
    ensures |r| == |live|
  {
    if n == 0 then live
    else
      var l := CommitLive(live, f, x, n - 1);
      l[f + n - 1 := l[f + n - 1] + x[n - 1]]
  }

  ghost function CommitDatum(d: nat, f: nat, x: seq<seq<Byte>>, n: nat): (r: nat)
    requires n <= |x|
    ensures r == d || f <= r < f + n
  {
    if n == 0 then d else if |x[n - 1]| == 0 then CommitDatum(d, f, x, n - 1) else f + n - 1
  }

  /** Empty parts of x are at the end only. */
  ghost predicate NoHolesIn(x: seq<seq<Byte>>) {
    forall j, k :: 0 <= j < k < |x| && |x[k]| > 0 ==> |x[j]| > 0
  }

  lemma {:induction false} Committed(live: seq<seq<Byte>>, d: nat, f: nat, x: seq<seq<Byte>>, n: nat)
    requires IsLastWithData(live, d) && d < |live| && d <= f <= d + 1 && f + n <= |live| && n <= |x|
    ensures var l, e := CommitLive(live, f, x, n), CommitDatum(d, f, x, n);
      && IsLastWithData(l, e) && Flat(l) == Flat(live) + FlatTo(x, n)
      && (n > 0 && |x[n - 1]| > 0 ==> |l[e]| > 0)
      && (Gapless(live, d) && NoHolesIn(x) && (f == d || |live[d]| > 0) ==> Gapless(l, e))
  {
    if n > 0 {
      Committed(live, d, f, x, n - 1);
      FlatGrowAt(CommitLive(live, f, x, n - 1), CommitDatum(d, f, x, n - 1), f + n - 1, x[n - 1]);
    }
  }

  /** Vector number i is committed; those after it still fit. */
  method CommitVec(buf: EvBuffer, vecs: seq<IoVec>, i: nat, chain: Chain, owner: Chain?, ghost f: nat)
    requires buf.Valid() && i < |vecs| && f + |vecs| <= |buf.chains| && buf.datum <= f + i
    requires chain == buf.chains[f + i] && owner == if f + i == 0 then null else buf.chains[f + i - 1]
    requires forall j {:trigger FitsAt(buf.chains, f, vecs, j)} :: i <= j < |vecs| ==> FitsAt(buf.chains, f, vecs, j)
    requires buf.totalLen + vecs[i].len <= SIZE_MAX
    modifies buf`totalLen, buf`live, buf`datum, buf`lwdOwner, chain`off, chain`bytes
    ensures buf.Valid() && buf.totalLen == old(buf.totalLen) + vecs[i].len && |old(Written(vecs[i]))| == vecs[i].len
    ensures buf.datum == if vecs[i].len == 0 then old(buf.datum) else f + i
    ensures buf.live == old(buf.live)[f + i := old(buf.live)[f + i] + Written(vecs[i])]
    ensures forall j {:trigger FitsAt(buf.chains, f, vecs, j)} :: i < j < |vecs| ==> FitsAt(buf.chains, f, vecs, j)
  {
    assert FitsAt(buf.chains, f, vecs, i) && HoldsOne(chain, buf.live[f + i]);
    CommitOne(buf, chain, owner, f + i, vecs[i].len);
    forall j | i < j < |vecs| ensures FitsAt(buf.chains, f, vecs, j) {
      OtherChain(buf.chains, f + i, f + j);
      assert old(FitsAt(buf.chains, f, vecs, j));
    }
  }

  /** The first i vectors, which lead to the parts x, are committed: the buffer held live before. */
  ghost predicate CommittedTo(buf: EvBuffer, vecs: seq<IoVec>, i: nat, f: nat, x: seq<seq<Byte>>,
                              live: seq<seq<Byte>>, d: nat, total: nat)
    reads buf, buf.chains
  {
    && i <= |vecs| == |x| && f + |vecs| <= |buf.chains| == |live|
    && buf.live == CommitLive(live, f, x, i) && buf.datum == CommitDatum(d, f, x, i)
    && buf.totalLen == total + LenTo(vecs, i)
    && forall j {:trigger FitsAt(buf.chains, f, vecs, j)} :: i <= j < |vecs| ==> FitsAt(buf.chains, f, vecs, j)
  }

  /** One round of the second pass of evbuffer_commit_space. */
  method CommitNext(buf: EvBuffer, vecs: seq<IoVec>, i: nat, chain: Chain, owner: Chain?, ghost f: nat,
                    ghost x: seq<seq<Byte>>, ghost live: seq<seq<Byte>>, ghost d: nat, ghost total: nat)
    returns (next: Chain?)
    requires buf.Valid() && i < |vecs| && d <= f && CommittedTo(buf, vecs, i, f, x, live, d, total)
    requires chain == buf.chains[f + i] && owner == if f + i == 0 then null else buf.chains[f + i - 1]
    requires WrittenAt(vecs, x, i) && total + LenTo(vecs, |vecs|) <= SIZE_MAX
    modifies buf`totalLen, buf`live, buf`datum, buf`lwdOwner, chain`off, chain`bytes
    ensures buf.Valid() && next == At(buf.chains, f + i + 1) && CommittedTo(buf, vecs, i + 1, f, x, live, d, total)
  {
    LenToGrows(vecs, i + 1, |vecs|);
    assert LinkAt(buf.chains, f + i);
    next := chain.next;
    CommitVec(buf, vecs, i, chain, owner, f);
  }

  /** The second pass of evbuffer_commit_space: take the vectors' bytes into use. */
  method CommitAll(buf: EvBuffer, vecs: seq<IoVec>, first: Chain?, firstOwner: Chain?, ghost f: nat,
                   ghost x: seq<seq<Byte>>)
    requires buf.Valid() && |buf.chains| > 0 && buf.datum <= f <= buf.datum + 1
    requires Fits(buf.chains, f, vecs) && AllWritten(vecs, x)
    requires first == At(buf.chains, f) && firstOwner == if f == 0 then null else buf.chains[f - 1]
    requires buf.totalLen + LenTo(vecs, |vecs|) <= SIZE_MAX
    modifies buf`totalLen, buf`live, buf`datum, buf`lwdOwner, buf.chains`off, buf.chains`bytes
    ensures buf.Valid()
    ensures buf.live == CommitLive(old(buf.live), f, x, |x|) && buf.datum == CommitDatum(old(buf.datum), f, x, |x|)
  {
    ghost var cs, live, d, total := buf.chains, buf.live, buf.datum, buf.totalLen;
    var chain, owner := first, firstOwner;
    var i := 0;
    while i < |vecs|
      invariant i <= |vecs| && buf.Valid() && CommittedTo(buf, vecs, i, f, x, live, d, total)
      invariant chain == At(cs, f + i) && owner == if f + i == 0 then null else cs[f + i - 1]
    {
      assert WrittenAt(vecs, x, i);
      var next := CommitNext(buf, vecs, i, chain, owner, f, x, live, d, total);
      chain, owner := next, chain;
      i := i + 1;
    }
  }

  /** The first pass of evbuffer_commit_space: is each vector the free space of its chain? */
  method CheckVecs(buf: EvBuffer, vecs: seq<IoVec>, first: Chain?, ghost f: nat) returns (fit: bool)
    requires buf.Valid() && f <= |buf.chains| && first == At(buf.chains, f)
    ensures fit <==> Fits(buf.chains, f, vecs)
  {
    ghost var cs := buf.chains;
    var chain := first;
    var i := 0;
    while i < |vecs|
      invariant i <= |vecs| && f + i <= |cs| && chain == At(cs, f + i)
      invariant forall j {:trigger FitsAt(cs, f, vecs, j)} :: 0 <= j < i ==> FitsAt(cs, f, vecs, j)
    {
      if chain == null {
        return false;
      }
      assert LinkAt(cs, f + i);
      var at, space := chain.misalign + chain.off, chain.Space();
      if vecs[i].chain != chain || vecs[i].at != at || vecs[i].len > space {
        assert f + |vecs| <= |cs| ==> !FitsAt(cs, f, vecs, i);
        return false;
      }
      chain := chain.next;
      i := i + 1;
    }
    fit := true;
  }

  /** evbuffer_commit_space of one vector that is the free space of the last chain. If that one is further
      away than next to the last chain with data, last_with_datap stays behind. */
  method CommitLast(buf: EvBuffer, len: nat)
    requires buf.Valid() && |buf.chains| > 0
    requires len <= buf.last.Space() && buf.totalLen + len <= SIZE_MAX
    modifies buf`totalLen, buf`live, buf`datum, buf`lwdOwner, buf.last`off, buf.last`bytes
    ensures Counted(buf)
    ensures buf.Valid() <==> len == 0 || |buf.chains| <= old(buf.datum) + 2
    ensures buf.Contents() == old(buf.Contents()) + old(Mem(buf.last, buf.last.misalign + buf.last.off, len))
    ensures old(buf.NoGap() && (|buf.chains| == buf.datum + 1 || |buf.live[buf.datum]| > 0)) && buf.Valid() ==>
              buf.NoGap()
  {
    ghost var cs, parts, d, i := buf.chains, buf.live, buf.datum, |buf.chains| - 1;
    var chain := buf.last;
    ghost var x := Mem(chain, chain.misalign + chain.off, len);
    assert HoldsOne(cs[i], parts[i]);
    FlatGrowAt(parts, d, i, x);
    TakeChainIntoUse(cs, parts, chain, i, len, x);
    AddToLast(buf, len, parts[i := parts[i] + x]);
    assert Holds(cs, buf.live);
    if len > 0 {
      AdvanceLastWithData(buf);
      assert HasData(buf.live, i) && !Idle(buf.live, i);
      if d + 1 < i {
        assert Idle(parts, d + 1) && !HasData(buf.live, d + 1);
      }
    }
  }

  method AddToLast(buf: EvBuffer, len: nat, ghost parts: seq<seq<Byte>>)
    modifies buf`totalLen, buf`live
    ensures buf.totalLen == old(buf.totalLen) + len && buf.live == parts
  {
    buf.totalLen := buf.totalLen + len;
    buf.live := parts;
  }

  /** One vector with bytes for the last chain, which stands behind the chain after the last one with data. */
  ghost predicate SkipsChain(buf: EvBuffer, vecs: seq<IoVec>)
    reads buf, buf.last
  {
    |vecs| == 1 && FitsLast(buf, vecs[0]) && 0 < vecs[0].len && buf.datum + 2 < |buf.chains|
  }

  /** evbuffer_commit_space: the bytes x that were written to the vectors go to the end of the buffer.
      They are counted, but last_with_datap stays behind, if and only if the one vector skips a chain. */
  method CommitSpace(buf: EvBuffer, vecs: seq<IoVec>, ghost x: seq<seq<Byte>>) returns (ok: bool)
    requires buf.Valid() && AllWritten(vecs, x) && buf.totalLen + LenTo(vecs, |vecs|) <= SIZE_MAX
    modifies buf`totalLen, buf`live, buf`datum, buf`lwdOwner, buf.chains`off, buf.chains`bytes
    ensures Counted(buf)
    ensures buf.Valid() <==> !old(SkipsChain(buf, vecs))
    ensures ok <==> |vecs| == 0 || (|vecs| == 1 && old(FitsLast(buf, vecs[0])))
                    || (|buf.chains| > 0 && old(Fits(buf.chains, FirstWithSpace(buf), vecs)))
    ensures buf.Contents() == old(buf.Contents()) + if ok then Flat(x) else []
    ensures NoHolesIn(x) && old(buf.NoGap()) ==>
              (|vecs| > 0 && |buf.chains| > 0 ==>
                 |old(buf.live)[old(buf.datum)]| > 0 || vecs[0].chain == buf.chains[old(buf.datum)]) ==>
              buf.Valid() ==> buf.NoGap()
  {
    if |vecs| == 0 {
      return true;
    }
    if |vecs| == 1 && buf.last != null && vecs[0].chain == buf.last && vecs[0].at == buf.last.misalign + buf.last.off {
      if vecs[0].len > buf.last.Space() {
        if Fits(buf.chains, FirstWithSpace(buf), vecs) { LastFits(buf, vecs); }
        return false;
      }
      assert LenTo(vecs, 1) == LenTo(vecs, 0) + vecs[0].len;
      if vecs[0].chain == buf.chains[buf.datum] { LastIsDatum(buf); }
      CommitOneVec(buf, vecs, x);
      return true;
    }
    ok := CommitMany(buf, vecs, x);
  }

  /** Vectors that are the free space of chains from the first one with space on. */
  method CommitMany(buf: EvBuffer, vecs: seq<IoVec>, ghost x: seq<seq<Byte>>) returns (ok: bool)
    requires buf.Valid() && |vecs| > 0 && AllWritten(vecs, x) && buf.totalLen + LenTo(vecs, |vecs|) <= SIZE_MAX
    modifies buf`totalLen, buf`live, buf`datum, buf`lwdOwner, buf.chains`off, buf.chains`bytes
    ensures buf.Valid()
    ensures ok <==> |buf.chains| > 0 && old(Fits(buf.chains, FirstWithSpace(buf), vecs))
    ensures buf.Contents() == old(buf.Contents()) + if ok then Flat(x) else []
    ensures NoHolesIn(x) && old(buf.NoGap()) ==>
              (|buf.chains| > 0 ==>
                 |old(buf.live)[old(buf.datum)]| > 0 || vecs[0].chain == buf.chains[old(buf.datum)]) ==>
              buf.NoGap()
  {
    assert buf.datum > 0 ==> LinkAt(buf.chains, buf.datum - 1);
    var first, owner := buf.LastWithDataChain(), buf.lwdOwner;
    if first == null {
      return false;
    }
    assert LinkAt(buf.chains, buf.datum);
    ghost var f := FirstWithSpace(buf);
    if first.Space() == 0 {
      first, owner := first.next, first;
    }
    ok := CheckVecs(buf, vecs, first, f);
    if ok {
      assert FitsAt(buf.chains, f, vecs, 0);
      if f > buf.datum { OtherChain(buf.chains, f, buf.datum); }
      Committed(buf.live, buf.datum, f, x, |x|);
      CommitAll(buf, vecs, first, owner, f, x);
    }
  }

  method CommitOneVec(buf: EvBuffer, vecs: seq<IoVec>, ghost x: seq<seq<Byte>>)
    requires buf.Valid() && |vecs| == 1 && AllWritten(vecs, x) && buf.totalLen + vecs[0].len <= SIZE_MAX
    requires |buf.chains| > 0 && FitsLast(buf, vecs[0])
    modifies buf`totalLen, buf`live, buf`datum, buf`lwdOwner, buf.last`off, buf.last`bytes
    ensures Counted(buf)
    ensures buf.Valid() <==> !old(SkipsChain(buf, vecs))
    ensures buf.Contents() == old(buf.Contents()) + Flat(x)
    ensures old(buf.NoGap() && (|buf.chains| == buf.datum + 1 || |buf.live[buf.datum]| > 0)) && buf.Valid() ==>
              buf.NoGap()
  {
    assert WrittenAt(vecs, x, 0) && x == [x[0]];
    FlatOne(x[0]);
    CommitLast(buf, vecs[0].len);
  }

  /** If one vector fits, and it is the last chain's, it is no longer than that chain's space. */
  lemma LastFits(buf: EvBuffer, vecs: seq<IoVec>)
    requires buf.Valid() && |buf.chains| > 0 && |vecs| == 1 && vecs[0].chain == buf.last
    requires Fits(buf.chains, FirstWithSpace(buf), vecs)
    ensures vecs[0].len <= buf.last.Space()
  {
    assert FitsAt(buf.chains, FirstWithSpace(buf), vecs, 0);
  }

  /** The last chain is the last one with data only if that one ends the list. */
  lemma LastIsDatum(buf: EvBuffer)
    requires buf.Valid() && |buf.chains| > 0 && buf.chains[buf.datum] == buf.last
    ensures |buf.chains| == buf.datum + 1
  {
    assert buf.datum + 1 < |buf.chains| ==> Differ(buf.chains[buf.datum], buf.chains[|buf.chains| - 1]);
  }

  /** Vectors that were handed out, or the first of them, with other lengths that are no longer. */
  ghost predicate Shorter(vecs: seq<IoVec>, shorter: seq<IoVec>) {
    && |shorter| <= |vecs|
    && forall j {:trigger shorter[j]} :: 0 <= j < |shorter| ==>
         shorter[j].chain == vecs[j].chain && shorter[j].at == vecs[j].at && shorter[j].len <= vecs[j].len
  }

  /** What ReserveSpace handed out can be committed at any shorter lengths, in part or as a whole, if it starts
      with the first vector: CommitSpace then succeeds, and no chain is skipped. */
  lemma ReservedCommits(buf: EvBuffer, vecs: seq<IoVec>, shorter: seq<IoVec>)
    requires buf.Valid() && |buf.chains| > 0 && Fits(buf.chains, FirstWithSpace(buf), vecs) && Shorter(vecs, shorter)
    ensures Fits(buf.chains, FirstWithSpace(buf), shorter)
    ensures !SkipsChain(buf, shorter)
  {
    var cs, f := buf.chains, FirstWithSpace(buf);
    forall j | 0 <= j < |shorter| ensures FitsAt(cs, f, shorter, j) {
      assert FitsAt(cs, f, vecs, j) && shorter[j].chain == vecs[j].chain;
    }
    assert |shorter| > 0 ==> FitsAt(cs, f, shorter, 0);
    if |shorter| == 1 && shorter[0].chain == buf.last && f != |cs| - 1 {
      OtherChain(cs, f, |cs| - 1);
    }
  }

  /** The user writes to reserved space: no byte of the buffer changes. */
  method Fill(buf: EvBuffer, v: IoVec, data: seq<Byte>, ghost i: nat)
    requires buf.Valid() && i < |buf.chains| && v.chain == buf.chains[i]
    requires v.at == v.chain.misalign + v.chain.off && |data| <= v.len <= v.chain.Space()
    modifies v.chain`buffer
    ensures buf.Valid() && |v.chain.buffer| == old(|v.chain.buffer|) && Mem(v.chain, v.at, |data|) == data
  {
    var chain := v.chain;
    assert HoldsOne(buf.chains[i], buf.live[i]);
    chain.Write(v.at, data);
    forall j | 0 <= j < |chain.bytes| ensures chain.ByteAt(j) {
      assert old(chain.ByteAt(j));
    }
    forall j | 0 <= j < |buf.chains| && j != i ensures HoldsOne(buf.chains[j], buf.live[j]) {
      OtherChain(buf.chains, i, j);
      assert old(HoldsOne(buf.chains[j], buf.live[j]));
    }
    HoldsUpdate(buf.chains, buf.live, i);
    assert buf.live[i := chain.bytes] == buf.live;
  }

  /** Write the first bytes of data to vector number |used|. */
  method FillNext(buf: EvBuffer, vecs: seq<IoVec>, used: seq<IoVec>, data: seq<Byte>, ghost x: seq<seq<Byte>>)
      returns (v: IoVec)
    requires buf.Valid() && |buf.chains| > 0 && Fits(buf.chains, FirstWithSpace(buf), vecs)
    requires Shorter(vecs, used) && |used| < |vecs| && AllWritten(used, x)
    modifies buf.chains`buffer
    ensures buf.Valid() && Fits(buf.chains, FirstWithSpace(buf), vecs)
    ensures v.chain == vecs[|used|].chain && v.at == vecs[|used|].at
    ensures v.len == if |data| <= vecs[|used|].len then |data| else vecs[|used|].len
    ensures AllWritten(used + [v], x + [data[..v.len]])
  {
    ghost var cs, f, k := buf.chains, FirstWithSpace(buf), |used|;
    var to := vecs[|used|];
    var n := if |data| <= to.len then |data| else to.len;
    v := IoVec(to.chain, to.at, n);
    assert FitsAt(cs, f, vecs, k);
    Fill(buf, v, data[..n], f + k);
    forall j | 0 <= j < |vecs| ensures FitsAt(cs, f, vecs, j) {
      if j != k { OtherChain(cs, f + j, f + k); }
      assert old(FitsAt(cs, f, vecs, j));
    }
    ghost var more, y := used + [v], x + [data[..n]];
    forall j | 0 <= j <= k ensures WrittenAt(more, y, j) {
      if j < k {
        OtherChain(cs, f + j, f + k);
        assert FitsAt(cs, f, vecs, j) && used[j].chain == vecs[j].chain;
        assert old(WrittenAt(used, x, j));
      }
    }
  }

  /** Write data to the vectors, one after the other. */
  method FillAll(buf: EvBuffer, vecs: seq<IoVec>, data: seq<Byte>) returns (used: seq<IoVec>, ghost x: seq<seq<Byte>>)
    requires buf.Valid() && |buf.chains| > 0 && Fits(buf.chains, FirstWithSpace(buf), vecs)
    requires |data| <= LenTo(vecs, |vecs|)
    modifies buf.chains`buffer
    ensures buf.Valid() && Fits(buf.chains, FirstWithSpace(buf), vecs)
    ensures Shorter(vecs, used) && AllWritten(used, x) && Flat(x) == data && LenTo(used, |used|) == |data|
  {
    var done := 0;
    used, x := [], [];
    while done < |data|
      invariant buf.Valid() && Fits(buf.chains, FirstWithSpace(buf), vecs)
      invariant Shorter(vecs, used) && AllWritten(used, x)
      invariant 0 <= done <= |data| && Flat(x) == data[..done] && LenTo(used, |used|) == done
      invariant done < |data| ==> LenTo(vecs, |used|) == done
      decreases |vecs| - |used|
    {
      var v := FillNext(buf, vecs, used, data[done..], x);
      ghost var part := data[done..][..v.len];
      FlatSnoc(x, part);
      LenToSame(used, used + [v], |used|);
      x, used, done := x + [part], used + [v], done + v.len;
    }
  }

  /** What users of the two calls do: reserve space, write data there, and commit the vectors as far as they
      were filled. That is an append. */
  method AppendInPlace(buf: EvBuffer, data: seq<Byte>, nVecs: nat)
    requires buf.Valid() && 2 <= nVecs && buf.totalLen + |data| <= SIZE_MAX
    modifies buf, buf.chains
    ensures buf.Valid() && buf.Contents() == old(buf.Contents()) + data
  {
    var vecs := ReserveSpace(buf, |data|, nVecs);
    forall i | 0 <= i < |buf.chains| ensures buf.chains[i] in old(buf.chains) || fresh(buf.chains[i]) {}
    var used, x := FillAll(buf, vecs, data);
    ReservedCommits(buf, vecs, used);
    var ok := CommitSpace(buf, used, x);
  }
}
