/** Runs of evbuffer operations that show that the exceptions do occur. */
module EvBufferRuns {
  import opened ByteSeqs
  import opened EvBuffers
  import opened EvBufferFront
  import opened EvBufferMove
  import opened EvBufferBehind
  import opened EvBufferReserve
  import opened EvBufferCommit
  import opened EvBufferExpand

  /** An allocation is a multiple of the least one. */
  lemma {:induction false} DoublingIsMultiple(n: nat)
    requires Doubling(n)
    ensures n % MIN_BUFFER_SIZE == 0
  {
    if n == MIN_BUFFER_SIZE {
    } else {
      DoublingIsMultiple(n / 2);
      var k := n / 2 / MIN_BUFFER_SIZE;
      assert n / 2 == MIN_BUFFER_SIZE * k;
      assert n == MIN_BUFFER_SIZE * (2 * k);
    }
  }

  /** A buffer with n bytes that were added at once. */
  method Fresh(n: nat) returns (buf: EvBuffer)
    requires 0 < n <= CHAIN_MAX_AUTO_SIZE * 2
    ensures fresh(buf) && buf.Valid() && |buf.Contents()| == n && forall i :: 0 <= i < n ==> buf.Contents()[i] == 0
    ensures |buf.chains| == 1 && buf.datum == 0 && RoundedUp(n, |buf.chains[0].buffer|)
    ensures var c := buf.chains[0]; fresh(c) && !c.immutable && c.misalign == 0 && c.off == n
  {
    buf := new EvBuffer();
    var ok := buf.Add(seq(n, _ => 0));
    assert HoldsOne(buf.chains[0], buf.live[0]) && buf.chains[0] in buf.chains && buf.live == [buf.live[0]];
    FlatOne(buf.live[0]);
  }

  /** The lengths of up to three vectors. */
  lemma LenToFew(vecs: seq<IoVec>)
    ensures |vecs| == 3 ==> LenTo(vecs, |vecs|) == vecs[0].len + vecs[1].len + vecs[2].len
    ensures |vecs| == 0 ==> LenTo(vecs, |vecs|) == 0
    ensures |vecs| == 1 ==> LenTo(vecs, |vecs|) == vecs[0].len
    ensures |vecs| == 2 ==> LenTo(vecs, |vecs|) == vecs[0].len + vecs[1].len
  {
    assert |vecs| >= 2 ==> LenTo(vecs, 1) == vecs[0].len && LenTo(vecs, 2) == vecs[0].len + vecs[1].len;
  }

  /** A reservation of more bytes than one or two chains could hold adds one chain. */
  method OneMore(buf: EvBuffer, size: nat) returns (vecs: seq<IoVec>)
    requires buf.Valid() && buf.datum == 0 && 1 <= |buf.chains| <= 2
    requires |buf.chains[0].buffer| + (if |buf.chains| == 2 then |buf.chains[1].buffer| else 0) < size
    modifies buf, buf.chains`next, buf.chains`misalign
    ensures buf.Valid() && buf.datum == 0 && buf.Contents() == old(buf.Contents())
    ensures |buf.chains| == |old(buf.chains)| + 1 && buf.chains[..|buf.chains| - 1] == old(buf.chains)
            && fresh(buf.last)
    ensures forall c :: c in old(buf.chains) ==> c.misalign <= old(c.misalign)
    ensures Fits(buf.chains, FirstWithSpace(buf), vecs) && size <= LenTo(vecs, |vecs|)
    ensures size - old(|buf.chains[0].buffer|
              + (if |buf.chains| == 2 then |buf.chains[1].buffer| else 0)) <= buf.last.Space()
  {
    ghost var was := buf.chains;
    assert HoldsOne(was[0], buf.live[0]);
    assert |was| > 1 ==> HoldsOne(was[1], buf.live[1]);
    vecs := ReserveSpace(buf, size, 3);
    LenToFew(vecs);
    assert |vecs| > 0 ==> FitsAt(buf.chains, FirstWithSpace(buf), vecs, 0);
    assert |vecs| > 1 ==> FitsAt(buf.chains, FirstWithSpace(buf), vecs, 1);
    assert |vecs| > 2 ==> FitsAt(buf.chains, FirstWithSpace(buf), vecs, 2);
    assert |was| > 1 ==> was[1] == buf.chains[1];
    assert |buf.chains| == |was| + 1;
    if buf.last in was {
      var i :| 0 <= i < |was| && was[i] == buf.last;
      OtherChain(buf.chains, i, |was|);
    }
  }

  /** One byte for the second of two empty chains. */
  method CommitOneByte(buf: EvBuffer) returns (ok: bool)
    requires buf.Valid() && |buf.chains| == 3 && buf.datum == 0 && 0 < buf.last.Space() && buf.totalLen < SIZE_MAX
    modifies buf, buf.chains
    ensures ok && Counted(buf) && !buf.Valid() && |buf.Contents()| == |old(buf.Contents())| + 1
  {
    var v := IoVec(buf.last, buf.last.misalign + buf.last.off, 1);
    assert HoldsOne(buf.chains[2], buf.live[2]);
    ghost var x := [Written(v)];
    FlatOne(x[0]);
    LenToFew([v]);
    assert WrittenAt([v], x, 0);
    ok := CommitSpace(buf, [v], x);
  }

  /** Two empty chains behind a full one, from two reservations; the user fills and commits the second only.
      The commit succeeds, and last_with_datap stays at the first chain, which is not the last with data. */
  method CommitSecondOnly() returns (buf: EvBuffer, ok: bool)
    ensures fresh(buf) && ok && Counted(buf) && !buf.Valid() && |buf.Contents()| == 977
  {
    buf := Fresh(976);
    var c := buf.first;
    var vecs := OneMore(buf, |c.buffer| + 1);
    var d := buf.last;
    vecs := OneMore(buf, |c.buffer| + |d.buffer| + 1);
    assert buf.chains == [c, d, buf.last];
    ok := CommitOneByte(buf);
  }

  /** A long chain with some space, and an empty one behind it with space for more than the first one's. */
  method OneBehind() returns (buf: EvBuffer)
    ensures fresh(buf) && buf.Valid() && |buf.chains| == 2 && buf.datum == 0
    ensures fresh(buf.chains[0]) && fresh(buf.chains[1]) && buf.chains[1].Space() > |buf.chains[0].buffer|
    ensures var c := buf.chains[0]; !c.immutable && c.misalign == 0 && c.off == 5000 && c.Space() > 0
  {
    buf := Fresh(5000);
    var c := buf.first;
    DoublingIsMultiple(|c.buffer| + CHAIN_SIZE);
    var vecs := OneMore(buf, 2 * |c.buffer| + 1);
    assert buf.chains == [c, buf.last] && HoldsOne(c, buf.live[0]) && HoldsOne(buf.last, buf.live[1]);
  }

  /** The same with another empty chain behind. */
  method TwoBehind() returns (buf: EvBuffer)
    ensures fresh(buf) && buf.Valid() && |buf.chains| == 3 && buf.datum == 0
    ensures forall i :: 0 <= i < 3 ==> fresh(buf.chains[i])
    ensures 0 <= buf.first.Space() && UsesNext(buf, buf.first.Space() + 1)
  {
    buf := OneBehind();
    var c, d := buf.first, buf.last;
    var vecs := OneMore(buf, |c.buffer| + |d.buffer| + 1);
    assert buf.chains == [c, d, buf.last] && HoldsOne(c, buf.live[0]) && HoldsOne(d, buf.live[1]);
  }

  /** Of two empty chains behind one with some space, the first has the space for one vector; even a commit
      of nothing is refused then. */
  method ReserveAndBeRefused() returns (buf: EvBuffer, vec: IoVec, ok: bool)
    ensures fresh(buf) && buf.Valid() && !ok
  {
    buf := TwoBehind();
    forall c | c in buf.chains ensures fresh(c) {}
    vec, ok := ReserveAndCommitNone(buf, buf.first.Space() + 1);
  }

  lemma LongerFits(cs: seq<Chain>, f: nat, v: IoVec, longer: IoVec)
    requires Fits(cs, f, [v]) && v == longer.(len := v.len) && longer.len <= longer.chain.Space()
    ensures Fits(cs, f, [longer])
  {
    assert FitsAt(cs, f, [v], 0) ==> FitsAt(cs, f, [longer], 0);
  }

  method ReserveAndCommitNone(buf: EvBuffer, size: nat) returns (vec: IoVec, ok: bool)
    requires buf.Valid() && |buf.chains| > buf.datum + 2 && UsesNext(buf, size)
    modifies buf, buf.chains
    ensures buf.Valid() && !ok
  {
    vec := ReserveOne(buf, size);
    var none := vec.(len := 0);
    ghost var x := [Written(none)];
    LenToFew([none]);
    assert WrittenAt([none], x, 0);
    ghost var cs := buf.chains;
    forall i | 0 <= i < |cs| ensures cs[i] in old(buf.chains) || fresh(cs[i]) {}
    if Fits(cs, FirstWithSpace(buf), [none]) { LongerFits(cs, FirstWithSpace(buf), none, vec); }
    ok := CommitSpace(buf, [none], x);
  }

  /** Adding nothing in front of a reference chain leaves an empty chain before one with data. */
  method PrependNothing() returns (buf: EvBuffer, ok: bool)
    ensures fresh(buf) && (forall i :: 0 <= i < |buf.chains| ==> fresh(buf.chains[i]))
    ensures ok && buf.Valid() && !buf.NoGap() && buf.live == [[], [0, 0]]
  {
    buf := new EvBuffer();
    var chain := new Chain.Reference([0, 0]);
    buf.ChainInsert(chain);
    assert buf.chains == [chain];
    ok := Prepend(buf, []);
    forall i | 0 <= i < |buf.chains| ensures fresh(buf.chains[i]) { assert buf.chains[i] in buf.chains; }
  }

  /** If one of the two bytes is then moved to another buffer, last_with_datap leads to the empty chain. */
  method RemoveFromGapped() returns (src: EvBuffer, dst: EvBuffer)
    ensures fresh(src) && fresh(dst) && Counted(src) && !src.Valid() && dst.Valid() && dst.Contents() == [0]
  {
    var ok;
    src, ok := PrependNothing();
    ghost var cs := src.chains;
    forall i | 0 <= i < |cs| ensures fresh(cs[i]) {}
    dst := new EvBuffer();
    FlatTwo([], [0, 0]);
    assert src.datum == 1 && FlatTo(src.live, 1) == FlatTo(src.live, 0) + src.live[0];
    var n := RemoveBuffer(src, dst, 1);
    assert [0, 0][..1] == [0];
  }

  method TwoReferences() returns (buf: EvBuffer)
    ensures fresh(buf) && (forall i :: 0 <= i < |buf.chains| ==> fresh(buf.chains[i]))
    ensures buf.Valid() && buf.live == [[1], [2, 2]]
  {
    buf := new EvBuffer();
    var one := new Chain.Reference([1]);
    buf.ChainInsert(one);
    assert buf.live == [[1]] && buf.chains == [one];
    var two := new Chain.Reference([2, 2]);
    buf.ChainInsert(two);
    assert buf.chains == [one, two];
  }

  /** One byte, and an empty chain behind it. */
  method OneAndSpace() returns (buf: EvBuffer)
    ensures fresh(buf) && (forall i :: 0 <= i < |buf.chains| ==> fresh(buf.chains[i]))
    ensures buf.Valid() && buf.live == [[0], []]
  {
    buf := Fresh(1);
    ghost var was := buf.chains;
    var vecs := OneMore(buf, |buf.first.buffer| + 1);
    assert buf.chains == [was[0], buf.last];
    FlatTwo(buf.live[0], buf.live[1]);
    assert buf.live == [buf.live[0], buf.live[1]] && Idle(buf.live, 1);
    assert buf.live[0] == buf.Contents() == [0];
  }

  /** Prepending a buffer that ends with reserved space leaves an empty chain before two with data. */
  method Gapped() returns (buf: EvBuffer)
    ensures fresh(buf) && (forall i :: 0 <= i < |buf.chains| ==> fresh(buf.chains[i]))
    ensures buf.Valid() && buf.live == [[0], [], [1], [2, 2]] && buf.Contents() == [0, 1, 2, 2]
  {
    buf := TwoReferences();
    var front := OneAndSpace();
    FlatTwo([1], [2, 2]);
    FlatTwo([0], []);
    ghost var cs := front.chains + buf.chains;
    PrependBuffer(buf, front);
    assert buf.chains == cs;
  }

  /** Removing the first three bytes from there takes that chain along. */
  method GapToMove() returns (src: EvBuffer, dst: EvBuffer)
    ensures fresh(src) && fresh(dst) && src.Valid() && dst.Valid() && Apart(dst, src)
    ensures src.Contents() == [0, 1, 2, 2] && dst.Contents() == [] && dst.chains == [] && MovesGap(src, dst, 3)
    ensures src.live == [[0], [], [1], [2, 2]]
    ensures forall i :: 0 <= i < |src.chains| ==> fresh(src.chains[i])
  {
    src := Gapped();
    dst := new EvBuffer();
    GapAtOne(src.live);
  }

  /** Then the third byte that is removed comes to stand before the second one, if it arrives at all. */
  method RemoveMisplaces() returns (src: EvBuffer, dst: EvBuffer, ghost was: seq<Byte>)
    ensures fresh(src) && fresh(dst) && was == [0, 1, 2, 2] && dst.Contents() != was[..3]
  {
    src, dst := GapToMove();
    was := src.Contents();
    forall i | 0 <= i < |src.chains| ensures fresh(src.chains[i]) {}
    var done;
    ghost var n, i, t;
    ghost var parts := src.live;
    GapAtOne(parts);
    done, n, i, t := RemoveGap(src, dst, 3);
    assert i == 3 && t == 1;
  }

  lemma GapAtOne(parts: seq<seq<Byte>>)
    requires |parts| >= 3 && |parts[0]| == |parts[2]| == 1 && parts[1] == []
    ensures !HasData(parts, 1) && HasData(parts, 2)
    ensures |FlatTo(parts, 1)| == |FlatTo(parts, 2)| == 1 && |FlatTo(parts, 3)| == 2
  {
    assert FlatTo(parts, 1) == FlatTo(parts, 0) + parts[0];
    assert FlatTo(parts, 2) == FlatTo(parts, 1) + parts[1];
    assert FlatTo(parts, 3) == FlatTo(parts, 2) + parts[2];
  }

  lemma FlatTwo(a: seq<Byte>, b: seq<Byte>)
    ensures Flat([a, b]) == a + b
  {
    FlatAt([a, b], 1);
    FlatOne(a);
    assert [a, b][..1] == [a] && [a, b][2..] == [];
  }
}
