/** Making the first bytes of an evbuffer contiguous. */
module EvBufferPullup {
  import opened ByteSeqs
  import opened EvBuffers
  import opened EvBufferFront
  import opened EvBufferMove

  /** The parts less the first r bytes of the first one. */
  ghost function Less(parts: seq<seq<Byte>>, r: nat): seq<seq<Byte>>
    requires |parts| > 0 ==> r < |parts[0]|
  {
    if |parts| > 0 then parts[0 := parts[0][r..]] else []
  }

  ghost function Head(parts: seq<seq<Byte>>, r: nat): seq<Byte>
    requires |parts| > 0 ==> r < |parts[0]|
  {
    if |parts| > 0 then parts[0][..r] else []
  }

  /** The first m parts and the first r bytes of the next one became one part in front. */
  ghost function PulledParts(live: seq<seq<Byte>>, m: nat, r: nat): seq<seq<Byte>>
    requires m <= |live| && (m < |live| ==> r < |live[m]|)
  {
    [FlatTo(live, m) + Head(live[m..], r)] + Less(live[m..], r)
  }

  ghost function PulledDatum(d: nat, m: nat): nat {
    if m > d then 0 else d - m + 1
  }

  lemma PartInFront(x: seq<Byte>, live: seq<seq<Byte>>, d: nat)
    requires IsLastWithData(live, d) && d < |live| && |live[d]| > 0 && |x| > 0
    ensures IsLastWithData([x] + live, d + 1) && Flat([x] + live) == x + Flat(live)
    ensures Gapless(live, d) ==> Gapless([x] + live, d + 1)
  {
    var p := [x] + live;
    FlatCons(x, live);
    forall i | d + 1 < i < |p| ensures Idle(p, i) {
      assert Idle(live, i - 1);
    }
    forall i | 0 <= i < d + 1 ensures Gapless(live, d) ==> HasData(p, i) {
      assert i > 0 && Gapless(live, d) ==> HasData(live, i - 1);
    }
  }

  lemma Pulled(live: seq<seq<Byte>>, d: nat, m: nat, r: nat)
    requires IsLastWithData(live, d) && d < |live| && m <= |live| && (m < |live| ==> r < |live[m]|)
    requires m < |live| ==> |FlatTo(live, m)| + r > 0
    ensures Flat(PulledParts(live, m, r)) == Flat(live)
    ensures IsLastWithData(PulledParts(live, m, r), PulledDatum(d, m))
    ensures Gapless(live, d) ==> Gapless(PulledParts(live, m, r), PulledDatum(d, m))
  {
    if m == |live| {
      PulledAll(live, r);
    } else {
      assert m > d ==> Idle(live, m);
      PulledSome(live, d, m, r);
    }
  }

  lemma PulledAll(live: seq<seq<Byte>>, r: nat)
    requires |live| > 0
    ensures PulledParts(live, |live|, r) == [Flat(live)] && Flat([Flat(live)]) == Flat(live)
  {
    assert live[|live|..] == [];
    FlatOne(Flat(live));
    assert Flat(live) + [] == Flat(live);
  }

  lemma PulledSome(live: seq<seq<Byte>>, d: nat, m: nat, r: nat)
    requires IsLastWithData(live, d) && m <= d < |live| && r < |live[m]| && |FlatTo(live, m)| + r > 0
    ensures Flat(PulledParts(live, m, r)) == Flat(live)
    ensures IsLastWithData(PulledParts(live, m, r), d - m + 1)
    ensures Gapless(live, d) ==> Gapless(PulledParts(live, m, r), d - m + 1)
  {
    var x, rest := FlatTo(live, m) + live[m][..r], live[m..][0 := live[m][r..]];
    assert PulledParts(live, m, r) == [x] + rest;
    Dropped(live, d, m, r);
    Taken(live, m, r);
    PartInFront(x, rest, d - m);
    var f := Flat(live);
    assert f == f[..|x|] + f[|x|..];
  }

  /** The loop of evbuffer_pullup: copy to tmp the chains that are pulled up entirely. */
  method CopyWhole(buf: EvBuffer, tmp: Chain, start: Chain?, ghost i: nat, size: nat)
    returns (chain: Chain?, removedData: bool, removedOwner: bool, s: nat, ghost m: nat)
    requires Linked(buf.chains) && Distinct(buf.chains) && |buf.live| == |buf.chains|
    requires forall j {:trigger HoldsOne(buf.chains[j], buf.live[j])} :: i <= j < |buf.chains| ==>
               HoldsOne(buf.chains[j], buf.live[j])
    requires 0 < buf.datum < |buf.chains| && buf.lwdOwner == buf.chains[buf.datum - 1] && tmp != buf.lwdOwner.next
    requires i <= 1 && i <= |buf.chains| && start == At(buf.chains, i) && tmp !in buf.chains[i..]
    requires tmp.Wf() && !tmp.immutable && tmp.bytes == FlatTo(buf.live, i)
    requires |tmp.bytes| < size <= |tmp.buffer| - tmp.misalign && size <= |Flat(buf.live)|
    modifies tmp`buffer, tmp`off, tmp`bytes
    ensures i <= m <= |buf.chains| && chain == At(buf.chains, m)
    ensures tmp.Wf() && tmp.bytes == FlatTo(buf.live, m) && |tmp.bytes| + s == size && |tmp.buffer| == old(|tmp.buffer|)
    ensures m < |buf.chains| ==> s < |buf.live[m]|
    ensures removedData <==> i <= buf.datum < m
    ensures removedOwner <==> i <= buf.datum - 1 < m
  {
    ghost var cs, live, d := buf.chains, buf.live, buf.datum;
    assert LinkAt(cs, d - 1);
    var lastWithData := buf.LastWithDataChain();
    chain, s, m := start, size - tmp.off, i;
    removedData, removedOwner := false, false;
    assert m < |cs| ==> HoldsOne(cs[m], live[m]);
    while chain != null && chain.off <= s
      invariant i <= m <= |cs| && chain == At(cs, m)
      invariant tmp.Wf() && tmp.bytes == FlatTo(live, m) && |tmp.bytes| + s == size && |tmp.buffer| == old(|tmp.buffer|)
      invariant removedData <==> i <= d < m
      invariant removedOwner <==> i <= d - 1 < m
      invariant m < |cs| ==> HoldsOne(cs[m], live[m])
      decreases |cs| - m
    {
      assert LinkAt(cs, m) && cs[m] == cs[i..][m - i];
      assert FlatTo(live, m + 1) == FlatTo(live, m) + live[m];
      if m != d { OtherChain(cs, m, d); }
      if m != d - 1 { OtherChain(cs, m, d - 1); }
      var next := chain.next;
      tmp.Append(chain.Part(0, chain.off));
      s := s - chain.off;
      if chain == lastWithData { removedData := true; }
      if chain == buf.lwdOwner { removedOwner := true; }
      chain := next;
      m := m + 1;
      assert m < |cs| ==> cs[m] == cs[i..][m - i] && old(HoldsOne(cs[m], live[m]));
    }
  }

  /** The pointer writes of evbuffer_pullup: tmp comes first, then chain. */
  method PullLinks(buf: EvBuffer, tmp: Chain, chain: Chain?, removedData: bool, removedOwner: bool,
                   ghost i: nat, ghost m: nat, ghost parts: seq<seq<Byte>>)
    requires Linked(buf.chains) && 0 < buf.datum < |buf.chains| && m <= |buf.chains| && chain == At(buf.chains, m)
    requires i <= 1 && 0 < m && i <= m && (i == 1 ==> tmp == buf.chains[0])
    requires buf.lwdOwner == buf.chains[buf.datum - 1]
    requires removedData <==> i <= buf.datum < m
    requires removedOwner <==> i <= buf.datum - 1 < m
    requires tmp !in buf.chains[m..] && buf.last == buf.chains[|buf.chains| - 1]
    requires chain != null ==> chain.off > 0
    modifies buf`first, buf`last, buf`lwdOwner, buf`chains, buf`live, buf`datum, tmp`next
    ensures buf.chains == [tmp] + old(buf.chains)[m..] && buf.live == parts
    ensures buf.first == tmp && buf.last == buf.chains[|buf.chains| - 1]
    ensures buf.datum == PulledDatum(old(buf.datum), m)
    ensures buf.datum <= |buf.chains| && buf.lwdOwner == if buf.datum == 0 then null else buf.chains[buf.datum - 1]
    ensures Linked(buf.chains)
  {
    ghost var was := buf.chains;
    buf.first := tmp;
    if chain == null {
      buf.last := tmp;
    }
    tmp.next := chain;
    if removedData {
      buf.lwdOwner := null;
    } else if removedOwner {
      if buf.first.next != null && buf.first.next.off != 0 {
        buf.lwdOwner := buf.first;
      } else {
        assert false; // the chain with the last data was not pulled in, and so is next
      }
    }
    buf.chains, buf.live, buf.datum := [tmp] + was[m..], parts, PulledDatum(buf.datum, m);
    forall j | 0 <= j < |buf.chains| ensures LinkAt(buf.chains, j) {
      if j > 0 {
        assert old(LinkAt(was, m + (j - 1)));
        assert buf.chains[j] == was[m..][j - 1] == was[m + (j - 1)];
      }
    }
  }

  /** What the chains hold does not depend on how they are linked. */
  method PullIn(buf: EvBuffer, tmp: Chain, chain: Chain?, removedData: bool, removedOwner: bool,
                ghost i: nat, ghost m: nat, ghost parts: seq<seq<Byte>>)
    requires Linked(buf.chains) && 0 < buf.datum < |buf.chains| && m <= |buf.chains| && chain == At(buf.chains, m)
    requires i <= 1 && 0 < m && i <= m && (i == 1 ==> tmp == buf.chains[0])
    requires buf.lwdOwner == buf.chains[buf.datum - 1]
    requires removedData <==> i <= buf.datum < m
    requires removedOwner <==> i <= buf.datum - 1 < m
    requires tmp !in buf.chains[m..] && buf.last == buf.chains[|buf.chains| - 1]
    requires chain != null ==> chain.off > 0
    requires Holds([tmp] + buf.chains[m..], parts)
    modifies buf`first, buf`last, buf`lwdOwner, buf`chains, buf`live, buf`datum, tmp`next
    ensures buf.chains == [tmp] + old(buf.chains)[m..] && buf.live == parts
    ensures buf.first == tmp && buf.last == buf.chains[|buf.chains| - 1]
    ensures buf.datum == PulledDatum(old(buf.datum), m)
    ensures buf.datum <= |buf.chains| && buf.lwdOwner == if buf.datum == 0 then null else buf.chains[buf.datum - 1]
    ensures Linked(buf.chains) && Holds(buf.chains, buf.live)
  {
    ghost var cs := [tmp] + buf.chains[m..];
    PullLinks(buf, tmp, chain, removedData, removedOwner, i, m, parts);
    forall j | 0 <= j < |parts| ensures HoldsOne(cs[j], parts[j]) {
      assert old(HoldsOne(cs[j], parts[j]));
    }
  }

  /** evbuffer_pullup: true if the first size bytes (all bytes if size is negative) are now in the
      first chain; false, with nothing done, if there are fewer or none is asked for. */
  method Pullup(buf: EvBuffer, size: int) returns (ok: bool)
    requires buf.Valid()
    modifies buf, buf.chains
    ensures buf.Valid() && buf.Contents() == old(buf.Contents())
    ensures var n := if size < 0 then |old(buf.Contents())| else size;
      && ok == (0 < n <= |old(buf.Contents())|)
      && (ok ==> |buf.live| > 0 && n <= |buf.live[0]| && buf.live[0][..n] == buf.Contents()[..n])
    ensures old(buf.NoGap()) ==> buf.NoGap()
    ensures forall c :: c in buf.chains ==> c in old(buf.chains) || fresh(c)
  {
    var n := if size < 0 then buf.totalLen else size;
    if n == 0 || n > buf.totalLen {
      return false;
    }
    var chain := buf.first;
    FlatToDatum(buf.live, buf.datum, |buf.live|);
    assert HoldsOne(buf.chains[0], buf.live[0]) && LinkAt(buf.chains, 0);
    FlatAt(buf.live, 0);
    assert FlatTo(buf.live, 1) == FlatTo(buf.live, 0) + buf.live[0];
    if chain.off >= n {
      return true;
    }
    if |chain.buffer| - chain.misalign >= n {
      PullInto(buf, chain, chain.next, 1, n);
    } else {
      var tmp := new Chain.New(n);
      PullInto(buf, tmp, chain, 0, n);
    }
    return true;
  }

  /** If fewer than size bytes are in the first part, it is not the last one with data. */
  lemma PartIsFirst(live: seq<seq<Byte>>, d: nat, size: nat)
    requires IsLastWithData(live, d) && |live| > 0 && |live[0]| < size <= |Flat(live)|
    ensures d > 0
  {
    FlatToDatum(live, d, |live|);
    assert FlatTo(live, 1) == FlatTo(live, 0) + live[0];
  }

  lemma RestHolds(cs: seq<Chain>, live: seq<seq<Byte>>, i: nat, m: nat, tmp: Chain)
    requires Distinct(cs) && i <= m <= |cs| == |live| && tmp !in cs[i..]
    requires forall j {:trigger HoldsOne(cs[j], live[j])} :: m <= j < |cs| ==> HoldsOne(cs[j], live[j])
    ensures Distinct(cs[m..]) && Holds(cs[m..], live[m..]) && tmp !in cs[m..]
  {
    DistinctDrop(cs, m);
    forall j | 0 <= j < |cs| - m ensures HoldsOne(cs[m..][j], live[m..][j]) && cs[m..][j] != tmp {
      assert HoldsOne(cs[m + j], live[m + j]) && cs[m + j] == cs[i..][m + j - i];
    }
  }

  /** Copy to tmp the first s bytes of the chain that is pulled up in part, the first of rest. */
  method CopyLast(tmp: Chain, chain: Chain?, s: nat, ghost rest: seq<Chain>, ghost parts: seq<seq<Byte>>)
    requires Distinct(rest) && Holds(rest, parts) && chain == At(rest, 0) && tmp !in rest
    requires tmp.Wf() && !tmp.immutable && s <= tmp.Space()
    requires if |rest| > 0 then s < |parts[0]| else s == 0
    modifies tmp`buffer, tmp`off, tmp`bytes, rest`off, rest`misalign, rest`bytes
    ensures Distinct([tmp] + rest)
    ensures tmp.bytes == old(tmp.bytes) + Head(parts, s)
    ensures Holds([tmp] + rest, [tmp.bytes] + Less(parts, s))
    ensures chain != null ==> chain.off > 0
  {
    ghost var left := Less(parts, s);
    assert |rest| > 0 ==> HoldsOne(rest[0], parts[0]);
    if chain != null {
      tmp.Append(chain.Part(0, s));
      chain.Advance(s);
    }
    forall j | 0 <= j < |rest| ensures HoldsOne(rest[j], left[j]) {
      assert old(HoldsOne(rest[j], parts[j])) && rest[j] in rest;
      if j > 0 { OtherChain(rest, 0, j); }
    }
    var t, p := [tmp] + rest, [tmp.bytes] + left;
    forall i, j | 0 <= i < j < |t| ensures Differ(t[i], t[j]) {
      assert t[j] == rest[j - 1] && t[j] in rest;
      assert i > 0 ==> Differ(rest[i - 1], rest[j - 1]);
    }
    forall j | 0 <= j < |t| ensures HoldsOne(t[j], p[j]) {
      assert j > 0 ==> HoldsOne(rest[j - 1], left[j - 1]);
    }
  }

  /** Fill tmp up to size bytes from the chains that start at start. */
  method FillFirst(buf: EvBuffer, tmp: Chain, start: Chain?, ghost i: nat, size: nat)
    returns (chain: Chain?, removedData: bool, removedOwner: bool, ghost s: nat, ghost m: nat)
    requires buf.Valid() && |buf.chains| > 0 && |buf.live[0]| < size <= buf.totalLen
    requires i <= 1 && start == At(buf.chains, i)
    requires if i == 0 then tmp !in buf.chains else tmp == buf.chains[0]
    requires tmp.Wf() && !tmp.immutable && tmp.bytes == FlatTo(buf.live, i) && size <= |tmp.buffer| - tmp.misalign
    modifies tmp`buffer, tmp`off, tmp`bytes, buf.chains`off, buf.chains`misalign, buf.chains`bytes
    ensures i <= m <= |buf.chains| && chain == At(buf.chains, m) && tmp !in buf.chains[m..]
    ensures m < |buf.chains| ==> s < |buf.live[m]| && chain.off > 0
    ensures m < |buf.chains| ==> |FlatTo(buf.live, m)| + s > 0
    ensures 0 < buf.datum
    ensures removedData <==> i <= buf.datum < m
    ensures removedOwner <==> i <= buf.datum - 1 < m
    ensures m > 0
    ensures var parts := PulledParts(buf.live, m, s);
      && Distinct([tmp] + buf.chains[m..]) && Holds([tmp] + buf.chains[m..], parts)
      && size == |parts[0]| && parts[0] == Flat(buf.live)[..size]
  {
    ghost var cs, live, d := buf.chains, buf.live, buf.datum;
    PartIsFirst(live, d, size);
    assert LinkAt(cs, d - 1);
    forall j | i <= j < |cs| ensures cs[j] != tmp {
      assert i == 1 ==> Differ(cs[0], cs[j]);
    }
    var left;
    chain, removedData, removedOwner, left, m := CopyWhole(buf, tmp, start, i, size);
    s := left;
    RestHolds(cs, live, i, m, tmp);
    assert m < |cs| ==> cs[m..][0] == cs[m];
    CopyLast(tmp, chain, left, cs[m..], live[m..]);
    if m < |cs| { Taken(live, m, s); }
  }

  /** The end of evbuffer_pullup: the bytes are gathered in tmp, which becomes the first chain. */
  method PullInto(buf: EvBuffer, tmp: Chain, start: Chain?, ghost i: nat, size: nat)
    requires buf.Valid() && |buf.chains| > 0 && |buf.live[0]| < size <= buf.totalLen
    requires i <= 1 && start == At(buf.chains, i)
    requires if i == 0 then tmp !in buf.chains else tmp == buf.chains[0]
    requires tmp.Wf() && !tmp.immutable && tmp.bytes == FlatTo(buf.live, i) && size <= |tmp.buffer| - tmp.misalign
    modifies buf, buf.chains, tmp
    ensures buf.Valid() && buf.Contents() == old(buf.Contents())
    ensures |buf.live| > 0 && size == |buf.live[0]| && buf.live[0] == buf.Contents()[..size]
    ensures old(buf.NoGap()) ==> buf.NoGap()
    ensures forall c :: c in buf.chains ==> c in old(buf.chains) || c == tmp
  {
    var chain, removedData, removedOwner, s, m := FillFirst(buf, tmp, start, i, size);
    Pulled(buf.live, buf.datum, m, s);
    PullIn(buf, tmp, chain, removedData, removedOwner, i, m, PulledParts(buf.live, m, s));
  }
}
