/** Reserving free space at the end of an evbuffer, and committing what was written there. */
module EvBufferReserve {
  import opened ByteSeqs
  import opened EvBuffers
  import opened EvBufferFront
  import opened EvBufferMove

  ghost function Sum(xs: seq<int>, n: nat): int
    requires n <= |xs|
  {
    if n == 0 then 0 else Sum(xs, n - 1) + xs[n - 1]
  }

  lemma SumSnoc(xs: seq<int>, x: int)
    ensures Sum(xs + [x], |xs| + 1) == Sum(xs, |xs|) + x
  {
    SumSame(xs, xs + [x], |xs|);
  }

  lemma {:induction false} SumSame(xs: seq<int>, ys: seq<int>, n: nat)
    requires n <= |xs| && n <= |ys| && forall i :: 0 <= i < n ==> xs[i] == ys[i]
    ensures Sum(xs, n) == Sum(ys, n)
  {
    if n > 0 { SumSame(xs, ys, n - 1); }
  }

  /** Chain number f + j has spaces[j] bytes free. */
  ghost predicate SpaceIs(cs: seq<Chain>, f: nat, spaces: seq<int>, j: nat)
    requires f + j < |cs| && j < |spaces|
    reads cs`buffer, cs`misalign, cs`off
  {
    cs[f + j].Space() == spaces[j] > 0
  }

  ghost predicate SpacesAre(cs: seq<Chain>, f: nat, spaces: seq<int>)
    reads cs`buffer, cs`misalign, cs`off
  {
    && f + |spaces| <= |cs|
    && (forall j {:trigger SpaceIs(cs, f, spaces, j)} :: 0 <= j < |spaces| ==> SpaceIs(cs, f, spaces, j))
  }

  /** The number of the first chain to write to: the last one with data if it has space, or the next one. */
  ghost function FirstWithSpace(buf: EvBuffer): nat
    requires 0 < |buf.chains| && buf.datum < |buf.chains|
    reads buf, buf.chains`buffer, buf.chains`misalign, buf.chains`off
  {
    if buf.chains[buf.datum].Space() == 0 then buf.datum + 1 else buf.datum
  }

  /** Drop the misalignment of an empty chain. */
  method AlignEmpty(buf: EvBuffer, chain: Chain, ghost i: nat)
    requires buf.Valid() && i < |buf.chains| && chain == buf.chains[i] && |buf.live[i]| == 0
    modifies chain`misalign
    ensures buf.Valid() && chain.misalign == 0 && chain.off == 0 && !chain.immutable
            && chain.Space() == |chain.buffer| > 0
  {
    assert HoldsOne(buf.chains[i], buf.live[i]);
    chain.misalign := 0;
    forall j | 0 <= j < |buf.chains| && j != i ensures HoldsOne(buf.chains[j], buf.live[j]) {
      OtherChain(buf.chains, i, j);
      assert old(HoldsOne(buf.chains[j], buf.live[j]));
    }
    HoldsUpdate(buf.chains, buf.live, i);
    assert buf.live[i := chain.bytes] == buf.live;
  }

  /** What the walk of evbuffer_expand_fast_ has found before chain number i: the chains from number f on
      have the spaces, avail in all. */
  ghost predicate Counting(buf: EvBuffer, i: nat, f: nat, avail: nat, spaces: seq<int>)
    reads buf, buf.chains`buffer, buf.chains`misalign, buf.chains`off
  {
    && buf.datum < |buf.chains| && i == f + |spaces|
    && f == (if i == buf.datum then i else FirstWithSpace(buf))
    && SpacesAre(buf.chains, f, spaces) && Sum(spaces, |spaces|) == avail
  }

  lemma CountingMore(buf: EvBuffer, i: nat, f: nat, avail: nat, spaces: seq<int>)
    requires Counting(buf, i, f, avail, spaces)
    requires i < |buf.chains| && buf.chains[i].Space() > 0 && f == FirstWithSpace(buf)
    ensures Counting(buf, i + 1, f, avail + buf.chains[i].Space(), spaces + [buf.chains[i].Space()])
  {
    var space := buf.chains[i].Space();
    SumSnoc(spaces, space);
    forall j | 0 <= j < |spaces| + 1 ensures SpaceIs(buf.chains, f, spaces + [space], j) {
      assert j < |spaces| ==> SpaceIs(buf.chains, f, spaces, j);
    }
  }

  /** One round of the loop of evbuffer_expand_fast_: count the chain's space, of an empty one all of it. */
  method CountOne(buf: EvBuffer, chain: Chain, avail: nat, used: nat, ghost i: nat, ghost f: nat,
                  ghost spaces: seq<int>)
    returns (all: nat, number: nat, ghost f': nat, ghost spaces': seq<int>)
    requires buf.Valid() && buf.datum <= i < |buf.chains| && chain == buf.chains[i]
    requires Counting(buf, i, f, avail, spaces) && |spaces| == used
    modifies chain`misalign
    ensures buf.Valid() && chain.misalign <= old(chain.misalign)
    ensures Counting(buf, i + 1, f', all, spaces') && |spaces'| == number <= used + 1
  {
    ghost var cs, d := buf.chains, buf.datum;
    assert HoldsOne(cs[i], buf.live[i]);
    if i > d { OtherChain(cs, i, d); }
    if chain.off != 0 {
      var space := chain.Space();
      assert i > d ==> Idle(buf.live, i);
      if space == 0 {
        return avail, used, d + 1, [];
      }
      CountingMore(buf, i, f, avail, spaces);
      return avail + space, used + 1, f, spaces + [space];
    }
    AlignEmpty(buf, chain, i);
    forall j | 0 <= j < |spaces| ensures SpaceIs(cs, f, spaces, j) {
      OtherChain(cs, i, f + j);
      assert old(SpaceIs(cs, f, spaces, j));
    }
    CountingMore(buf, i, f, avail, spaces);
    return avail + |chain.buffer|, used + 1, f, spaces + [chain.Space()];
  }

  /** The loop of evbuffer_expand_fast_: how much space do the first n chains with space have? Ends
      early, with enough set, when that is datlen bytes. */
  method CountSpace(buf: EvBuffer, datlen: nat, n: nat)
    returns (enough: bool, avail: nat, used: nat, ghost spaces: seq<int>, ghost f: nat)
    requires buf.Valid() && |buf.chains| > 0 && !buf.last.immutable && 2 <= n
    modifies buf.chains`misalign
    ensures buf.Valid() && f == FirstWithSpace(buf)
    ensures f <= |buf.chains| && SpacesAre(buf.chains, f, spaces)
    ensures |spaces| == used <= n && Sum(spaces, |spaces|) == avail
    ensures enough ==> avail >= datlen
    ensures !enough ==> avail < datlen && (used < n ==> f + used == |buf.chains|)
    ensures forall c :: c in buf.chains ==> c.misalign <= old(c.misalign)
  {
    ghost var cs, d := buf.chains, buf.datum;
    enough, avail, used, spaces := false, 0, 0, [];
    var chain := buf.LastWithDataChain();
    assert d > 0 ==> LinkAt(cs, d - 1);
    ghost var i := d;
    f := d;
    while chain != null
      invariant d <= i <= |cs| && chain == At(cs, i) && buf.Valid()
      invariant Counting(buf, i, f, avail, spaces) && |spaces| == used < n
      invariant i > d ==> avail < datlen
      invariant forall c :: c in cs ==> c.misalign <= old(c.misalign)
      decreases |cs| - i
    {
      assert LinkAt(cs, i);
      avail, used, f, spaces := CountOne(buf, chain, avail, used, i, f, spaces);
      if avail >= datlen {
        enough := true;
        return;
      }
      if used == n {
        break;
      }
      chain := chain.next;
      i := i + 1;
    }
  }

  /** An empty chain more at the end changes nothing else. */
  lemma IdleSnoc(live: seq<seq<Byte>>, d: nat)
    requires IsLastWithData(live, d) && |live| > 0
    ensures IsLastWithData(live + [[]], d) && Flat(live + [[]]) == Flat(live)
    ensures Gapless(live, d) ==> Gapless(live + [[]], d)
  {
    FlatSnoc(live, []);
    forall i | d < i <= |live| ensures Idle(live + [[]], i) {
      assert i < |live| ==> Idle(live, i);
    }
    forall i | 0 <= i < d ensures HasData(live, i) ==> HasData(live + [[]], i) {}
  }

  /** The spaces counted before go on with that of a new last chain. */
  lemma SpacesSnoc(cs: seq<Chain>, f: nat, spaces: seq<int>, e: nat, tmp: Chain)
    requires SpacesAre(cs, f, spaces) && f + |spaces| == e <= |cs| && tmp.Space() > 0
    ensures SpacesAre(cs[..e] + [tmp], f, spaces + [tmp.Space()])
    ensures Sum(spaces + [tmp.Space()], |spaces| + 1) == Sum(spaces, |spaces|) + tmp.Space()
  {
    var t, more := cs[..e] + [tmp], spaces + [tmp.Space()];
    SumSnoc(spaces, tmp.Space());
    forall j | 0 <= j < |more| ensures SpaceIs(t, f, more, j) {
      assert j < |spaces| ==> SpaceIs(cs, f, spaces, j);
    }
  }

  /** A new empty chain takes the place of the chains from number e on. */
  method EndWith(buf: EvBuffer, owner: Chain?, ghost e: nat, tmp: Chain)
    requires buf.Valid() && |buf.chains| > 0 && (e == Kept(buf.live, buf.datum) || e == |buf.chains|)
    requires owner == if e == 0 then null else buf.chains[e - 1]
    requires tmp.Wf() && tmp.next == null && tmp.off == 0 && tmp !in buf.chains
    modifies buf, buf.chains`next
    ensures buf.Valid() && buf.chains == old(buf.chains)[..e] + [tmp]
    ensures buf.Contents() == old(buf.Contents()) && buf.datum == old(buf.datum)
    ensures old(buf.NoGap()) ==> buf.NoGap()
  {
    assert tmp.bytes == [];
    assert buf.live[..|buf.live|] == buf.live;
    InsertedLast(buf.live, buf.datum, []);
    IdleSnoc(buf.live, buf.datum);
    DistinctSnoc(buf.chains, e, tmp);
    HoldsSnoc(buf.chains, buf.live, e, tmp);
    buf.LinkAfter(owner, e, tmp);
  }

  /** evbuffer_expand_fast_: make sure that the first n chains to write to have datlen bytes free. */
  method ExpandFast(buf: EvBuffer, datlen: nat, n: nat) returns (ghost spaces: seq<int>)
    requires buf.Valid() && 2 <= n
    modifies buf, buf.chains`next, buf.chains`misalign
    ensures buf.Valid() && |buf.chains| > 0 && buf.Contents() == old(buf.Contents()) && buf.datum == old(buf.datum)
    ensures SpacesAre(buf.chains, FirstWithSpace(buf), spaces) && |spaces| <= n && datlen <= Sum(spaces, |spaces|)
    ensures old(buf.NoGap()) ==> buf.NoGap()
    ensures forall c :: c in buf.chains ==> c in old(buf.chains) || fresh(c)
    ensures |buf.chains| <= |old(buf.chains)| + 1
    ensures old(|buf.chains| > 0 && |buf.chains| < buf.datum + n) ==> old(buf.chains) <= buf.chains
    ensures forall c :: c in old(buf.chains) ==> c.misalign <= old(c.misalign)
  {
    if buf.last == null || buf.last.immutable {
      spaces := ExpandEmptyOrImmutable(buf, datlen);
      return;
    }
    var enough, avail, used, counted, f := CountSpace(buf, datlen, n);
    spaces := counted;
    if enough {
      return;
    }
    if used < n {
      spaces := AddEmpty(buf, datlen, avail, spaces);
    } else {
      FirstSpace(buf.chains, f, spaces, used);
      spaces := ReplaceEmpty(buf, datlen);
    }
  }

  lemma {:induction false} FirstSpace(cs: seq<Chain>, f: nat, spaces: seq<int>, n: nat)
    requires SpacesAre(cs, f, spaces) && 0 < n <= |spaces|
    ensures cs[f].Space() <= Sum(spaces, n)
  {
    assert SpaceIs(cs, f, spaces, n - 1);
    if n == 1 {
      assert Sum(spaces, 1) == Sum(spaces, 0) + spaces[0];
    } else {
      FirstSpace(cs, f, spaces, n - 1);
    }
  }

  /** All chains are counted and there is not enough space: one more chain at the end. */
  method AddEmpty(buf: EvBuffer, datlen: nat, avail: nat, ghost counted: seq<int>) returns (ghost spaces: seq<int>)
    requires buf.Valid() && |buf.chains| > 0 && avail < datlen
    requires SpacesAre(buf.chains, FirstWithSpace(buf), counted) && avail == Sum(counted, |counted|)
    requires FirstWithSpace(buf) + |counted| == |buf.chains|
    modifies buf, buf.chains`next
    ensures buf.Valid() && old(buf.chains) < buf.chains && buf.Contents() == old(buf.Contents())
            && buf.datum == old(buf.datum)
    ensures SpacesAre(buf.chains, FirstWithSpace(buf), spaces) && |spaces| == |counted| + 1
            && datlen <= Sum(spaces, |spaces|)
    ensures |buf.chains| <= |old(buf.chains)| + 1
    ensures old(buf.NoGap()) ==> buf.NoGap()
    ensures forall c :: c in buf.chains ==> c in old(buf.chains) || fresh(c)
  {
    var tmp := new Chain.New(datlen - avail);
    SpacesSnoc(buf.chains, FirstWithSpace(buf), counted, |buf.chains|, tmp);
    spaces := counted + [tmp.Space()];
    EndWith(buf, buf.last, |buf.chains|, tmp);
  }

  method ExpandEmptyOrImmutable(buf: EvBuffer, datlen: nat) returns (ghost spaces: seq<int>)
    requires buf.Valid() && (buf.last == null || buf.last.immutable)
    modifies buf, buf.chains`next
    ensures buf.Valid() && old(buf.chains) < buf.chains && buf.Contents() == old(buf.Contents())
            && buf.datum == old(buf.datum)
    ensures SpacesAre(buf.chains, FirstWithSpace(buf), spaces) && |spaces| <= 1 && datlen <= Sum(spaces, |spaces|)
    ensures |buf.chains| <= |old(buf.chains)| + 1
    ensures old(buf.NoGap()) ==> buf.NoGap()
    ensures forall c :: c in buf.chains ==> c in old(buf.chains) || fresh(c)
  {
    ghost var n := |buf.chains|;
    if n > 0 {
      assert HoldsOne(buf.chains[n - 1], buf.live[n - 1]);
      assert n - 1 > buf.datum ==> Idle(buf.live, n - 1);
    }
    var chain := new Chain.New(datlen);
    assert chain.bytes == [];
    buf.ChainInsert(chain);
    assert buf.chains[n] == chain;
    spaces := OneSpace(buf.chains, n);
    assert FirstWithSpace(buf) == n;
  }

  lemma OneSpace(cs: seq<Chain>, n: nat) returns (spaces: seq<int>)
    requires |cs| == n + 1 && cs[n].Space() > 0
    ensures |spaces| == 1 && SpacesAre(cs, n, spaces) && Sum(spaces, 1) == cs[n].Space()
  {
    spaces := [cs[n].Space()];
    assert Sum(spaces, 1) == Sum(spaces, 0) + spaces[0];
    assert SpaceIs(cs, n, spaces, 0);
  }

  /** The end of evbuffer_expand_fast_: one new chain in place of all empty ones at the end. */
  method ReplaceEmpty(buf: EvBuffer, datlen: nat) returns (ghost spaces: seq<int>)
    requires buf.Valid() && |buf.chains| > 0
    requires buf.chains[buf.datum].Space() < datlen
    modifies buf, buf.chains`next
    ensures buf.Valid() && |buf.chains| > 0 && buf.Contents() == old(buf.Contents()) && buf.datum == old(buf.datum)
    ensures SpacesAre(buf.chains, FirstWithSpace(buf), spaces) && |spaces| <= 2 && datlen <= Sum(spaces, |spaces|)
    ensures |buf.chains| <= |old(buf.chains)| + 1
    ensures old(buf.NoGap()) ==> buf.NoGap()
    ensures forall c :: c in buf.chains ==> c in old(buf.chains) || fresh(c)
  {
    ghost var e, cs := Kept(buf.live, buf.datum), buf.chains;
    assert buf.datum > 0 ==> LinkAt(cs, buf.datum - 1);
    var chain := buf.LastWithDataChain();
    assert HoldsOne(cs[buf.datum], buf.live[buf.datum]);
    var avail := 0;
    var owner: Chain? := null;
    if chain.off != 0 {
      avail := chain.Space();
      owner := chain;
    }
    var tmp := new Chain.New(datlen - avail);
    ghost var before := if avail > 0 then [avail] else [];
    assert Sum(before, |before|) == avail by {
      if avail > 0 { assert Sum(before, 1) == Sum(before, 0) + avail; }
    }
    ghost var f := if avail > 0 then buf.datum else e;
    assert forall j {:trigger SpaceIs(cs, f, before, j)} :: 0 <= j < |before| ==> SpaceIs(cs, f, before, j);
    SpacesSnoc(cs, f, before, e, tmp);
    spaces := before + [tmp.Space()];
    cs := cs[..e] + [tmp];
    assert SpacesAre(cs, f, spaces);
    EndWith(buf, owner, e, tmp);
    assert SpacesAre(cs, f, spaces);
    assert f == FirstWithSpace(buf);
  }

  /** Memory to write to: len bytes of a chain's memory from index at. */
  datatype IoVec = IoVec(chain: Chain, at: nat, len: nat)

  /** Vector number j is the start of the free space of chain number f + j. */
  ghost predicate FitsAt(cs: seq<Chain>, f: nat, vecs: seq<IoVec>, j: nat)
    requires f + j < |cs| && j < |vecs|
    reads cs`buffer, cs`misalign, cs`off
  {
    var c := cs[f + j];
    vecs[j].chain == c && vecs[j].at == c.misalign + c.off && vecs[j].len <= c.Space()
  }

  ghost predicate Fits(cs: seq<Chain>, f: nat, vecs: seq<IoVec>)
    reads cs`buffer, cs`misalign, cs`off
  {
    && f + |vecs| <= |cs|
    && (forall j {:trigger FitsAt(cs, f, vecs, j)} :: 0 <= j < |vecs| ==> FitsAt(cs, f, vecs, j))
  }

  /** The sum of the lengths of the first n vectors. */
  ghost function LenTo(vecs: seq<IoVec>, n: nat): (r: nat)
    requires n <= |vecs|
  {
    if n == 0 then 0 else LenTo(vecs, n - 1) + vecs[n - 1].len
  }

  lemma {:induction false} LenToSame(vecs: seq<IoVec>, more: seq<IoVec>, n: nat)
    requires n <= |vecs| <= |more| && vecs == more[..|vecs|]
    ensures LenTo(vecs, n) == LenTo(more, n)
  {
    if n > 0 { LenToSame(vecs, more, n - 1); }
  }

  /** The first n vectors are all the free space of their chains. */
  ghost predicate WholeSpaces(vecs: seq<IoVec>, n: int)
    requires n <= |vecs|
    reads set j | 0 <= j < |vecs| :: vecs[j].chain
  {
    forall j {:trigger vecs[j]} :: 0 <= j < n ==> vecs[j].len == vecs[j].chain.Space()
  }

  /** They total what was asked for, and with one less they would not. */
  ghost predicate JustEnough(vecs: seq<IoVec>, howmuch: nat) {
    howmuch <= LenTo(vecs, |vecs|) && (|vecs| > 0 ==> LenTo(vecs, |vecs| - 1) < howmuch)
  }

  /** The vectors handed out so far: each is all the space of its chain, but the last one may be exact. */
  ghost predicate Handed(cs: seq<Chain>, f: nat, spaces: seq<int>, howmuch: nat, exact: bool, vecs: seq<IoVec>,
                         soFar: nat)
    reads cs`buffer, cs`misalign, cs`off, set j | 0 <= j < |vecs| :: vecs[j].chain
  {
    && |vecs| <= |spaces| && Fits(cs, f, vecs) && LenTo(vecs, |vecs|) == soFar && (exact ==> soFar <= howmuch)
    && (soFar == Sum(spaces, |vecs|) || (exact && soFar == howmuch))
    && WholeSpaces(vecs, if exact && soFar == howmuch then |vecs| - 1 else |vecs|)
    && (|vecs| > 0 ==> LenTo(vecs, |vecs| - 1) < howmuch)
  }

  lemma HandedMore(cs: seq<Chain>, f: nat, spaces: seq<int>, howmuch: nat, exact: bool, vecs: seq<IoVec>, soFar: nat,
                   c: Chain, len: nat)
    requires Handed(cs, f, spaces, howmuch, exact, vecs, soFar) && SpacesAre(cs, f, spaces)
    requires soFar < howmuch && |vecs| < |spaces| && c == cs[f + |vecs|]
    requires len == if exact && c.Space() > howmuch - soFar then howmuch - soFar else c.Space()
    ensures Handed(cs, f, spaces, howmuch, exact, vecs + [IoVec(c, c.misalign + c.off, len)], soFar + len)
  {
    var more := vecs + [IoVec(c, c.misalign + c.off, len)];
    LenToSame(vecs, more, |vecs|);
    assert SpaceIs(cs, f, spaces, |vecs|);
    forall j | 0 <= j < |more| ensures FitsAt(cs, f, more, j) {
      assert j < |vecs| ==> FitsAt(cs, f, vecs, j);
    }
    assert Sum(spaces, |vecs| + 1) == Sum(spaces, |vecs|) + spaces[|vecs|];
  }

  /** evbuffer_read_setup_vecs_: hand out the free space, up to howmuch bytes if exact is set. */
  method SetupVecs(buf: EvBuffer, howmuch: nat, nAvail: nat, exact: bool, ghost spaces: seq<int>)
    returns (vecs: seq<IoVec>)
    requires buf.Valid() && |buf.chains| > 0
    requires SpacesAre(buf.chains, FirstWithSpace(buf), spaces) && |spaces| <= nAvail
             && howmuch <= Sum(spaces, |spaces|)
    ensures |vecs| <= nAvail && Fits(buf.chains, FirstWithSpace(buf), vecs)
    ensures JustEnough(vecs, howmuch) && (exact ==> howmuch == LenTo(vecs, |vecs|))
    ensures WholeSpaces(vecs, if exact then |vecs| - 1 else |vecs|)
  {
    ghost var cs, f := buf.chains, FirstWithSpace(buf);
    assert buf.datum > 0 ==> LinkAt(cs, buf.datum - 1);
    var chain := buf.LastWithDataChain();
    assert LinkAt(cs, buf.datum);
    if chain.Space() == 0 {
      chain := chain.next;
    }
    vecs := [];
    var soFar := 0;
    while |vecs| < nAvail && soFar < howmuch
      invariant |vecs| <= nAvail && soFar >= 0 && Handed(cs, f, spaces, howmuch, exact, vecs, soFar)
      invariant chain == At(cs, f + |vecs|)
    {
      assert |vecs| < |spaces|;
      assert SpaceIs(cs, f, spaces, |vecs|) && LinkAt(cs, f + |vecs|);
      var avail := chain.Space();
      if exact && avail > howmuch - soFar {
        avail := howmuch - soFar;
      }
      HandedMore(cs, f, spaces, howmuch, exact, vecs, soFar, chain, avail);
      vecs := vecs + [IoVec(chain, chain.misalign + chain.off, avail)];
      soFar := soFar + avail;
      chain := chain.next;
    }
  }

  /** evbuffer_reserve_space with two or more vectors */
  method ReserveSpace(buf: EvBuffer, size: nat, nVecs: nat) returns (vecs: seq<IoVec>)
    requires buf.Valid() && 2 <= nVecs
    modifies buf, buf.chains`next, buf.chains`misalign
    ensures buf.Valid() && |buf.chains| > 0 && buf.Contents() == old(buf.Contents()) && buf.datum == old(buf.datum)
    ensures |vecs| <= nVecs && Fits(buf.chains, FirstWithSpace(buf), vecs) && JustEnough(vecs, size)
    ensures WholeSpaces(vecs, |vecs|)
    ensures old(buf.NoGap()) ==> buf.NoGap()
    ensures forall c :: c in buf.chains ==> c in old(buf.chains) || fresh(c)
    ensures |buf.chains| <= |old(buf.chains)| + 1
    ensures old(|buf.chains| > 0 && |buf.chains| < buf.datum + nVecs) ==> old(buf.chains) <= buf.chains
    ensures forall c :: c in old(buf.chains) ==> c.misalign <= old(c.misalign)
  {
    ghost var spaces := ExpandFast(buf, size, nVecs);
    vecs := SetupVecs(buf, size, nVecs, false, spaces);
  }
}
