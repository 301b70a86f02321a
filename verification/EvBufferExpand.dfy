/** Free space in one single chain: evbuffer_expand, and reserving with one vector. */
module EvBufferExpand {
  import opened ByteSeqs
  import opened EvBuffers
  import opened EvBufferFront
  import opened EvBufferMove
  import opened EvBufferReserve

  /** evbuffer_expand_singlechain goes on to use the chain after the first one with space: that one has
      too little, is worth neither realigning nor copying, and its successor has enough. */
  ghost predicate UsesNext(buf: EvBuffer, datlen: nat)
    requires buf.datum < |buf.chains|
    reads buf, buf.chains
  {
    var c := buf.chains[buf.datum];
    && 0 < c.Space() < datlen && 0 < c.off && !c.ShouldRealign(datlen)
    && (c.Space() < |c.buffer| / 8 || c.off > MAX_TO_COPY_IN_EXPAND || datlen + c.off >= CHAIN_MAX)
    && buf.datum + 1 < |buf.chains| && buf.chains[buf.datum + 1].Space() >= datlen
  }

  /** evbuffer_chain_insert of a new chain with room for datlen bytes */
  method InsertNew(buf: EvBuffer, datlen: nat) returns (chain: Chain)
    requires buf.Valid()
    modifies buf, buf.chains`next
    ensures buf.Valid() && buf.Contents() == old(buf.Contents()) && buf.datum == old(buf.datum)
    ensures |buf.chains| > 0 && chain == buf.last && chain.Space() >= datlen && chain.Space() > 0 && fresh(chain)
    ensures |buf.chains| <= buf.datum + 2
    ensures forall c :: c in buf.chains ==> c in old(buf.chains) || c == chain
    ensures old(buf.NoGap()) ==> buf.NoGap()
  {
    chain := new Chain.New(datlen);
    assert chain.bytes == [];
    buf.ChainInsert(chain);
    assert HoldsOne(buf.chains[|buf.chains| - 1], buf.live[|buf.chains| - 1]);
  }

  lemma DistinctReplace(cs: seq<Chain>, i: nat, c: Chain)
    requires Distinct(cs) && i < |cs| && c !in cs
    ensures Distinct(cs[i := c])
  {
    var t := cs[i := c];
    forall j, k | 0 <= j < k < |cs| ensures Differ(t[j], t[k]) {
      assert Differ(cs[j], cs[k]);
    }
  }

  /** A new chain takes the place of the last one with data and gets its bytes. */
  method ReplaceLast(buf: EvBuffer, chain: Chain, tmp: Chain)
    requires buf.Valid() && |buf.chains| > 0 && chain == buf.chains[buf.datum] && tmp !in buf.chains
    requires tmp.Wf() && tmp.bytes == buf.live[buf.datum]
    modifies buf`first, buf`last, buf`chains, buf.chains`next, tmp`next
    ensures buf.Valid() && buf.chains == old(buf.chains)[buf.datum := tmp]
  {
    ghost var cs, d := buf.chains, buf.datum;
    ghost var t := cs[d := tmp];
    DistinctReplace(cs, d, tmp);
    assert LinkAt(cs, d);
    assert d > 0 ==> Differ(cs[d - 1], cs[d]);
    assert d + 1 < |cs| ==> Differ(cs[d], cs[|cs| - 1]);
    forall j | 0 <= j < |t| ensures HoldsOne(t[j], buf.live[j]) {
      assert HoldsOne(cs[j], buf.live[j]);
    }
    ReplaceLinks(buf, chain, tmp);
    assert Holds(t, buf.live);
  }

  method ReplaceLinks(buf: EvBuffer, chain: Chain, tmp: Chain)
    requires Linked(buf.chains) && Distinct(buf.chains) && buf.datum < |buf.chains|
    requires chain == buf.chains[buf.datum] && tmp !in buf.chains
    requires buf.lwdOwner == if buf.datum == 0 then null else buf.chains[buf.datum - 1]
    requires buf.first == buf.chains[0] && buf.last == buf.chains[|buf.chains| - 1]
    modifies buf`first, buf`last, buf`chains, buf.chains`next, tmp`next
    ensures buf.chains == old(buf.chains)[buf.datum := tmp]
    ensures buf.first == buf.chains[0] && buf.last == buf.chains[|buf.chains| - 1]
    ensures Linked(buf.chains)
  {
    ghost var cs, d := buf.chains, buf.datum;
    assert LinkAt(cs, d);
    assert d > 0 ==> Differ(cs[d - 1], cs[d]) && cs[d - 1] in cs;
    assert d + 1 < |cs| ==> Differ(cs[d], cs[|cs| - 1]);
    if buf.lwdOwner == null { buf.first := tmp; } else { buf.lwdOwner.next := tmp; }
    if buf.last == chain {
      buf.last := tmp;
    }
    tmp.next := chain.next;
    buf.chains := cs[d := tmp];
    forall j | 0 <= j < |cs| ensures LinkAt(buf.chains, j) {
      assert old(LinkAt(cs, j)) && cs[j] in cs;
      if d > 0 && j != d - 1 { OtherChain(cs, j, d - 1); }
    }
  }

  /** evbuffer_expand_singlechain: some chain at the end has datlen bytes free in one piece. */
  method ExpandSinglechain(buf: EvBuffer, datlen: nat) returns (result: Chain, ghost r: nat)
    requires buf.Valid()
    modifies buf, buf.chains
    ensures buf.Valid() && buf.Contents() == old(buf.Contents()) && buf.datum == old(buf.datum)
    ensures r < |buf.chains| && result == buf.chains[r] && datlen <= result.Space()
    ensures buf.datum <= r <= buf.datum + 1
    ensures r == |buf.chains| - 1 || r == FirstWithSpace(buf) ||
            (old(|buf.chains| > 0 && UsesNext(buf, datlen)) && buf.chains == old(buf.chains))
    ensures old(|buf.chains| > 0 && UsesNext(buf, datlen)) ==>
              r == buf.datum + 1 != FirstWithSpace(buf) && buf.chains == old(buf.chains)
    ensures forall c :: c in buf.chains ==> c in old(buf.chains) || fresh(c)
    ensures old(buf.NoGap()) ==> buf.NoGap()
  {
    ghost var cs, d := buf.chains, buf.datum;
    assert d > 0 ==> LinkAt(cs, d - 1);
    var chain := buf.LastWithDataChain();
    r := d;
    if chain != null {
      assert LinkAt(cs, d) && HoldsOne(cs[d], buf.live[d]);
      if chain.Space() == 0 {
        chain, r := chain.next, d + 1;
        if chain != null {
          assert HoldsOne(cs[d + 1], buf.live[d + 1]) && Idle(buf.live, d + 1);
        }
      }
    }
    if chain == null || chain.immutable {
      result := InsertNew(buf, datlen);
      r := |buf.chains| - 1;
    } else if chain.Space() >= datlen {
      result := chain;
    } else if chain.off == 0 {
      result := InsertNew(buf, datlen);
      r := |buf.chains| - 1;
    } else {
      result, r := ExpandUsed(buf, chain, datlen);
    }
  }

  /** The rest of evbuffer_expand_singlechain: the last chain with data has some space, but too little. */
  method ExpandUsed(buf: EvBuffer, chain: Chain, datlen: nat) returns (result: Chain, ghost r: nat)
    requires buf.Valid() && |buf.chains| > 0 && chain == buf.chains[buf.datum]
    requires !chain.immutable && chain.off > 0 && 0 < chain.Space() < datlen
    modifies buf, buf.chains
    ensures buf.Valid() && buf.Contents() == old(buf.Contents()) && buf.datum == old(buf.datum)
    ensures r < |buf.chains| && result == buf.chains[r] && datlen <= result.Space()
    ensures buf.datum <= r <= buf.datum + 1
    ensures if old(UsesNext(buf, datlen)) then r == buf.datum + 1 != FirstWithSpace(buf)
            && buf.chains == old(buf.chains)
            else r == |buf.chains| - 1 || r == FirstWithSpace(buf)
    ensures forall c :: c in buf.chains ==> c in old(buf.chains) || fresh(c)
    ensures old(buf.NoGap()) ==> buf.NoGap()
  {
    assert HoldsOne(chain, buf.live[buf.datum]) && LinkAt(buf.chains, buf.datum);
    r := buf.datum;
    if chain.ShouldRealign(datlen) {
      buf.AlignLast(chain);
      assert HoldsOne(chain, buf.live[buf.datum]);
      result := chain;
    } else if chain.Space() < |chain.buffer| / 8 || chain.off > MAX_TO_COPY_IN_EXPAND
      || datlen + chain.off >= CHAIN_MAX {
      if chain.next != null && chain.next.Space() >= datlen {
        result, r := chain.next, buf.datum + 1;
      } else {
        result := InsertNew(buf, datlen);
        r := |buf.chains| - 1;
      }
    } else {
      var tmp := new Chain.New(chain.off + datlen);
      tmp.Append(chain.Part(0, chain.off));
      ReplaceLast(buf, chain, tmp);
      result := tmp;
    }
  }

  /** evbuffer_reserve_space with one vector. Committing it will be refused exactly when the space was
      found in the chain after the first one with space while yet another chain follows. */
  method ReserveOne(buf: EvBuffer, size: nat) returns (vec: IoVec)
    requires buf.Valid()
    modifies buf, buf.chains
    ensures buf.Valid() && |buf.chains| > 0 && buf.Contents() == old(buf.Contents()) && buf.datum == old(buf.datum)
    ensures size <= vec.len == vec.chain.Space() && vec.at == vec.chain.misalign + vec.chain.off
    ensures vec.chain == buf.last ==> |buf.chains| <= buf.datum + 2
    ensures (vec.chain != buf.last && !Fits(buf.chains, FirstWithSpace(buf), [vec])) <==>
            old(|buf.chains| > buf.datum + 2 && UsesNext(buf, size))
    ensures old(buf.NoGap()) ==> buf.NoGap()
    ensures forall c :: c in buf.chains ==> c in old(buf.chains) || fresh(c)
  {
    var chain, r := ExpandSinglechain(buf, size);
    vec := IoVec(chain, chain.misalign + chain.off, chain.Space());
    ghost var n, f := |buf.chains|, FirstWithSpace(buf);
    if r != n - 1 { OtherChain(buf.chains, r, n - 1); }
    assert r == f ==> f + 1 <= n && FitsAt(buf.chains, f, [vec], 0);
    if f + 1 <= n && f != r {
      OtherChain(buf.chains, f, r);
      assert !FitsAt(buf.chains, f, [vec], 0);
    }
  }
}
