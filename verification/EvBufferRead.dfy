/** Positions in an evbuffer, copying bytes out, and searching. */
module EvBufferRead {
  import opened ByteSeqs
  import opened EvBuffers
  import opened EvBufferFront
  import opened EvBufferMove

  const SSIZE_MAX: nat := 0x7FFF_FFFF_FFFF_FFFF

  /** struct evbuffer_ptr; pos is -1 for a position that was not found. */
  datatype Ptr = Ptr(pos: int, chain: Chain?, posInChain: nat)

  const NotFound := Ptr(-1, null, 0)

  /** The position is in chain number i, or behind the last chain. */
  ghost predicate PtrIn(buf: EvBuffer, p: Ptr, i: nat)
    reads buf
  {
    && i <= |buf.chains| == |buf.live| && p.chain == At(buf.chains, i)
    && p.posInChain <= (if i < |buf.live| then |buf.live[i]| else 0)
    && p.pos == |FlatTo(buf.live, i)| + p.posInChain
  }

  ghost predicate PtrOk(buf: EvBuffer, p: Ptr)
    reads buf
  {
    exists i :: PtrIn(buf, p, i)
  }

  /** The bytes of a part, from its number a to its number b, among all bytes. */
  lemma PartInFlat(live: seq<seq<Byte>>, i: nat, a: nat, b: nat)
    requires i < |live| && a <= b <= |live[i]|
    ensures |FlatTo(live, i)| + |live[i]| <= |Flat(live)| && |FlatTo(live, i + 1)| == |FlatTo(live, i)| + |live[i]|
    ensures Flat(live)[|FlatTo(live, i)| + a..|FlatTo(live, i)| + b] == live[i][a..b]
  {
    FlatAt(live, i);
    FlatSplit(live, i);
    assert FlatTo(live, i + 1) == FlatTo(live, i) + live[i];
    var f, k := Flat(live), |FlatTo(live, i)|;
    assert f[k..k + |live[i]|] == live[i];
    assert f[k + a..k + b] == f[k..k + |live[i]|][a..b];
  }

  ghost predicate IsSlice(s: seq<Byte>, from: nat, k: nat, data: seq<Byte>) {
    from <= k <= |s| && data == s[from..k]
  }

  lemma SliceGrow(s: seq<Byte>, from: nat, k: nat, n: nat, data: seq<Byte>, piece: seq<Byte>)
    requires from <= k && k + n <= |s| && data == s[from..k] && piece == s[k..k + n]
    ensures data + piece == s[from..k + n]
  {
  }

  // ---------- walking over the chains ----------

  /** The walk is at chain number i, or behind the last one. */
  ghost predicate WalkAt(buf: EvBuffer, chain: Chain?, i: nat)
    reads buf, chain
  {
    && i <= |buf.chains| == |buf.live| && chain == At(buf.chains, i)
    && (chain != null ==> chain.off == |buf.live[i]|)
  }

  lemma WalkFrom(buf: EvBuffer, i: nat)
    requires buf.Valid() && i <= |buf.chains|
    ensures WalkAt(buf, At(buf.chains, i), i)
  {
    assert i < |buf.chains| ==> HoldsOne(buf.chains[i], buf.live[i]);
  }

  /** chain->next */
  method NextOf(buf: EvBuffer, chain: Chain, ghost i: nat) returns (next: Chain?)
    requires buf.Valid() && WalkAt(buf, chain, i)
    ensures i < |buf.chains| && WalkAt(buf, next, i + 1)
    ensures |FlatTo(buf.live, i + 1)| == |FlatTo(buf.live, i)| + chain.off <= |buf.Contents()|
    ensures next == null ==> |FlatTo(buf.live, i + 1)| == |buf.Contents()|
  {
    assert LinkAt(buf.chains, i);
    next := chain.next;
    WalkFrom(buf, i + 1);
    PartInFlat(buf.live, i, 0, 0);
  }

  lemma PtrInside(buf: EvBuffer, p: Ptr, i: nat)
    requires buf.Valid() && PtrIn(buf, p, i)
    ensures p.pos <= |buf.Contents()| && (p.chain == null ==> p.pos == |buf.Contents()|)
    ensures p.chain != null ==> p.posInChain <= p.chain.off
  {
    FlatToGrows(buf.live, i, |buf.live|);
    WalkFrom(buf, i);
    if i < |buf.live| { PartInFlat(buf.live, i, 0, 0); }
  }

  /** n bytes of a chain, from number pos on. */
  method PieceOf(buf: EvBuffer, chain: Chain, ghost i: nat, pos: nat, n: nat) returns (piece: seq<Byte>)
    requires buf.Valid() && WalkAt(buf, chain, i) && pos + n <= chain.off
    ensures |piece| == n && i < |buf.live| && piece == buf.live[i][pos..pos + n]
  {
    assert HoldsOne(buf.chains[i], buf.live[i]);
    piece := chain.Part(pos, n);
  }

  /** Copy n bytes more from a chain, its bytes from number pos on. */
  method CopyMore(buf: EvBuffer, chain: Chain, ghost i: nat, pos: nat, n: nat, data: seq<Byte>, ghost from: nat,
                  ghost k: nat)
    returns (more: seq<Byte>)
    requires buf.Valid() && WalkAt(buf, chain, i) && pos + n <= chain.off && k == |FlatTo(buf.live, i)| + pos
    requires IsSlice(buf.Contents(), from, k, data)
    ensures IsSlice(buf.Contents(), from, k + n, more)
  {
    var piece := PieceOf(buf, chain, i, pos, n);
    PartInFlat(buf.live, i, pos, pos + n);
    SliceGrow(buf.Contents(), from, k, n, data, piece);
    more := data + piece;
  }

  /** Copy the rest of a chain, from its number pos on, and go on to the next one. */
  method CopyRest(buf: EvBuffer, chain: Chain, ghost i: nat, pos: nat, data: seq<Byte>, ghost from: nat)
    returns (more: seq<Byte>, next: Chain?)
    requires buf.Valid() && WalkAt(buf, chain, i) && pos <= chain.off
    requires IsSlice(buf.Contents(), from, |FlatTo(buf.live, i)| + pos, data)
    ensures i < |buf.chains| && WalkAt(buf, next, i + 1)
    ensures |FlatTo(buf.live, i + 1)| == |FlatTo(buf.live, i)| + chain.off
    ensures IsSlice(buf.Contents(), from, |FlatTo(buf.live, i + 1)|, more)
    ensures next == null ==> |FlatTo(buf.live, i + 1)| == |buf.Contents()|
  {
    more := CopyMore(buf, chain, i, pos, chain.off - pos, data, from, |FlatTo(buf.live, i)| + pos);
    next := NextOf(buf, chain, i);
  }

  /** evbuffer_copyout_from without a position, or with one that was checked: up to datlen bytes from there on. */
  method CopyBytes(buf: EvBuffer, start: Ptr, datlen: nat, ghost i0: nat) returns (data: seq<Byte>)
    requires buf.Valid() && PtrIn(buf, start, i0)
    ensures var n := |buf.Contents()|;
      start.pos <= n && data == buf.Contents()[start.pos..if start.pos + datlen <= n then start.pos + datlen else n]
  {
    ghost var cs, live, all := buf.chains, buf.live, Flat(buf.live);
    PtrInside(buf, start, i0);
    var len: nat := if start.pos + datlen > buf.totalLen then buf.totalLen - start.pos else datlen;
    ghost var from, end: nat := start.pos, start.pos + len;
    data := [];
    if len == 0 {
      return;
    }
    var chain, posInChain: nat := start.chain, start.posInChain;
    ghost var i := i0;
    WalkFrom(buf, i);
    while len > 0 && chain.off - posInChain <= len
      invariant WalkAt(buf, chain, i) && posInChain <= (if chain != null then chain.off else 0)
      invariant end - len == |FlatTo(live, i)| + posInChain
      invariant IsSlice(all, from, end - len, data)
      invariant len > 0 ==> chain != null
      decreases |cs| - i
    {
      len := len - (chain.off - posInChain);
      data, chain := CopyRest(buf, chain, i, posInChain, data, from);
      posInChain := 0;
      i := i + 1;
    }
    if len > 0 {
      data := CopyMore(buf, chain, i, posInChain, len, data, from, end - len);
    }
  }

  /** evbuffer_copyout_from a position: fails if the length does not fit into a signed word with it. */
  method CopyoutFrom(buf: EvBuffer, start: Ptr, datlen: nat, ghost i0: nat) returns (ok: bool, data: seq<Byte>)
    requires buf.Valid() && PtrIn(buf, start, i0) && start.pos <= SSIZE_MAX
    ensures ok <==> start.pos + datlen <= SSIZE_MAX
    ensures var n := |buf.Contents()|;
      && start.pos <= n
      && data == if ok then buf.Contents()[start.pos..if start.pos + datlen <= n then start.pos + datlen else n] else []
  {
    if datlen > SSIZE_MAX - start.pos {
      PtrInside(buf, start, i0);
      return false, [];
    }
    ok := true;
    data := CopyBytes(buf, start, datlen, i0);
  }

  /** evbuffer_remove */
  method Remove(buf: EvBuffer, datlen: nat) returns (data: seq<Byte>)
    requires buf.Valid()
    modifies buf, buf.chains
    ensures buf.Valid() && data + buf.Contents() == old(buf.Contents())
    ensures |data| == if datlen <= |old(buf.Contents())| then datlen else |old(buf.Contents())|
    ensures forall c :: c in buf.chains ==> c in old(buf.chains)
    ensures old(buf.NoGap()) ==> buf.NoGap()
  {
    data := CopyBytes(buf, Ptr(0, buf.first, 0), datlen, 0);
    if |data| > 0 {
      Drain(buf, |data|);
    }
  }

  /** memchr: the index of the first byte b, or the length if there is none. */
  method Memchr(s: seq<Byte>, b: Byte) returns (k: nat)
    ensures k <= |s| && (forall j :: 0 <= j < k ==> s[j] != b) && (k < |s| ==> s[k] == b)
  {
    k := 0;
    while k < |s| && s[k] != b
      invariant k <= |s| && (forall j :: 0 <= j < k ==> s[j] != b)
    {
      k := k + 1;
    }
  }

  /** what stands in s at index k. */
  ghost predicate MatchAt(s: seq<Byte>, what: seq<Byte>, k: int) {
    0 <= k && k + |what| <= |s| && s[k..k + |what|] == what
  }

  /** The first n bytes of what stand in s from index k on. */
  ghost predicate Agree(s: seq<Byte>, what: seq<Byte>, k: nat, n: nat) {
    k + n <= |s| && n <= |what| && forall j {:trigger what[j]} :: 0 <= j < n ==> s[k + j] == what[j]
  }

  lemma AgreeIsMatch(s: seq<Byte>, what: seq<Byte>, k: nat)
    requires k + |what| <= |s|
    ensures MatchAt(s, what, k) <==> Agree(s, what, k, |what|)
  {
    var t := s[k..k + |what|];
    assert forall j {:trigger what[j]} :: 0 <= j < |what| ==> t[j] == s[k + j];
  }

  /** Comparing the bytes of part number i from number a on, which are piece. */
  lemma AgreeStep(live: seq<seq<Byte>>, i: nat, a: nat, piece: seq<Byte>, what: seq<Byte>, k: nat, n: nat)
    requires i < |live| && a + |piece| <= |live[i]| && piece == live[i][a..a + |piece|]
    requires k + |what| <= |Flat(live)| && n + |piece| <= |what| && Agree(Flat(live), what, k, n)
    requires k + n == |FlatTo(live, i)| + a
    ensures Agree(Flat(live), what, k, n + |piece|) <==> piece == what[n..n + |piece|]
  {
    PartInFlat(live, i, a, a + |piece|);
    var s, w := Flat(live), what[n..n + |piece|];
    assert forall j {:trigger what[j]} :: n <= j < n + |piece| ==> what[j] == w[j - n] && s[k + j] == piece[j - n];
    assert forall j {:trigger w[j]} :: 0 <= j < |piece| ==> w[j] == what[n + j];
  }

  /** memcmp: zero for equal bytes, or the sign of the first difference, which is number k. */
  method Memcmp(a: seq<Byte>, b: seq<Byte>) returns (r: int, ghost k: nat)
    requires |a| == |b|
    ensures r == 0 <==> a == b
    ensures r != 0 ==> k < |a| && a[..k] == b[..k] && a[k] != b[k] && (r < 0 <==> a[k] < b[k])
  {
    var i := 0;
    while i < |a|
      invariant i <= |a| && a[..i] == b[..i]
    {
      if a[i] != b[i] {
        var x: int, y: int := a[i], b[i];
        return x - y, i;
      }
      i := i + 1;
    }
    assert a[..i] == a && b[..i] == b;
    r, k := 0, 0;
  }

  /** s and what differ first in byte number k of what, and r is the sign of the difference. */
  ghost predicate DiffersAt(s: seq<Byte>, what: seq<Byte>, from: nat, k: nat, r: int) {
    && k < |what| && from + k < |s| && Agree(s, what, from, k)
    && s[from + k] != what[k] && (r < 0 <==> s[from + k] < what[k])
  }

  lemma FirstDiffers(s: seq<Byte>, what: seq<Byte>, from: nat, n: nat, piece: seq<Byte>, k: nat)
    requires Agree(s, what, from, n) && n + |piece| <= |what| && from + n + |piece| <= |s|
    requires piece == s[from + n..from + n + |piece|] && k < |piece| && piece[..k] == what[n..n + |piece|][..k]
    ensures Agree(s, what, from, n + k) && s[from + n + k] == piece[k] && what[n + k] == what[n..n + |piece|][k]
  {
    forall j {:trigger what[j]} | 0 <= j < n + k ensures s[from + j] == what[j] {
      if n <= j { assert piece[j - n] == piece[..k][j - n] == what[n..n + |piece|][..k][j - n]; }
    }
  }

  /** One round of evbuffer_ptr_memcmp: compare n bytes of a chain. */
  method ComparePiece(buf: EvBuffer, chain: Chain, ghost i: nat, position: nat, n: nat, what: seq<Byte>, done: nat,
                      ghost from: nat) returns (r: int, ghost k: nat)
    requires buf.Valid() && WalkAt(buf, chain, i) && position + n <= chain.off && done + n <= |what|
    requires Agree(buf.Contents(), what, from, done) && from + done == |FlatTo(buf.live, i)| + position
    requires from + |what| <= |buf.Contents()|
    ensures r == 0 ==> Agree(buf.Contents(), what, from, done + n)
    ensures r != 0 ==> DiffersAt(buf.Contents(), what, from, k, r)
  {
    var piece := PieceOf(buf, chain, i, position, n);
    AgreeStep(buf.live, i, position, piece, what, from, done);
    PartInFlat(buf.live, i, position, position + n);
    r, k := Memcmp(piece, what[done..done + n]);
    if r != 0 {
      FirstDiffers(buf.Contents(), what, from, done, piece, k);
      k := done + k;
    }
  }

  /** evbuffer_ptr_memcmp: zero if the bytes stand at the position, -1 if there are too few, or the sign of the first
      difference. */
  method PtrMemcmp(buf: EvBuffer, p: Ptr, what: seq<Byte>, ghost i0: nat) returns (r: int, ghost k: nat)
    requires buf.Valid() && PtrIn(buf, p, i0)
    ensures r == 0 <==> MatchAt(buf.Contents(), what, p.pos)
    ensures p.pos + |what| > |buf.Contents()| ==> r == -1
    ensures p.pos + |what| <= |buf.Contents()| && r != 0 ==> DiffersAt(buf.Contents(), what, p.pos, k, r)
  {
    ghost var cs, live, all, from: nat := buf.chains, buf.live, Flat(buf.live), p.pos;
    FlatToGrows(live, i0, |live|);
    r, k := -1, 0;
    if p.pos + |what| > buf.totalLen {
      return;
    }
    AgreeIsMatch(all, what, from);
    var chain, position: nat, done: nat := p.chain, p.posInChain, 0;
    ghost var i := i0;
    WalkFrom(buf, i);
    while done < |what| && chain != null
      invariant WalkAt(buf, chain, i) && position <= (if chain != null then chain.off else 0)
      invariant done <= |what| && Agree(all, what, from, done)
      invariant done < |what| ==> p.pos + done == |FlatTo(live, i)| + position
      decreases |cs| - i
    {
      var n: nat := if |what| - done + position > chain.off then chain.off - position else |what| - done;
      r, k := ComparePiece(buf, chain, i, position, n, what, done, from);
      if r != 0 {
        NoAgreement(all, what, from, k, r);
        return;
      }
      done := done + n;
      position := 0;
      chain := NextOf(buf, chain, i);
      i := i + 1;
    }
    r := 0;
  }

  lemma NoAgreement(s: seq<Byte>, what: seq<Byte>, from: nat, k: nat, r: int)
    requires DiffersAt(s, what, from, k, r)
    ensures !Agree(s, what, from, |what|)
  {
  }

  /** The end of the range of a search. */
  datatype Limit = NoEnd | EndAt(p: Ptr)

  /** what stands at q, and ends within the limit. */
  ghost predicate MatchWithin(s: seq<Byte>, what: seq<Byte>, q: int, end: Limit) {
    MatchAt(s, what, q) && (end.EndAt? ==> q + |what| <= end.p.pos)
  }

  /** No occurrence of what at or after from ends within the limit. */
  ghost predicate NoMatchFrom(s: seq<Byte>, what: seq<Byte>, from: int, end: Limit) {
    forall q {:trigger MatchAt(s, what, q)} :: from <= q ==> !MatchWithin(s, what, q, end)
  }

  /** No occurrence of what starts from index from on, before index to. */
  ghost predicate NoMatchTo(s: seq<Byte>, what: seq<Byte>, from: int, to: int) {
    forall q {:trigger MatchAt(s, what, q)} :: from <= q < to ==> !MatchAt(s, what, q)
  }

  /** Nothing is found from index to on, for want of room before the end or the limit. */
  lemma NoRoom(s: seq<Byte>, what: seq<Byte>, from: int, to: int, end: Limit)
    requires NoMatchTo(s, what, from, to)
    requires to + |what| > |s| || (end.EndAt? && to + |what| > end.p.pos)
    ensures NoMatchFrom(s, what, from, end)
  {
    forall q | from <= q ensures !MatchWithin(s, what, q, end) {
      assert q < to ==> !MatchAt(s, what, q);
    }
  }

  /** No occurrence of what starts among bytes that all differ from its first byte. */
  lemma NoMatchIn(live: seq<seq<Byte>>, i: nat, a: nat, b: nat, what: seq<Byte>)
    requires i < |live| && a <= b <= |live[i]| && |what| > 0
    requires forall j {:trigger live[i][j]} :: a <= j < b ==> live[i][j] != what[0]
    ensures NoMatchTo(Flat(live), what, |FlatTo(live, i)| + a, |FlatTo(live, i)| + b)
  {
    var all, k := Flat(live), |FlatTo(live, i)|;
    forall q | k + a <= q < k + b ensures !MatchAt(all, what, q) {
      PartInFlat(live, i, q - k, q - k + 1);
      assert all[q..q + 1][0] == live[i][q - k..q - k + 1][0];
      assert q + |what| <= |all| ==> all[q..q + |what|][0] == all[q];
    }
  }

  /** Go on by n bytes of a chain, and to the next chain if these are its last. */
  method PassBytes(buf: EvBuffer, pos: Ptr, n: nat, ghost i: nat) returns (next: Ptr, ghost j: nat)
    requires buf.Valid() && PtrIn(buf, pos, i) && i < |buf.chains| && pos.posInChain + n <= |buf.live[i]|
    ensures PtrIn(buf, next, j) && next.pos == pos.pos + n
    ensures if pos.posInChain + n == |buf.live[i]| then j == i + 1 else j == i && next.posInChain == pos.posInChain + n
  {
    WalkFrom(buf, i);
    next, j := Ptr(pos.pos + n, pos.chain, pos.posInChain + n), i;
    var chain := NextOf(buf, pos.chain, i);
    if next.posInChain == next.chain.off {
      next, j := Ptr(next.pos, chain, 0), i + 1;
    }
  }

  /** pos is the first occurrence at or after from if that ends within the limit; otherwise there is none that does. */
  ghost predicate IsFirst(buf: EvBuffer, what: seq<Byte>, from: int, end: Limit, pos: Ptr, i: nat)
    reads buf
  {
    if pos == NotFound then NoMatchFrom(buf.Contents(), what, from, end)
    else
      && PtrIn(buf, pos, i) && from <= pos.pos && MatchWithin(buf.Contents(), what, pos.pos, end)
      && i < |buf.chains| && pos.posInChain < |buf.live[i]|
      && NoMatchTo(buf.Contents(), what, from, pos.pos)
  }

  /** evbuffer_search_range: the first occurrence of what at or after start, if it ends within the limit. */
  method SearchRange(buf: EvBuffer, what: seq<Byte>, start: Ptr, end: Limit, ghost i0: nat)
    returns (pos: Ptr, ghost i: nat)
    requires buf.Valid() && PtrIn(buf, start, i0) && (end.EndAt? ==> PtrOk(buf, end.p))
    ensures |what| == 0 || |what| > SSIZE_MAX ==> pos == start && i == i0
    ensures 0 < |what| <= SSIZE_MAX ==> IsFirst(buf, what, start.pos, end, pos, i)
  {
    pos, i := start, i0;
    if |what| == 0 || |what| > SSIZE_MAX {
      return;
    }
    ghost var cs, all := buf.chains, Flat(buf.live);
    ghost var e: nat := |cs|;
    if end.EndAt? { e :| PtrIn(buf, end.p, e); }
    var lastChain: Chain? := if end.EndAt? then end.p.chain else null;
    var stop := false;
    while pos.chain != null && !stop
      invariant if stop then IsFirst(buf, what, start.pos, end, pos, i) else PtrIn(buf, pos, i) && start.pos <= pos.pos
      invariant !stop ==> NoMatchTo(all, what, start.pos, pos.pos)
      decreases !stop, |cs| - i, RestOf(buf, pos, i)
    {
      stop, pos, i := SearchRound(buf, what, pos, end, lastChain, i, e, start.pos);
    }
    if !stop {
      assert pos.pos == |all|;
      NoRoom(all, what, start.pos, pos.pos, end);
      pos := NotFound;
    }
  }

  /** The bytes of its chain from a position on. */
  ghost function RestOf(buf: EvBuffer, pos: Ptr, i: nat): int
    reads buf
  {
    if i < |buf.live| then |buf.live[i]| - pos.posInChain else 0
  }

  /** One round of the loop of evbuffer_search_range. */
  method SearchRound(buf: EvBuffer, what: seq<Byte>, pos: Ptr, end: Limit, lastChain: Chain?, ghost i: nat,
                     ghost e: nat, ghost from: int)
    returns (stop: bool, next: Ptr, ghost j: nat)
    requires buf.Valid() && PtrIn(buf, pos, i) && i < |buf.chains| && |what| > 0 && from <= pos.pos
    requires NoMatchTo(buf.Contents(), what, from, pos.pos)
    requires if end.EndAt? then PtrIn(buf, end.p, e) && lastChain == end.p.chain else lastChain == null
    ensures stop ==> IsFirst(buf, what, from, end, next, j)
    ensures !stop ==> PtrIn(buf, next, j) && pos.pos <= next.pos && NoMatchTo(buf.Contents(), what, from, next.pos)
    ensures !stop ==> i < j || (i == j && pos.posInChain < next.posInChain)
  {
    var k, found, done := SearchChain(buf, what, pos, i);
    ghost var all, p := buf.Contents(), pos.pos;
    assert NoMatchTo(all, what, from, p + k);
    stop, next, j := true, NotFound, i;
    if found && done {
      if !(end.EndAt? && pos.pos + k + |what| > end.p.pos) {
        next := Ptr(pos.pos + k, pos.chain, pos.posInChain + k);
      } else {
        NoRoom(all, what, from, p + k, end);
      }
    } else if found {
      assert NoMatchTo(all, what, from, p + k + 1);
      stop := false;
      next, j := PassBytes(buf, pos, k + 1, i);
    } else if pos.chain == lastChain {
      if i != e { OtherChain(buf.chains, i, e); }
      PartInFlat(buf.live, i, 0, 0);
      NoRoom(all, what, from, p + k, end);
    } else {
      stop := false;
      next, j := PassBytes(buf, pos, k, i);
    }
  }

  /** Find the first byte of what in the rest of one chain, and compare. */
  method SearchChain(buf: EvBuffer, what: seq<Byte>, pos: Ptr, ghost i: nat) returns (k: nat, found: bool, done: bool)
    requires buf.Valid() && PtrIn(buf, pos, i) && i < |buf.chains| && |what| > 0
    ensures pos.posInChain + k <= |buf.live[i]| && (found <==> pos.posInChain + k < |buf.live[i]|)
    ensures NoMatchTo(buf.Contents(), what, pos.pos, pos.pos + k)
    ensures found ==> (done <==> MatchAt(buf.Contents(), what, pos.pos + k))
  {
    WalkFrom(buf, i);
    ghost var a := pos.posInChain;
    var rest := PieceOf(buf, pos.chain, i, pos.posInChain, pos.chain.off - pos.posInChain);
    k := Memchr(rest, what[0]);
    forall j | a <= j < a + k ensures buf.live[i][j] != what[0] {
      assert rest[j - a] == buf.live[i][j];
    }
    NoMatchIn(buf.live, i, a, a + k, what);
    found, done := k < |rest|, false;
    if found {
      var r, _ := PtrMemcmp(buf, Ptr(pos.pos + k, pos.chain, pos.posInChain + k), what, i);
      done := r == 0;
    }
  }
}
