/** Finding ends of lines in an evbuffer, and reading lines. */
module EvBufferLines {
  import opened ByteSeqs
  import opened EvBuffers
  import opened EvBufferFront
  import opened EvBufferRead

  const CR: Byte := 13
  const LF: Byte := 10
  const NUL: Byte := 0
  const CHUNK_SZ: nat := 128

  datatype EolStyle = EolAny | EolCrlf | EolCrlfStrict | EolLf | EolNul

  /** What a walk over the bytes looks for. */
  datatype Wanted = OneByte(b: Byte) | CrOrLf

  predicate Is(b: Byte, w: Wanted) {
    match w
    case OneByte(c) => b == c
    case CrOrLf => b == CR || b == LF
  }

  ghost predicate NoneIn(s: seq<Byte>, from: int, to: int, w: Wanted) {
    forall q {:trigger s[q]} :: 0 <= from <= q < to && q < |s| ==> !Is(s[q], w)
  }

  /** find_eol_char: the index of the first CR or LF, or the length; looks at 128 bytes at a time. */
  method FindEolChar(s: seq<Byte>) returns (k: nat)
    ensures k <= |s| && NoneIn(s, 0, k, CrOrLf) && (k < |s| ==> Is(s[k], CrOrLf))
  {
    var at := 0;
    while at < |s|
      invariant NoneIn(s, 0, at, CrOrLf)
    {
      var chunk := if at + CHUNK_SZ < |s| then CHUNK_SZ else |s| - at;
      var part := s[at..at + chunk];
      var cr := Memchr(part, CR);
      var lf := Memchr(part, LF);
      assert forall q {:trigger s[q]} :: at <= q < at + chunk ==> s[q] == part[q - at];
      if cr < chunk {
        return at + if lf < chunk && lf < cr then lf else cr;
      } else if lf < chunk {
        return at + lf;
      }
      at := at + CHUNK_SZ;
    }
    k := |s|;
  }

  method FindInPart(s: seq<Byte>, w: Wanted) returns (k: nat)
    ensures k <= |s| && NoneIn(s, 0, k, w) && (k < |s| ==> Is(s[k], w))
  {
    match w
    case OneByte(b) => k := Memchr(s, b);
    case CrOrLf => k := FindEolChar(s);
  }

  lemma SliceIs(s: seq<Byte>, at: nat, part: seq<Byte>)
    requires at + |part| <= |s| && s[at..at + |part|] == part
    ensures forall q {:trigger s[q]} :: at <= q < at + |part| ==> s[q] == part[q - at]
  {
    assert forall q {:trigger s[q]} :: at <= q < at + |part| ==> s[q] == s[at..at + |part|][q - at];
  }

  lemma NoneInPart(live: seq<seq<Byte>>, i: nat, a: nat, part: seq<Byte>, k: nat, from: int, w: Wanted)
    requires i < |live| && a <= |live[i]| && part == live[i][a..] && k <= |part| && NoneIn(part, 0, k, w)
    requires 0 <= from <= |FlatTo(live, i)| + a && NoneIn(Flat(live), from, |FlatTo(live, i)| + a, w)
    ensures |FlatTo(live, i)| + a + k <= |Flat(live)| && NoneIn(Flat(live), from, |FlatTo(live, i)| + a + k, w)
    ensures k < |part| ==> |FlatTo(live, i)| + a + k < |Flat(live)| && Flat(live)[|FlatTo(live, i)| + a + k] == part[k]
  {
    PartInFlat(live, i, a, |live[i]|);
    SliceIs(Flat(live), |FlatTo(live, i)| + a, part);
  }

  /** evbuffer_strchr and evbuffer_find_eol_char: the first wanted byte from the position on. */
  method FindByte(buf: EvBuffer, start: Ptr, w: Wanted, ghost i0: nat) returns (found: bool, it: Ptr, ghost i: nat)
    requires buf.Valid() && PtrIn(buf, start, i0)
    ensures !found ==> NoneIn(buf.Contents(), start.pos, |buf.Contents()|, w)
    ensures found ==>
              && PtrIn(buf, it, i) && i < |buf.chains| && it.posInChain < |buf.live[i]|
                 && start.pos <= it.pos < |buf.Contents()|
              && NoneIn(buf.Contents(), start.pos, it.pos, w) && Is(buf.Contents()[it.pos], w)
  {
    ghost var cs, live, all := buf.chains, buf.live, Flat(buf.live);
    it, i, found := start, i0, false;
    var chain := it.chain;
    WalkFrom(buf, i);
    while chain != null
      invariant PtrIn(buf, it, i) && chain == it.chain && WalkAt(buf, chain, i)
      invariant start.pos <= it.pos && NoneIn(all, start.pos, it.pos, w)
      decreases |cs| - i
    {
      var part := PieceOf(buf, chain, i, it.posInChain, chain.off - it.posInChain);
      var k := FindInPart(part, w);
      NoneInPart(live, i, it.posInChain, part, k, start.pos, w);
      if k < |part| {
        it := Ptr(it.pos + k, chain, it.posInChain + k);
        found := true;
        return;
      }
      chain := NextOf(buf, chain, i);
      it := Ptr(it.pos + k, chain, 0);
      i := i + 1;
    }
  }

  /** The bytes of s from index from to index to are all wanted ones. */
  ghost predicate AllIn(s: seq<Byte>, from: int, to: int, w: Wanted) {
    forall q {:trigger s[q]} :: 0 <= from <= q < to && q < |s| ==> Is(s[q], w)
  }

  /** evbuffer_strspn with CR and LF: how many of them stand at the position? */
  method SpanEol(buf: EvBuffer, p: Ptr, ghost i0: nat) returns (count: nat)
    requires buf.Valid() && PtrIn(buf, p, i0)
    ensures var n := |buf.Contents()|;
      && p.pos + count <= n && AllIn(buf.Contents(), p.pos, p.pos + count, CrOrLf)
      && (p.pos + count < n ==> !Is(buf.Contents()[p.pos + count], CrOrLf))
  {
    ghost var cs, live, all := buf.chains, buf.live, Flat(buf.live);
    count := 0;
    var chain, k: nat := p.chain, p.posInChain;
    ghost var i := i0;
    WalkFrom(buf, i);
    if i < |live| { PartInFlat(live, i, 0, 0); }
    while chain != null
      invariant WalkAt(buf, chain, i) && k <= (if chain != null then chain.off else 0)
      invariant p.pos + count == |FlatTo(live, i)| + k <= |all| && AllIn(all, p.pos, p.pos + count, CrOrLf)
      decreases |cs| - i
    {
      var part := PieceOf(buf, chain, i, k, chain.off - k);
      var n := SpanPart(part);
      AllInPart(live, i, k, part, n, p.pos, CrOrLf);
      count := count + n;
      if n < |part| {
        return;
      }
      chain := NextOf(buf, chain, i);
      k := 0;
      i := i + 1;
    }
  }

  method SpanPart(s: seq<Byte>) returns (k: nat)
    ensures k <= |s| && AllIn(s, 0, k, CrOrLf) && (k < |s| ==> !Is(s[k], CrOrLf))
  {
    k := 0;
    while k < |s| && (s[k] == CR || s[k] == LF)
      invariant k <= |s| && AllIn(s, 0, k, CrOrLf)
    {
      k := k + 1;
    }
  }

  lemma AllInPart(live: seq<seq<Byte>>, i: nat, a: nat, part: seq<Byte>, k: nat, from: int, w: Wanted)
    requires i < |live| && a <= |live[i]| && part == live[i][a..] && k <= |part| && AllIn(part, 0, k, w)
    requires 0 <= from <= |FlatTo(live, i)| + a && AllIn(Flat(live), from, |FlatTo(live, i)| + a, w)
    ensures |FlatTo(live, i)| + a + k <= |Flat(live)| && AllIn(Flat(live), from, |FlatTo(live, i)| + a + k, w)
    ensures k < |part| ==> |FlatTo(live, i)| + a + k < |Flat(live)| && Flat(live)[|FlatTo(live, i)| + a + k] == part[k]
  {
    PartInFlat(live, i, a, |live[i]|);
    SliceIs(Flat(live), |FlatTo(live, i)| + a, part);
  }

  datatype How = Set | Add

  /** The position that evbuffer_ptr_set is asked for. */
  function Target(p: Ptr, position: nat, how: How): int {
    if how.Set? then position else p.pos + position
  }

  /** evbuffer_ptr_set: set p to a position, or move it on. */
  method PtrSet(buf: EvBuffer, p: Ptr, position: nat, how: How, ghost i0: nat) returns (ok: bool, q: Ptr, ghost i: nat)
    requires buf.Valid() && position <= SIZE_MAX && (how.Add? && 0 <= p.pos ==> PtrIn(buf, p, i0))
    ensures ok <==> match how
                    case Set => position <= |buf.Contents()|
                    case Add => 0 <= p.pos && p.pos + position <= |buf.Contents()|
    ensures ok ==> PtrIn(buf, q, i) && q.pos == match how case Set => position case Add => p.pos + position
    ensures ok && q.pos < |buf.Contents()| ==> i < |buf.chains| && q.posInChain < |buf.live[i]|
    ensures ok && q.pos == |buf.Contents()| ==> q == Ptr(q.pos, null, 0)
    ensures !ok ==> q == if how.Add? && (p.pos < 0 || SIZE_MAX < p.pos + position) then p else NotFound
  {
    if how.Add? && (p.pos < 0 || SIZE_MAX - position < p.pos) {
      return false, p, 0;
    }
    ghost var cs, live := buf.chains, buf.live;
    var chain, left: nat, inChain: nat := buf.first, position, 0;
    i := 0;
    if how.Add? {
      chain, inChain := p.chain, p.posInChain;
      i := i0;
    }
    WalkFrom(buf, i);
    while chain != null && inChain + left >= chain.off
      invariant WalkAt(buf, chain, i) && inChain <= (if chain != null then chain.off else 0)
      invariant Target(p, position, how) == |FlatTo(live, i)| + inChain + left
      decreases |cs| - i
    {
      left := left - (chain.off - inChain);
      chain := NextOf(buf, chain, i);
      inChain := 0;
      i := i + 1;
    }
    if chain != null {
      PartInFlat(live, i, 0, 0);
      return true, Ptr(Target(p, position, how), chain, inChain + left), i;
    } else if left == 0 {
      return true, Ptr(Target(p, position, how), null, 0), i;
    } else {
      return false, NotFound, i;
    }
  }

  /** evbuffer_ptr_subtract */
  method PtrSubtract(buf: EvBuffer, p: Ptr, howfar: nat, ghost i0: nat) returns (ok: bool, q: Ptr, ghost i: nat)
    requires buf.Valid() && (0 <= p.pos ==> PtrIn(buf, p, i0))
    ensures ok <==> howfar <= p.pos
    ensures if ok then PtrIn(buf, q, i) && q.pos == p.pos - howfar else q == p
    ensures ok && 0 < howfar ==> i < |buf.chains| && q.posInChain < |buf.live[i]|
  {
    if p.pos < 0 || howfar > p.pos {
      return false, p, i0;
    }
    FlatToGrows(buf.live, i0, |buf.live|);
    if i0 < |buf.live| { PartInFlat(buf.live, i0, 0, 0); }
    if p.chain != null && howfar <= p.posInChain {
      return true, Ptr(p.pos - howfar, p.chain, p.posInChain - howfar), i0;
    }
    ok, q, i := PtrSet(buf, p, p.pos - howfar, Set, i0);
  }

  /** evbuffer_getchr */
  method GetChr(buf: EvBuffer, p: Ptr, ghost i: nat) returns (b: Byte)
    requires buf.Valid() && PtrIn(buf, p, i) && i < |buf.chains| && p.posInChain < |buf.live[i]|
    ensures p.pos < |buf.Contents()| && b == buf.Contents()[p.pos]
  {
    assert HoldsOne(buf.chains[i], buf.live[i]);
    PartInFlat(buf.live, i, p.posInChain, p.posInChain + 1);
    var part := p.chain.Part(p.posInChain, 1);
    b := part[0];
    assert buf.Contents()[p.pos..p.pos + 1][0] == b;
  }

  const CRLF: seq<Byte> := [CR, LF]

  /** In s, from index from on, the first end of line of the given style is the n bytes at index p. */
  ghost predicate EolAt(style: EolStyle, s: seq<Byte>, from: int, p: int, n: int) {
    && 0 <= from <= p && 0 < n && p + n <= |s|
    && match style
       case EolLf => n == 1 && s[p] == LF && NoneIn(s, from, p, OneByte(LF))
       case EolNul => n == 1 && s[p] == NUL && NoneIn(s, from, p, OneByte(NUL))
       case EolCrlfStrict => n == 2 && MatchAt(s, CRLF, p) && NoMatchTo(s, CRLF, from, p)
       case EolCrlf =>
         && s[p + n - 1] == LF && NoneIn(s, from, p + n - 1, OneByte(LF))
         && (n == 1 || (n == 2 && s[p] == CR))
         && (n == 1 && from < p ==> s[p - 1] != CR)
       case EolAny =>
         && AllIn(s, p, p + n, CrOrLf) && NoneIn(s, from, p, CrOrLf)
         && (p + n < |s| ==> !Is(s[p + n], CrOrLf))
  }

  ghost predicate NoEol(style: EolStyle, s: seq<Byte>, from: int) {
    match style
    case EolLf => NoneIn(s, from, |s|, OneByte(LF))
    case EolNul => NoneIn(s, from, |s|, OneByte(NUL))
    case EolCrlfStrict => NoMatchFrom(s, CRLF, from, NoEnd)
    case EolCrlf => NoneIn(s, from, |s|, OneByte(LF))
    case EolAny => NoneIn(s, from, |s|, CrOrLf)
  }

  /** evbuffer_search_eol */
  method SearchEol(buf: EvBuffer, start: Ptr, style: EolStyle, ghost i0: nat)
    returns (it: Ptr, eolLen: nat, ghost i: nat)
    requires buf.Valid() && PtrIn(buf, start, i0)
    ensures it == NotFound ==> NoEol(style, buf.Contents(), start.pos)
    ensures it != NotFound ==> EolAt(style, buf.Contents(), start.pos, it.pos, eolLen)
    ensures it != NotFound ==> PtrIn(buf, it, i) && i < |buf.chains| && it.posInChain < |buf.live[i]|
  {
    eolLen := 0;
    var found;
    match style {
      case EolAny =>
        found, it, i := FindByte(buf, start, CrOrLf, i0);
        if found {
          eolLen := SpanEol(buf, it, i);
        }
      case EolCrlfStrict =>
        it, i := SearchRange(buf, CRLF, start, NoEnd, i0);
        eolLen := 2;
        return;
      case EolCrlf =>
        found, it, i := FindByte(buf, start, OneByte(LF), i0);
        if found {
          it, eolLen, i := PrecedingCr(buf, it, start.pos, i);
        }
      case EolLf =>
        found, it, i := FindByte(buf, start, OneByte(LF), i0);
        eolLen := 1;
      case EolNul =>
        found, it, i := FindByte(buf, start, OneByte(NUL), i0);
        eolLen := 1;
    }
    if !found {
      it := NotFound;
    }
  }

  /** The line feed at it, or the carriage return before it. */
  method PrecedingCr(buf: EvBuffer, it: Ptr, startPos: int, ghost i: nat) returns (p: Ptr, n: nat, ghost k: nat)
    requires buf.Valid() && PtrIn(buf, it, i) && i < |buf.chains| && 0 <= startPos <= it.pos < |buf.Contents()|
    requires it.posInChain < |buf.live[i]|
    ensures PtrIn(buf, p, k) && k < |buf.chains| && p.posInChain < |buf.live[k]|
    ensures n == 1 || n == 2
    ensures p.pos + n == it.pos + 1
    ensures n == 2 <==> startPos < it.pos && buf.Contents()[it.pos - 1] == CR
  {
    if it.pos == startPos {
      return it, 1, i;
    }
    var ok, it2;
    ok, it2, k := PtrSubtract(buf, it, 1, i);
    var b := GetChr(buf, it2, k);
    if b == CR {
      return it2, 2, k;
    }
    return it, 1, i;
  }

  /** Take n bytes out, and drop the m bytes after them. */
  method RemoveAndDrop(buf: EvBuffer, n: nat, m: nat) returns (data: seq<Byte>)
    requires buf.Valid() && n + m <= |buf.Contents()|
    modifies buf, buf.chains
    ensures buf.Valid() && (forall c :: c in buf.chains ==> c in old(buf.chains))
    ensures data == old(buf.Contents())[..n] && buf.Contents() == old(buf.Contents())[n + m..]
    ensures old(buf.NoGap()) ==> buf.NoGap()
  {
    ghost var s, cs := buf.Contents(), buf.chains;
    data := Remove(buf, n);
    SplitTwice(s, data, buf.Contents(), n, m);
    forall j | 0 <= j < |buf.chains| ensures buf.chains[j] in cs {
      assert buf.chains[j] in buf.chains;
    }
    Drain(buf, m);
  }

  lemma SplitTwice(s: seq<Byte>, data: seq<Byte>, rest: seq<Byte>, n: nat, m: nat)
    requires data + rest == s && |data| == n && n + m <= |s|
    ensures data == s[..n] && rest[m..] == s[n + m..]
  {
  }

  /** evbuffer_readln: the first line, without its end, which is n bytes long; or nothing, if no line
      has ended. */
  method Readln(buf: EvBuffer, style: EolStyle) returns (found: bool, line: seq<Byte>, ghost n: nat)
    requires buf.Valid()
    modifies buf, buf.chains
    ensures buf.Valid() && (forall c :: c in buf.chains ==> c in old(buf.chains))
    ensures !found ==> line == [] && buf.Contents() == old(buf.Contents()) && NoEol(style, buf.Contents(), 0)
    ensures found ==> EolAt(style, old(buf.Contents()), 0, |line|, n)
    ensures found ==> line == old(buf.Contents())[..|line|] && buf.Contents() == old(buf.Contents())[|line| + n..]
    ensures old(buf.NoGap()) ==> buf.NoGap()
  {
    var it, eolLen, _ := SearchEol(buf, Ptr(0, buf.first, 0), style, 0);
    n := eolLen;
    if it == NotFound {
      return false, [], n;
    }
    line := RemoveAndDrop(buf, it.pos, eolLen);
    found := true;
  }
}
