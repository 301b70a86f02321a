/** Domain names in DNS messages (RFC 1035, sections 3.1 and 4.1.4). */
module DnsNames {
  import opened ByteSeqs

  const DOT: Byte := 46

  type Label = seq<Byte>

  datatype Option<T> = None | Some(value: T)

  /** The target of a compression pointer with the given two bytes. */
  function Target(high: Byte, low: Byte): nat {
    (high % 64) * 256 + low
  }

  /** The labels of the name at offset off of message p, following at most hops pointers. */
  ghost function Decode(p: seq<Byte>, off: nat, hops: nat): Option<seq<Label>>
    decreases hops, if off < |p| then |p| - off else 0
  {
    if off >= |p| then None
    else if p[off] == 0 then Some([])
    else if p[off] >= 64 then
      if off + 1 >= |p| || hops == 0 || Target(p[off], p[off + 1]) >= |p| then None
      else Decode(p, Target(p[off], p[off + 1]), hops - 1)
    else
      var next := off + 1 + p[off];
      if next > |p| || Decode(p, next, hops).None? then None
      else Some([p[off + 1..next]] + Decode(p, next, hops).value)
  }

  /** The offset after the bytes that the name at offset off takes up in place. */
  ghost function NameEnd(p: seq<Byte>, off: nat): nat
    decreases if off < |p| then |p| - off else 0
  {
    if off >= |p| then off
    else if p[off] == 0 then off + 1
    else if p[off] >= 64 then off + 2
    else NameEnd(p, off + 1 + p[off])
  }

  /** The dotted form of a list of labels. */
  ghost function Join(labels: seq<Label>): (r: seq<Byte>) {
    if |labels| == 0 then []
    else if |labels| == 1 then labels[0]
    else Join(labels[..|labels| - 1]) + [DOT] + labels[|labels| - 1]
  }

  lemma JoinSnoc(labels: seq<Label>, l: Label)
    ensures Join(labels + [l]) == if labels == [] then l else Join(labels) + [DOT] + l
  {
    var t := labels + [l];
    assert t[..|t| - 1] == labels;
  }

  /** A list of labels has a dotted form no shorter than that of a prefix of it. */
  lemma {:induction false} JoinGrows(a: seq<Label>, b: seq<Label>)
    ensures |Join(a)| <= |Join(a + b)|
  {
    if b == [] {
      assert a + b == a;
    } else {
      var c := b[..|b| - 1];
      JoinGrows(a, c);
      JoinSnoc(a + c, b[|b| - 1]);
      assert a + b == (a + c) + [b[|b| - 1]];
    }
  }

  /** If the rest of a name has labels, then so has the whole. */
  ghost function Prepend(done: seq<Label>, rest: Option<seq<Label>>): Option<seq<Label>> {
    if rest.None? then None else Some(done + rest.value)
  }

  /** Decode, with the labels met before. */
  ghost function DecodeAfter(done: seq<Label>, p: seq<Byte>, off: nat, hops: nat): Option<seq<Label>>
    decreases hops, if off < |p| then |p| - off else 0
  {
    if off >= |p| then None
    else if p[off] == 0 then Some(done)
    else if p[off] >= 64 then
      if off + 1 >= |p| || hops == 0 || Target(p[off], p[off + 1]) >= |p| then None
      else DecodeAfter(done, p, Target(p[off], p[off + 1]), hops - 1)
    else
      var next := off + 1 + p[off];
      if next > |p| then None else DecodeAfter(done + [p[off + 1..next]], p, next, hops)
  }

  lemma {:induction false} DecodeAfterIs(done: seq<Label>, p: seq<Byte>, off: nat, hops: nat)
    ensures DecodeAfter(done, p, off, hops) == Prepend(done, Decode(p, off, hops))
    decreases hops, if off < |p| then |p| - off else 0
  {
    if off < |p| {
      if p[off] == 0 {
        assert done + [] == done;
      } else if p[off] >= 64 {
        if off + 1 < |p| && hops > 0 && Target(p[off], p[off + 1]) < |p| {
          DecodeAfterIs(done, p, Target(p[off], p[off + 1]), hops - 1);
        }
      } else if off + 1 + p[off] <= |p| {
        var l, next := p[off + 1..off + 1 + p[off]], off + 1 + p[off];
        DecodeAfterIs(done + [l], p, next, hops);
        if Decode(p, next, hops).Some? {
          var rest := Decode(p, next, hops).value;
          assert done + ([l] + rest) == (done + [l]) + rest;
        }
      }
    }
  }

  /** A name is no shorter than what was met of it. */
  lemma AfterGrows(done: seq<Label>, p: seq<Byte>, off: nat, hops: nat)
    ensures DecodeAfter(done, p, off, hops).Some? ==> |Join(done)| <= |Join(DecodeAfter(done, p, off, hops).value)|
  {
    DecodeAfterIs(done, p, off, hops);
    if Decode(p, off, hops).Some? {
      JoinGrows(done, Decode(p, off, hops).value);
    }
  }

  /** Where name_parse is: it has met the labels done, and is at offset j with hops pointers left to follow. */
  ghost predicate Reading(p: seq<Byte>, idx: nat, outLen: nat, done: seq<Label>, name: seq<Byte>,
                          j: nat, nameEnd: int, hops: nat) {
    && DecodeAfter(done, p, j, hops) == Decode(p, idx, |p|)
    && name == Join(done) && (name == [] <==> done == []) && (done != [] ==> |name| < outLen)
    && (if nameEnd < 0 then NameEnd(p, idx) == NameEnd(p, j) && idx <= j
        else nameEnd == NameEnd(p, idx) && idx < nameEnd <= |p|)
  }

  /** There is no name to be read at offset j. */
  predicate Broken(p: seq<Byte>, j: nat, hops: nat) {
    || j >= |p|
    || (p[j] >= 64 && (j + 1 >= |p| || hops == 0 || Target(p[j], p[j + 1]) >= |p|))
    || (0 < p[j] < 64 && j + 1 + p[j] > |p|)
  }

  lemma ReadingBegins(p: seq<Byte>, idx: nat, outLen: nat)
    ensures Reading(p, idx, outLen, [], [], idx, -1, |p|)
  {
    DecodeAfterIs([], p, idx, |p|);
    var d := Decode(p, idx, |p|);
    if d.Some? { assert [] + d.value == d.value; }
  }

  lemma ReadingBreaks(p: seq<Byte>, idx: nat, outLen: nat, done: seq<Label>, name: seq<Byte>, j: nat, nameEnd: int,
                      hops: nat)
    requires Reading(p, idx, outLen, done, name, j, nameEnd, hops) && Broken(p, j, hops)
    ensures Decode(p, idx, |p|).None?
  {
  }

  lemma ReadingJumps(p: seq<Byte>, idx: nat, outLen: nat, done: seq<Label>, name: seq<Byte>, j: nat, nameEnd: int,
                     hops: nat)
    requires Reading(p, idx, outLen, done, name, j, nameEnd, hops) && !Broken(p, j, hops) && p[j] >= 64
    ensures Reading(p, idx, outLen, done, name, Target(p[j], p[j + 1]),
                    if nameEnd < 0 then j + 2 else nameEnd, hops - 1)
  {
  }

  lemma ReadingGrows(p: seq<Byte>, idx: nat, outLen: nat, done: seq<Label>, name: seq<Byte>, j: nat, nameEnd: int,
                     hops: nat)
    requires Reading(p, idx, outLen, done, name, j, nameEnd, hops) && !Broken(p, j, hops) && 0 < p[j] < 64
    ensures var next := j + 1 + p[j];
      var more := done + [p[j + 1..next]];
      if |Join(more)| >= outLen then
        Decode(p, idx, |p|).Some? ==> |Join(Decode(p, idx, |p|).value)| >= outLen
      else Join(more) != [] ==> Reading(p, idx, outLen, more, Join(more), next, nameEnd, hops)
  {
    var next := j + 1 + p[j];
    AfterGrows(done + [p[j + 1..next]], p, next, hops);
  }

  lemma ReadingEnds(p: seq<Byte>, idx: nat, outLen: nat, done: seq<Label>, name: seq<Byte>, j: nat, nameEnd: int,
                    hops: nat)
    requires Reading(p, idx, outLen, done, name, j, nameEnd, hops) && j < |p| && p[j] == 0
    ensures Decode(p, idx, |p|) == Some(done) && name == Join(done)
    ensures idx < NameEnd(p, idx) == (if nameEnd < 0 then j + 1 else nameEnd) <= |p|
  {
  }

  /** name_parse: the dotted form of the name at offset idx, if it is shorter than outLen. */
  method NameParse(packet: seq<Byte>, idx: nat, outLen: nat) returns (ok: bool, name: seq<Byte>, end: nat)
    ensures ok <==> var d := Decode(packet, idx, |packet|); d.Some? && |Join(d.value)| < outLen
    ensures ok ==> name == Join(Decode(packet, idx, |packet|).value)
    ensures ok ==> end == NameEnd(packet, idx) && idx < end <= |packet|
  {
    ghost var done: seq<Label> := [];
    var nameEnd: int, j: nat, ptrCount: nat := -1, idx, 0;
    name, end, ok := [], idx, false;
    ReadingBegins(packet, idx, outLen);
    while true
      invariant ptrCount <= |packet| && Reading(packet, idx, outLen, done, name, j, nameEnd, |packet| - ptrCount)
      decreases |packet| - ptrCount, if j < |packet| then |packet| - j else 0
    {
      if j >= |packet| {
        ReadingBreaks(packet, idx, outLen, done, name, j, nameEnd, |packet| - ptrCount);
        return;
      }
      if packet[j] == 0 {
        break;
      }
      var going;
      if packet[j] >= 64 {
        going, j, nameEnd, ptrCount := FollowPointer(packet, j, nameEnd, ptrCount, idx, outLen, done, name);
      } else {
        going, name, j, done := CopyLabel(packet, j, name, outLen, idx, done, nameEnd, |packet| - ptrCount);
      }
      if !going {
        return;
      }
    }
    ReadingEnds(packet, idx, outLen, done, name, j, nameEnd, |packet| - ptrCount);
    if |name| >= outLen {
      return;
    }
    ok, end := true, if nameEnd < 0 then j + 1 else nameEnd;
  }

  /** The part of name_parse that follows the pointer at offset at. */
  method FollowPointer(packet: seq<Byte>, at: nat, nameEnd: int, ptrCount: nat,
                       ghost idx: nat, ghost outLen: nat, ghost done: seq<Label>, ghost name: seq<Byte>)
    returns (followed: bool, next: nat, end: int, count: nat)
    requires ptrCount <= |packet| && Reading(packet, idx, outLen, done, name, at, nameEnd, |packet| - ptrCount)
    requires at < |packet| && packet[at] >= 64
    ensures followed ==> count == ptrCount + 1 <= |packet|
    ensures followed ==> Reading(packet, idx, outLen, done, name, next, end, |packet| - count)
    ensures !followed ==> Decode(packet, idx, |packet|).None?
  {
    if Broken(packet, at, |packet| - ptrCount) {
      ReadingBreaks(packet, idx, outLen, done, name, at, nameEnd, |packet| - ptrCount);
    } else {
      ReadingJumps(packet, idx, outLen, done, name, at, nameEnd, |packet| - ptrCount);
    }
    followed, next, end, count := false, at + 1, nameEnd, ptrCount;
    if next >= |packet| {
      return;
    }
    var low: nat := packet[next];
    next := next + 1;
    if end < 0 {
      end := next;
    }
    next := (packet[at] % 64) * 256 + low;
    if next >= |packet| {
      return;
    }
    count := count + 1;
    if count > |packet| {
      return;
    }
    followed := true;
  }

  /** The end of the loop of name_parse: append the label at offset at, after a dot unless it is the first. */
  method CopyLabel(packet: seq<Byte>, at: nat, name: seq<Byte>, outLen: nat,
                   ghost idx: nat, ghost done: seq<Label>, ghost nameEnd: int, ghost hops: nat)
    returns (copied: bool, longer: seq<Byte>, next: nat, ghost more: seq<Label>)
    requires Reading(packet, idx, outLen, done, name, at, nameEnd, hops)
    requires at < |packet| && 0 < packet[at] < 64
    ensures next == at + 1 + packet[at]
    ensures copied ==> Reading(packet, idx, outLen, more, longer, next, nameEnd, hops)
    ensures !copied ==> var d := Decode(packet, idx, |packet|); d.Some? ==> |Join(d.value)| >= outLen
  {
    var labelLen: nat := packet[at];
    copied, longer, next, more := false, name, at + 1 + labelLen, done;
    if next <= |packet| {
      more := done + [packet[at + 1..next]];
      JoinSnoc(done, packet[at + 1..next]);
      ReadingGrows(packet, idx, outLen, done, name, at, nameEnd, hops);
    } else {
      ReadingBreaks(packet, idx, outLen, done, name, at, nameEnd, hops);
    }
    if longer != [] {
      if |longer| + 1 >= outLen {
        return;
      }
      longer := longer + [DOT];
    }
    if |longer| + labelLen >= outLen || next > |packet| {
      return;
    }
    copied, longer := true, longer + packet[at + 1..next];
  }
}
