/** Writing domain names into DNS messages, with compression of suffixes (RFC 1035, section 4.1.4). */
module DnsLabels {
  import opened ByteSeqs
  import opened DnsNames

  const MAX_LABELS: nat := 128
  const MAX_POINTER: nat := 0x4000

  /** strchr: the index of the first dot, or the length. */
  function FirstDot(v: seq<Byte>): (d: nat)
    ensures d <= |v|
    ensures d < |v| ==> v[d] == DOT
    ensures DOT !in v[..d]
  {
    if v == [] || v[0] == DOT then 0
    else
      var d := FirstDot(v[1..]) + 1;
      assert v[..d] == [v[0]] + v[1..][..d - 1];
      d
  }

  /** The labels of a dotted name; the root name and the end of a name with a final dot have none. */
  ghost function Labels(v: seq<Byte>): seq<Label> {
    var d := FirstDot(v);
    if d == |v| then (if |v| == 0 then [] else [v]) else [v[..d]] + Labels(v[d + 1..])
  }

  /** Labels are 1 to 63 bytes long, but for an empty one at the very end. */
  ghost predicate Encodable(v: seq<Byte>) {
    var d := FirstDot(v);
    d <= 63 && (d < |v| ==> 0 < d && Encodable(v[d + 1..]))
  }

  /** The labels that a reader finds: an empty one ends the name. */
  ghost function Read(v: seq<Byte>): seq<Label> {
    var d := FirstDot(v);
    if d == 0 then [] else if d == |v| then [v] else [v[..d]] + Read(v[d + 1..])
  }

  /** No label is empty, but for one at the very end. */
  ghost predicate NoEmptyLabel(v: seq<Byte>) {
    var d := FirstDot(v);
    d < |v| ==> 0 < d && NoEmptyLabel(v[d + 1..])
  }

  /** A name without its final dot. */
  ghost function Undotted(v: seq<Byte>): seq<Byte> {
    if |v| > 0 && v[|v| - 1] == DOT then v[..|v| - 1] else v
  }

  lemma {:induction false} JoinCons(l: Label, ls: seq<Label>)
    ensures Join([l] + ls) == if ls == [] then l else l + [DOT] + Join(ls)
  {
    if ls != [] {
      var init, last := ls[..|ls| - 1], ls[|ls| - 1];
      JoinCons(l, init);
      assert [l] + ls == ([l] + init) + [last] && ls == init + [last];
      JoinSnoc([l] + init, last);
      JoinSnoc(init, last);
    }
  }

  /** The dotted form of a name's labels is the name itself, less a final dot. */
  lemma JoinLabels(v: seq<Byte>)
    requires Encodable(v)
    ensures Join(Labels(v)) == Undotted(v)
  {
    ReadAll(v);
    ReadBackIff(v);
  }

  /** Of a name without empty labels a reader finds all. */
  lemma {:induction false} ReadAll(v: seq<Byte>)
    requires Encodable(v)
    ensures Read(v) == Labels(v) && NoEmptyLabel(v)
  {
    if FirstDot(v) < |v| { ReadAll(v[FirstDot(v) + 1..]); }
  }

  /** What a reader finds is the name, less a final dot, if and only if it has no empty label, or is the dot. */
  lemma {:induction false} ReadBackIff(v: seq<Byte>)
    ensures Join(Read(v)) == Undotted(v) <==> NoEmptyLabel(v) || v == [DOT]
  {
    var d := FirstDot(v);
    if d == |v| {
      assert |v| > 0 ==> v[..d][|v| - 1] != DOT;
    } else if d == 0 {
      assert |v| == 1 ==> v == [v[0]];
    } else {
      var rest := v[d + 1..];
      ReadBackIff(rest);
      assert rest == [DOT] ==> Read(rest) == [] && !NoEmptyLabel(rest) by { FirstDotIs([DOT], 0); }
      ReadBackRest(v, v[..d], rest, Read(rest));
    }
  }

  /** The case of a first label and a rest of which the reader finds ls. */
  lemma ReadBackRest(v: seq<Byte>, l: Label, rest: seq<Byte>, ls: seq<Label>)
    requires v == l + [DOT] + rest && (rest == [] ==> ls == [])
    ensures Join([l] + ls) == Undotted(v) <==> rest == [] || (ls != [] && Join(ls) == Undotted(rest))
  {
    JoinCons(l, ls);
    UndottedCons(l, rest);
    var a, b := Join(ls), Undotted(rest);
    assert (l + [DOT] + a)[|l| + 1..] == a && (l + [DOT] + b)[|l| + 1..] == b;
    assert |l + [DOT] + b| > |l|;
  }

  lemma {:induction false} ReadIsShorter(v: seq<Byte>)
    ensures |Join(Read(v))| <= |v|
  {
    var d := FirstDot(v);
    if 0 < d < |v| {
      ReadIsShorter(v[d + 1..]);
      JoinCons(v[..d], Read(v[d + 1..]));
    }
  }

  /** A name that is accepted, and read back shortened: "a..b" as "a". */
  lemma EmptyLabelEnds(bufLen: nat, j: nat)
    requires j + 6 <= bufLen
    ensures var v: seq<Byte> := [97, DOT, DOT, 98];
      EndOf([], bufLen, j, v) == j + 6 && Read(v) == [[97]] && !NoEmptyLabel(v)
  {
    var v: seq<Byte> := [97, DOT, DOT, 98];
    FirstDotIs(v, 1);
    var w: seq<Byte> := v[2..];
    assert w == [DOT, 98];
    FirstDotIs(w, 0);
    assert w[1..] == [98];
    FirstDotIs([98], 1);
    assert EndOf([], bufLen, j + 3, [98]) == j + 6;
    assert EndOf([], bufLen, j + 2, w) == j + 6;
    assert v[..1] == [97] && [[97]] + [] == [[97]];
  }

  lemma UndottedCons(l: Label, rest: seq<Byte>)
    ensures Undotted(l + [DOT] + rest) == if |rest| == 0 then l else l + [DOT] + Undotted(rest)
  {
    var v := l + [DOT] + rest;
    assert |rest| > 0 ==> v[|v| - 1] == rest[|rest| - 1];
    assert v[..|v| - 1] == if |rest| == 0 then l else l + [DOT] + rest[..|rest| - 1];
  }

  lemma FirstDotIs(v: seq<Byte>, d: nat)
    requires d <= |v| && DOT !in v[..d] && (d < |v| ==> v[d] == DOT)
    ensures FirstDot(v) == d
  {
    var e := FirstDot(v);
    assert forall i {:trigger v[i]} :: 0 <= i < d ==> v[i] == v[..d][i];
    assert forall i {:trigger v[i]} :: 0 <= i < e ==> v[i] == v[..e][i];
  }

  /** A name that lost its final dot has no other, and can still be written. */
  lemma {:induction false} UndottedEncodable(v: seq<Byte>)
    requires Encodable(v)
    ensures Encodable(Undotted(v)) && Undotted(Undotted(v)) == Undotted(v)
  {
    var d := FirstDot(v);
    if d == |v| {
      assert |v| > 0 ==> v[..d][|v| - 1] != DOT;
    } else if d + 1 == |v| {
      FirstDotIs(v[..d], d);
      assert v[..d][..d] == v[..d] && v[..d][d - 1] != DOT;
    } else {
      UndottedEncodable(v[d + 1..]);
      UndottedRest(v);
    }
  }

  /** A name of more than one label loses its final dot at the end of its rest. */
  lemma UndottedShape(v: seq<Byte>, d: nat)
    requires d + 1 < |v| && v[d] == DOT && DOT !in v[..d] && v[d + 1..] != [DOT]
    ensures var rest, u := Undotted(v[d + 1..]), Undotted(v);
      && 0 < |rest| && d + 1 + |rest| == |u| && u[d + 1..] == rest && u[d] == DOT && DOT !in u[..d]
      && u[|u| - 1] == rest[|rest| - 1]
  {
    var rest, u := v[d + 1..], Undotted(v);
    assert rest[|rest| - 1] == v[|v| - 1];
    assert |rest| == 1 ==> rest == [rest[0]];
    assert u[..d] == v[..d];
  }

  lemma UndottedRest(v: seq<Byte>)
    requires var d := FirstDot(v); d + 1 < |v| && 0 < d <= 63 && Encodable(v[d + 1..])
    requires var rest := v[FirstDot(v) + 1..]; Encodable(Undotted(rest)) && Undotted(Undotted(rest)) == Undotted(rest)
    ensures Encodable(Undotted(v)) && Undotted(Undotted(v)) == Undotted(v)
  {
    var d, u := FirstDot(v), Undotted(v);
    assert v[d + 1..] != [DOT] by { FirstDotIs([DOT], 0); }
    UndottedShape(v, d);
    FirstDotIs(u, d);
  }

  /** A place in a message where a (rest of a) name was written. */
  datatype Entry = Entry(v: seq<Byte>, pos: nat)

  /** What the message says at the entry's place is the entry's name, as far as it can be read. */
  ghost predicate EntryOk(p: seq<Byte>, e: Entry) {
    && e.pos < |p| && e.pos < MAX_POINTER
    && Decode(p, e.pos, e.pos) == Some(Read(e.v))
  }

  ghost predicate TableOk(p: seq<Byte>, labels: seq<Entry>) {
    forall i {:trigger EntryOk(p, labels[i])} :: 0 <= i < |labels| ==> EntryOk(p, labels[i])
  }

  /** The entries of a table with one more, unless it is full. */
  ghost function Entered(labels: seq<Entry>, e: Entry): seq<Entry> {
    if |labels| == MAX_LABELS then labels else labels + [e]
  }

  ghost predicate HasEntry(labels: seq<Entry>, v: seq<Byte>) {
    exists i :: 0 <= i < |labels| && labels[i].v == v
  }

  /** The first entry made for a name is the name's own, unless the table was full. */
  ghost predicate Enters(earlier: seq<Entry>, labels: seq<Entry>, e: Entry) {
    |earlier| == MAX_LABELS || (|labels| > |earlier| && labels[|earlier|] == e)
  }

  /** struct dnslabel_table */
  class LabelTable {
    var labels: seq<Entry>

    constructor ()
      ensures labels == []
    {
      labels := [];
    }

    /** dnslabel_table_get_pos: the position of the first entry for v, or -1. */
    method GetPos(v: seq<Byte>) returns (pos: int, ghost i: nat)
      ensures pos == -1 ==> forall k :: 0 <= k < |labels| ==> labels[k].v != v
      ensures pos != -1 ==> 0 <= pos && i < |labels| && labels[i] == Entry(v, pos)
    {
      i := 0;
      var k := 0;
      while k < |labels|
        invariant k <= |labels|
        invariant forall m :: 0 <= m < k ==> labels[m].v != v
      {
        if labels[k].v == v {
          return labels[k].pos, k;
        }
        k := k + 1;
      }
      pos := -1;
    }

    /** dnslabel_table_add; a full table stays as it is. */
    method Add(v: seq<Byte>, pos: nat)
      modifies this
      ensures labels == Entered(old(labels), Entry(v, pos))
    {
      if |labels| == MAX_LABELS {
        return;
      }
      labels := labels + [Entry(v, pos)];
    }
  }

  /** Reading within a message does not depend on what follows. */
  lemma {:induction false} DecodePrefix(p: seq<Byte>, q: seq<Byte>, off: nat, hops: nat, more: nat)
    requires p <= q && hops <= more && Decode(p, off, hops).Some?
    ensures Decode(q, off, more) == Decode(p, off, hops) && NameEnd(q, off) == NameEnd(p, off)
    decreases hops, if off < |p| then |p| - off else 0
  {
    if p[off] >= 64 {
      DecodePrefix(p, q, Target(p[off], p[off + 1]), hops - 1, more - 1);
    } else if p[off] > 0 {
      var next := off + 1 + p[off];
      assert q[off + 1..next] == p[off + 1..next];
      DecodePrefix(p, q, next, hops, more);
    }
  }

  lemma TablePrefix(p: seq<Byte>, q: seq<Byte>, labels: seq<Entry>)
    requires p <= q && TableOk(p, labels)
    ensures TableOk(q, labels)
  {
    forall i | 0 <= i < |labels| ensures EntryOk(q, labels[i]) {
      var e := labels[i];
      assert EntryOk(p, e);
      DecodePrefix(p, q, e.pos, e.pos, e.pos);
    }
  }

  /** At m's place stands the first label of m's name; n is the rest of the name and the place after. */
  ghost predicate LabelAt(p: seq<Byte>, m: Entry, n: Entry) {
    var d := FirstDot(m.v);
    && d < |m.v| && d <= 63 && n == Entry(m.v[d + 1..], m.pos + 1 + d) && n.pos <= |p|
    && p[m.pos] == d && p[m.pos + 1..n.pos] == m.v[..d]
  }

  /** The places where a name and its ever shorter rests were written. */
  ghost predicate Marked(p: seq<Byte>, marks: seq<Entry>) {
    forall k {:trigger LabelAt(p, marks[k], marks[k + 1])} :: 0 <= k < |marks| - 1 ==>
        LabelAt(p, marks[k], marks[k + 1])
  }

  /** What a reader finds at the entry's place; it finds the end of p behind a name without empty labels. */
  ghost predicate Reads(p: seq<Byte>, e: Entry, hops: nat) {
    Decode(p, e.pos, hops) == Some(Read(e.v)) && (Encodable(e.v) ==> NameEnd(p, e.pos) == |p|)
  }

  /** If the last rest reads back, so do all longer ones, and the name itself. */
  lemma {:induction false} MarkedDecodes(p: seq<Byte>, marks: seq<Entry>, k: nat, hops: nat)
    requires Marked(p, marks) && k < |marks| && Reads(p, marks[|marks| - 1], hops)
    ensures Reads(p, marks[k], hops)
    decreases |marks| - k
  {
    if k < |marks| - 1 {
      MarkedDecodes(p, marks, k + 1, hops);
      assert LabelAt(p, marks[k], marks[k + 1]);
      LabelDecodes(p, marks[k], marks[k + 1], hops);
    }
  }

  lemma LabelDecodes(p: seq<Byte>, m: Entry, n: Entry, hops: nat)
    requires LabelAt(p, m, n) && Reads(p, n, hops)
    ensures Reads(p, m, hops)
  {
    var d := FirstDot(m.v);
    if d > 0 {
      assert 0 < p[m.pos] == d < 64 && n.pos == m.pos + 1 + d;
      assert Read(m.v) == [m.v[..d]] + Read(n.v);
    }
  }

  /** Copy a label, after its length, to offset j. */
  method WriteLabel(buf: array<Byte>, j: nat, text: Label)
    requires j + 1 + |text| <= buf.Length && |text| <= 63
    modifies buf
    ensures buf[..j] == old(buf[..j])
    ensures buf[j] == |text| && buf[j + 1..j + 1 + |text|] == text
    ensures buf[j + 1 + |text|..] == old(buf[j + 1 + |text|..])
  {
    buf[j] := |text|;
    forall i | 0 <= i < |text| {
      buf[j + 1 + i] := text[i];
    }
  }

  /** A two-byte number in network order. */
  method Append16(buf: array<Byte>, bufLen: nat, j: nat, x: nat) returns (ok: bool, next: nat)
    requires bufLen <= buf.Length
    modifies buf
    ensures ok <==> j + 2 <= bufLen
    ensures next == if ok then j + 2 else j
    ensures j <= buf.Length ==> buf[..j] == old(buf[..j])
    ensures ok ==> buf[j] == (x / 256) % 256 && buf[j + 1] == x % 256
    ensures !ok ==> buf[..] == old(buf[..])
    ensures buf[bufLen..] == old(buf[bufLen..])
  {
    if j + 2 > bufLen {
      return false, j;
    }
    buf[j] := (x / 256) % 256;
    buf[j + 1] := x % 256;
    return true, j + 2;
  }

  lemma MarkedPrefix(p: seq<Byte>, q: seq<Byte>, marks: seq<Entry>)
    requires p <= q && Marked(p, marks)
    ensures Marked(q, marks)
  {
    forall k | 0 <= k < |marks| - 1 ensures LabelAt(q, marks[k], marks[k + 1]) {
      assert LabelAt(p, marks[k], marks[k + 1]);
      assert q[marks[k].pos + 1..marks[k + 1].pos] == p[marks[k].pos + 1..marks[k + 1].pos];
    }
  }

  lemma MarkedSnoc(p: seq<Byte>, marks: seq<Entry>, n: Entry)
    requires Marked(p, marks) && |marks| > 0 && LabelAt(p, marks[|marks| - 1], n)
    ensures Marked(p, marks + [n])
  {
    var t := marks + [n];
    forall k | 0 <= k < |t| - 1 ensures LabelAt(p, t[k], t[k + 1]) {
      assert k < |marks| - 1 ==> LabelAt(p, marks[k], marks[k + 1]);
    }
  }

  /** The places all lie at or after the name's own. */
  lemma {:induction false} MarkedGrows(p: seq<Byte>, marks: seq<Entry>, k: nat)
    requires Marked(p, marks) && k < |marks|
    ensures marks[0].pos <= marks[k].pos <= marks[|marks| - 1].pos
    ensures |marks[k].v| >= |marks[|marks| - 1].v|
    ensures k < |marks| - 1 ==> |marks[k].v| > |marks[|marks| - 1].v| && marks[k].pos < marks[|marks| - 1].pos
    decreases |marks| - k
  {
    if k < |marks| - 1 {
      MarkedGrows(p, marks, k + 1);
      assert LabelAt(p, marks[k], marks[k + 1]);
    }
    MarkedAfterFirst(p, marks, k);
  }

  lemma {:induction false} MarkedAfterFirst(p: seq<Byte>, marks: seq<Entry>, k: nat)
    requires Marked(p, marks) && k < |marks|
    ensures marks[0].pos <= marks[k].pos
  {
    if k > 0 {
      var m := k - 1;
      MarkedAfterFirst(p, marks, m);
      assert LabelAt(p, marks[m], marks[m + 1]);
    }
  }

  /** Every label of an encodable name is short enough. */
  lemma {:induction false} MarkedEncodable(p: seq<Byte>, marks: seq<Entry>, k: nat)
    requires Marked(p, marks) && k < |marks| && Encodable(marks[0].v)
    ensures Encodable(marks[k].v)
  {
    if k > 0 {
      var m := k - 1;
      MarkedEncodable(p, marks, m);
      assert LabelAt(p, marks[m], marks[m + 1]);
    }
  }

  /** The old entries still hold, and so do those for the name and its rests, once the last rest reads back. */
  lemma AllEntriesOk(before: seq<Byte>, p: seq<Byte>, labels: seq<Entry>, earlier: seq<Entry>, marks: seq<Entry>)
    requires before <= p && earlier <= labels && TableOk(before, earlier)
    requires Marked(p, marks) && |marks| > 0 && marks[0].pos == |before|
    requires marks[|marks| - 1].pos < |p| && marks[|marks| - 1].pos < MAX_POINTER
    requires forall i {:trigger labels[i]} :: |earlier| <= i < |labels| ==> labels[i] in marks
    requires Reads(p, marks[|marks| - 1], |before|)
    ensures Completed(p, |before|, labels, marks[0].v)
  {
    TablePrefix(before, p, earlier);
    MarkedDecodes(p, marks, 0, |before|);
    forall i | 0 <= i < |labels| ensures EntryOk(p, labels[i]) {
      if i < |earlier| {
        assert EntryOk(p, earlier[i]);
      } else {
        var k :| 0 <= k < |marks| && marks[k] == labels[i];
        MarkedDecodes(p, marks, k, |before|);
        MarkedGrows(p, marks, k);
        DecodePrefix(p, p, marks[k].pos, |before|, marks[k].pos);
      }
    }
  }

  /** The labels of a name up to rest were written to p after before, at the places marks. */
  ghost predicate Writing(p: seq<Byte>, before: seq<Byte>, marks: seq<Entry>, name: seq<Byte>, rest: seq<Byte>) {
    && before <= p && |marks| > 0
    && marks[0] == Entry(name, |before|) && marks[|marks| - 1] == Entry(rest, |p|)
    && Marked(p, marks)
    && |p| + |rest| == |before| + |name|
  }

  /** The entries of old, and then some for longer rests of the name. */
  ghost predicate Listed(labels: seq<Entry>, earlier: seq<Entry>, marks: seq<Entry>, rest: seq<Byte>) {
    && earlier <= labels
    && (forall i {:trigger labels[i]} :: |earlier| <= i < |labels| ==> labels[i] in marks && |labels[i].v| > |rest|)
  }

  /** p holds the whole name from offset at on, whatever stands before it, if only the old entries hold
      there; and then all the entries hold. */
  ghost predicate Completes(p: seq<Byte>, at: nat, earlier: seq<Entry>, labels: seq<Entry>, name: seq<Byte>) {
    at <= |p|
    && forall w: seq<Byte> {:trigger TableOk(w, earlier)} :: |w| == at && TableOk(w, earlier) ==>
       Completed(w + p[at..], at, labels, name)
  }

  ghost predicate Completed(p: seq<Byte>, at: nat, labels: seq<Entry>, name: seq<Byte>) {
    TableOk(p, labels) && Reads(p, Entry(name, at), at)
  }

  /** One more label is written. */
  lemma WritingStep(p: seq<Byte>, q: seq<Byte>, before: seq<Byte>, marks: seq<Entry>, name: seq<Byte>, rest: seq<Byte>)
    requires Writing(p, before, marks, name, rest) && FirstDot(rest) < |rest| && FirstDot(rest) <= 63
    requires q == p + [FirstDot(rest)] + rest[..FirstDot(rest)]
    ensures Writing(q, before, marks + [Entry(rest[FirstDot(rest) + 1..], |q|)], name, rest[FirstDot(rest) + 1..])
  {
    MarkedPrefix(p, q, marks);
    var n := Entry(rest[FirstDot(rest) + 1..], |q|);
    assert LabelAt(q, marks[|marks| - 1], n);
    MarkedSnoc(q, marks, n);
  }

  /** What was written does not depend on what stands before. */
  lemma WritingAnywhere(p: seq<Byte>, before: seq<Byte>, w: seq<Byte>, marks: seq<Entry>, name: seq<Byte>,
                        rest: seq<Byte>)
    requires Writing(p, before, marks, name, rest) && |w| == |before|
    ensures Writing(w + p[|before|..], w, marks, name, rest)
  {
    var q := w + p[|before|..];
    forall k | 0 <= k < |marks| - 1 ensures LabelAt(q, marks[k], marks[k + 1]) {
      assert LabelAt(p, marks[k], marks[k + 1]);
      MarkedAfterFirst(p, marks, k);
      assert q[marks[k].pos + 1..marks[k + 1].pos] == p[marks[k].pos + 1..marks[k + 1].pos];
    }
  }

  /** The labels of a table with an entry for rest, before the label of rest is written. */
  lemma ListedStep(labels: seq<Entry>, more: seq<Entry>, earlier: seq<Entry>, marks: seq<Entry>, rest: seq<Byte>,
                   pos: nat, shorter: Entry)
    requires Listed(labels, earlier, marks, rest) && Entry(rest, pos) in marks && |shorter.v| < |rest|
    requires more == labels || more == labels + [Entry(rest, pos)]
    ensures Listed(more, earlier, marks + [shorter], shorter.v)
  {
    forall i | |earlier| <= i < |more| ensures more[i] in marks + [shorter] && |more[i].v| > |shorter.v| {
      assert i < |labels| ==> more[i] == labels[i];
    }
  }

  /** A rest of an encodable name is encodable. */
  lemma RestEncodable(p: seq<Byte>, before: seq<Byte>, marks: seq<Entry>, name: seq<Byte>, rest: seq<Byte>)
    requires Writing(p, before, marks, name, rest) && Encodable(name)
    ensures Encodable(rest)
  {
    MarkedEncodable(p, marks, |marks| - 1);
  }

  lemma TargetIs(pos: nat)
    requires pos < MAX_POINTER
    ensures var x := pos % MAX_POINTER + 0xC000;
      x / 256 < 256 && 64 <= x / 256 && Target(x / 256, x % 256) == pos
  {
    var q, r, x := pos / 256, pos % 256, pos + 0xC000;
    assert x == 256 * (q + 0xC0) + r;
    assert x / 256 == q + 0xC0 && x % 256 == r;
    assert q < 64 && (q + 0xC0) % 64 == q;
  }

  /** A pointer to an earlier entry for the rest completes the name. */
  lemma PointerEnds(p: seq<Byte>, q: seq<Byte>, before: seq<Byte>, marks: seq<Entry>, name: seq<Byte>, rest: seq<Byte>,
                    labels: seq<Entry>, earlier: seq<Entry>, i: nat)
    requires Writing(p, before, marks, name, rest) && Listed(labels, earlier, marks, rest) && TableOk(before, earlier)
    requires i < |labels| && labels[i].v == rest
    requires var x := labels[i].pos % MAX_POINTER + 0xC000; q == p + [x / 256, x % 256]
    requires |p| < MAX_POINTER
    ensures Completed(q, |before|, labels, name)
  {
    assert i < |earlier|;
    var e := labels[i];
    assert EntryOk(before, earlier[i]);
    TargetIs(e.pos);
    assert q[|p|] >= 64 && Target(q[|p|], q[|p| + 1]) == e.pos;
    DecodePrefix(before, q, e.pos, e.pos, |before| - 1);
    MarkedPrefix(p, q, marks);
    AllEntriesOk(before, q, labels, earlier, marks);
  }

  lemma PointerCompletes(p: seq<Byte>, q: seq<Byte>, before: seq<Byte>, marks: seq<Entry>, name: seq<Byte>,
                         rest: seq<Byte>,
                         labels: seq<Entry>, earlier: seq<Entry>, i: nat)
    requires Writing(p, before, marks, name, rest) && Listed(labels, earlier, marks, rest)
    requires i < |labels| && labels[i].v == rest
    requires var x := labels[i].pos % MAX_POINTER + 0xC000; q == p + [x / 256, x % 256]
    requires |p| < MAX_POINTER
    ensures Completes(q, |before|, earlier, labels, name)
  {
    var at := |before|;
    forall w: seq<Byte> | |w| == at && TableOk(w, earlier) ensures Completed(w + q[at..], at, labels, name) {
      WritingAnywhere(p, before, w, marks, name, rest);
      assert w + q[at..] == (w + p[at..]) + q[|p|..];
      PointerEnds(w + p[at..], w + q[at..], w, marks, name, rest, labels, earlier, i);
    }
  }

  /** The last label and the final zero complete the name; an empty last label is itself the zero. */
  lemma LastEnds(p: seq<Byte>, q: seq<Byte>, before: seq<Byte>, marks: seq<Entry>, name: seq<Byte>, rest: seq<Byte>,
                 labels: seq<Entry>, earlier: seq<Entry>)
    requires Writing(p, before, marks, name, rest) && earlier <= labels && TableOk(before, earlier)
    requires forall i {:trigger labels[i]} :: |earlier| <= i < |labels| ==> labels[i] in marks
    requires FirstDot(rest) == |rest| <= 63 && |p| < MAX_POINTER
    requires q == p + [|rest|] + rest + if |rest| == 0 then [] else [0]
    ensures Completed(q, |before|, labels, name)
  {
    LastLabel(p, q, rest, |before|);
    MarkedPrefix(p, q, marks);
    AllEntriesOk(before, q, labels, earlier, marks);
  }

  lemma LastCompletes(p: seq<Byte>, q: seq<Byte>, before: seq<Byte>, marks: seq<Entry>, name: seq<Byte>,
                      rest: seq<Byte>,
                      labels: seq<Entry>, earlier: seq<Entry>)
    requires Writing(p, before, marks, name, rest) && earlier <= labels
    requires forall i {:trigger labels[i]} :: |earlier| <= i < |labels| ==> labels[i] in marks
    requires FirstDot(rest) == |rest| <= 63 && |p| < MAX_POINTER
    requires q == p + [|rest|] + rest + if |rest| == 0 then [] else [0]
    ensures Completes(q, |before|, earlier, labels, name)
  {
    var at := |before|;
    forall w: seq<Byte> | |w| == at && TableOk(w, earlier) ensures Completed(w + q[at..], at, labels, name) {
      WritingAnywhere(p, before, w, marks, name, rest);
      assert w + q[at..] == (w + p[at..]) + q[|p|..];
      LastEnds(w + p[at..], w + q[at..], w, marks, name, rest, labels, earlier);
    }
  }

  lemma LastLabel(p: seq<Byte>, q: seq<Byte>, rest: seq<Byte>, hops: nat)
    requires FirstDot(rest) == |rest| <= 63
    requires q == p + [|rest|] + rest + if |rest| == 0 then [] else [0]
    ensures Decode(q, |p|, hops) == Some(Read(rest)) && NameEnd(q, |p|) == |q|
  {
    var at := |p|;
    assert q[at] == |rest|;
    if |rest| > 0 {
      var next := at + 1 + |rest|;
      assert q[next] == 0 && |q| == next + 1;
      var l := q[at + 1..next];
      assert l == rest;
      assert Decode(q, next, hops) == Some([]) && NameEnd(q, next) == |q|;
      assert [l] + [] == [rest];
    }
  }

  /** Write a pointer to the entry for rest. */
  method WritePointer(buf: array<Byte>, bufLen: nat, j: nat, ref: nat, ghost name: seq<Byte>, ghost rest: seq<Byte>,
                      ghost labels: seq<Entry>, ghost earlier: seq<Entry>, ghost i: nat, ghost before: seq<Byte>,
                        ghost marks: seq<Entry>)
    returns (r: int)
    requires bufLen <= buf.Length && j <= buf.Length && bufLen <= MAX_POINTER
    requires Writing(buf[..j], before, marks, name, rest) && Listed(labels, earlier, marks, rest)
    requires i < |labels| && labels[i] == Entry(rest, ref)
    modifies buf
    ensures buf[..j] == old(buf[..j])
    ensures r == if j + 2 <= bufLen then j + 2 else -2
    ensures r >= 0 ==> Completes(buf[..r], |before|, earlier, labels, name)
    ensures buf[bufLen..] == old(buf[bufLen..])
  {
    ghost var p := buf[..j];
    var x := ref % MAX_POINTER + 0xC000;
    var ok, next := Append16(buf, bufLen, j, x);
    if !ok {
      return -2;
    }
    assert buf[..next] == p + [x / 256, x % 256];
    PointerCompletes(p, buf[..next], before, marks, name, rest, labels, earlier, i);
    return next;
  }

  /** Enter rest into the table, and write its first label, which is d bytes long. */
  method PutLabel(buf: array<Byte>, j: nat, rest: seq<Byte>, d: nat, table: LabelTable?) returns (next: nat)
    requires d <= |rest| && d <= 63 && j + 1 + d <= buf.Length
    modifies buf, table
    ensures next == j + 1 + d && buf[..j] == old(buf[..j]) && buf[..next] == old(buf[..j]) + [d] + rest[..d]
    ensures buf[next..] == old(buf[j + 1 + d..])
    ensures table != null ==> table.labels == Entered(old(table.labels), Entry(rest, j))
  {
    if table != null {
      table.Add(rest, j);
    }
    WriteLabel(buf, j, rest[..d]);
    next := j + 1 + d;
    assert buf[..next] == buf[..j] + [buf[j]] + buf[j + 1..next];
  }

  /** The entries of a table, if there is one. */
  ghost function EntriesOf(table: LabelTable?): seq<Entry>
    reads table
  {
    if table == null then [] else table.labels
  }

  /** One round of dnsname_to_labels that is not the last one. */
  method PutInnerLabel(buf: array<Byte>, ghost bufLen: nat, j: nat, rest: seq<Byte>, d: nat, table: LabelTable?,
                       ghost name: seq<Byte>, ghost before: seq<Byte>, ghost marks: seq<Entry>,
                       ghost earlier: seq<Entry>)
    returns (next: nat, shorter: seq<Byte>, ghost more: seq<Entry>)
    requires d == FirstDot(rest) < |rest| && d <= 63 && j + 1 + d <= bufLen <= buf.Length
    requires Writing(buf[..j], before, marks, name, rest)
    requires Listed(EntriesOf(table), earlier, marks, rest)
    modifies buf, table
    ensures next == j + 1 + d && buf[..j] == old(buf[..j]) && shorter == rest[d + 1..]
    ensures buf[bufLen..] == old(buf[bufLen..])
    ensures Writing(buf[..next], before, more, name, shorter)
    ensures Listed(EntriesOf(table), earlier, more, shorter)
    ensures table != null ==> table.labels == Entered(old(table.labels), Entry(rest, j))
  {
    ghost var p, all, listed := buf[..j], buf[..], EntriesOf(table);
    next := PutLabel(buf, j, rest, d, table);
    BehindIs(all, buf[..], bufLen, next);
    shorter := rest[d + 1..];
    WritingStep(p, buf[..next], before, marks, name, rest);
    ListedStep(listed, EntriesOf(table), earlier, marks, rest, j, Entry(shorter, next));
    more := marks + [Entry(shorter, next)];
  }

  /** The last round of dnsname_to_labels, and the zero byte after the last label, unless that is empty. */
  method PutLastLabel(buf: array<Byte>, ghost bufLen: nat, j: nat, rest: seq<Byte>, table: LabelTable?,
                      ghost name: seq<Byte>, ghost before: seq<Byte>, ghost marks: seq<Entry>,
                      ghost earlier: seq<Entry>)
    returns (r: nat)
    requires FirstDot(rest) == |rest| <= 63 && 0 !in rest && j < MAX_POINTER
    requires j + |rest| + (if |rest| == 0 then 1 else 2) <= buf.Length && j + |rest| < bufLen <= buf.Length
    requires Writing(buf[..j], before, marks, name, rest)
    requires Listed(EntriesOf(table), earlier, marks, rest)
    modifies buf, table
    ensures buf[..j] == old(buf[..j]) && r == j + |rest| + (if |rest| == 0 then 1 else 2)
    ensures buf[bufLen..] == Behind(old(buf[bufLen..]), r > bufLen)
    ensures Completes(buf[..r], |before|, earlier, EntriesOf(table), name)
    ensures table != null ==> table.labels == Entered(old(table.labels), Entry(rest, j))
  {
    ghost var p, all, listed := buf[..j], buf[..], EntriesOf(table);
    assert rest[..|rest|] == rest;
    r := PutLabel(buf, j, rest, |rest|, table);
    ghost var q := buf[..r];
    assert |rest| > 0 ==> q[r - 1] == rest[|rest| - 1];
    if buf[r - 1] != 0 {
      buf[r] := 0;
      r := r + 1;
    }
    BehindIs(all, buf[..], bufLen, r);
    assert buf[..r] == p + [|rest|] + rest + if |rest| == 0 then [] else [0];
    LastCompletes(p, buf[..r], before, marks, name, rest, EntriesOf(table), earlier);
  }

  /** The bytes behind the usable ones, if a zero is written there. */
  function Behind(tail: seq<Byte>, zero: bool): seq<Byte> {
    if zero && |tail| > 0 then [0] + tail[1..] else tail
  }

  /** Behind the usable bytes no name can be written. */
  lemma RefusedBehind(labels: seq<Entry>, bufLen: nat, j: nat, name: seq<Byte>)
    requires bufLen < j
    ensures EndOf(labels, bufLen, j, name) < 0
  {
  }

  /** Where the rest of a name, written at offset j, ends if the entries are those: after a pointer, or after all
      its labels and a zero. Negative if a label is too long (-1) or there is no room in bufLen bytes (-2); the
      room for the last zero is not asked for. */
  ghost function EndOf(labels: seq<Entry>, bufLen: nat, j: nat, rest: seq<Byte>): int
    decreases |rest|
  {
    var d := FirstDot(rest);
    if HasEntry(labels, rest) then (if j + 2 <= bufLen then j + 2 else -2)
    else if d > 63 then -1
    else if j + d + 1 > bufLen then -2
    else if d == |rest| then j + d + (if d == 0 then 1 else 2)
    else EndOf(labels, bufLen, j + d + 1, rest[d + 1..])
  }

  /** The entries of a table after that. */
  ghost function EntriesAfter(earlier: seq<Entry>, labels: seq<Entry>, j: nat, rest: seq<Byte>): seq<Entry>
    decreases |rest|
  {
    var d, more := FirstDot(rest), Entered(labels, Entry(rest, j));
    if HasEntry(earlier, rest) then labels
    else if d == |rest| then more
    else EntriesAfter(earlier, more, j + d + 1, rest[d + 1..])
  }

  /** No label is longer than 63 bytes, and there is no entry for the name or one of its rests. */
  ghost predicate AllLabels(labels: seq<Entry>, name: seq<Byte>) {
    var d := FirstDot(name);
    !HasEntry(labels, name) && d <= 63 && (d < |name| ==> AllLabels(labels, name[d + 1..]))
  }

  /** All labels of the name are written, the last one has bytes, and it ends where the usable bytes do. */
  ghost predicate RunsOver(labels: seq<Entry>, bufLen: nat, j: nat, name: seq<Byte>) {
    0 < |name| <= 255 && name[|name| - 1] != DOT && AllLabels(labels, name) && j + |name| + 1 == bufLen
  }

  /** Those are just the names whose final zero goes behind the usable bytes. */
  lemma {:induction false} RunsOverIff(labels: seq<Entry>, bufLen: nat, j: nat, name: seq<Byte>)
    requires |name| <= 255
    ensures EndOf(labels, bufLen, j, name) <= bufLen + 1
    ensures EndOf(labels, bufLen, j, name) == bufLen + 1 <==> RunsOver(labels, bufLen, j, name)
    decreases |name|
  {
    var d := FirstDot(name);
    if d < |name| {
      var rest := name[d + 1..];
      RunsOverIff(labels, bufLen, j + d + 1, rest);
      if !HasEntry(labels, name) && d <= 63 && j + d + 1 <= bufLen { EndOfRest(labels, bufLen, j, name); }
      assert |rest| > 0 ==> rest[|rest| - 1] == name[|name| - 1];
      assert |rest| == 0 ==> name[|name| - 1] == DOT;
    } else {
      assert |name| > 0 ==> name[|name| - 1] in name[..d];
    }
  }

  lemma EndOfRest(labels: seq<Entry>, bufLen: nat, j: nat, name: seq<Byte>)
    requires var d := FirstDot(name); d < |name| && !HasEntry(labels, name) && d <= 63 && j + d + 1 <= bufLen
    ensures var d := FirstDot(name); EndOf(labels, bufLen, j, name) == EndOf(labels, bufLen, j + d + 1, name[d + 1..])
  {
  }

  /** One such name. */
  lemma OneRunsOver(bufLen: nat)
    requires bufLen >= 2
    ensures EndOf([], bufLen, bufLen - 2, [97]) == bufLen + 1
  {
    assert FirstDot([97]) == 1;
  }

  lemma ListedHas(labels: seq<Entry>, earlier: seq<Entry>, marks: seq<Entry>, rest: seq<Byte>)
    requires Listed(labels, earlier, marks, rest)
    ensures HasEntry(labels, rest) <==> HasEntry(earlier, rest)
  {
    if i :| 0 <= i < |earlier| && earlier[i].v == rest {
      assert labels[i].v == rest;
    }
  }

  /** Entries are only added. */
  lemma {:induction false} EntriesGrow(earlier: seq<Entry>, labels: seq<Entry>, j: nat, rest: seq<Byte>)
    ensures labels <= EntriesAfter(earlier, labels, j, rest)
    decreases |rest|
  {
    var d, more := FirstDot(rest), Entered(labels, Entry(rest, j));
    if HasEntry(earlier, rest) || d == |rest| {
    } else {
      EntriesGrow(earlier, more, j + d + 1, rest[d + 1..]);
      assert EntriesAfter(earlier, labels, j, rest) == EntriesAfter(earlier, more, j + d + 1, rest[d + 1..]);
    }
  }

  /** Writing up to offset r changes what is behind the usable bytes only if r is there. */
  lemma BehindIs(p: seq<Byte>, q: seq<Byte>, bufLen: nat, r: nat)
    requires |p| == |q| && 0 < r <= bufLen + 1 && r <= |q| && bufLen <= |q| && q[r..] == p[r..]
    requires r > bufLen ==> q[r - 1] == 0
    ensures q[bufLen..] == Behind(p[bufLen..], r > bufLen)
  {
    if r > bufLen {
      assert q[bufLen..] == [q[bufLen]] + q[r..] && p[bufLen..][1..] == p[r..];
    } else {
      assert q[bufLen..] == q[r..][bufLen - r..] && p[bufLen..] == p[r..][bufLen - r..];
    }
  }

  /** One round of dnsname_to_labels when the rest is not in the table: the last label, an error, or one more label. */
  method PutNewLabel(buf: array<Byte>, bufLen: nat, j: nat, rest: seq<Byte>, table: LabelTable?,
                  ghost name: seq<Byte>, ghost before: seq<Byte>, ghost marks: seq<Entry>, ghost earlier: seq<Entry>)
    returns (done: bool, r: int, next: nat, shorter: seq<Byte>, ghost more: seq<Entry>)
    requires !HasEntry(earlier, rest)
    requires j <= buf.Length && bufLen <= buf.Length && bufLen <= MAX_POINTER && 0 !in rest
    requires bufLen < buf.Length || EndOf(earlier, bufLen, j, rest) <= bufLen
    requires Writing(buf[..j], before, marks, name, rest)
    requires Listed(EntriesOf(table), earlier, marks, rest)
    modifies buf, table
    ensures buf[..j] == old(buf[..j])
    ensures done ==> r == EndOf(earlier, bufLen, j, rest)
    ensures buf[bufLen..] == Behind(old(buf[bufLen..]), done && r > bufLen)
    ensures done && r >= 0 ==> j < r <= buf.Length && r <= j + |rest| + 2
    ensures done && r >= 0 ==> Completes(buf[..r], |before|, earlier, EntriesOf(table), name)
    ensures done && r >= 0 && table != null ==> table.labels == EntriesAfter(earlier, old(EntriesOf(table)), j, rest)
    ensures done && r < 0 ==> (r == -1 && !Encodable(name)) || (r == -2 && j + |rest| + 2 > bufLen)
    ensures !done ==> j < next <= bufLen && next + |shorter| == j + |rest| && 0 !in shorter
    ensures !done ==>
              Writing(buf[..next], before, more, name, shorter) && Listed(EntriesOf(table), earlier, more, shorter)
    ensures !done ==> EndOf(earlier, bufLen, next, shorter) == EndOf(earlier, bufLen, j, rest)
    ensures !done && table != null ==>
              EntriesAfter(earlier, table.labels, next, shorter)
                  == EntriesAfter(earlier, old(EntriesOf(table)), j, rest)
  {
    done, r, next, shorter, more := true, -2, j, rest, marks;
    var d := FirstDot(rest);
    if d > 63 {
      assert !Encodable(name) by {
        if Encodable(name) { RestEncodable(buf[..j], before, marks, name, rest); }
      }
      r := -1;
    } else if j + d + 1 > bufLen {
      r := -2;
    } else if d == |rest| {
      r := PutLastLabel(buf, bufLen, j, rest, table, name, before, marks, earlier);
    } else {
      next, shorter, more := PutInnerLabel(buf, bufLen, j, rest, d, table, name, before, marks, earlier);
      done := false;
    }
  }

  /** One round of dnsname_to_labels: a pointer, the last label, an error, or one more label. */
  method PutRound(buf: array<Byte>, bufLen: nat, j: nat, rest: seq<Byte>, table: LabelTable?,
                  ghost name: seq<Byte>, ghost before: seq<Byte>, ghost marks: seq<Entry>, ghost earlier: seq<Entry>)
    returns (done: bool, r: int, next: nat, shorter: seq<Byte>, ghost more: seq<Entry>)
    requires j <= buf.Length && bufLen <= buf.Length && bufLen <= MAX_POINTER && 0 !in rest
    requires bufLen < buf.Length || EndOf(earlier, bufLen, j, rest) <= bufLen
    requires Writing(buf[..j], before, marks, name, rest)
    requires Listed(EntriesOf(table), earlier, marks, rest)
    modifies buf, table
    ensures buf[..j] == old(buf[..j])
    ensures done ==> r == EndOf(earlier, bufLen, j, rest)
    ensures buf[bufLen..] == Behind(old(buf[bufLen..]), done && r > bufLen)
    ensures done && r >= 0 ==> j < r <= buf.Length && r <= j + |rest| + 2
    ensures done && r >= 0 ==> Completes(buf[..r], |before|, earlier, EntriesOf(table), name)
    ensures done && r >= 0 && table != null ==> table.labels == EntriesAfter(earlier, old(EntriesOf(table)), j, rest)
    ensures done && r < 0 ==> (r == -1 && !Encodable(name)) || (r == -2 && j + |rest| + 2 > bufLen)
    ensures !done ==> j < next <= bufLen && next + |shorter| == j + |rest| && 0 !in shorter
    ensures !done ==>
              Writing(buf[..next], before, more, name, shorter) && Listed(EntriesOf(table), earlier, more, shorter)
    ensures !done ==> EndOf(earlier, bufLen, next, shorter) == EndOf(earlier, bufLen, j, rest)
    ensures !done && table != null ==>
              EntriesAfter(earlier, table.labels, next, shorter)
                  == EntriesAfter(earlier, old(EntriesOf(table)), j, rest)
  {
    done, r, next, shorter, more := true, -2, j, rest, marks;
    ListedHas(EntriesOf(table), earlier, marks, rest);
    if table != null {
      var ref, i := table.GetPos(rest);
      if ref >= 0 {
        assert table.labels[i].v == rest;
        r := WritePointer(buf, bufLen, j, ref, name, rest, table.labels, earlier, i, before, marks);
        return;
      }
    }
    assert !HasEntry(earlier, rest);
    done, r, next, shorter, more := PutNewLabel(buf, bufLen, j, rest, table, name, before, marks, earlier);
  }

  /** dnsname_to_labels: write a name at offset j0 of the message in buf, of which bufLen bytes may be
      used; the last zero byte is written without asking whether it still fits, so there has to be room
      for it if the name runs over. Gives the offset after the name, -1 for a label that is too long, or
      -2 for want of room. */
  method NameToLabels(buf: array<Byte>, bufLen: nat, j0: nat, name: seq<Byte>, table: LabelTable?)
    returns (r: int)
    requires j0 <= buf.Length && bufLen <= buf.Length && bufLen <= MAX_POINTER
    requires bufLen < buf.Length || !RunsOver(EntriesOf(table), bufLen, j0, name)
    requires 0 !in name
    modifies buf, table
    ensures buf[..j0] == old(buf[..j0])
    ensures r == if |name| > 255 then -2 else EndOf(old(EntriesOf(table)), bufLen, j0, name)
    ensures r >= 0 && table != null ==>
              table.labels == EntriesAfter(old(EntriesOf(table)), old(EntriesOf(table)), j0, name)
    ensures r == bufLen + 1 <==> old(RunsOver(EntriesOf(table), bufLen, j0, name))
    ensures buf[bufLen..] == Behind(old(buf[bufLen..]), r > bufLen)
    ensures r >= 0 ==> j0 < r <= bufLen + 1 && r <= buf.Length && r <= j0 + |name| + 2 && |name| <= 255
    ensures r >= 0 ==> Completes(buf[..r], j0, old(EntriesOf(table)), EntriesOf(table), name)
    ensures r >= 0 && HasEntry(old(EntriesOf(table)), name) ==> r == j0 + 2 && EntriesOf(table) == old(EntriesOf(table))
    ensures r >= 0 && table != null && !HasEntry(old(EntriesOf(table)), name) ==>
              Enters(old(EntriesOf(table)), EntriesOf(table), Entry(name, j0))
    ensures r < 0 ==> (r == -1 && !Encodable(name)) || (r == -2 && (|name| > 255 || j0 + |name| + 2 > bufLen))
  {
    if |name| > 255 {
      return -2;
    }
    ghost var before, behind, earlier := buf[..j0], buf[bufLen..], EntriesOf(table);
    RunsOverIff(earlier, bufLen, j0, name);
    NameEntered(earlier, j0, name);
    var done, j: nat, rest: seq<Byte> := false, j0, name;
    r := 0;
    ghost var marks := [Entry(name, j0)];
    while !done
      invariant buf[..j0] == before && buf[bufLen..] == Behind(behind, done && r > bufLen)
      invariant !done ==> j0 <= j <= buf.Length && 0 !in rest && j + |rest| == j0 + |name|
      invariant !done ==> Writing(buf[..j], before, marks, name, rest) && Listed(EntriesOf(table), earlier, marks, rest)
      invariant !done ==> EndOf(earlier, bufLen, j0, name) == EndOf(earlier, bufLen, j, rest)
      invariant !done && table != null ==>
                EntriesAfter(earlier, earlier, j0, name) == EntriesAfter(earlier, table.labels, j, rest)
      invariant table == null || !done || r < 0 || table.labels == EntriesAfter(earlier, earlier, j0, name)
      invariant done && r >= 0 ==> j0 < r <= buf.Length && r <= j0 + |name| + 2
      invariant done && r >= 0 ==> Completes(buf[..r], j0, earlier, EntriesOf(table), name)
      invariant done ==> r == EndOf(earlier, bufLen, j0, name)
      invariant done && r < 0 ==> (r == -1 && !Encodable(name)) || (r == -2 && j0 + |name| + 2 > bufLen)
      decreases if done then 0 else 1, |rest|
    {
      done, r, j, rest, marks := PutRound(buf, bufLen, j, rest, table, name, before, marks, earlier);
    }
  }

  /** A name that has an entry enters nothing, and needs a pointer only; one that has none enters itself first. */
  lemma {:induction false} NameEntered(earlier: seq<Entry>, j: nat, name: seq<Byte>)
    ensures var after := EntriesAfter(earlier, earlier, j, name);
      if HasEntry(earlier, name) then after == earlier else Enters(earlier, after, Entry(name, j))
  {
    if !HasEntry(earlier, name) { EntersFirst(earlier, j, name); }
  }

  lemma {:induction false} EntersFirst(earlier: seq<Entry>, j: nat, name: seq<Byte>)
    requires !HasEntry(earlier, name)
    ensures Enters(earlier, EntriesAfter(earlier, earlier, j, name), Entry(name, j))
  {
    var e := Entry(name, j);
    EntriesGrowMore(earlier, earlier, j, name);
    EnteredFirst(earlier, EntriesAfter(earlier, earlier, j, name), e);
  }

  lemma {:induction false} EntriesGrowMore(earlier: seq<Entry>, labels: seq<Entry>, j: nat, name: seq<Byte>)
    requires !HasEntry(earlier, name)
    ensures Entered(labels, Entry(name, j)) <= EntriesAfter(earlier, labels, j, name)
  {
    var d, more := FirstDot(name), Entered(labels, Entry(name, j));
    if d < |name| {
      EntriesGrow(earlier, more, j + d + 1, name[d + 1..]);
      assert EntriesAfter(earlier, labels, j, name) == EntriesAfter(earlier, more, j + d + 1, name[d + 1..]);
    }
  }

  lemma EnteredFirst(earlier: seq<Entry>, after: seq<Entry>, e: Entry)
    requires Entered(earlier, e) <= after
    ensures Enters(earlier, after, e)
  {
  }
}
