/** DNS queries (RFC 1035, sections 4.1.1 and 4.1.2). */
module DnsMessages {
  import opened ByteSeqs
  import opened DnsNames
  import opened DnsLabels

  type U16 = x: nat | x < 0x1_0000
  type U32 = x: nat | x < 0x1_0000_0000

  /** What a C string can hold. */
  type Text = s: seq<Byte> | 0 !in s

  const NAME_BUF: nat := 256

  /** GET16 and GET32 */
  function Get16(p: seq<Byte>, j: nat): U16
    requires j + 2 <= |p|
  {
    var high: nat, low: nat := p[j], p[j + 1];
    high * 256 + low
  }

  function Get32(p: seq<Byte>, j: nat): U32
    requires j + 4 <= |p|
  {
    Get16(p, j) * 0x1_0000 + Get16(p, j + 2)
  }

  /** The string in a character array: what stands before the first zero. */
  function CString(s: seq<Byte>): Text {
    if s == [] || s[0] == 0 then [] else [s[0]] + CString(s[1..])
  }

  lemma {:induction false} CStringIs(s: Text)
    ensures CString(s) == s
  {
    if s != [] {
      CStringIs(s[1..]);
    }
  }

  /** What name_parse gives for the name at offset j and a buffer of outLen bytes: the dotted name and
      the offset after it. */
  ghost function NameAt(p: seq<Byte>, j: nat, outLen: nat): Option<(seq<Byte>, nat)> {
    var d := Decode(p, j, |p|);
    if d.Some? && |Join(d.value)| < outLen then Some((Join(d.value), NameEnd(p, j))) else None
  }

  method ParseName(p: seq<Byte>, j: nat, outLen: nat) returns (o: Option<(seq<Byte>, nat)>)
    ensures o == NameAt(p, j, outLen)
    ensures o.Some? ==> j < o.value.1 <= |p|
  {
    var ok, name, end := NameParse(p, j, outLen);
    o := if ok then Some((name, end)) else None;
  }

  /** A written name is read back, whatever follows it, up to its first empty label. */
  lemma NameReadBack(p: seq<Byte>, q: seq<Byte>, j: nat, name: seq<Byte>)
    requires p <= q && j <= |p| && |name| <= 255 && Reads(p, Entry(name, j), j)
    ensures NameAt(q, j, NAME_BUF).Some? && NameAt(q, j, NAME_BUF).value.0 == Join(Read(name))
    ensures Encodable(name) ==> NameAt(q, j, NAME_BUF) == Some((Undotted(name), |p|))
  {
    DecodePrefix(p, q, j, j, |q|);
    ReadIsShorter(name);
    if Encodable(name) {
      ReadAll(name);
      JoinLabels(name);
    }
  }

  datatype Question = Question(name: Text, qtype: U16, class_: U16)

  datatype Query = Query(id: U16, flags: U16, questions: seq<Question>)

  /** The flags RD and CD, that is flags & 0x0110. */
  function RdAndCd(flags: U16): U16 {
    flags / 0x100 % 2 * 0x100 + flags / 0x10 % 2 * 0x10
  }

  /** flags & 0x7800 */
  function Opcode(flags: U16): U16 {
    flags / 0x800 % 16
  }

  /** One question, and the offset after it. */
  ghost function QuestionAt(p: seq<Byte>, j: nat): Option<(Question, nat)> {
    var o := NameAt(p, j, NAME_BUF);
    if o.None? || o.value.1 + 4 > |p| then None
    else Some((Question(CString(o.value.0), Get16(p, o.value.1), Get16(p, o.value.1 + 2)), o.value.1 + 4))
  }

  /** The questions met before, and n more from offset j on. */
  ghost function QuestionsAfter(done: seq<Question>, p: seq<Byte>, j: nat, n: nat): Option<seq<Question>>
    decreases n
  {
    if n == 0 then Some(done)
    else
      var q := QuestionAt(p, j);
      if q.None? then None else QuestionsAfter(done + [q.value.0], p, q.value.1, n - 1)
  }

  method ParseQuestion(p: seq<Byte>, j: nat) returns (o: Option<(Question, nat)>)
    ensures o == QuestionAt(p, j)
  {
    var named := ParseName(p, j, NAME_BUF);
    if named.None? || named.value.1 + 4 > |p| {
      return None;
    }
    var k := named.value.1;
    return Some((Question(CString(named.value.0), Get16(p, k), Get16(p, k + 2)), k + 4));
  }

  /** The query in a packet: no answer, at least one question, and of the flags only RD and CD. */
  ghost function QueryOf(p: seq<Byte>): Option<Query> {
    if |p| < 12 || Get16(p, 2) >= 0x8000 || Get16(p, 4) == 0 then None
    else
      var qs := QuestionsAfter([], p, 12, Get16(p, 4));
      if qs.None? then None else Some(Query(Get16(p, 0), RdAndCd(Get16(p, 2)), qs.value))
  }

  /** request_parse. The opcode is looked for in flags that have already lost it, so no packet is refused
      for not being a standard query. */
  method RequestParse(p: seq<Byte>) returns (q: Option<Query>)
    ensures q == QueryOf(p)
  {
    if |p| < 12 {
      return None;
    }
    var id, flags, n := Get16(p, 0), Get16(p, 2), Get16(p, 4);
    if flags >= 0x8000 {
      return None;
    }
    var kept := RdAndCd(flags);
    if n == 0 {
      return None; // mm_calloc gives no memory for no elements
    }
    var questions: seq<Question>, i, j: nat := [], 0, 12;
    while i < n
      invariant i <= n && QuestionsAfter([], p, 12, n) == QuestionsAfter(questions, p, j, n - i)
    {
      var o := ParseQuestion(p, j);
      if o.None? {
        return None;
      }
      questions, j, i := questions + [o.value.0], o.value.1, i + 1;
    }
    if Opcode(kept) != 0 {
      return None;
    }
    q := Some(Query(id, kept, questions));
  }

  /** At offset j stands x. */
  ghost predicate Holds16(p: seq<Byte>, j: nat, x: nat) {
    j + 2 <= |p| && Get16(p, j) == x % 0x1_0000
  }

  ghost predicate Holds32(p: seq<Byte>, j: nat, x: nat) {
    j + 4 <= |p| && Get32(p, j) == x % 0x1_0000_0000
  }

  /** APPEND16 */
  method Put16(buf: array<Byte>, bufLen: nat, j: nat, x: nat) returns (ok: bool, next: nat)
    requires bufLen <= buf.Length && j <= buf.Length
    modifies buf
    ensures ok <==> j + 2 <= bufLen
    ensures next == if ok then j + 2 else j
    ensures buf[..j] == old(buf[..j]) && buf[bufLen..] == old(buf[bufLen..])
    ensures ok ==> Holds16(buf[..next], j, x)
  {
    ok, next := Append16(buf, bufLen, j, x);
  }

  /** Two numbers in a row. */
  method PutTwo16(buf: array<Byte>, bufLen: nat, j: nat, x: nat, y: nat) returns (ok: bool, next: nat)
    requires bufLen <= buf.Length && j <= buf.Length
    modifies buf
    ensures ok <==> j + 4 <= bufLen
    ensures next <= buf.Length && buf[..j] == old(buf[..j]) && buf[bufLen..] == old(buf[bufLen..])
    ensures ok ==> next == j + 4 && Holds16(buf[..next], j, x) && Holds16(buf[..next], j + 2, y)
  {
    ok, next := Put16(buf, bufLen, j, x);
    if ok {
      ghost var p := buf[..next];
      ok, next := Put16(buf, bufLen, next, y);
      assert buf[..j] == buf[..j + 2][..j] && p[..j] == old(buf[..j]);
      assert ok ==> buf[..next][j] == p[j] && buf[..next][j + 1] == p[j + 1];
    }
  }

  /** APPEND32 */
  method Put32(buf: array<Byte>, bufLen: nat, j: nat, x: nat) returns (ok: bool, next: nat)
    requires bufLen <= buf.Length && j <= buf.Length
    modifies buf
    ensures ok <==> j + 4 <= bufLen
    ensures next <= buf.Length && buf[..j] == old(buf[..j]) && buf[bufLen..] == old(buf[bufLen..])
    ensures ok ==> next == j + 4 && Holds32(buf[..next], j, x)
  {
    // the source checks for all four bytes before it writes any
    if j + 4 > bufLen {
      return false, j;
    }
    ok, next := PutTwo16(buf, bufLen, j, x / 0x1_0000, x);
  }

  /** The six numbers of a header. */
  ghost predicate HeaderIs(p: seq<Byte>, a: nat, b: nat, c: nat, d: nat, e: nat, f: nat) {
    && Holds16(p, 0, a) && Holds16(p, 2, b) && Holds16(p, 4, c)
    && Holds16(p, 6, d) && Holds16(p, 8, e) && Holds16(p, 10, f)
  }

  lemma HoldsPrefix(p: seq<Byte>, q: seq<Byte>, j: nat, x: nat)
    requires p <= q
    ensures Holds16(p, j, x) ==> Holds16(q, j, x)
    ensures Holds32(p, j, x) ==> Holds32(q, j, x)
  {
  }

  method PutHeader(buf: array<Byte>, bufLen: nat, a: nat, b: nat, c: nat, d: nat, e: nat, f: nat)
    requires 12 <= bufLen <= buf.Length
    modifies buf
    ensures HeaderIs(buf[..12], a, b, c, d, e, f) && buf[bufLen..] == old(buf[bufLen..])
  {
    var ok, j := PutTwo16(buf, bufLen, 0, a, b);
    ghost var p := buf[..j];
    ok, j := PutTwo16(buf, bufLen, j, c, d);
    HoldsPrefix(p, buf[..j], 0, a);
    HoldsPrefix(p, buf[..j], 2, b);
    p := buf[..j];
    ok, j := PutTwo16(buf, bufLen, j, e, f);
    HoldsPrefix(p, buf[..j], 0, a);
    HoldsPrefix(p, buf[..j], 2, b);
    HoldsPrefix(p, buf[..j], 4, c);
    HoldsPrefix(p, buf[..j], 6, d);
  }

  /** A question for a name, as it is read back. */
  ghost function Asked(q: Question): Question {
    q.(name := Undotted(q.name))
  }

  /** At offset j stands q, up to offset end. */
  ghost predicate QuestionIs(p: seq<Byte>, j: nat, q: Question, end: nat) {
    Encodable(q.name) ==> QuestionAt(p, j) == Some((Asked(q), end))
  }

  lemma NoZero(name: Text)
    ensures CString(Undotted(name)) == Undotted(name)
  {
    CStringIs(Undotted(name));
  }

  /** At offset j stands a name, up to offset end. */
  ghost predicate NameIs(p: seq<Byte>, j: nat, name: seq<Byte>, end: nat) {
    Encodable(name) ==> NameAt(p, j, NAME_BUF) == Some((Undotted(name), end))
  }

  /** A reader finds what is before the first empty label of the name, if there is one. */
  ghost predicate NameFound(p: seq<Byte>, j: nat, name: seq<Byte>) {
    NameAt(p, j, NAME_BUF).Some? && NameAt(p, j, NAME_BUF).value.0 == Join(Read(name))
  }

  /** So it finds the name if and only if that has no empty label, or is the dot. */
  lemma NameFoundIff(p: seq<Byte>, j: nat, name: seq<Byte>)
    requires NameFound(p, j, name)
    ensures NameAt(p, j, NAME_BUF).value.0 == Undotted(name) <==> NoEmptyLabel(name) || name == [DOT]
  {
    ReadBackIff(name);
  }

  /** A name, a type and a class, up to offset end. */
  ghost predicate HeadIs(p: seq<Byte>, j: nat, q: Question, end: nat) {
    && 4 <= end && NameIs(p, j, q.name, end - 4)
    && Holds16(p, end - 4, q.qtype) && Holds16(p, end - 2, q.class_)
  }

  lemma NameIsPrefix(p: seq<Byte>, q: seq<Byte>, j: nat, name: seq<Byte>, end: nat)
    requires p <= q && NameIs(p, j, name, end)
    ensures NameIs(q, j, name, end)
  {
    if Encodable(name) {
      DecodePrefix(p, q, j, |p|, |q|);
    }
  }

  lemma NameFoundPrefix(p: seq<Byte>, q: seq<Byte>, j: nat, name: seq<Byte>)
    requires p <= q && NameFound(p, j, name)
    ensures NameFound(q, j, name)
  {
    DecodePrefix(p, q, j, |p|, |q|);
  }

  lemma HeadIsPrefix(p: seq<Byte>, w: seq<Byte>, j: nat, q: Question, end: nat)
    requires p <= w && HeadIs(p, j, q, end)
    ensures HeadIs(w, j, q, end)
  {
    NameIsPrefix(p, w, j, q.name, end - 4);
    HoldsPrefix(p, w, end - 4, q.qtype);
    HoldsPrefix(p, w, end - 2, q.class_);
  }

  lemma HeadIsQuestion(p: seq<Byte>, j: nat, q: Question, end: nat)
    requires HeadIs(p, j, q, end)
    ensures QuestionIs(p, j, q, end)
  {
    NoZero(q.name);
  }

  /** A complete name after a message where the earlier entries hold. */
  lemma CompletesHere(p: seq<Byte>, w: seq<Byte>, earlier: seq<Entry>, labels: seq<Entry>, name: seq<Byte>)
    requires w <= p && |name| <= 255 && TableOk(w, earlier) && Completes(p, |w|, earlier, labels, name)
    ensures TableOk(p, labels) && NameIs(p, |w|, name, |p|) && NameFound(p, |w|, name)
  {
    assert w + p[|w|..] == p;
    assert Completed(p, |w|, labels, name);
    NameReadBack(p, p, |w|, name);
  }

  // ---------- where the pieces of a message end ----------

  /** A name; bytes that are written if there is room; bytes that are left for later, without asking for room. */
  datatype Piece = NamePiece(name: Text) | Bytes(n: nat) | Gap(n: nat)

  /** The offset after what was written, and the entries of the table; or a name could not be written, or there was
      no room for bytes. past: a zero went behind the usable bytes. */
  datatype Out =
    | At(j: nat, labels: seq<Entry>, past: bool)
    | NoName(past: bool)
    | NoRoom(past: bool)

  ghost function PieceOut(bufLen: nat, o: Out, p: Piece): Out {
    if !o.At? then o
    else
      match p
      case NamePiece(name) =>
        var r := if |name| > 255 then -2 else EndOf(o.labels, bufLen, o.j, name);
        if r < 0 then NoName(o.past) else At(r, EntriesAfter(o.labels, o.labels, o.j, name), o.past || r > bufLen)
      case Bytes(n) => if o.j + n > bufLen then NoRoom(o.past) else o.(j := o.j + n)
      case Gap(n) => o.(j := o.j + n)
  }

  /** What comes of the first n pieces. */
  ghost function Layout(bufLen: nat, o: Out, ps: seq<Piece>, n: nat): Out
    requires n <= |ps|
  {
    if n == 0 then o else PieceOut(bufLen, Layout(bufLen, o, ps, n - 1), ps[n - 1])
  }

  ghost predicate StepAt(bufLen: nat, ps: seq<Piece>, os: seq<Out>, i: nat)
    requires i < |ps| && i + 1 < |os|
  {
    os[i + 1] == PieceOut(bufLen, os[i], ps[i])
  }

  /** os are the states of the writer before and after each piece. */
  ghost predicate Path(bufLen: nat, ps: seq<Piece>, os: seq<Out>) {
    && |os| == |ps| + 1
    && forall i {:trigger StepAt(bufLen, ps, os, i)} :: 0 <= i < |ps| ==> StepAt(bufLen, ps, os, i)
  }

  /** Writing the pieces leads from o to r. */
  ghost predicate Leads(bufLen: nat, o: Out, ps: seq<Piece>, r: Out) {
    exists os {:trigger Path(bufLen, ps, os)} :: Path(bufLen, ps, os) && os[0] == o && os[|ps|] == r
  }

  lemma {:induction false} PathIsLayout(bufLen: nat, ps: seq<Piece>, os: seq<Out>, n: nat)
    requires Path(bufLen, ps, os) && n <= |ps|
    ensures os[n] == Layout(bufLen, os[0], ps, n)
  {
    if n > 0 {
      PathIsLayout(bufLen, ps, os, n - 1);
      assert StepAt(bufLen, ps, os, n - 1);
    }
  }

  lemma LeadsIsLayout(bufLen: nat, o: Out, ps: seq<Piece>, r: Out)
    requires Leads(bufLen, o, ps, r)
    ensures r == Layout(bufLen, o, ps, |ps|)
  {
    var os :| Path(bufLen, ps, os) && os[0] == o && os[|ps|] == r;
    PathIsLayout(bufLen, ps, os, |ps|);
  }

  lemma LeadsNowhere(bufLen: nat, o: Out)
    ensures Leads(bufLen, o, [], o)
  {
    assert Path(bufLen, [], [o]);
  }

  lemma LeadsOne(bufLen: nat, o: Out, p: Piece)
    ensures Leads(bufLen, o, [p], PieceOut(bufLen, o, p))
  {
    var os := [o, PieceOut(bufLen, o, p)];
    assert StepAt(bufLen, [p], os, 0);
    assert Path(bufLen, [p], os);
  }

  lemma LeadsOn(bufLen: nat, o: Out, a: seq<Piece>, m: Out, b: seq<Piece>, r: Out)
    requires Leads(bufLen, o, a, m) && Leads(bufLen, m, b, r)
    ensures Leads(bufLen, o, a + b, r)
  {
    var os :| Path(bufLen, a, os) && os[0] == o && os[|a|] == m;
    var ot :| Path(bufLen, b, ot) && ot[0] == m && ot[|b|] == r;
    var all := os + ot[1..];
    forall i | 0 <= i < |a + b| ensures StepAt(bufLen, a + b, all, i) {
      assert if i < |a| then StepAt(bufLen, a, os, i) else StepAt(bufLen, b, ot, i - |a|);
    }
    assert Path(bufLen, a + b, all);
  }

  /** After an error nothing more is written. */
  lemma LeadsStop(bufLen: nat, o: Out, a: seq<Piece>, r: Out, b: seq<Piece>)
    requires Leads(bufLen, o, a, r) && !r.At?
    ensures Leads(bufLen, o, a + b, r)
  {
    var os := seq(|b| + 1, _ => r);
    forall i | 0 <= i < |b| ensures StepAt(bufLen, b, os, i) {}
    assert Path(bufLen, b, os);
    LeadsOn(bufLen, o, a, r, b, r);
  }

  /** A name, a type and a class. */
  function HeadPieces(q: Question): seq<Piece> {
    [NamePiece(q.name), Bytes(4)]
  }

  /** The state of the writer: the offset, and the entries if there is a table. It is behind the usable bytes only
      if a zero went there. */
  ghost predicate IsAt(bufLen: nat, o: Out, j: int, table: LabelTable?)
    reads table
  {
    o.At? && o.j == j && (o.past <==> bufLen < j) && (table != null ==> o.labels == table.labels)
  }

  // ---------- the zero behind the usable bytes ----------

  /** Piece number i is a name that runs over where it is written. */
  ghost predicate RunsOverAt(bufLen: nat, o: Out, ps: seq<Piece>, i: nat)
    requires i < |ps|
  {
    var m := Layout(bufLen, o, ps, i);
    m.At? && ps[i].NamePiece? && RunsOver(m.labels, bufLen, m.j, ps[i].name)
  }

  lemma PastOne(bufLen: nat, o: Out, p: Piece)
    ensures PieceOut(bufLen, o, p).past <==>
            o.past || (o.At? && p.NamePiece? && RunsOver(o.labels, bufLen, o.j, p.name))
  {
    if o.At? && p.NamePiece? && |p.name| <= 255 {
      RunsOverIff(o.labels, bufLen, o.j, p.name);
    }
  }

  /** The zero went behind the usable bytes if and only if one of the pieces is a name that runs over where it is. */
  lemma {:induction false} PastIff(bufLen: nat, o: Out, ps: seq<Piece>, n: nat)
    requires n <= |ps|
    ensures Layout(bufLen, o, ps, n).past <==>
            o.past || exists i {:trigger RunsOverAt(bufLen, o, ps, i)} :: 0 <= i < n && RunsOverAt(bufLen, o, ps, i)
  {
    if n > 0 {
      PastIff(bufLen, o, ps, n - 1);
      PastOne(bufLen, Layout(bufLen, o, ps, n - 1), ps[n - 1]);
      assert RunsOverAt(bufLen, o, ps, n - 1) || !RunsOverAt(bufLen, o, ps, n - 1);
    }
  }

  /** From one state of the writer to a later one, the bytes behind the usable ones change from was to now: a zero
      goes there if that is what has come to pass. */
  ghost predicate Further(was: seq<Byte>, o0: Out, now: seq<Byte>, o: Out) {
    (o0.past ==> o.past) && now == Behind(was, o.past && !o0.past)
  }

  lemma FurtherOn(a: seq<Byte>, o0: Out, b: seq<Byte>, o1: Out, c: seq<Byte>, o2: Out)
    requires Further(a, o0, b, o1) && Further(b, o1, c, o2)
    ensures Further(a, o0, c, o2)
  {
  }

  /** The memory has one byte more than the usable ones, or the pieces do not need that. */
  ghost predicate Room(len: nat, bufLen: nat, o: Out, ps: seq<Piece>) {
    bufLen <= len && (Layout(bufLen, o, ps, |ps|).past ==> bufLen < len)
  }

  lemma {:induction false} LayoutLeads(bufLen: nat, o: Out, ps: seq<Piece>, n: nat)
    requires n <= |ps|
    ensures Leads(bufLen, o, ps[..n], Layout(bufLen, o, ps, n))
  {
    if n == 0 {
      LeadsNowhere(bufLen, o);
    } else {
      var m := Layout(bufLen, o, ps, n - 1);
      LayoutLeads(bufLen, o, ps, n - 1);
      LeadsOne(bufLen, m, ps[n - 1]);
      LeadsOn(bufLen, o, ps[..n - 1], m, [ps[n - 1]], PieceOut(bufLen, m, ps[n - 1]));
      assert ps[..n] == ps[..n - 1] + [ps[n - 1]];
    }
  }

  /** Memory for some pieces is memory for the first of them and, from where these lead, for the others. */
  lemma RoomOf(len: nat, bufLen: nat, o: Out, a: seq<Piece>, m: Out, b: seq<Piece>)
    requires Leads(bufLen, o, a, m) && Room(len, bufLen, o, a + b)
    ensures Room(len, bufLen, o, a) && Room(len, bufLen, m, b)
  {
    var r := Layout(bufLen, m, b, |b|);
    LayoutLeads(bufLen, m, b, |b|);
    assert b[..|b|] == b;
    LeadsOn(bufLen, o, a, m, b, r);
    LeadsIsLayout(bufLen, o, a + b, r);
    LeadsIsLayout(bufLen, o, a, m);
    PastIff(bufLen, m, b, |b|);
  }

  /** The same from the front. */
  lemma RoomOfFirst(len: nat, bufLen: nat, o: Out, a: seq<Piece>, b: seq<Piece>)
    requires Room(len, bufLen, o, a + b)
    ensures Room(len, bufLen, o, a)
  {
    LayoutLeads(bufLen, o, a, |a|);
    assert a[..|a|] == a;
    RoomOf(len, bufLen, o, a, Layout(bufLen, o, a, |a|), b);
  }

  lemma RoomOfName(len: nat, bufLen: nat, o: Out, name: Text)
    requires o.At? && Room(len, bufLen, o, [NamePiece(name)])
    ensures bufLen < len || !RunsOver(o.labels, bufLen, o.j, name)
  {
    LeadsOne(bufLen, o, NamePiece(name));
    LeadsIsLayout(bufLen, o, [NamePiece(name)], PieceOut(bufLen, o, NamePiece(name)));
    PastOne(bufLen, o, NamePiece(name));
  }

  // ---------- writing ----------

  /** Some bytes after other pieces. */
  lemma ThenBytes(bufLen: nat, o0: Out, a: seq<Piece>, o: Out, n: nat) returns (r: Out)
    requires Leads(bufLen, o0, a, o)
    ensures Leads(bufLen, o0, a + [Bytes(n)], r)
    ensures r == if !o.At? then o else if o.j + n > bufLen then NoRoom(o.past) else o.(j := o.j + n)
  {
    r := PieceOut(bufLen, o, Bytes(n));
    LeadsOne(bufLen, o, Bytes(n));
    LeadsOn(bufLen, o0, a, o, [Bytes(n)], r);
  }

  /** dnsname_to_labels, with the state of the writer. */
  method PutLabels(buf: array<Byte>, bufLen: nat, j: nat, name: Text, table: LabelTable?, ghost o0: Out)
    returns (r: int, ghost o: Out)
    requires j <= buf.Length && bufLen <= buf.Length && bufLen <= MAX_POINTER
    requires bufLen < buf.Length || !RunsOver(EntriesOf(table), bufLen, j, name)
    requires o0.At? && o0.j == j && o0.labels == EntriesOf(table) && (o0.past ==> bufLen < j)
    modifies buf, table
    ensures buf[..j] == old(buf[..j])
    ensures r >= 0 ==> j < r <= buf.Length && r <= bufLen + 1 && r <= j + |name| + 2 && |name| <= 255
    ensures r >= 0 ==> Completes(buf[..r], j, old(EntriesOf(table)), EntriesOf(table), name)
    ensures Encodable(name) && |name| <= 255 && j + |name| + 2 <= bufLen ==> r >= 0
    ensures Leads(bufLen, o0, [NamePiece(name)], o) && (if r < 0 then o.NoName? else IsAt(bufLen, o, r, table))
    ensures Further(old(buf[bufLen..]), o0, buf[bufLen..], o)
  {
    o := PieceOut(bufLen, o0, NamePiece(name));
    LeadsOne(bufLen, o0, NamePiece(name));
    PastOne(bufLen, o0, NamePiece(name));
    if bufLen < j { RefusedBehind(o0.labels, bufLen, j, name); }
    r := NameToLabels(buf, bufLen, j, name, table);
  }

  /** dnsname_to_labels, with what it means for a reader. */
  method PutName(buf: array<Byte>, bufLen: nat, j: nat, name: Text, table: LabelTable?, ghost o0: Out)
    returns (r: int, ghost o: Out)
    requires j <= buf.Length && bufLen <= buf.Length && bufLen <= MAX_POINTER
    requires bufLen < buf.Length || !RunsOver(EntriesOf(table), bufLen, j, name)
    requires o0.At? && o0.j == j && o0.labels == EntriesOf(table) && (o0.past ==> bufLen < j)
    requires TableOk(buf[..j], EntriesOf(table))
    modifies buf, table
    ensures buf[..j] == old(buf[..j])
    ensures r >= 0 ==> j < r <= buf.Length && r <= bufLen + 1 && r <= j + |name| + 2 && NameIs(buf[..r], j, name, r)
    ensures r >= 0 ==> TableOk(buf[..r], EntriesOf(table)) && NameFound(buf[..r], j, name)
    ensures Encodable(name) && |name| <= 255 && j + |name| + 2 <= bufLen ==> r >= 0
    ensures Leads(bufLen, o0, [NamePiece(name)], o) && (if r < 0 then o.NoName? else IsAt(bufLen, o, r, table))
    ensures Further(old(buf[bufLen..]), o0, buf[bufLen..], o)
  {
    ghost var before, earlier := buf[..j], EntriesOf(table);
    r, o := PutLabels(buf, bufLen, j, name, table, o0);
    if r >= 0 {
      CompletesHere(buf[..r], before, earlier, EntriesOf(table), name);
    }
  }

  /** The name stands there, and is found as far as it can be. */
  ghost predicate NameStands(p: seq<Byte>, j: nat, name: Text, end: nat) {
    NameIs(p, j, name, end) && NameFound(p, j, name)
  }

  /** Names one after another, offs[i] being the offset of names[i] and offs[|names|] the end. */
  ghost predicate NamesIn(p: seq<Byte>, names: seq<Text>, offs: seq<nat>) {
    |offs| == |names| + 1
    && forall i {:trigger NameStands(p, offs[i], names[i], offs[i + 1])} ::
         0 <= i < |names| ==> NameStands(p, offs[i], names[i], offs[i + 1])
  }

  lemma NamesInSnoc(p: seq<Byte>, q: seq<Byte>, names: seq<Text>, offs: seq<nat>, next: Text, end: nat)
    requires p <= q && NamesIn(p, names, offs) && NameStands(q, offs[|names|], next, end)
    ensures NamesIn(q, names + [next], offs + [end])
  {
    var t, ot := names + [next], offs + [end];
    forall i | 0 <= i < |t| ensures NameStands(q, ot[i], t[i], ot[i + 1]) {
      if i < |names| {
        assert NameStands(p, offs[i], names[i], offs[i + 1]);
        NameIsPrefix(p, q, offs[i], names[i], offs[i + 1]);
        NameFoundPrefix(p, q, offs[i], names[i]);
      }
    }
  }

  /** Names written one after another through one table, however many of their suffixes became
      pointers: reading at the offset of each gives that name and the offset of the next. */
  method PutNames(buf: array<Byte>, bufLen: nat, j: nat, names: seq<Text>, table: LabelTable)
    returns (ok: bool, r: int, ghost offs: seq<nat>)
    requires j <= buf.Length && bufLen < buf.Length && bufLen <= MAX_POINTER && TableOk(buf[..j], table.labels)
    modifies buf, table
    ensures ok ==> j <= r <= buf.Length && NamesIn(buf[..r], names, offs) && offs[0] == j && offs[|names|] == r
    ensures ok ==> TableOk(buf[..r], table.labels)
    ensures !ok ==>
              exists i :: 0 <= i < |names|
                && (!Encodable(names[i]) || |names[i]| > 255 || r + |names[i]| + 2 > bufLen)
  {
    r, offs := j, [j];
    var i := 0;
    while i < |names|
      invariant i <= |names| && j <= r <= buf.Length
      invariant NamesIn(buf[..r], names[..i], offs) && offs[0] == j && offs[i] == r
      invariant TableOk(buf[..r], table.labels)
    {
      ghost var p := buf[..r];
      var next, _ := PutName(buf, bufLen, r, names[i], table, At(r, table.labels, bufLen < r));
      if next < 0 {
        return false, r, offs;
      }
      r := next;
      assert buf[..r][..|p|] == p;
      NamesInSnoc(p, buf[..r], names[..i], offs, names[i], r);
      assert names[..i] + [names[i]] == names[..i + 1];
      offs := offs + [r];
      i := i + 1;
    }
    assert names[..i] == names;
    ok := true;
  }

  /** A name, a type and a class; r is negative if the name cannot be written. */
  method PutHead(buf: array<Byte>, bufLen: nat, j: nat, q: Question, table: LabelTable?, ghost o0: Out)
    returns (ok: bool, r: int, ghost o: Out)
    requires j <= buf.Length && bufLen <= buf.Length && bufLen <= MAX_POINTER
    requires bufLen < buf.Length || !RunsOver(EntriesOf(table), bufLen, j, q.name)
    requires o0.At? && o0.j == j && o0.labels == EntriesOf(table) && (o0.past ==> bufLen < j)
    requires TableOk(buf[..j], EntriesOf(table))
    modifies buf, table
    ensures buf[..j] == old(buf[..j])
    ensures ok ==> j < r <= bufLen && r <= j + |q.name| + 6 && HeadIs(buf[..r], j, q, r)
    ensures ok ==> TableOk(buf[..r], EntriesOf(table))
    ensures Encodable(q.name) && |q.name| <= 255 && j + |q.name| + 6 <= bufLen ==> ok
    ensures Encodable(q.name) && |q.name| <= 255 && j + |q.name| + 2 <= bufLen ==> r >= 0
    ensures Leads(bufLen, o0, HeadPieces(q), o)
    ensures if ok then IsAt(bufLen, o, r, table) else if r < 0 then o.NoName? else o.NoRoom?
    ensures Further(old(buf[bufLen..]), o0, buf[bufLen..], o)
  {
    r, o := PutName(buf, bufLen, j, q.name, table, o0);
    o := ThenBytes(bufLen, o0, [NamePiece(q.name)], o, 4);
    assert HeadPieces(q) == [NamePiece(q.name)] + [Bytes(4)];
    ok := r >= 0;
    if !ok {
      return;
    }
    ghost var p := buf[..r];
    var next: nat;
    ok, next := PutTwo16(buf, bufLen, r, q.qtype, q.class_);
    assert buf[..j] == p[..j];
    if ok {
      NameIsPrefix(p, buf[..next], j, q.name, r);
      TablePrefix(p, buf[..next], EntriesOf(table));
      r := next;
    }
  }

  lemma PastOfHead(bufLen: nat, o0: Out, q: Question, o: Out)
    requires o0.At? && Leads(bufLen, o0, HeadPieces(q), o)
    ensures o.past <==> o0.past || RunsOver(o0.labels, bufLen, o0.j, q.name)
  {
    LeadsIsLayout(bufLen, o0, HeadPieces(q), o);
    PastOne(bufLen, o0, NamePiece(q.name));
    assert Layout(bufLen, o0, HeadPieces(q), 0) == o0;
    assert Layout(bufLen, o0, HeadPieces(q), 1) == PieceOut(bufLen, o0, NamePiece(q.name));
  }

  /** A query for one question is read back: the id, RD alone of the flags, and the question. */
  lemma OneQuestionReadBack(p: seq<Byte>, q: seq<Byte>, id: U16, question: Question)
    requires p <= q && |p| == 12 && HeaderIs(p, id, 0x0100, 1, 0, 0, 0)
    requires Encodable(question.name) && HeadIs(q, 12, question, |q|)
    ensures QueryOf(q) == Some(Query(id, 0x0100, [Asked(question)]))
  {
    assert Get16(q, 0) == Get16(p, 0) && Get16(q, 2) == Get16(p, 2) && Get16(q, 4) == Get16(p, 4);
    HeadIsQuestion(q, 12, question, |q|);
    assert QuestionsAfter([Asked(question)], q, |q|, 0) == Some([Asked(question)]);
    assert [] + [Asked(question)] == [Asked(question)];
  }

  /** evdns_request_data_build: the length of the query, or a negative number. */
  method RequestDataBuild(name: Text, id: U16, qtype: U16, class_: U16, buf: array<Byte>, bufLen: nat) returns (r: int)
    requires 12 <= bufLen <= MAX_POINTER
    requires bufLen < buf.Length || (bufLen == buf.Length && !RunsOver([], bufLen, 12, name))
    modifies buf
    ensures r >= 0 && Encodable(name) ==>
              r <= bufLen && QueryOf(buf[..r]) == Some(Query(id, 0x0100, [Question(Undotted(name), qtype, class_)]))
    ensures Encodable(name) && |name| <= 255 && |name| + 18 <= bufLen ==> r >= 0
    ensures buf[bufLen..] == Behind(old(buf[bufLen..]), RunsOver([], bufLen, 12, name))
  {
    PutHeader(buf, bufLen, id, 0x0100, 1, 0, 0, 0);
    ghost var p := buf[..12];
    var question := Question(name, qtype, class_);
    var ok;
    ghost var o;
    ok, r, o := PutHead(buf, bufLen, 12, question, null, At(12, [], false));
    PastOfHead(bufLen, At(12, [], false), question, o);
    if !ok {
      return if r < 0 then r else -1;
    }
    if Encodable(name) {
      assert p == buf[..r][..12];
      OneQuestionReadBack(p, buf[..r], id, question);
    }
  }
}
