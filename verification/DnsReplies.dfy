/** DNS replies (RFC 1035, sections 4.1.1 and 4.1.3): writing them. */
module DnsReplies {
  import opened ByteSeqs
  import opened DnsNames
  import opened DnsLabels
  import opened DnsMessages

  const REPLY_BUF: nat := 1500
  const MAX_REPLY: nat := 512

  /** As many bytes as a record can carry. */
  type RawBytes = s: seq<Byte> | |s| < 0x1_0000

  /** What a resource record carries: bytes, or a name that is written like any other. */
  datatype Data = Raw(bytes: RawBytes) | Named(target: Text)

  /** struct server_reply_item */
  datatype Item = Item(name: Text, rtype: U16, class_: U16, ttl: U32, data: Data) {
    function Head(): Question {
      Question(name, rtype, class_)
    }

    ghost predicate Sound() {
      Encodable(name) && |name| <= 255
      && match data
         case Raw(_) => true
         case Named(target) => Encodable(target) && |target| <= 255
    }

    /** The most bytes the record can take. */
    function Size(): nat {
      |name| + 12 + match data case Raw(bytes) => |bytes| case Named(target) => |target| + 2
    }
  }

  // ---------- what a message holds ----------

  /** A record's data, from offset j up to offset end. */
  ghost predicate DataIs(p: seq<Byte>, j: nat, data: Data, end: nat) {
    match data
    case Raw(bytes) => end == j + |bytes| <= |p| && p[j..end] == bytes
    case Named(target) => NameIs(p, j, target, end)
  }

  /** A record whose name ends before offset k, from offset j up to offset end. */
  ghost predicate RecordIs(p: seq<Byte>, j: nat, it: Item, k: nat, end: nat) {
    && HeadIs(p, j, it.Head(), k) && k + 6 <= end <= |p| && Holds32(p, k, it.ttl)
    && Holds16(p, k + 4, end - k - 6) && DataIs(p, k + 6, it.data, end)
  }

  ghost predicate RecordAt(p: seq<Byte>, j: nat, it: Item, end: nat) {
    exists k: nat {:trigger RecordIs(p, j, it, k, end)} :: RecordIs(p, j, it, k, end)
  }

  /** Questions one after another; the next offset is that of whatever follows. */
  ghost predicate QuestionsIn(p: seq<Byte>, qs: seq<Question>, offs: seq<nat>) {
    |offs| == |qs| + 1
    && forall i {:trigger HeadIs(p, offs[i], qs[i], offs[i + 1])} ::
         0 <= i < |qs| ==> HeadIs(p, offs[i], qs[i], offs[i + 1])
  }

  ghost predicate RecordsIn(p: seq<Byte>, items: seq<Item>, offs: seq<nat>) {
    |offs| == |items| + 1
    && forall i {:trigger RecordAt(p, offs[i], items[i], offs[i + 1])} ::
         0 <= i < |items| ==> RecordAt(p, offs[i], items[i], offs[i + 1])
  }

  /** The flags of a response: the request's, with the answer bit, and the error put into the last four bits. */
  function ResponseFlags(flags: U16, err: nat): U16
    requires err < 16
  {
    0x8000 + flags / 16 % 0x800 * 16 + ((flags % 16) as bv4 | err as bv4) as nat
  }

  /** flags & 0x0200: the message was truncated */
  predicate Truncated(flags: U16) {
    flags / 0x200 % 2 == 1
  }

  /** A response. */
  datatype Response = Response(id: U16, flags: U16, questions: seq<Question>,
                               answers: seq<Item>, authority: seq<Item>, additional: seq<Item>) {
    function Items(): seq<Item> {
      answers + authority + additional
    }

    /** What it says about itself in the header. */
    ghost predicate HeaderOf(p: seq<Byte>, flagged: U16) {
      HeaderIs(p, id, flagged, |questions|, |answers|, |authority|, |additional|)
    }
  }

  /** The message p is all of r, record by record up to its end. */
  ghost predicate MessageIs(p: seq<Byte>, r: Response, qoffs: seq<nat>, offs: seq<nat>) {
    && r.HeaderOf(p, r.flags) && QuestionsIn(p, r.questions, qoffs) && RecordsIn(p, r.Items(), offs)
    && qoffs[0] == 12 && offs[0] == qoffs[|r.questions|] && offs[|r.Items()|] == |p|
  }

  /** The first questions, or records, as far as p goes; each stands there in just the bytes up to its end. */
  ghost predicate QuestionStands(p: seq<Byte>, j: nat, q: Question, end: nat) {
    end <= |p| && HeadIs(p[..end], j, q, end)
  }

  ghost predicate QuestionsStand(p: seq<Byte>, qs: seq<Question>, offs: seq<nat>) {
    && 0 < |offs| <= |qs| + 1 && offs[0] == 12
    && forall i {:trigger QuestionStands(p, offs[i], qs[i], offs[i + 1])} ::
         0 <= i < |offs| - 1 ==> QuestionStands(p, offs[i], qs[i], offs[i + 1])
  }

  ghost predicate RecordStands(p: seq<Byte>, j: nat, it: Item, end: nat) {
    end <= |p| && RecordAt(p[..end], j, it, end)
  }

  ghost predicate RecordsStand(p: seq<Byte>, items: seq<Item>, offs: seq<nat>, first: nat) {
    && 0 < |offs| <= |items| + 1 && offs[0] == first
    && forall i {:trigger RecordStands(p, offs[i], items[i], offs[i + 1])} ::
         0 <= i < |offs| - 1 ==> RecordStands(p, offs[i], items[i], offs[i + 1])
  }

  lemma {:induction false} QuestionsStandOn(p: seq<Byte>, q: seq<Byte>, qs: seq<Question>, more: seq<Question>,
                                            offs: seq<nat>)
    requires p <= q && qs <= more && QuestionsStand(p, qs, offs)
    ensures QuestionsStand(q, more, offs)
  {
    forall i | 0 <= i < |offs| - 1 ensures QuestionStands(q, offs[i], more[i], offs[i + 1]) {
      assert QuestionStands(p, offs[i], qs[i], offs[i + 1]) && q[..offs[i + 1]] == p[..offs[i + 1]];
    }
  }

  lemma {:induction false} RecordsStandOn(p: seq<Byte>, q: seq<Byte>, items: seq<Item>, more: seq<Item>,
                                          offs: seq<nat>, first: nat)
    requires p <= q && items <= more && RecordsStand(p, items, offs, first)
    ensures RecordsStand(q, more, offs, first)
  {
    forall i | 0 <= i < |offs| - 1 ensures RecordStands(q, offs[i], more[i], offs[i + 1]) {
      assert RecordStands(p, offs[i], items[i], offs[i + 1]) && q[..offs[i + 1]] == p[..offs[i + 1]];
    }
  }

  lemma {:induction false} QuestionsStandSnoc(p: seq<Byte>, q: seq<Byte>, qs: seq<Question>, offs: seq<nat>,
                                              next: Question)
    requires p <= q && QuestionsStand(p, qs, offs) && |offs| == |qs| + 1 && HeadIs(q, offs[|qs|], next, |q|)
    ensures QuestionsStand(q, qs + [next], offs + [|q|])
  {
    var ot, t := offs + [|q|], qs + [next];
    QuestionsStandOn(p, q, qs, t, offs);
    assert q[..|q|] == q;
    forall i | 0 <= i < |ot| - 1 ensures QuestionStands(q, ot[i], t[i], ot[i + 1]) {
      if i < |offs| - 1 { assert QuestionStands(q, offs[i], t[i], offs[i + 1]); }
    }
  }

  lemma {:induction false} RecordsStandSnoc(p: seq<Byte>, q: seq<Byte>, items: seq<Item>, offs: seq<nat>, next: Item,
                                            first: nat)
    requires p <= q && RecordsStand(p, items, offs, first) && |offs| == |items| + 1
    requires RecordAt(q, offs[|items|], next, |q|)
    ensures RecordsStand(q, items + [next], offs + [|q|], first)
  {
    var ot, t := offs + [|q|], items + [next];
    RecordsStandOn(p, q, items, t, offs, first);
    assert q[..|q|] == q;
    forall i | 0 <= i < |ot| - 1 ensures RecordStands(q, ot[i], t[i], ot[i + 1]) {
      if i < |offs| - 1 { assert RecordStands(q, offs[i], t[i], offs[i + 1]); }
    }
  }

  /** Of the questions and records written, those that end within p stand there. */
  ghost predicate StandWithin(p: seq<Byte>, rsp: Response, qoffs: seq<nat>, offs: seq<nat>) {
    && |qoffs| <= |rsp.questions| + 1 && |offs| <= |rsp.Items()| + 1
    && (forall i {:trigger qoffs[i]} :: 0 <= i < |qoffs| - 1 && qoffs[i + 1] <= |p| ==>
          QuestionStands(p, qoffs[i], rsp.questions[i], qoffs[i + 1]))
    && (forall i {:trigger offs[i]} :: 0 <= i < |offs| - 1 && offs[i + 1] <= |p| ==>
          RecordStands(p, offs[i], rsp.Items()[i], offs[i + 1]))
  }

  lemma {:induction false} StandCut(q: seq<Byte>, w: seq<Byte>, p: seq<Byte>, rsp: Response, qoffs: seq<nat>,
                                    offs: seq<nat>, first: nat)
    requires QuestionsStand(q, rsp.questions, qoffs) && q <= w && (p <= w || w <= p)
    requires offs == [] || RecordsStand(w, rsp.Items(), offs, first)
    ensures StandWithin(p, rsp, qoffs, offs)
  {
    forall i | 0 <= i < |qoffs| - 1 && qoffs[i + 1] <= |p|
      ensures QuestionStands(p, qoffs[i], rsp.questions[i], qoffs[i + 1]) {
      assert QuestionStands(q, qoffs[i], rsp.questions[i], qoffs[i + 1]);
      assert p[..qoffs[i + 1]] == q[..qoffs[i + 1]];
    }
    forall i | 0 <= i < |offs| - 1 && offs[i + 1] <= |p| ensures RecordStands(p, offs[i], rsp.Items()[i], offs[i + 1]) {
      assert RecordStands(w, offs[i], rsp.Items()[i], offs[i + 1]);
      assert p[..offs[i + 1]] == w[..offs[i + 1]];
    }
  }

  lemma DataIsPrefix(p: seq<Byte>, q: seq<Byte>, j: nat, data: Data, end: nat)
    requires p <= q && DataIs(p, j, data, end)
    ensures DataIs(q, j, data, end)
  {
    match data
    case Raw(bytes) => assert q[j..end] == p[j..end];
    case Named(target) => NameIsPrefix(p, q, j, target, end);
  }

  lemma RecordIsPrefix(p: seq<Byte>, q: seq<Byte>, j: nat, it: Item, k: nat, end: nat)
    requires p <= q && RecordIs(p, j, it, k, end)
    ensures RecordIs(q, j, it, k, end)
  {
    HeadIsPrefix(p, q, j, it.Head(), k);
    HoldsPrefix(p, q, k, it.ttl);
    HoldsPrefix(p, q, k + 4, end - k - 6);
    DataIsPrefix(p, q, k + 6, it.data, end);
  }

  lemma QuestionsInSnoc(p: seq<Byte>, q: seq<Byte>, qs: seq<Question>, offs: seq<nat>, next: Question, end: nat)
    requires p <= q && QuestionsIn(p, qs, offs) && HeadIs(q, offs[|qs|], next, end)
    ensures QuestionsIn(q, qs + [next], offs + [end])
  {
    var qt, ot := qs + [next], offs + [end];
    forall i | 0 <= i < |qt| ensures HeadIs(q, ot[i], qt[i], ot[i + 1]) {
      if i < |qs| {
        assert HeadIs(p, offs[i], qs[i], offs[i + 1]);
        HeadIsPrefix(p, q, offs[i], qs[i], offs[i + 1]);
      }
    }
  }

  lemma RecordsInSnoc(p: seq<Byte>, q: seq<Byte>, items: seq<Item>, offs: seq<nat>, next: Item, end: nat)
    requires p <= q && RecordsIn(p, items, offs) && RecordAt(q, offs[|items|], next, end)
    ensures RecordsIn(q, items + [next], offs + [end])
  {
    var t, ot := items + [next], offs + [end];
    forall i | 0 <= i < |t| ensures RecordAt(q, ot[i], t[i], ot[i + 1]) {
      if i < |items| {
        assert RecordAt(p, offs[i], items[i], offs[i + 1]);
        var k :| RecordIs(p, offs[i], items[i], k, offs[i + 1]);
        RecordIsPrefix(p, q, offs[i], items[i], k, offs[i + 1]);
      }
    }
  }

  lemma QuestionsInPrefix(p: seq<Byte>, q: seq<Byte>, qs: seq<Question>, offs: seq<nat>)
    requires p <= q && QuestionsIn(p, qs, offs)
    ensures QuestionsIn(q, qs, offs)
  {
    forall i | 0 <= i < |qs| ensures HeadIs(q, offs[i], qs[i], offs[i + 1]) {
      assert HeadIs(p, offs[i], qs[i], offs[i + 1]);
      HeadIsPrefix(p, q, offs[i], qs[i], offs[i + 1]);
    }
  }

  // ---------- where everything ends ----------

  function DataPieces(data: Data): seq<Piece> {
    match data
    case Raw(bytes) => [Bytes(2), Bytes(|bytes|)]
    case Named(target) => [Gap(2), NamePiece(target)]
  }

  function ItemPieces(it: Item): seq<Piece> {
    HeadPieces(it.Head()) + [Bytes(4)] + DataPieces(it.data)
  }

  ghost function ItemsPieces(items: seq<Item>, n: nat): seq<Piece>
    requires n <= |items|
  {
    if n == 0 then [] else ItemsPieces(items, n - 1) + ItemPieces(items[n - 1])
  }

  ghost function QuestionsPieces(qs: seq<Question>, n: nat): seq<Piece>
    requires n <= |qs|
  {
    if n == 0 then [] else QuestionsPieces(qs, n - 1) + HeadPieces(qs[n - 1])
  }

  /** Where the writer of a response is after the questions, and after everything. */
  ghost function QuestionsEnd(rsp: Response): Out {
    var ps := QuestionsPieces(rsp.questions, |rsp.questions|);
    Layout(REPLY_BUF, At(12, [], false), ps, |ps|)
  }

  /** All that comes after the header. */
  ghost function ResponsePieces(rsp: Response): seq<Piece> {
    QuestionsPieces(rsp.questions, |rsp.questions|) + ItemsPieces(rsp.Items(), |rsp.Items()|)
  }

  ghost function ResponseEnd(rsp: Response): Out {
    Layout(REPLY_BUF, At(12, [], false), ResponsePieces(rsp), |ResponsePieces(rsp)|)
  }

  lemma {:induction false} ItemsStop(bufLen: nat, o: Out, items: seq<Item>, i: nat, n: nat, r: Out)
    requires i <= n <= |items| && Leads(bufLen, o, ItemsPieces(items, i), r) && !r.At?
    ensures Leads(bufLen, o, ItemsPieces(items, n), r)
  {
    if i < n {
      ItemsStop(bufLen, o, items, i, n - 1, r);
      LeadsStop(bufLen, o, ItemsPieces(items, n - 1), r, ItemPieces(items[n - 1]));
    }
  }

  lemma {:induction false} QuestionsStop(bufLen: nat, o: Out, qs: seq<Question>, i: nat, n: nat, r: Out)
    requires i <= n <= |qs| && Leads(bufLen, o, QuestionsPieces(qs, i), r) && !r.At?
    ensures Leads(bufLen, o, QuestionsPieces(qs, n), r)
  {
    if i < n {
      QuestionsStop(bufLen, o, qs, i, n - 1, r);
      LeadsStop(bufLen, o, QuestionsPieces(qs, n - 1), r, HeadPieces(qs[n - 1]));
    }
  }

  lemma {:induction false} ItemsPiecesConcat(a: seq<Item>, b: seq<Item>, n: nat)
    requires n <= |b|
    ensures ItemsPieces(a + b, |a| + n) == ItemsPieces(a, |a|) + ItemsPieces(b, n)
  {
    if n > 0 {
      ItemsPiecesConcat(a, b, n - 1);
    } else {
      ItemsPiecesTake(a, b, |a|);
    }
  }

  lemma {:induction false} ItemsPiecesTake(a: seq<Item>, b: seq<Item>, n: nat)
    requires n <= |a|
    ensures ItemsPieces(a + b, n) == ItemsPieces(a, n)
  {
    if n > 0 {
      ItemsPiecesTake(a, b, n - 1);
    }
  }

  /** One section after others. */
  lemma {:induction false} SectionLeads(bufLen: nat, o: Out, a: seq<Item>, m: Out, b: seq<Item>, r: Out)
    requires Leads(bufLen, o, ItemsPieces(a, |a|), m) && Leads(bufLen, m, ItemsPieces(b, |b|), r)
    ensures Leads(bufLen, o, ItemsPieces(a + b, |a + b|), r)
  {
    ItemsPiecesConcat(a, b, |b|);
    LeadsOn(bufLen, o, ItemsPieces(a, |a|), m, ItemsPieces(b, |b|), r);
  }

  lemma {:induction false} SectionStops(bufLen: nat, o: Out, a: seq<Item>, r: Out, b: seq<Item>)
    requires Leads(bufLen, o, ItemsPieces(a, |a|), r) && !r.At?
    ensures Leads(bufLen, o, ItemsPieces(a + b, |a + b|), r)
  {
    ItemsPiecesConcat(a, b, |b|);
    LeadsStop(bufLen, o, ItemsPieces(a, |a|), r, ItemsPieces(b, |b|));
  }

  // ---------- writing ----------

  /** Room for the length, and the name. */
  lemma NameAfterGap(bufLen: nat, o0: Out, target: Text, o: Out)
    requires o0.At? && Leads(bufLen, o0.(j := o0.j + 2), [NamePiece(target)], o)
    ensures Leads(bufLen, o0, DataPieces(Named(target)), o)
  {
    LeadsOne(bufLen, o0, Gap(2));
    LeadsOn(bufLen, o0, [Gap(2)], o0.(j := o0.j + 2), [NamePiece(target)], o);
    assert DataPieces(Named(target)) == [Gap(2)] + [NamePiece(target)];
  }

  lemma RoomAfterGap(len: nat, bufLen: nat, o0: Out, target: Text)
    requires o0.At? && Room(len, bufLen, o0, DataPieces(Named(target)))
    ensures bufLen < len || !RunsOver(o0.labels, bufLen, o0.j + 2, target)
  {
    LeadsOne(bufLen, o0, Gap(2));
    assert DataPieces(Named(target)) == [Gap(2)] + [NamePiece(target)];
    RoomOf(len, bufLen, o0, [Gap(2)], o0.(j := o0.j + 2), [NamePiece(target)]);
    RoomOfName(len, bufLen, o0.(j := o0.j + 2), target);
  }

  lemma RawOut(bufLen: nat, o0: Out, bytes: RawBytes) returns (o: Out)
    requires o0.At?
    ensures Leads(bufLen, o0, DataPieces(Raw(bytes)), o)
    ensures o == if o0.j + 2 + |bytes| > bufLen then NoRoom(o0.past) else o0.(j := o0.j + 2 + |bytes|)
  {
    LeadsNowhere(bufLen, o0);
    o := ThenBytes(bufLen, o0, [], o0, 2);
    o := ThenBytes(bufLen, o0, [] + [Bytes(2)], o, |bytes|);
    assert DataPieces(Raw(bytes)) == [] + [Bytes(2)] + [Bytes(|bytes|)];
  }

  /** The length of what was written from k + 2 to r. */
  method FillLength(buf: array<Byte>, ghost bufLen: nat, k: nat, r: nat)
    requires k + 2 <= r <= buf.Length && k + 2 <= bufLen <= buf.Length && r <= bufLen + 1 && bufLen <= MAX_POINTER
    modifies buf
    ensures buf[..k] == old(buf[..k]) && buf[bufLen..] == old(buf[bufLen..])
    ensures Holds16(buf[..r], k, r - k - 2) && buf[..r][k + 2..] == old(buf[..r][k + 2..])
  {
    var len := r - k - 2;
    buf[k], buf[k + 1] := len / 256, len % 256;
  }

  /** Behind the usable bytes no name is written. */
  lemma NameRefused(bufLen: nat, o0: Out, target: Text) returns (o: Out)
    requires o0.At? && bufLen < o0.j + 2
    ensures o.NoName? && o.past == o0.past && Leads(bufLen, o0, DataPieces(Named(target)), o)
    ensures !(Encodable(target) && |target| <= 255 && o0.j + |target| + 4 <= bufLen)
  {
    o := PieceOut(bufLen, o0.(j := o0.j + 2), NamePiece(target));
    RefusedBehind(o0.labels, bufLen, o0.j + 2, target);
    LeadsOne(bufLen, o0.(j := o0.j + 2), NamePiece(target));
    NameAfterGap(bufLen, o0, target, o);
  }

  /** The name behind the length is complete, and so are the entries. */
  lemma NameDataDone(q: seq<Byte>, before: seq<Byte>, earlier: seq<Entry>, labels: seq<Entry>, target: Text)
    requires before <= q && |before| + 2 <= |q| && TableOk(before, earlier) && |target| <= 255
    requires Completes(q, |before| + 2, earlier, labels, target)
    ensures TableOk(q, labels) && NameIs(q, |before| + 2, target, |q|)
  {
    var w := q[..|before| + 2];
    TablePrefix(before, w, earlier);
    CompletesHere(q, w, earlier, labels, target);
  }

  /** The data of a record that is a name, after two bytes for its length that are filled in afterwards. */
  method PutNameData(buf: array<Byte>, bufLen: nat, k: nat, target: Text, table: LabelTable, ghost o0: Out)
    returns (r: int, ghost o: Out)
    requires k <= bufLen <= MAX_POINTER && IsAt(bufLen, o0, k, table)
    requires Room(buf.Length, bufLen, o0, DataPieces(Named(target))) && TableOk(buf[..k], table.labels)
    modifies buf, table
    ensures buf[..k] == old(buf[..k])
    ensures r >= 0 ==> k + 2 <= r <= bufLen + 1 && r <= buf.Length && r <= k + |target| + 4
    ensures r >= 0 ==> Holds16(buf[..r], k, r - k - 2) && NameIs(buf[..r], k + 2, target, r)
    ensures r >= 0 ==> TableOk(buf[..r], table.labels)
    ensures Encodable(target) && |target| <= 255 && k + |target| + 4 <= bufLen ==> r >= 0
    ensures Leads(bufLen, o0, DataPieces(Named(target)), o) && (if r < 0 then o.NoName? else IsAt(bufLen, o, r, table))
    ensures Further(old(buf[bufLen..]), o0, buf[bufLen..], o)
  {
    ghost var before, earlier := buf[..k], table.labels;
    RoomAfterGap(buf.Length, bufLen, o0, target);
    if k + 2 > buf.Length {
      // whatever the name, there is no room for it
      r := -2;
      o := NameRefused(bufLen, o0, target);
      return;
    }
    r, o := PutLabels(buf, bufLen, k + 2, target, table, o0.(j := k + 2));
    NameAfterGap(bufLen, o0, target, o);
    assert buf[..k] == buf[..k + 2][..k] && before == old(buf[..k + 2])[..k];
    if r >= 0 {
      CloseNameData(buf, bufLen, k, r, target, before, earlier, table.labels);
    }
  }

  /** The length of a name that is complete. */
  method CloseNameData(buf: array<Byte>, ghost bufLen: nat, k: nat, r: nat, ghost target: Text,
                       ghost before: seq<Byte>, ghost earlier: seq<Entry>, ghost labels: seq<Entry>)
    requires k + 2 <= r <= buf.Length && k + 2 <= bufLen <= buf.Length && r <= bufLen + 1 && bufLen <= MAX_POINTER
    requires buf[..k] == before && TableOk(before, earlier) && |target| <= 255
    requires Completes(buf[..r], k + 2, earlier, labels, target)
    modifies buf
    ensures buf[..k] == before && buf[bufLen..] == old(buf[bufLen..])
    ensures Holds16(buf[..r], k, r - k - 2) && NameIs(buf[..r], k + 2, target, r) && TableOk(buf[..r], labels)
  {
    ghost var p := buf[..r];
    FillLength(buf, bufLen, k, r);
    ghost var q := buf[..r];
    assert q[..k] == before;
    CompletesSame(p, q, k + 2, earlier, labels, target);
    NameDataDone(q, before, earlier, labels, target);
  }

  /** What completes a name is behind it. */
  lemma CompletesSame(p: seq<Byte>, q: seq<Byte>, at: nat, earlier: seq<Entry>, labels: seq<Entry>, target: Text)
    requires Completes(p, at, earlier, labels, target) && |q| == |p| && q[at..] == p[at..]
    ensures Completes(q, at, earlier, labels, target)
  {
  }

  method PutRawData(buf: array<Byte>, bufLen: nat, k: nat, bytes: RawBytes) returns (ok: bool, r: nat)
    requires bufLen <= buf.Length && k <= bufLen
    modifies buf
    ensures buf[..k] == old(buf[..k]) && buf[bufLen..] == old(buf[bufLen..])
    ensures ok <==> k + 2 + |bytes| <= bufLen
    ensures ok ==> r == k + 2 + |bytes| && Holds16(buf[..r], k, |bytes|) && buf[..r][k + 2..r] == bytes
  {
    ok, r := Put16(buf, bufLen, k, |bytes|);
    if !ok || r + |bytes| > bufLen {
      return false, r;
    }
    ghost var p, behind := buf[..r], buf[bufLen..];
    forall i | 0 <= i < |bytes| {
      buf[r + i] := bytes[i];
    }
    assert buf[..r] == p && buf[..k] == p[..k] && buf[bufLen..] == behind;
    r := r + |bytes|;
    HoldsPrefix(p, buf[..r], k, |bytes|);
  }

  /** The length and the data of a record, at the end of a message. */
  ghost predicate DataStands(w: seq<Byte>, at: nat, data: Data) {
    at + 2 <= |w| && Holds16(w, at, |w| - at - 2) && DataIs(w, at + 2, data, |w|)
  }

  method PutData(buf: array<Byte>, bufLen: nat, k: nat, data: Data, table: LabelTable, ghost o0: Out)
    returns (ok: bool, r: int, ghost o: Out)
    requires k <= bufLen <= MAX_POINTER && IsAt(bufLen, o0, k, table)
    requires Room(buf.Length, bufLen, o0, DataPieces(data)) && TableOk(buf[..k], table.labels)
    modifies buf, table
    ensures buf[..k] == old(buf[..k])
    ensures ok ==> k + 2 <= r <= bufLen + 1 && r <= buf.Length
    ensures ok ==> DataStands(buf[..r], k, data) && TableOk(buf[..r], table.labels)
    ensures ok ==> r <= k + 2 + match data case Raw(bytes) => |bytes| case Named(target) => |target| + 2
    ensures data.Raw? && k + 2 + |data.bytes| <= bufLen ==> ok
    ensures data.Named? && Encodable(data.target) && |data.target| <= 255 && k + 4 + |data.target| <= bufLen ==> ok
    ensures Leads(bufLen, o0, DataPieces(data), o) && (if ok then IsAt(bufLen, o, r, table) else !o.At?)
    ensures Further(old(buf[bufLen..]), o0, buf[bufLen..], o)
  {
    match data
    case Raw(bytes) =>
      o := RawOut(bufLen, o0, bytes);
      ghost var before := buf[..k];
      ok, r := PutRawData(buf, bufLen, k, bytes);
      if ok {
        TablePrefix(before, buf[..r], table.labels);
      }
    case Named(target) =>
      r, o := PutNameData(buf, bufLen, k, target, table, o0);
      ok := r >= 0;
  }

  /** The first piece of a record is its name. */
  lemma RoomOfItem(len: nat, bufLen: nat, o: Out, it: Item)
    requires o.At? && Room(len, bufLen, o, ItemPieces(it))
    ensures bufLen < len || !RunsOver(o.labels, bufLen, o.j, it.name)
  {
    var rest := [Bytes(4)] + [Bytes(4)] + DataPieces(it.data);
    assert ItemPieces(it) == [NamePiece(it.name)] + rest;
    RoomOfFirst(len, bufLen, o, [NamePiece(it.name)], rest);
    RoomOfName(len, bufLen, o, it.name);
  }

  /** The name, type, class and time to live of a record, at the end of a message; k is where the last of these is. */
  ghost predicate FrontStands(q: seq<Byte>, j: nat, it: Item, k: nat) {
    |q| == k + 4 && HeadIs(q, j, it.Head(), k) && Holds32(q, k, it.ttl)
  }

  method PutFront(buf: array<Byte>, bufLen: nat, j: nat, it: Item, table: LabelTable, ghost o0: Out)
    returns (ok: bool, r: int, ghost k: nat, ghost o: Out)
    requires j <= buf.Length && j <= bufLen + 1 && bufLen <= MAX_POINTER && IsAt(bufLen, o0, j, table)
    requires Room(buf.Length, bufLen, o0, ItemPieces(it)) && TableOk(buf[..j], table.labels)
    modifies buf, table
    ensures buf[..j] == old(buf[..j])
    ensures ok ==> j < k && k + 4 == r <= bufLen && r <= j + |it.name| + 10
    ensures ok ==> FrontStands(buf[..r], j, it, k) && TableOk(buf[..r], table.labels)
    ensures it.Sound() && j + |it.name| + 10 <= bufLen ==> ok
    ensures Leads(bufLen, o0, HeadPieces(it.Head()) + [Bytes(4)], o)
    ensures if ok then IsAt(bufLen, o, r, table) else !o.At?
    ensures Further(old(buf[bufLen..]), o0, buf[bufLen..], o)
  {
    RoomOfItem(buf.Length, bufLen, o0, it);
    ok, r, o := PutHead(buf, bufLen, j, it.Head(), table, o0);
    o := ThenBytes(bufLen, o0, HeadPieces(it.Head()), o, 4);
    k := if ok then r else 0;
    if !ok {
      return;
    }
    ghost var p := buf[..r];
    ok, r := Put32(buf, bufLen, r, it.ttl);
    assert buf[..j] == buf[..k][..j] == p[..j];
    if ok {
      assert buf[..r][..k] == p;
      HeadIsPrefix(p, buf[..r], j, it.Head(), k);
      TablePrefix(p, buf[..r], table.labels);
    }
  }

  lemma RecordDone(q: seq<Byte>, w: seq<Byte>, j: nat, it: Item, k: nat)
    requires q <= w && FrontStands(q, j, it, k)
    requires DataStands(w, |q|, it.data)
    ensures RecordAt(w, j, it, |w|)
  {
    HeadIsPrefix(q, w, j, it.Head(), k);
    HoldsPrefix(q, w, k, it.ttl);
    assert RecordIs(w, j, it, k, |w|);
  }

  /** One round of the loop over a section. */
  method PutItem(buf: array<Byte>, bufLen: nat, j: nat, it: Item, table: LabelTable, ghost o0: Out)
    returns (ok: bool, r: int, ghost o: Out)
    requires j <= buf.Length && j <= bufLen + 1 && bufLen <= MAX_POINTER && IsAt(bufLen, o0, j, table)
    requires Room(buf.Length, bufLen, o0, ItemPieces(it)) && TableOk(buf[..j], table.labels)
    modifies buf, table
    ensures buf[..j] == old(buf[..j])
    ensures ok ==> j <= r <= bufLen + 1 && r <= buf.Length && r <= j + it.Size() && RecordAt(buf[..r], j, it, r)
    ensures ok ==> TableOk(buf[..r], table.labels)
    ensures it.Sound() && j + it.Size() <= bufLen ==> ok
    ensures Leads(bufLen, o0, ItemPieces(it), o) && (if ok then IsAt(bufLen, o, r, table) else !o.At?)
    ensures Further(old(buf[bufLen..]), o0, buf[bufLen..], o)
  {
    ghost var k, front, before := 0, HeadPieces(it.Head()) + [Bytes(4)], buf[..j];
    ok, r, k, o := PutFront(buf, bufLen, j, it, table, o0);
    if !ok {
      LeadsStop(bufLen, o0, front, o, DataPieces(it.data));
      return;
    }
    assert before == buf[..r][..j];
    RoomOf(buf.Length, bufLen, o0, front, o, DataPieces(it.data));
    ok, r, o := PutRest(buf, bufLen, j, it, table, r, k, o0, old(buf[bufLen..]), before, o);
  }

  /** What comes behind the front of a record. */
  method PutRest(buf: array<Byte>, bufLen: nat, j: nat, it: Item, table: LabelTable, at: nat, ghost k: nat,
                 ghost o0: Out, ghost was: seq<Byte>, ghost before: seq<Byte>, ghost o1: Out)
    returns (ok: bool, r: int, ghost o: Out)
    requires j <= at <= bufLen <= MAX_POINTER && bufLen <= buf.Length && IsAt(bufLen, o1, at, table)
    requires TableOk(buf[..at], table.labels)
    requires Room(buf.Length, bufLen, o1, DataPieces(it.data)) && FrontStands(buf[..at], j, it, k)
    requires |before| == j && before <= buf[..at] && Further(was, o0, buf[bufLen..], o1)
    requires Leads(bufLen, o0, HeadPieces(it.Head()) + [Bytes(4)], o1)
    modifies buf, table
    ensures buf[..j] == before
    ensures ok ==> at <= r <= bufLen + 1 && r <= buf.Length && RecordAt(buf[..r], j, it, r)
    ensures ok ==> TableOk(buf[..r], table.labels) && r <= at + it.Size() - |it.name| - 10
    ensures it.Sound() && at + it.Size() - |it.name| - 10 <= bufLen ==> ok
    ensures Leads(bufLen, o0, ItemPieces(it), o) && (if ok then IsAt(bufLen, o, r, table) else !o.At?)
    ensures Further(was, o0, buf[bufLen..], o)
  {
    ghost var q, tail := buf[..at], buf[bufLen..];
    ok, r, o := PutData(buf, bufLen, at, it.data, table, o1);
    LeadsOn(bufLen, o0, HeadPieces(it.Head()) + [Bytes(4)], o1, DataPieces(it.data), o);
    FurtherOn(was, o0, tail, o1, buf[bufLen..], o);
    PrefixKept(before, q, buf);
    if ok {
      ghost var w := buf[..r];
      assert w[..|q|] == q;
      RecordDone(q, w, j, it, k);
    }
  }

  /** The most bytes that the first n of some records, or questions, can take. */
  ghost function ItemsSize(items: seq<Item>, n: nat): nat
    requires n <= |items|
  {
    if n == 0 then 0 else ItemsSize(items, n - 1) + items[n - 1].Size()
  }

  ghost function QuestionsSize(qs: seq<Question>, n: nat): nat
    requires n <= |qs|
  {
    if n == 0 then 0 else QuestionsSize(qs, n - 1) + |qs[n - 1].name| + 6
  }

  lemma {:induction false} ItemsSizeConcat(a: seq<Item>, b: seq<Item>, n: nat)
    requires n <= |b|
    ensures ItemsSize(a + b, |a| + n) == ItemsSize(a, |a|) + ItemsSize(b, n)
  {
    if n > 0 {
      ItemsSizeConcat(a, b, n - 1);
    } else {
      ItemsSizeTake(a, b, |a|);
    }
  }

  lemma {:induction false} ItemsSizeTake(a: seq<Item>, b: seq<Item>, n: nat)
    requires n <= |a|
    ensures ItemsSize(a + b, n) == ItemsSize(a, n)
  {
    if n > 0 {
      ItemsSizeTake(a, b, n - 1);
    }
  }

  ghost predicate AllSound(items: seq<Item>) {
    forall i {:trigger items[i]} :: 0 <= i < |items| ==> items[i].Sound()
  }

  ghost predicate QuestionsSound(qs: seq<Question>) {
    forall i {:trigger qs[i]} :: 0 <= i < |qs| ==> Encodable(qs[i].name) && |qs[i].name| <= 255
  }

  lemma RoomInside(len: nat, bufLen: nat, o0: Out, a: seq<Piece>, o: Out, b: seq<Piece>, c: seq<Piece>)
    requires Room(len, bufLen, o0, a + b + c) && Leads(bufLen, o0, a, o)
    ensures Room(len, bufLen, o, b)
  {
    RoomOfFirst(len, bufLen, o0, a + b, c);
    RoomOf(len, bufLen, o0, a, o, b);
  }

  lemma {:induction false} QuestionsRoom(len: nat, bufLen: nat, o0: Out, qs: seq<Question>, i: nat, n: nat, o: Out)
    requires i < n <= |qs| && Room(len, bufLen, o0, QuestionsPieces(qs, n))
    requires Leads(bufLen, o0, QuestionsPieces(qs, i), o)
    requires o.At?
    ensures bufLen < len || !RunsOver(o.labels, bufLen, o.j, qs[i].name)
  {
    if i < n - 1 {
      RoomOfFirst(len, bufLen, o0, QuestionsPieces(qs, n - 1), HeadPieces(qs[n - 1]));
      QuestionsRoom(len, bufLen, o0, qs, i, n - 1, o);
    } else {
      RoomOf(len, bufLen, o0, QuestionsPieces(qs, i), o, HeadPieces(qs[i]));
      assert HeadPieces(qs[i]) == [NamePiece(qs[i].name)] + [Bytes(4)];
      RoomOfFirst(len, bufLen, o, [NamePiece(qs[i].name)], [Bytes(4)]);
      RoomOfName(len, bufLen, o, qs[i].name);
    }
  }

  lemma {:induction false} ItemsRoom(len: nat, bufLen: nat, o0: Out, items: seq<Item>, i: nat, n: nat, o: Out)
    requires i < n <= |items| && Room(len, bufLen, o0, ItemsPieces(items, n))
    requires Leads(bufLen, o0, ItemsPieces(items, i), o)
    ensures Room(len, bufLen, o, ItemPieces(items[i]))
  {
    if i < n - 1 {
      RoomOfFirst(len, bufLen, o0, ItemsPieces(items, n - 1), ItemPieces(items[n - 1]));
      ItemsRoom(len, bufLen, o0, items, i, n - 1, o);
    } else {
      RoomOf(len, bufLen, o0, ItemsPieces(items, i), o, ItemPieces(items[i]));
    }
  }

  /** The first n questions, or records, can be written from offset at to offset end, even without any pointers. */
  ghost predicate QuestionsFit(qs: seq<Question>, n: nat, at: int, end: int) {
    n <= |qs| && QuestionsSound(qs[..n]) && at + QuestionsSize(qs, n) <= end
  }

  ghost predicate ItemsFit(items: seq<Item>, n: nat, at: int, end: int) {
    n <= |items| && AllSound(items[..n]) && at + ItemsSize(items, n) <= end
  }

  /** More than k - 1 questions, or records, do not fit. */
  ghost predicate QuestionsTo(qs: seq<Question>, at: int, end: int, k: int) {
    forall n: nat {:trigger QuestionsFit(qs, n, at, end)} :: QuestionsFit(qs, n, at, end) ==> n < k
  }

  ghost predicate ItemsTo(items: seq<Item>, at: int, end: int, k: int) {
    forall n: nat {:trigger ItemsFit(items, n, at, end)} :: ItemsFit(items, n, at, end) ==> n < k
  }

  lemma {:induction false} QuestionsStopAt(qs: seq<Question>, i: nat, at: int, end: int)
    requires i < |qs|
    requires !(Encodable(qs[i].name) && |qs[i].name| <= 255 && at + QuestionsSize(qs, i) + |qs[i].name| + 6 <= end)
    ensures QuestionsTo(qs, at, end, i + 1)
  {
    forall n: nat {:trigger QuestionsFit(qs, n, at, end)} | QuestionsFit(qs, n, at, end) ensures n < i + 1 {
      if i < n { QuestionFits(qs, i, n, at, end); }
    }
  }

  lemma {:induction false} ItemsToEnd(items: seq<Item>, at: int, end: int)
    ensures ItemsTo(items, at, end, |items| + 1)
  {
  }

  lemma {:induction false} ItemsStopAt(items: seq<Item>, i: nat, at: int, end: int)
    requires i < |items| && !(items[i].Sound() && at + ItemsSize(items, i + 1) <= end)
    ensures ItemsTo(items, at, end, i + 1)
  {
    forall n: nat {:trigger ItemsFit(items, n, at, end)} | ItemsFit(items, n, at, end) ensures n < i + 1 {
      if i < n { ItemFits(items, i, n, at, end); }
    }
  }

  lemma {:induction false} QuestionFits(qs: seq<Question>, i: nat, n: nat, at: int, end: int)
    requires i < n && QuestionsFit(qs, n, at, end)
    ensures Encodable(qs[i].name) && |qs[i].name| <= 255 && at + QuestionsSize(qs, i) + |qs[i].name| + 6 <= end
  {
    assert qs[..n][i] == qs[i];
    QuestionsSizeGrows(qs, i + 1, n);
  }

  lemma {:induction false} ItemFits(items: seq<Item>, i: nat, n: nat, at: int, end: int)
    requires i < n && ItemsFit(items, n, at, end)
    ensures items[i].Sound() && at + ItemsSize(items, i + 1) <= end
  {
    assert items[..n][i] == items[i];
    ItemsSizeGrows(items, i + 1, n);
  }

  /** One more question. */
  method PutQuestion(buf: array<Byte>, bufLen: nat, j: nat, q: Question, table: LabelTable, ghost qs: seq<Question>,
                     ghost offs0: seq<nat>, ghost o0: Out)
    returns (ok: bool, r: int, ghost offs: seq<nat>, ghost o: Out)
    requires 12 <= j <= bufLen <= buf.Length && bufLen <= MAX_POINTER
    requires bufLen < buf.Length || !RunsOver(table.labels, bufLen, j, q.name)
    requires IsAt(bufLen, o0, j, table) && TableOk(buf[..j], table.labels)
    requires QuestionsIn(buf[..j], qs, offs0) && offs0[|qs|] == j && QuestionsStand(buf[..j], qs, offs0)
    modifies buf, table
    ensures buf[..12] == old(buf[..12])
    ensures ok ==> 12 <= r <= bufLen && r <= j + |q.name| + 6 && TableOk(buf[..r], table.labels)
    ensures ok ==> QuestionsIn(buf[..r], qs + [q], offs) && offs[0] == offs0[0] && offs[|qs| + 1] == r
    ensures if ok then QuestionsStand(buf[..r], qs + [q], offs) else offs == offs0 && QuestionsStand(buf[..j], qs, offs)
    ensures Encodable(q.name) && |q.name| <= 255 && j + |q.name| + 6 <= bufLen ==> ok
    ensures Leads(bufLen, o0, HeadPieces(q), o)
    ensures if ok then IsAt(bufLen, o, r, table) else if r < 0 then o.NoName? else o.NoRoom?
    ensures Further(old(buf[bufLen..]), o0, buf[bufLen..], o)
  {
    ghost var before, p := buf[..12], buf[..j];
    assert before == p[..12];
    ok, r, o := PutHead(buf, bufLen, j, q, table, o0);
    PrefixKept(before, p, buf);
    offs := offs0;
    if ok {
      assert buf[..r][..j] == p;
      QuestionsInSnoc(p, buf[..r], qs, offs0, q, r);
      QuestionsStandSnoc(p, buf[..r], qs, offs0, q);
      offs := offs0 + [r];
    }
  }

  lemma {:induction false} OneMoreQuestion(qs: seq<Question>, i: nat)
    requires i < |qs|
    ensures qs[..i] + [qs[i]] == qs[..i + 1]
    ensures QuestionsPieces(qs, i + 1) == QuestionsPieces(qs, i) + HeadPieces(qs[i])
    ensures QuestionsSize(qs, i + 1) == QuestionsSize(qs, i) + |qs[i].name| + 6
    ensures QuestionsSize(qs, i + 1) <= QuestionsSize(qs, |qs|)
  {
    QuestionsSizeGrows(qs, i + 1, |qs|);
  }

  /** The loop over the questions. */
  method PutQuestions(buf: array<Byte>, bufLen: nat, qs: seq<Question>, table: LabelTable, ghost o0: Out)
    returns (ok: bool, r: int, ghost offs: seq<nat>, ghost o: Out)
    requires 12 <= bufLen <= buf.Length && bufLen <= MAX_POINTER && TableOk(buf[..12], table.labels)
    requires IsAt(bufLen, o0, 12, table) && Room(buf.Length, bufLen, o0, QuestionsPieces(qs, |qs|))
    modifies buf, table
    ensures buf[..12] == old(buf[..12])
    ensures ok ==> 12 <= r <= bufLen && r <= 12 + QuestionsSize(qs, |qs|) && TableOk(buf[..r], table.labels)
    ensures ok ==> QuestionsIn(buf[..r], qs, offs) && offs[0] == 12 && offs[|qs|] == r
    ensures 0 < |offs| && offs[|offs| - 1] <= buf.Length && QuestionsStand(buf[..offs[|offs| - 1]], qs, offs)
    ensures QuestionsTo(qs, 12, bufLen, |offs|) && (ok <==> |offs| == |qs| + 1)
    ensures QuestionsSound(qs) && 12 + QuestionsSize(qs, |qs|) <= bufLen ==> ok
    ensures Leads(bufLen, o0, QuestionsPieces(qs, |qs|), o)
    ensures if ok then IsAt(bufLen, o, r, table) else if r < 0 then o.NoName? else o.NoRoom?
    ensures Further(old(buf[bufLen..]), o0, buf[bufLen..], o)
  {
    r, offs, o := 12, [12], o0;
    LeadsNowhere(bufLen, o0);
    var i := 0;
    while i < |qs|
      invariant i <= |qs| && 12 <= r <= bufLen && buf[..12] == old(buf[..12])
      invariant r <= 12 + QuestionsSize(qs, i) && TableOk(buf[..r], table.labels)
      invariant QuestionsIn(buf[..r], qs[..i], offs) && offs[0] == 12 && offs[i] == r
      invariant QuestionsStand(buf[..r], qs[..i], offs)
      invariant Leads(bufLen, o0, QuestionsPieces(qs, i), o) && IsAt(bufLen, o, r, table)
      invariant buf[bufLen..] == old(buf[bufLen..])
    {
      QuestionsRoom(buf.Length, bufLen, o0, qs, i, |qs|, o);
      ghost var o1, j := o, r;
      OneMoreQuestion(qs, i);
      ok, r, offs, o := PutQuestion(buf, bufLen, r, qs[i], table, qs[..i], offs, o);
      LeadsOn(bufLen, o0, QuestionsPieces(qs, i), o1, HeadPieces(qs[i]), o);
      if !ok {
        QuestionsStop(bufLen, o0, qs, i + 1, |qs|, o);
        QuestionsStandOn(buf[..j], buf[..j], qs[..i], qs, offs);
        QuestionsStopAt(qs, i, 12, bufLen);
        return;
      }
      i := i + 1;
    }
    assert qs[..i] == qs;
    ok := true;
  }

  lemma {:induction false} QuestionsSizeGrows(qs: seq<Question>, i: nat, n: nat)
    requires i <= n <= |qs|
    ensures QuestionsSize(qs, i) <= QuestionsSize(qs, n)
  {
    if i < n {
      QuestionsSizeGrows(qs, i, n - 1);
    }
  }

  lemma {:induction false} ItemsSizeGrows(items: seq<Item>, i: nat, n: nat)
    requires i <= n <= |items|
    ensures ItemsSize(items, i) <= ItemsSize(items, n)
  {
    if i < n {
      ItemsSizeGrows(items, i, n - 1);
    }
  }

  /** The records items stand in the message, the first one at offset first, up to its end. */
  ghost predicate AllWritten(p: seq<Byte>, labels: seq<Entry>, items: seq<Item>, offs: seq<nat>, first: nat) {
    && RecordsIn(p, items, offs) && offs[0] == first && offs[|items|] == |p| && TableOk(p, labels)
    && RecordsStand(p, items, offs, first)
  }

  /** One more record. */
  method PutNext(buf: array<Byte>, bufLen: nat, j: nat, it: Item, table: LabelTable, ghost done: seq<Item>,
                 ghost offs0: seq<nat>, ghost first: nat, ghost o0: Out)
    returns (ok: bool, r: int, ghost offs: seq<nat>, ghost o: Out)
    requires j <= buf.Length && j <= bufLen + 1 && bufLen <= MAX_POINTER && IsAt(bufLen, o0, j, table)
    requires Room(buf.Length, bufLen, o0, ItemPieces(it)) && AllWritten(buf[..j], table.labels, done, offs0, first)
    modifies buf, table
    ensures buf[..j] == old(buf[..j])
    ensures ok ==> j <= r <= bufLen + 1 && r <= buf.Length && r <= j + it.Size()
    ensures ok ==> AllWritten(buf[..r], table.labels, done + [it], offs, first)
    ensures !ok ==> offs == offs0
    ensures it.Sound() && j + it.Size() <= bufLen ==> ok
    ensures Leads(bufLen, o0, ItemPieces(it), o) && (if ok then IsAt(bufLen, o, r, table) else !o.At?)
    ensures Further(old(buf[bufLen..]), o0, buf[bufLen..], o)
  {
    ghost var p := buf[..j];
    ok, r, o := PutItem(buf, bufLen, j, it, table, o0);
    offs := offs0;
    if ok {
      assert buf[..r][..j] == p;
      RecordsInSnoc(p, buf[..r], done, offs0, it, r);
      RecordsStandSnoc(p, buf[..r], done, offs0, it, first);
      offs := offs0 + [r];
    }
  }

  /** The first i records of a section are written behind the bytes before: p is the message so far, tail what is
      behind the usable bytes. */
  ghost predicate HalfwayTo(p: seq<Byte>, tail: seq<Byte>, bufLen: nat, before: seq<Byte>, was: seq<Byte>,
                            items: seq<Item>, i: nat, labels: seq<Entry>, done: seq<Item>, offs: seq<nat>,
                            first: nat, o0: Out, o: Out)
    requires i <= |items|
  {
    && before <= p && |p| <= bufLen + 1 && |p| <= |before| + ItemsSize(items, i)
    && AllWritten(p, labels, done + items[..i], offs, first)
    && Leads(bufLen, o0, ItemsPieces(items, i), o) && Further(was, o0, tail, o)
  }

  ghost predicate Halfway(buf: array<Byte>, bufLen: nat, before: seq<Byte>, was: seq<Byte>, items: seq<Item>, i: nat,
                          table: LabelTable, done: seq<Item>, offs: seq<nat>, first: nat, o0: Out, o: Out, r: int)
    requires i <= |items|
    reads buf, table
  {
    && 0 <= r <= buf.Length && bufLen <= buf.Length && IsAt(bufLen, o, r, table)
    && HalfwayTo(buf[..r], buf[bufLen..], bufLen, before, was, items, i, table.labels, done, offs, first, o0, o)
  }

  lemma {:induction false} RoundDone(p: seq<Byte>, tail: seq<Byte>, q: seq<Byte>, now: seq<Byte>, bufLen: nat,
                                     before: seq<Byte>, was: seq<Byte>, items: seq<Item>, i: nat, labels: seq<Entry>,
                                     later: seq<Entry>, done: seq<Item>, offs0: seq<nat>, offs: seq<nat>,
                                     first: nat, o0: Out, o1: Out, o: Out)
    requires i < |items|
    requires HalfwayTo(p, tail, bufLen, before, was, items, i, labels, done, offs0, first, o0, o1)
    requires p <= q && |q| <= bufLen + 1 && |q| <= |p| + items[i].Size()
    requires AllWritten(q, later, done + items[..i] + [items[i]], offs, first)
    requires Leads(bufLen, o1, ItemPieces(items[i]), o) && Further(tail, o1, now, o)
    ensures HalfwayTo(q, now, bufLen, before, was, items, i + 1, later, done, offs, first, o0, o)
  {
    LeadsOn(bufLen, o0, ItemsPieces(items, i), o1, ItemPieces(items[i]), o);
    FurtherOn(was, o0, tail, o1, now, o);
    OneMoreItem(done, items, i);
  }

  lemma {:induction false} RoundFails(p: seq<Byte>, tail: seq<Byte>, now: seq<Byte>, bufLen: nat, before: seq<Byte>,
                                      was: seq<Byte>, items: seq<Item>, i: nat, labels: seq<Entry>, done: seq<Item>,
                                      offs: seq<nat>, first: nat, o0: Out, o1: Out, o: Out)
    requires i < |items|
    requires HalfwayTo(p, tail, bufLen, before, was, items, i, labels, done, offs, first, o0, o1)
    requires !(items[i].Sound() && |p| + items[i].Size() <= bufLen) && !o.At?
    requires Leads(bufLen, o1, ItemPieces(items[i]), o) && Further(tail, o1, now, o)
    ensures BrokenAt(p, now, bufLen, before, was, items, done, offs, first, o0, o)
  {
    LeadsOn(bufLen, o0, ItemsPieces(items, i), o1, ItemPieces(items[i]), o);
    FurtherOn(was, o0, tail, o1, now, o);
    OneMoreItem(done, items, i);
    ItemsStop(bufLen, o0, items, i + 1, |items|, o);
    ItemsStopAt(items, i, |before|, bufLen);
    ItemsSizeGrows(items, i + 1, |items|);
    RecordsStandOn(p, p, done + items[..i], done + items, offs, first);
  }

  /** One round of the loop over a section. */
  method PutRoundOf(buf: array<Byte>, bufLen: nat, ghost before: seq<Byte>, ghost was: seq<Byte>, items: seq<Item>,
                    i: nat, table: LabelTable, ghost done: seq<Item>, ghost offs0: seq<nat>, ghost first: nat,
                    ghost o0: Out, ghost o1: Out, j: nat)
    returns (ok: bool, r: int, ghost offs: seq<nat>, ghost o: Out)
    requires i < |items| && bufLen <= MAX_POINTER && Room(buf.Length, bufLen, o0, ItemsPieces(items, |items|))
    requires Halfway(buf, bufLen, before, was, items, i, table, done, offs0, first, o0, o1, j)
    modifies buf, table
    ensures ok ==> Halfway(buf, bufLen, before, was, items, i + 1, table, done, offs, first, o0, o, r)
    ensures !ok ==> Broken(buf, bufLen, before, was, items, done, offs, first, o0, o)
  {
    ghost var p, tail, labels := buf[..j], buf[bufLen..], table.labels;
    ItemsRoom(buf.Length, bufLen, o0, items, i, |items|, o1);
    ok, r, offs, o := PutNext(buf, bufLen, j, items[i], table, done + items[..i], offs0, first, o1);
    ghost var now := buf[bufLen..];
    if ok {
      assert p == buf[..r][..j];
      RoundDone(p, tail, buf[..r], now, bufLen, before, was, items, i, labels, table.labels, done, offs0, offs, first,
                o0, o1, o);
    } else {
      RoundFails(p, tail, now, bufLen, before, was, items, i, labels, done, offs, first, o0, o1, o);
    }
  }

  /** A record could not be written: those before it stand there, up to the end of p, and it is the first that does
      not fit. */
  ghost predicate BrokenAt(p: seq<Byte>, tail: seq<Byte>, bufLen: nat, before: seq<Byte>, was: seq<Byte>,
                           items: seq<Item>, done: seq<Item>, offs: seq<nat>, first: nat, o0: Out, o: Out)
  {
    && before <= p && RecordsStand(p, done + items, offs, first) && offs[|offs| - 1] == |p|
    && |done| < |offs| <= |done + items| && ItemsTo(items, |before|, bufLen, |offs| - |done|)
    && Leads(bufLen, o0, ItemsPieces(items, |items|), o) && !o.At? && Further(was, o0, tail, o)
    && !(AllSound(items) && |before| + ItemsSize(items, |items|) <= bufLen)
  }

  ghost predicate Broken(buf: array<Byte>, bufLen: nat, before: seq<Byte>, was: seq<Byte>, items: seq<Item>,
                         done: seq<Item>, offs: seq<nat>, first: nat, o0: Out, o: Out)
    reads buf
  {
    && bufLen <= buf.Length && 0 < |offs| && offs[|offs| - 1] <= buf.Length
    && BrokenAt(buf[..offs[|offs| - 1]], buf[bufLen..], bufLen, before, was, items, done, offs, first, o0, o)
  }

  /** The records up to the last offset stand in the buffer. */
  ghost predicate StoppedAt(buf: array<Byte>, items: seq<Item>, offs: seq<nat>, first: nat)
    reads buf
  {
    0 < |offs| && offs[|offs| - 1] <= buf.Length && RecordsStand(buf[..offs[|offs| - 1]], items, offs, first)
  }

  lemma PrefixKept(before: seq<Byte>, p: seq<Byte>, buf: array<Byte>)
    requires before <= p && |p| <= buf.Length && buf[..|p|] == p
    ensures buf[..|before|] == before
  {
    assert buf[..|before|] == buf[..|p|][..|before|];
  }

  lemma {:induction false} OneMoreItem(done: seq<Item>, items: seq<Item>, i: nat)
    requires i < |items|
    ensures done + items[..i] + [items[i]] == done + items[..i + 1]
    ensures ItemsPieces(items, i + 1) == ItemsPieces(items, i) + ItemPieces(items[i])
    ensures ItemsSize(items, i + 1) == ItemsSize(items, i) + items[i].Size()
  {
  }

  /** The loop over one section; done are the records of the sections before. */
  method PutItems(buf: array<Byte>, bufLen: nat, j0: nat, items: seq<Item>, table: LabelTable,
                  ghost done: seq<Item>, ghost offs0: seq<nat>, ghost first: nat, ghost o0: Out)
    returns (ok: bool, r: int, ghost offs: seq<nat>, ghost o: Out)
    requires j0 <= buf.Length && j0 <= bufLen + 1 && bufLen <= MAX_POINTER && IsAt(bufLen, o0, j0, table)
    requires Room(buf.Length, bufLen, o0, ItemsPieces(items, |items|))
    requires AllWritten(buf[..j0], table.labels, done, offs0, first)
    modifies buf, table
    ensures ok ==> Halfway(buf, bufLen, old(buf[..j0]), old(buf[bufLen..]), items, |items|, table, done, offs, first,
                           o0, o, r)
    ensures !ok ==> Broken(buf, bufLen, old(buf[..j0]), old(buf[bufLen..]), items, done, offs, first, o0, o)
  {
    r, offs, o := j0, offs0, o0;
    ghost var was, before := buf[bufLen..], buf[..j0];
    HalfwayBegins(buf, bufLen, before, was, items, table, done, offs, first, o0, j0);
    ok := true;
    var i := 0;
    while i < |items|
      invariant ok && i <= |items|
      invariant ok <==> Halfway(buf, bufLen, before, was, items, i, table, done, offs, first, o0, o, r)
    {
      ok, r, offs, o := PutRoundOf(buf, bufLen, before, was, items, i, table, done, offs, first, o0, o, r);
      if !ok {
        return;
      }
      i := i + 1;
    }
  }

  lemma HalfwayBegins(buf: array<Byte>, bufLen: nat, before: seq<Byte>, was: seq<Byte>, items: seq<Item>,
                      table: LabelTable, done: seq<Item>, offs: seq<nat>, first: nat, o0: Out, j0: nat)
    requires j0 <= buf.Length && j0 <= bufLen + 1 && bufLen <= buf.Length && IsAt(bufLen, o0, j0, table)
    requires AllWritten(buf[..j0], table.labels, done, offs, first) && before == buf[..j0] && was == buf[bufLen..]
    ensures Halfway(buf, bufLen, before, was, items, 0, table, done, offs, first, o0, o0, j0)
  {
    LeadsNowhere(bufLen, o0);
    assert done + items[..0] == done;
  }

  /** flags | 0x0200 */
  function SetTruncated(flags: U16): U16 {
    if Truncated(flags) then flags else flags + 0x200
  }

  /** The flags of a packet. */
  function FlagsOf(p: seq<Byte>): U16 {
    if |p| >= 4 then Get16(p, 2) else 0
  }

  /** Bit 9 of a number does not depend on the bits below. */
  lemma BitNine(top: nat, mid: nat, low: nat)
    requires low < 16
    ensures (top * 0x8000 + mid * 16 + low) / 0x200 == top * 0x40 + mid / 0x20
  {
    var a, b := mid / 0x20, mid % 0x20;
    assert top * 0x8000 + mid * 16 + low == 0x200 * (top * 0x40 + a) + (b * 16 + low);
  }

  lemma FlagsBits(flags: U16, low: nat)
    requires low < 16
    ensures (0x8000 + flags / 16 % 0x800 * 16 + low) / 0x200 % 2 == flags / 0x200 % 2
  {
    var mid, top := flags / 16 % 0x800, flags / 0x8000;
    BitNine(1, mid, low);
    BitNine(top, mid, flags % 16);
    assert flags == top * 0x8000 + mid * 16 + flags % 16;
  }

  lemma ResponseFlagsKeep(flags: U16, err: nat)
    requires err < 16
    ensures Truncated(ResponseFlags(flags, err)) <==> Truncated(flags)
    ensures !Truncated(flags) ==> SetTruncated(ResponseFlags(flags, err)) == ResponseFlags(flags, err) + 0x200
  {
    FlagsBits(flags, ((flags % 16) as bv4 | err as bv4) as nat);
  }

  /** It is an answer; the bits that are neither that nor the error are the request's; and the error is err, if the
      request says none. */
  lemma ResponseFlagsAre(flags: U16, err: nat)
    requires err < 16
    ensures ResponseFlags(flags, err) / 0x8000 == 1
    ensures ResponseFlags(flags, err) / 16 % 0x800 == flags / 16 % 0x800
    ensures flags % 16 == 0 ==> ResponseFlags(flags, err) % 16 == err
    ensures err == 0 ==> ResponseFlags(flags, err) % 16 == flags % 16
    ensures ResponseFlags(flags, err) % 16 == 0 <==> flags % 16 == 0 && err == 0
  {
    var low := (flags % 16) as bv4 | err as bv4;
    assert low == 0 <==> (flags % 16) as bv4 == 0 && err as bv4 == 0;
    SplitFlags(flags / 16 % 0x800, low as nat);
  }

  lemma SplitFlags(mid: nat, low: nat)
    requires mid < 0x800 && low < 16
    ensures var x := 0x8000 + mid * 16 + low; x / 0x8000 == 1 && x / 16 % 0x800 == mid && x % 16 == low
  {
    assert 0x8000 + mid * 16 + low == 16 * (0x800 + mid) + low;
  }

  lemma HighByte(x: nat, y: nat)
    requires x < 256 && y < 256
    ensures (x * 256 + y) / 0x200 == x / 2
  {
    var q, r := x / 2, x % 2;
    assert x * 256 + y == 0x200 * q + (r * 256 + y);
  }

  /** Setting one bit in the third byte of the header. */
  lemma TruncatedHeader(p: seq<Byte>, packet: seq<Byte>, rsp: Response, flags: U16)
    requires |p| == 12 <= |packet| && rsp.HeaderOf(p, flags)
    requires forall i {:trigger packet[i]} :: 0 <= i < 12 && i != 2 ==> packet[i] == p[i]
    requires packet[2] == if p[2] / 2 % 2 == 0 then p[2] + 2 else p[2]
    ensures rsp.HeaderOf(packet, SetTruncated(flags)) && Truncated(FlagsOf(packet))
  {
    var x: nat, y: nat := p[2], p[3];
    assert flags == x * 256 + y;
    HighByte(x, y);
    HighByte(packet[2], y);
    assert SetTruncated(flags) == packet[2] * 256 + y;
    assert packet[0] == p[0] && packet[1] == p[1] && packet[3] == p[3];
    assert forall i {:trigger p[i]} :: 4 <= i < 12 ==> p[i] == packet[i];
  }

  /** Cut the message off after 512 bytes, and set the bit that says so. */
  method Truncate(buf: array<Byte>, ghost rsp: Response, ghost flags: U16) returns (packet: seq<Byte>)
    requires buf.Length >= REPLY_BUF && rsp.HeaderOf(buf[..12], flags)
    modifies buf
    ensures buf[REPLY_BUF..] == old(buf[REPLY_BUF..])
    ensures |packet| == MAX_REPLY && packet == buf[..MAX_REPLY] && packet == old(buf[..MAX_REPLY])[2 := packet[2]]
    ensures rsp.HeaderOf(packet, SetTruncated(flags)) && Truncated(FlagsOf(packet))
  {
    ghost var p, was := buf[..12], buf[..MAX_REPLY];
    if buf[2] / 2 % 2 == 0 {
      buf[2] := buf[2] + 2;
    }
    packet := buf[..MAX_REPLY];
    assert packet == was[2 := packet[2]];
    TruncatedHeader(p, packet, rsp, flags);
  }

  /** Answers, authority and additional records. */
  function Section(rsp: Response, s: nat): seq<Item> {
    if s == 0 then rsp.answers else if s == 1 then rsp.authority else rsp.additional
  }

  /** The first s sections. */
  function Sections(rsp: Response, s: nat): seq<Item> {
    if s == 0 then [] else if s == 1 then rsp.answers else if s == 2 then rsp.answers + rsp.authority else rsp.Items()
  }

  /** The first s sections are a part of all. */
  lemma {:induction false} SectionsPart(rsp: Response, s: nat) returns (more: seq<Item>)
    requires s <= 3
    ensures Sections(rsp, s) + more == rsp.Items()
  {
    more := if s == 0 then rsp.Items() else if s == 1 then rsp.authority + rsp.additional
            else if s == 2 then rsp.additional else [];
  }

  /** What is sound as a whole is so in each section. */
  lemma {:induction false} SectionsSound(rsp: Response, s: nat)
    requires s < 3 && AllSound(rsp.Items())
    ensures AllSound(Section(rsp, s))
  {
    var more := SectionsPart(rsp, s + 1);
    AllSoundParts(Sections(rsp, s + 1), more);
    AllSoundParts(Sections(rsp, s), Section(rsp, s));
  }

  /** The sizes of the sections add up. */
  lemma {:induction false} SectionsSize(rsp: Response, s: nat)
    requires s < 3
    ensures Sections(rsp, s + 1) == Sections(rsp, s) + Section(rsp, s)
    ensures var all := rsp.Items();
      ItemsSize(Sections(rsp, s), |Sections(rsp, s)|) + ItemsSize(Section(rsp, s), |Section(rsp, s)|)
      == ItemsSize(Sections(rsp, s + 1), |Sections(rsp, s + 1)|) <= ItemsSize(all, |all|)
  {
    var a, b, c := Sections(rsp, s), Section(rsp, s), Sections(rsp, s + 1);
    assert c == a + b;
    ItemsSizeConcat(a, b, |b|);
    var more := SectionsPart(rsp, s + 1);
    ItemsSizeConcat(c, more, |more|);
  }

  lemma {:induction false} AllSoundParts(a: seq<Item>, b: seq<Item>)
    requires AllSound(a + b)
    ensures AllSound(a) && AllSound(b)
  {
    var t := a + b;
    forall i | 0 <= i < |a| ensures a[i].Sound() {
      assert t[i].Sound();
    }
    forall i | 0 <= i < |b| ensures b[i].Sound() {
      assert t[|a| + i].Sound();
    }
  }

  /** After an error in one section nothing more is written. */
  lemma {:induction false} SectionsStop(rsp: Response, o0: Out, s: nat, o: Out)
    requires s <= 3 && Leads(REPLY_BUF, o0, ItemsPieces(Sections(rsp, s), |Sections(rsp, s)|), o) && !o.At?
    ensures Leads(REPLY_BUF, o0, ItemsPieces(rsp.Items(), |rsp.Items()|), o)
  {
    var more := SectionsPart(rsp, s);
    SectionStops(REPLY_BUF, o0, Sections(rsp, s), o, more);
  }

  /** The records items stand in the message from offset j on, and take no more room than they can. */
  ghost predicate WrittenSo(p: seq<Byte>, labels: seq<Entry>, items: seq<Item>, offs: seq<nat>, j: nat) {
    |p| <= j + ItemsSize(items, |items|) && AllWritten(p, labels, items, offs, j)
  }

  /** One section, behind the earlier ones. */
  method PutSection(buf: array<Byte>, j: nat, rsp: Response, table: LabelTable, s: nat, ghost offs0: seq<nat>,
                    ghost o0: Out, ghost j0: nat)
    returns (ok: bool, r: int, ghost offs: seq<nat>, ghost o: Out)
    requires s < 3 && j <= buf.Length && j0 <= j <= REPLY_BUF + 1
    requires WrittenSo(buf[..j], table.labels, Sections(rsp, s), offs0, j0) && IsAt(REPLY_BUF, o0, j, table)
    requires Room(buf.Length, REPLY_BUF, o0, ItemsPieces(Section(rsp, s), |Section(rsp, s)|))
    modifies buf, table
    ensures buf[..j] == old(buf[..j])
    ensures ok ==> j <= r <= REPLY_BUF + 1 && r <= buf.Length
    ensures ok ==> WrittenSo(buf[..r], table.labels, Sections(rsp, s + 1), offs, j0)
    ensures !ok ==> StoppedAt(buf, Sections(rsp, s + 1), offs, j0) && j <= offs[|offs| - 1]
    ensures !ok ==> |Sections(rsp, s)| < |offs| <= |Sections(rsp, s + 1)|
    ensures ItemsTo(Section(rsp, s), j, REPLY_BUF, |offs| - |Sections(rsp, s)|)
    ensures AllSound(rsp.Items()) && j0 + ItemsSize(rsp.Items(), |rsp.Items()|) <= REPLY_BUF ==> ok
    ensures Leads(REPLY_BUF, o0, ItemsPieces(Section(rsp, s), |Section(rsp, s)|), o)
    ensures if ok then IsAt(REPLY_BUF, o, r, table) else !o.At?
    ensures Further(old(buf[REPLY_BUF..]), o0, buf[REPLY_BUF..], o)
    ensures Sections(rsp, s + 1) == Sections(rsp, s) + Section(rsp, s)
  {
    SectionsSize(rsp, s);
    if AllSound(rsp.Items()) { SectionsSound(rsp, s); }
    var items := Section(rsp, s);
    ghost var before := buf[..j];
    ok, r, offs, o := PutItems(buf, REPLY_BUF, j, items, table, Sections(rsp, s), offs0, j0, o0);
    if ok {
      assert items[..|items|] == items;
      PrefixKept(before, buf[..r], buf);
      ItemsToEnd(items, j, REPLY_BUF);
    } else {
      PrefixKept(before, buf[..offs[|offs| - 1]], buf);
    }
  }

  lemma {:induction false} SectionsRoom(len: nat, rsp: Response, o0: Out, s: nat, o: Out)
    requires s < 3 && Room(len, REPLY_BUF, o0, ItemsPieces(rsp.Items(), |rsp.Items()|))
    requires Leads(REPLY_BUF, o0, ItemsPieces(Sections(rsp, s), |Sections(rsp, s)|), o)
    ensures Room(len, REPLY_BUF, o, ItemsPieces(Section(rsp, s), |Section(rsp, s)|))
  {
    SectionsSize(rsp, s);
    var more := SectionsPart(rsp, s + 1);
    SectionRoom(len, o0, Sections(rsp, s), o, Section(rsp, s), more);
  }

  lemma {:induction false} SectionsPieces(a: seq<Item>, b: seq<Item>, c: seq<Item>)
    ensures ItemsPieces((a + b) + c, |(a + b) + c|) == ItemsPieces(a, |a|) + ItemsPieces(b, |b|) + ItemsPieces(c, |c|)
  {
    ItemsPiecesConcat(a + b, c, |c|);
    ItemsPiecesConcat(a, b, |b|);
  }

  lemma {:induction false} SectionRoom(len: nat, o0: Out, a: seq<Item>, o: Out, b: seq<Item>, more: seq<Item>)
    requires Room(len, REPLY_BUF, o0, ItemsPieces((a + b) + more, |(a + b) + more|))
    requires Leads(REPLY_BUF, o0, ItemsPieces(a, |a|), o)
    ensures Room(len, REPLY_BUF, o, ItemsPieces(b, |b|))
  {
    SectionsPieces(a, b, more);
    RoomInside(len, REPLY_BUF, o0, ItemsPieces(a, |a|), o, ItemsPieces(b, |b|), ItemsPieces(more, |more|));
  }

  /** The first s sections are written behind the bytes before. */
  ghost predicate SectionsTo(p: seq<Byte>, tail: seq<Byte>, before: seq<Byte>, was: seq<Byte>, rsp: Response, s: nat,
                             labels: seq<Entry>, offs: seq<nat>, o0: Out, o: Out) {
    && before <= p && |p| <= REPLY_BUF + 1 && WrittenSo(p, labels, Sections(rsp, s), offs, |before|)
    && Leads(REPLY_BUF, o0, ItemsPieces(Sections(rsp, s), |Sections(rsp, s)|), o) && Further(was, o0, tail, o)
  }

  ghost predicate SectionsSo(buf: array<Byte>, before: seq<Byte>, was: seq<Byte>, rsp: Response, s: nat,
                             table: LabelTable, offs: seq<nat>, o0: Out, o: Out, r: int)
    reads buf, table
  {
    && 0 <= r <= buf.Length && REPLY_BUF <= buf.Length && IsAt(REPLY_BUF, o, r, table)
    && SectionsTo(buf[..r], buf[REPLY_BUF..], before, was, rsp, s, table.labels, offs, o0, o)
  }

  lemma {:induction false} SectionDone(p: seq<Byte>, tail: seq<Byte>, q: seq<Byte>, now: seq<Byte>, before: seq<Byte>,
                                       was: seq<Byte>, rsp: Response, s: nat, labels: seq<Entry>, later: seq<Entry>,
                                       offs0: seq<nat>, offs: seq<nat>, o0: Out, o1: Out, o: Out)
    requires s < 3 && SectionsTo(p, tail, before, was, rsp, s, labels, offs0, o0, o1)
    requires p <= q && |q| <= REPLY_BUF + 1 && WrittenSo(q, later, Sections(rsp, s + 1), offs, |before|)
    requires Leads(REPLY_BUF, o1, ItemsPieces(Section(rsp, s), |Section(rsp, s)|), o) && Further(tail, o1, now, o)
    ensures SectionsTo(q, now, before, was, rsp, s + 1, later, offs, o0, o)
  {
    SectionsSize(rsp, s);
    SectionLeads(REPLY_BUF, o0, Sections(rsp, s), o1, Section(rsp, s), o);
    FurtherOn(was, o0, tail, o1, now, o);
  }

  lemma {:induction false} SectionFails(p: seq<Byte>, tail: seq<Byte>, q: seq<Byte>, now: seq<Byte>, before: seq<Byte>,
                                        was: seq<Byte>, rsp: Response, s: nat, labels: seq<Entry>, offs0: seq<nat>,
                                        offs: seq<nat>, o0: Out, o1: Out, o: Out)
    requires s < 3 && SectionsTo(p, tail, before, was, rsp, s, labels, offs0, o0, o1)
    requires before <= q && RecordsStand(q, Sections(rsp, s + 1), offs, |before|) && offs[|offs| - 1] == |q|
    requires |Sections(rsp, s)| < |offs| <= |Sections(rsp, s + 1)|
    requires ItemsTo(Section(rsp, s), |p|, REPLY_BUF, |offs| - |Sections(rsp, s)|)
    requires !(AllSound(rsp.Items()) && |before| + ItemsSize(rsp.Items(), |rsp.Items()|) <= REPLY_BUF) && !o.At?
    requires Leads(REPLY_BUF, o1, ItemsPieces(Section(rsp, s), |Section(rsp, s)|), o) && Further(tail, o1, now, o)
    ensures BrokenAt(q, now, REPLY_BUF, before, was, rsp.Items(), [], offs, |before|, o0, o)
  {
    SectionsSize(rsp, s);
    SectionLeads(REPLY_BUF, o0, Sections(rsp, s), o1, Section(rsp, s), o);
    FurtherOn(was, o0, tail, o1, now, o);
    SectionsStop(rsp, o0, s + 1, o);
    var more := SectionsPart(rsp, s + 1);
    assert [] + rsp.Items() == rsp.Items();
    RecordsStandOn(q, q, Sections(rsp, s + 1), rsp.Items(), offs, |before|);
    ItemsToAll(rsp, s, |before|, |p|, |offs|);
  }

  /** One section after the others. */
  method PutSectionAfter(buf: array<Byte>, ghost before: seq<Byte>, ghost was: seq<Byte>, rsp: Response, s: nat,
                         table: LabelTable, ghost offs0: seq<nat>, ghost o0: Out, ghost o1: Out, j: nat)
    returns (ok: bool, r: int, ghost offs: seq<nat>, ghost o: Out)
    requires s < 3 && Room(buf.Length, REPLY_BUF, o0, ItemsPieces(rsp.Items(), |rsp.Items()|))
    requires SectionsSo(buf, before, was, rsp, s, table, offs0, o0, o1, j)
    modifies buf, table
    ensures if ok then SectionsSo(buf, before, was, rsp, s + 1, table, offs, o0, o, r)
            else Broken(buf, REPLY_BUF, before, was, rsp.Items(), [], offs, |before|, o0, o)
  {
    ghost var p, tail, labels := buf[..j], buf[REPLY_BUF..], table.labels;
    SectionsRoom(buf.Length, rsp, o0, s, o1);
    ok, r, offs, o := PutSection(buf, j, rsp, table, s, offs0, o1, |before|);
    ghost var now := buf[REPLY_BUF..];
    if ok {
      assert p == buf[..r][..j];
      SectionDone(p, tail, buf[..r], now, before, was, rsp, s, labels, table.labels, offs0, offs, o0, o1, o);
    } else {
      ghost var q := buf[..offs[|offs| - 1]];
      assert p == q[..j];
      SectionFails(p, tail, q, now, before, was, rsp, s, labels, offs0, offs, o0, o1, o);
    }
  }

  /** The three sections, one after another. */
  method PutSections(buf: array<Byte>, j: nat, rsp: Response, table: LabelTable, ghost o0: Out)
    returns (ok: bool, r: int, ghost offs: seq<nat>, ghost o: Out)
    requires j <= REPLY_BUF <= buf.Length && TableOk(buf[..j], table.labels) && IsAt(REPLY_BUF, o0, j, table)
    requires Room(buf.Length, REPLY_BUF, o0, ItemsPieces(rsp.Items(), |rsp.Items()|))
    modifies buf, table
    ensures buf[..j] == old(buf[..j])
    ensures ok ==> j <= r <= REPLY_BUF + 1 && r <= buf.Length
    ensures ok ==> RecordsIn(buf[..r], rsp.Items(), offs) && offs[0] == j && offs[|rsp.Items()|] == r
    ensures StoppedAt(buf, rsp.Items(), offs, j) && ItemsTo(rsp.Items(), j, REPLY_BUF, |offs|)
    ensures AllSound(rsp.Items()) && j + ItemsSize(rsp.Items(), |rsp.Items()|) <= REPLY_BUF ==>
              ok && r <= j + ItemsSize(rsp.Items(), |rsp.Items()|)
    ensures Leads(REPLY_BUF, o0, ItemsPieces(rsp.Items(), |rsp.Items()|), o)
    ensures if ok then IsAt(REPLY_BUF, o, r, table) else !o.At?
    ensures Further(old(buf[REPLY_BUF..]), o0, buf[REPLY_BUF..], o)
  {
    r, offs, o := j, [j], o0;
    ghost var before, was := buf[..j], buf[REPLY_BUF..];
    LeadsNowhere(REPLY_BUF, o0);
    var s := 0;
    while s < 3
      invariant s <= 3 && SectionsSo(buf, before, was, rsp, s, table, offs, o0, o, r)
    {
      ok, r, offs, o := PutSectionAfter(buf, before, was, rsp, s, table, offs, o0, o, r);
      if !ok {
        PrefixKept(before, buf[..offs[|offs| - 1]], buf);
        assert [] + rsp.Items() == rsp.Items();
        return;
      }
      s := s + 1;
    }
    PrefixKept(before, buf[..r], buf);
    ItemsToEnd(rsp.Items(), j, REPLY_BUF);
    ok := true;
  }

  /** What fits of all records from offset at on fits of the next section from offset j on. */
  lemma {:induction false} FitInSection(rsp: Response, s: nat, n: nat, at: nat, j: nat)
    requires s < 3 && ItemsFit(rsp.Items(), n, at, REPLY_BUF) && |Sections(rsp, s)| < n
    requires j <= at + ItemsSize(Sections(rsp, s), |Sections(rsp, s)|)
    ensures var a, b := |Sections(rsp, s)|, |Section(rsp, s)|;
      ItemsFit(Section(rsp, s), if n <= a + b then n - a else b, j, REPLY_BUF)
  {
    var a, b := Sections(rsp, s), Section(rsp, s);
    var more := SectionsPart(rsp, s + 1);
    SectionsSize(rsp, s);
    assert rsp.Items() == (a + b) + more;
    FitInside(a, b, more, n, if n <= |a| + |b| then n - |a| else |b|, at, j);
  }

  lemma {:induction false} FitInside(a: seq<Item>, b: seq<Item>, c: seq<Item>, n: nat, k: nat, at: nat, j: nat)
    requires ItemsFit((a + b) + c, n, at, REPLY_BUF) && k <= |b| && |a| + k <= n && j <= at + ItemsSize(a, |a|)
    ensures ItemsFit(b, k, j, REPLY_BUF)
  {
    var all := (a + b) + c;
    ItemsSizeTake(a + b, c, |a| + k);
    ItemsSizeConcat(a, b, k);
    ItemsSizeGrows(all, |a| + k, n);
    forall i | 0 <= i < k ensures b[..k][i].Sound() {
      assert all[..n][|a| + i] == b[i];
    }
  }

  lemma {:induction false} ItemsToAll(rsp: Response, s: nat, at: nat, j: nat, k: nat)
    requires s < 3 && j <= at + ItemsSize(Sections(rsp, s), |Sections(rsp, s)|)
    requires |Sections(rsp, s)| < k <= |Sections(rsp, s + 1)|
    requires ItemsTo(Section(rsp, s), j, REPLY_BUF, k - |Sections(rsp, s)|)
    ensures ItemsTo(rsp.Items(), at, REPLY_BUF, k)
  {
    SectionsSize(rsp, s);
    forall n: nat {:trigger ItemsFit(rsp.Items(), n, at, REPLY_BUF)} | ItemsFit(rsp.Items(), n, at, REPLY_BUF)
      ensures n < k {
      if |Sections(rsp, s)| < n { FitInSection(rsp, s, n, at, j); }
    }
  }

  /** The most bytes the response can take. */
  ghost function ResponseSize(rsp: Response): nat {
    12 + QuestionsSize(rsp.questions, |rsp.questions|) + ItemsSize(rsp.Items(), |rsp.Items()|)
  }

  ghost predicate ResponseSound(rsp: Response) {
    QuestionsSound(rsp.questions) && AllSound(rsp.Items())
  }

  lemma EndsAfterQuestions(rsp: Response, o: Out)
    requires Leads(REPLY_BUF, At(12, [], false), QuestionsPieces(rsp.questions, |rsp.questions|), o)
    ensures QuestionsEnd(rsp) == o && (!o.At? ==> ResponseEnd(rsp) == o)
  {
    var ps, more := QuestionsPieces(rsp.questions, |rsp.questions|), ItemsPieces(rsp.Items(), |rsp.Items()|);
    LeadsIsLayout(REPLY_BUF, At(12, [], false), ps, o);
    if !o.At? {
      LeadsStop(REPLY_BUF, At(12, [], false), ps, o, more);
      LeadsIsLayout(REPLY_BUF, At(12, [], false), ps + more, o);
    }
  }

  lemma EndsAfterSections(rsp: Response, m: Out, o: Out)
    requires Leads(REPLY_BUF, At(12, [], false), QuestionsPieces(rsp.questions, |rsp.questions|), m)
    requires Leads(REPLY_BUF, m, ItemsPieces(rsp.Items(), |rsp.Items()|), o)
    ensures QuestionsEnd(rsp) == m && ResponseEnd(rsp) == o
  {
    var ps, more := QuestionsPieces(rsp.questions, |rsp.questions|), ItemsPieces(rsp.Items(), |rsp.Items()|);
    EndsAfterQuestions(rsp, m);
    LeadsOn(REPLY_BUF, At(12, [], false), ps, m, more, o);
    LeadsIsLayout(REPLY_BUF, At(12, [], false), ps + more, o);
  }

  /** Some name of the response, or some name in its data, is not in the table with any of its rests, and ends just
      with the 1500 bytes. */
  ghost predicate OverrunsAt(rsp: Response, i: nat) {
    i < |ResponsePieces(rsp)| && RunsOverAt(REPLY_BUF, At(12, [], false), ResponsePieces(rsp), i)
  }

  /** Only then does anything go behind the 1500 bytes. */
  lemma PastIsOverrun(rsp: Response)
    ensures ResponseEnd(rsp).past <==> exists i {:trigger OverrunsAt(rsp, i)} :: OverrunsAt(rsp, i)
  {
    var ps, o := ResponsePieces(rsp), At(12, [], false);
    PastIff(REPLY_BUF, o, ps, |ps|);
    forall i | 0 <= i < |ps| ensures OverrunsAt(rsp, i) <==> RunsOverAt(REPLY_BUF, o, ps, i) {}
  }

  /** No less is written than what could be without any pointers. */
  ghost predicate FarEnough(rsp: Response, qoffs: seq<nat>, offs: seq<nat>) {
    && QuestionsTo(rsp.questions, 12, REPLY_BUF, |qoffs|)
    && (|rsp.questions| < |qoffs| ==> ItemsTo(rsp.Items(), qoffs[|rsp.questions|], REPLY_BUF, |offs|))
  }

  /** evdns_server_request_format_response: 0 and the packet, or a negative number. Everything is there, as
      long as it is, if it ends within 512 bytes. buf is the memory from the start of the source's buffer of 1500
      bytes on: a zero goes behind these if a name overruns them, and nothing else ever. */
  method FormatResponse(rsp: Response, err: int, buf: array<Byte>)
    returns (r: int, packet: seq<Byte>, ghost qoffs: seq<nat>, ghost offs: seq<nat>, ghost wrote: seq<Byte>)
    requires REPLY_BUF <= buf.Length
    requires 0 <= err <= 15 && (exists i :: OverrunsAt(rsp, i)) ==> REPLY_BUF < buf.Length
    modifies buf
    ensures buf[REPLY_BUF..] == Behind(old(buf[REPLY_BUF..]), 0 <= err <= 15 && exists i :: OverrunsAt(rsp, i))
    ensures r == 0 <==> 0 <= err <= 15 && !QuestionsEnd(rsp).NoName?
    ensures r == 0 ==> 12 <= |packet| <= MAX_REPLY && packet == buf[..|packet|]
    ensures r == 0 && !Truncated(rsp.flags) ==>
              (!Truncated(FlagsOf(packet)) <==> ResponseEnd(rsp).At? && ResponseEnd(rsp).j <= MAX_REPLY)
    ensures r == 0 && !Truncated(FlagsOf(packet)) ==>
              && ResponseEnd(rsp).At? && |packet| == ResponseEnd(rsp).j
              && MessageIs(packet, rsp.(flags := ResponseFlags(rsp.flags, err)), qoffs, offs)
    ensures r == 0 && Truncated(FlagsOf(packet)) && !Truncated(rsp.flags) ==>
              |packet| == MAX_REPLY && rsp.HeaderOf(packet, SetTruncated(ResponseFlags(rsp.flags, err)))
    ensures r == 0 ==> FarEnough(rsp, qoffs, offs)
    ensures r == 0 ==>
              && |wrote| == |packet| && rsp.HeaderOf(wrote, ResponseFlags(rsp.flags, err))
              && StandWithin(wrote, rsp, qoffs, offs) && packet == wrote[2 := packet[2]]
    ensures 0 <= err <= 15 && ResponseSound(rsp) && ResponseSize(rsp) <= MAX_REPLY && !Truncated(rsp.flags) ==>
              r == 0 && !Truncated(FlagsOf(packet))
    ensures 0 <= err <= 15 && QuestionsSound(rsp.questions) ==>
              12 + QuestionsSize(rsp.questions, |rsp.questions|) <= REPLY_BUF ==> r == 0
  {
    packet, qoffs, offs, wrote := [], [], [], [];
    if err < 0 || err > 15 {
      return -1, [], [], [], [];
    }
    PastIsOverrun(rsp);
    FirstRoom(buf.Length, rsp);
    var flags := ResponseFlags(rsp.flags, err);
    ResponseFlagsKeep(rsp.flags, err);
    var table := new LabelTable();
    PutHeader(buf, REPLY_BUF, rsp.id, flags, |rsp.questions|, |rsp.answers|, |rsp.authority|, |rsp.additional|);
    ghost var p, o := buf[..12], At(12, [], false);
    var ok, j;
    ok, j, qoffs, o := PutQuestions(buf, REPLY_BUF, rsp.questions, table, At(12, [], false));
    if !ok {
      EndsAfterQuestions(rsp, o);
      if j < 0 {
        r := j;
        return;
      }
      wrote := CutOff(buf, rsp, flags, qoffs, buf[..qoffs[|qoffs| - 1]], [], 12);
      packet := Truncate(buf, rsp, flags);
      return 0, packet, qoffs, offs, wrote;
    }
    ghost var q := buf[..j];
    assert q[..12] == p;
    ghost var o1 := o;
    RoomThen(buf.Length, rsp, o1);
    ok, j, offs, o := PutSections(buf, j, rsp, table, o);
    EndsAfterSections(rsp, o1, o);
    assert buf[..12] == buf[..|q|][..12] == q[..12];
    packet, wrote := FinishResponse(buf, rsp, flags, ok, j, q, qoffs, offs);
    r := 0;
  }

  /** The end of that: the message, or its first 512 bytes. */
  method FinishResponse(buf: array<Byte>, ghost rsp: Response, ghost flags: U16, ok: bool, j: int, ghost q: seq<Byte>,
                        ghost qoffs: seq<nat>, ghost offs: seq<nat>)
    returns (packet: seq<Byte>, ghost wrote: seq<Byte>)
    requires REPLY_BUF <= buf.Length && rsp.HeaderOf(buf[..12], flags)
    requires QuestionsIn(q, rsp.questions, qoffs) && QuestionsStand(q, rsp.questions, qoffs)
    requires 12 <= |q| <= buf.Length && q == buf[..|q|] && qoffs[|rsp.questions|] == |q|
    requires StoppedAt(buf, rsp.Items(), offs, |q|)
    requires ok ==> |q| <= j <= buf.Length && RecordsIn(buf[..j], rsp.Items(), offs) && offs[|rsp.Items()|] == j
    modifies buf
    ensures buf[REPLY_BUF..] == old(buf[REPLY_BUF..]) && |packet| <= MAX_REPLY && packet == buf[..|packet|]
    ensures if ok && j <= MAX_REPLY
            then |packet| == j && MessageIs(packet, rsp.(flags := flags), qoffs, offs) && FlagsOf(packet) == flags
            else |packet| == MAX_REPLY && rsp.HeaderOf(packet, SetTruncated(flags)) && Truncated(FlagsOf(packet))
    ensures |wrote| == |packet| && rsp.HeaderOf(wrote, flags)
    ensures StandWithin(wrote, rsp, qoffs, offs) && packet == wrote[2 := packet[2]]
  {
    if !ok || j > MAX_REPLY {
      wrote := CutOff(buf, rsp, flags, qoffs, q, offs, |q|);
      packet := Truncate(buf, rsp, flags);
      return;
    }
    packet := buf[..j];
    assert packet[..|q|] == q && packet[..12] == buf[..12] == q[..12];
    assert offs[|offs| - 1] == j;
    StandCut(q, packet, packet, rsp, qoffs, offs, |q|);
    wrote := packet;
    HeaderIsPrefix(q[..12], packet, rsp, flags);
    MessageWritten(q[..12], q, packet, rsp, flags, qoffs, offs);
  }

  /** The first 512 bytes before they are cut off. */
  lemma CutOff(buf: array<Byte>, rsp: Response, flags: U16, qoffs: seq<nat>, q: seq<Byte>, offs: seq<nat>, first: nat)
    returns (wrote: seq<Byte>)
    requires REPLY_BUF <= buf.Length && rsp.HeaderOf(buf[..12], flags)
    requires QuestionsStand(q, rsp.questions, qoffs) && |q| <= buf.Length && q == buf[..|q|]
    requires offs == [] || StoppedAt(buf, rsp.Items(), offs, first)
    ensures wrote == buf[..MAX_REPLY] && rsp.HeaderOf(wrote, flags) && StandWithin(wrote, rsp, qoffs, offs)
  {
    wrote := buf[..MAX_REPLY];
    assert wrote[..12] == buf[..12];
    HeaderIsPrefix(buf[..12], wrote, rsp, flags);
    var all := buf[..];
    assert all[..|q|] == q && all[..MAX_REPLY] == wrote;
    if offs != [] {
      var w := buf[..offs[|offs| - 1]];
      assert all[..|w|] == w;
      RecordsStandOn(w, all, rsp.Items(), rsp.Items(), offs, first);
    }
    StandCut(q, all, wrote, rsp, qoffs, offs, first);
  }

  lemma FirstRoom(len: nat, rsp: Response)
    requires REPLY_BUF <= len && (ResponseEnd(rsp).past ==> REPLY_BUF < len)
    ensures Room(len, REPLY_BUF, At(12, [], false), QuestionsPieces(rsp.questions, |rsp.questions|))
    ensures Room(len, REPLY_BUF, At(12, [], false), ResponsePieces(rsp))
  {
    RoomOfFirst(len, REPLY_BUF, At(12, [], false), QuestionsPieces(rsp.questions, |rsp.questions|),
      ItemsPieces(rsp.Items(), |rsp.Items()|));
  }

  lemma RoomThen(len: nat, rsp: Response, o: Out)
    requires Room(len, REPLY_BUF, At(12, [], false), ResponsePieces(rsp))
    requires Leads(REPLY_BUF, At(12, [], false), QuestionsPieces(rsp.questions, |rsp.questions|), o)
    ensures Room(len, REPLY_BUF, o, ItemsPieces(rsp.Items(), |rsp.Items()|))
  {
    RoomOf(len, REPLY_BUF, At(12, [], false), QuestionsPieces(rsp.questions, |rsp.questions|), o,
      ItemsPieces(rsp.Items(), |rsp.Items()|));
  }

  /** The header, then the questions, then the records. */
  lemma MessageWritten(p: seq<Byte>, q: seq<Byte>, w: seq<Byte>, rsp: Response, flags: U16, qoffs: seq<nat>,
                       offs: seq<nat>)
    requires p <= q <= w && rsp.HeaderOf(p, flags) && QuestionsIn(q, rsp.questions, qoffs)
    requires RecordsIn(w, rsp.Items(), offs) && qoffs[0] == 12
    requires offs[0] == qoffs[|rsp.questions|] && offs[|rsp.Items()|] == |w|
    ensures MessageIs(w, rsp.(flags := flags), qoffs, offs) && FlagsOf(w) == flags
  {
    QuestionsInPrefix(q, w, rsp.questions, qoffs);
    HeaderIsPrefix(p, w, rsp, flags);
    assert rsp.(flags := flags).Items() == rsp.Items();
  }

  lemma HeaderIsPrefix(p: seq<Byte>, q: seq<Byte>, rsp: Response, flags: U16)
    requires p <= q && rsp.HeaderOf(p, flags)
    ensures rsp.HeaderOf(q, flags)
  {
    HoldsPrefix(p, q, 0, rsp.id);
    HoldsPrefix(p, q, 2, flags);
    HoldsPrefix(p, q, 4, |rsp.questions|);
    HoldsPrefix(p, q, 6, |rsp.answers|);
    HoldsPrefix(p, q, 8, |rsp.authority|);
    HoldsPrefix(p, q, 10, |rsp.additional|);
  }

  /** Two records: the first one so long that the name of the second, "b", ends just at 1500 bytes. */
  function LongResponse(): Response {
    Response(0, 0, [], [Item([97], 16, 1, 0, Raw(seq(1473, _ => 0))), Item([98], 16, 1, 0, Raw([]))], [], [])
  }

  lemma FirstRecord(a: Item) returns (data: Out)
    requires a == Item([97], 16, 1, 0, Raw(seq(1473, _ => 0)))
    ensures data == At(1498, [Entry([97], 12)], false)
    ensures Leads(REPLY_BUF, At(12, [], false), ItemPieces(a), data)
  {
    var o0, labels := At(12, [], false), [Entry([97], 12)];
    assert FirstDot([97]) == 1;
    LeadsOne(REPLY_BUF, o0, NamePiece([97]));
    assert PieceOut(REPLY_BUF, o0, NamePiece([97])) == At(15, labels, false);
    var o := ThenBytes(REPLY_BUF, o0, [NamePiece([97])], At(15, labels, false), 4);
    o := ThenBytes(REPLY_BUF, o0, [NamePiece([97])] + [Bytes(4)], o, 4);
    assert HeadPieces(a.Head()) == [NamePiece([97])] + [Bytes(4)];
    data := RawOut(REPLY_BUF, o, a.data.bytes);
    LeadsOn(REPLY_BUF, o0, HeadPieces(a.Head()) + [Bytes(4)], o, DataPieces(a.data), data);
  }

  lemma LongIsSound()
    ensures ResponseSound(LongResponse())
  {
    assert FirstDot([97]) == 1 && FirstDot([98]) == 1;
    var items := LongResponse().Items();
    forall i | 0 <= i < |items| ensures items[i].Sound() {
      assert items[i].name == if i == 0 then [97] else [98];
    }
  }

  lemma LongEnds()
    ensures ResponseEnd(LongResponse()) == NoRoom(true)
  {
    var rsp := LongResponse();
    var items, a, b := rsp.Items(), rsp.answers[0], rsp.answers[1];
    assert items == [a, b];
    var o0 := At(12, [], false);
    var data := FirstRecord(a);
    assert ItemsPieces(items, 1) == ItemPieces(a);
    SecondRecord([Entry([97], 12)], b, data);
    LeadsOn(REPLY_BUF, o0, ItemsPieces(items, 1), data, ItemPieces(b), NoRoom(true));
    LeadsNowhere(REPLY_BUF, o0);
    assert QuestionsPieces(rsp.questions, 0) == [];
    EndsAfterSections(rsp, o0, NoRoom(true));
  }

  /** The final zero of that name goes behind the 1500 bytes, and nothing has been asked for that is not sound. */
  lemma LeavesTheBuffer()
    ensures ResponseSound(LongResponse()) && ResponseEnd(LongResponse()) == NoRoom(true)
    ensures exists i :: OverrunsAt(LongResponse(), i)
  {
    LongIsSound();
    LongEnds();
    PastIsOverrun(LongResponse());
  }

  /** A run on any response with such a name: the byte behind the 1500 bytes was 1, and is 0 afterwards. */
  method ByteBehind(rsp: Response) returns (buf: array<Byte>, r: int, packet: seq<Byte>)
    requires exists i :: OverrunsAt(rsp, i)
    ensures fresh(buf) && buf.Length == REPLY_BUF + 1 && buf[REPLY_BUF] == 0
    ensures r == 0 <==> !QuestionsEnd(rsp).NoName?
  {
    buf := new Byte[REPLY_BUF + 1](_ => 1);
    ghost var qoffs, offs, wrote;
    r, packet, qoffs, offs, wrote := FormatResponse(rsp, 0, buf);
    assert buf[REPLY_BUF] == buf[REPLY_BUF..][0];
  }

  /** The run on the long response. */
  method LongRun() returns (buf: array<Byte>, r: int, packet: seq<Byte>)
    ensures fresh(buf) && buf.Length == REPLY_BUF + 1 && buf[REPLY_BUF] == 0
  {
    LeavesTheBuffer();
    buf, r, packet := ByteBehind(LongResponse());
  }

  lemma SecondRecord(labels: seq<Entry>, b: Item, o: Out)
    requires labels == [Entry([97], 12)] && b.name == [98] && o == At(1498, labels, false)
    ensures Leads(REPLY_BUF, o, ItemPieces(b), NoRoom(true))
  {
    assert FirstDot([98]) == 1 && !HasEntry(labels, [98]);
    LeadsOne(REPLY_BUF, o, NamePiece([98]));
    var m := PieceOut(REPLY_BUF, o, NamePiece([98]));
    assert m.At? && m.j == 1501 && m.past;
    var r := ThenBytes(REPLY_BUF, o, [NamePiece([98])], m, 4);
    assert ItemPieces(b) == ([NamePiece([98])] + [Bytes(4)]) + ([Bytes(4)] + DataPieces(b.data));
    LeadsStop(REPLY_BUF, o, [NamePiece([98])] + [Bytes(4)], r, [Bytes(4)] + DataPieces(b.data));
  }
}
