/** Exchanges of DNS messages: what the reader of a reply gets from the records that were written. */
module DnsExchanges {
  import opened ByteSeqs
  import opened DnsNames
  import opened DnsLabels
  import opened DnsMessages
  import opened DnsReplies
  import opened DnsAnswers

  // ---------- what an asker is to get ----------

  /** The size of an address of the type asked for, or 0 if that is not a type of addresses. */
  function AddressSize(rtype: U16): nat {
    if rtype == TYPE_A then 4 else if rtype == TYPE_AAAA then 16 else 0
  }

  /** The record is of the type that was asked for. */
  predicate Answers(req: Request, it: Item) {
    it.class_ == CLASS_INET && it.rtype == req.rtype && (AddressSize(req.rtype) > 0 || req.rtype == TYPE_PTR)
  }

  function Wanted(req: Request, items: seq<Item>): seq<Item> {
    if |items| == 0 then []
    else
      var it := items[|items| - 1];
      Wanted(req, items[..|items| - 1]) + if Answers(req, it) then [it] else []
  }

  /** The data of the records, one after another. */
  function BytesOf(ws: seq<Item>): seq<Byte> {
    if |ws| == 0 then []
    else BytesOf(ws[..|ws| - 1]) + if ws[|ws| - 1].data.Raw? then ws[|ws| - 1].data.bytes else []
  }

  function LeastTtl(ws: seq<Item>): U32 {
    if |ws| == 0 then NO_TTL else Min(LeastTtl(ws[..|ws| - 1]), ws[|ws| - 1].ttl)
  }

  /** The first 32 addresses of all the records together, or the name in the first record. */
  ghost function ReplyFor(req: Request, ws: seq<Item>): Reply {
    if |ws| == 0 then Reply(false, [], [])
    else if req.rtype == TYPE_PTR then Reply(true, [], if ws[0].data.Named? then Undotted(ws[0].data.target) else [])
    else Reply(true, BytesOf(ws)[..Min(|BytesOf(ws)|, MAX_V4_ADDRS * AddressSize(req.rtype))], [])
  }

  /** No more records are looked at. */
  predicate Full(req: Request, ws: seq<Item>) {
    |ws| > 0 && (req.rtype == TYPE_PTR || |BytesOf(ws)| >= MAX_V4_ADDRS * AddressSize(req.rtype))
  }

  /** How many of the first n records are looked at, if the first i are. */
  function Looked(req: Request, items: seq<Item>, n: nat, i: nat): (m: nat)
    requires i <= n <= |items|
    ensures i <= m <= n
    decreases n - i
  {
    if i == n || Full(req, Wanted(req, items[..i])) then i else Looked(req, items, n, i + 1)
  }

  /** The name of the first CNAME, if one is wanted and none was found before. */
  ghost function CnameFrom(req: Request, cname: Option<seq<Byte>>, items: seq<Item>): Option<seq<Byte>> {
    if |items| == 0 then cname
    else
      var before, it := CnameFrom(req, cname, items[..|items| - 1]), items[|items| - 1];
      if req.wantsCname && before.None? && it.rtype == TYPE_CNAME && it.data.Named? then Some(Undotted(it.data.target))
      else before
  }

  ghost predicate NameFits(data: Data, hostMax: nat) {
    data.Named? && Encodable(data.target) && |Undotted(data.target)| < hostMax
  }

  /** n bytes are whole addresses. */
  predicate Whole(n: nat, size: nat) {
    n == 0 || (0 < size <= n && Whole(n - size, size))
  }

  /** The reader can make sense of the record: whole addresses, or a name that is not too long. */
  ghost predicate Readable(req: Request, hostMax: nat, it: Item) {
    && Encodable(it.name)
    && (Answers(req, it) ==>
          if req.rtype == TYPE_PTR then NameFits(it.data, hostMax)
          else it.data.Raw? && Whole(|it.data.bytes|, AddressSize(req.rtype)))
    && (req.wantsCname && it.rtype == TYPE_CNAME ==> NameFits(it.data, hostMax))
  }

  ghost predicate AllReadable(req: Request, hostMax: nat, items: seq<Item>, n: nat)
    requires n <= |items|
  {
    forall i {:trigger Readable(req, hostMax, items[i])} :: 0 <= i < n ==> Readable(req, hostMax, items[i])
  }

  // ---------- the answer section ----------

  /** What was found in some records, wherever the reader is. */
  ghost predicate IsFound(req: Request, cname: Option<seq<Byte>>, items: seq<Item>, f: Found) {
    var ws := Wanted(req, items);
    f.ttl == LeastTtl(ws) && f.reply == ReplyFor(req, ws) && f.cname == CnameFrom(req, cname, items)
  }

  /** The front of a written record. */
  lemma FrontOfRecord(p: seq<Byte>, j: nat, it: Item, k: nat, end: nat)
    requires RecordIs(p, j, it, k, end) && Encodable(it.name) && |p| < 0x1_0000
    ensures FrontAt(p, j) == Some(Front(it.rtype, it.class_, it.ttl, end - k - 6, k + 6))
  {
  }

  /** How many of q addresses more there is room for. */
  lemma RoomFor(size: nat, have: nat, q: nat)
    requires (size == 4 || size == 16) && have < MAX_V4_ADDRS
    ensures var n := Min(MAX_V4_ADDRS - have, q);
      && n <= q && size * n <= size * q
      && size * have + size * n == Min(size * have + size * q, MAX_V4_ADDRS * size)
      && (size * have + size * n) / size == have + n
      && (have + n == MAX_V4_ADDRS <==> size * have + size * q >= MAX_V4_ADDRS * size)
  {
    if size == 4 {
    } else {
    }
  }

  lemma {:induction false} WholeIsMod(n: nat, size: nat)
    requires (size == 4 || size == 16) && Whole(n, size)
    ensures n % size == 0 && n == size * (n / size)
  {
    if n > 0 {
      WholeIsMod(n - size, size);
      if size == 4 { } else { }
    }
  }

  /** The addresses of one more record. */
  lemma AddressesOfRecord(p: seq<Byte>, it: Item, at: nat, end: nat, f: Found, size: nat)
    requires (size == 4 || size == 16) && it.data.Raw? && Whole(|it.data.bytes|, size) && DataIs(p, at, it.data, end)
    requires Whole(|f.reply.addrs|, size) && |f.reply.addrs| < MAX_V4_ADDRS * size
    ensures var all, most := f.reply.addrs + it.data.bytes, MAX_V4_ADDRS * size;
      var s := TakeAddresses(p, Front(it.rtype, it.class_, it.ttl, |it.data.bytes|, at), f, size, MAX_V4_ADDRS);
      && !s.Bad? && s.f.ttl == Min(f.ttl, it.ttl) && s.f.cname == f.cname
      && s.f.reply == f.reply.(have := true, addrs := all[..Min(|all|, most)])
      && (s.Last? <==> |all| >= most) && (s.More? ==> s.f.j == end)
  {
    var before, bytes := f.reply.addrs, it.data.bytes;
    var have, q := |before| / size, |bytes| / size;
    WholeIsMod(|before|, size);
    WholeIsMod(|bytes|, size);
    assert have < MAX_V4_ADDRS by {
      if size == 4 { } else { }
    }
    RoomFor(size, have, q);
    var n := Min(MAX_V4_ADDRS - have, q);
    TakenBytes(p, before, bytes, at, end, size * n);
    TakenIs(p, Front(it.rtype, it.class_, it.ttl, |bytes|, at), f, size, have, q, n);
  }

  /** What is taken, by numbers of addresses. */
  lemma TakenIs(p: seq<Byte>, front: Front, f: Found, size: nat, have: nat, q: nat, n: nat)
    requires size > 0 && |f.reply.addrs| / size == have < MAX_V4_ADDRS && n == Min(MAX_V4_ADDRS - have, q)
    requires front.len % size == 0 && front.len / size == q
    requires front.at + size * n <= |p| && (|f.reply.addrs| + size * n) / size == have + n
    ensures var addrs := f.reply.addrs + p[front.at..front.at + size * n];
      var g := Found(front.at + size * n, Min(f.ttl, front.ttl), f.reply.(have := true, addrs := addrs), f.cname);
      TakeAddresses(p, front, f, size, MAX_V4_ADDRS) == if have + n == MAX_V4_ADDRS then Last(g) else More(g)
  {
  }

  lemma TakenBytes(p: seq<Byte>, before: seq<Byte>, bytes: seq<Byte>, at: nat, end: nat, n: nat)
    requires n <= |bytes| && end == at + |bytes| <= |p| && p[at..end] == bytes
    ensures before + p[at..at + n] == (before + bytes)[..|before| + n]
  {
    assert p[at..at + n] == bytes[..n];
  }

  /** The bytes of wanted records are whole addresses. */
  lemma {:induction false} WholeAddresses(req: Request, hostMax: nat, items: seq<Item>, n: nat)
    requires n <= |items| && AllReadable(req, hostMax, items, n) && AddressSize(req.rtype) > 0
    ensures Whole(|BytesOf(Wanted(req, items[..n]))|, AddressSize(req.rtype))
  {
    if n == 0 {
      assert BytesOf(Wanted(req, items[..0])) == [];
    } else {
      var ws, it := Wanted(req, items[..n - 1]), items[n - 1];
      WholeAddresses(req, hostMax, items, n - 1);
      WantedSnoc(req, items, n - 1);
      assert Readable(req, hostMax, it);
      if Answers(req, it) {
        WholeWith(ws, it, AddressSize(req.rtype));
      }
    }
  }

  lemma WholeWith(ws: seq<Item>, it: Item, size: nat)
    requires Whole(|BytesOf(ws)|, size) && it.data.Raw? && Whole(|it.data.bytes|, size)
    ensures Whole(|BytesOf(ws + [it])|, size)
  {
    assert (ws + [it])[..|ws|] == ws;
    WholeSum(|BytesOf(ws)|, |it.data.bytes|, size);
  }

  lemma {:induction false} WholeSum(a: nat, b: nat, size: nat)
    requires Whole(a, size) && Whole(b, size)
    ensures Whole(a + b, size)
  {
    if a > 0 {
      WholeSum(a - size, b, size);
    }
  }

  /** One record more. */
  lemma WantedSnoc(req: Request, items: seq<Item>, i: nat)
    requires i < |items|
    ensures var ws, it := Wanted(req, items[..i]), items[i];
      && Wanted(req, items[..i + 1]) == (if Answers(req, it) then ws + [it] else ws)
      && (Answers(req, it) ==>
            && BytesOf(ws + [it]) == BytesOf(ws) + (if it.data.Raw? then it.data.bytes else [])
            && LeastTtl(ws + [it]) == Min(LeastTtl(ws), it.ttl))
  {
    var ws, it := Wanted(req, items[..i]), items[i];
    assert items[..i + 1][..i] == items[..i];
    if Answers(req, it) {
      assert (ws + [it])[..|ws|] == ws;
    }
  }

  lemma CnameSnoc(req: Request, cname: Option<seq<Byte>>, items: seq<Item>, i: nat)
    requires i < |items|
    ensures var before, it := CnameFrom(req, cname, items[..i]), items[i];
      CnameFrom(req, cname, items[..i + 1]) ==
      if req.wantsCname && before.None? && it.rtype == TYPE_CNAME && it.data.Named?
          then Some(Undotted(it.data.target)) else before
  {
    assert items[..i + 1][..i] == items[..i];
  }

  /** A record of addresses, unless enough were found before, adds what it carries. */
  lemma AddressStep(p: seq<Byte>, req: Request, hostMax: nat, it: Item, k: nat, end: nat, f: Found,
                    before: seq<Byte>, size: nat)
    requires RecordIs(p, f.j, it, k, end) && Encodable(it.name) && Answers(req, it) && |p| < 0x1_0000
    requires size == AddressSize(req.rtype) > 0 && it.data.Raw? && Whole(|it.data.bytes|, size)
    requires f.reply.addrs == before && Whole(|before|, size) && |before| < MAX_V4_ADDRS * size
    ensures var s, all := AnswerStep(p, req, hostMax, f), before + it.data.bytes;
      && !s.Bad? && s.f.ttl == Min(f.ttl, it.ttl) && s.f.cname == f.cname
      && s.f.reply == f.reply.(have := true, addrs := all[..Min(|all|, MAX_V4_ADDRS * size)])
      && (s.Last? <==> |all| >= MAX_V4_ADDRS * size) && (s.More? ==> s.f.j == end)
  {
    FrontOfRecord(p, f.j, it, k, end);
    AddressesOfRecord(p, it, k + 6, end, f, size);
  }

  /** What was found before is all of the addresses. */
  lemma AllBefore(req: Request, ws: seq<Item>)
    requires AddressSize(req.rtype) > 0 && !Full(req, ws)
    ensures ReplyFor(req, ws) == Reply(|ws| > 0, BytesOf(ws), [])
            && |BytesOf(ws)| < MAX_V4_ADDRS * AddressSize(req.rtype)
  {
    assert |ws| > 0 ==> BytesOf(ws)[..|BytesOf(ws)|] == BytesOf(ws);
  }

  /** A wanted record, unless enough was found before, adds what it carries. */
  lemma WantedStep(p: seq<Byte>, req: Request, hostMax: nat, it: Item, k: nat, end: nat, f: Found, ws: seq<Item>)
    requires RecordIs(p, f.j, it, k, end) && Readable(req, hostMax, it) && Answers(req, it) && |p| < 0x1_0000
    requires f.reply == ReplyFor(req, ws) && !Full(req, ws)
    requires AddressSize(req.rtype) > 0 ==> Whole(|BytesOf(ws)|, AddressSize(req.rtype))
    requires BytesOf(ws + [it]) == BytesOf(ws) + (if it.data.Raw? then it.data.bytes else [])
    ensures var s := AnswerStep(p, req, hostMax, f);
      && !s.Bad? && s.f.ttl == Min(f.ttl, it.ttl) && s.f.cname == f.cname && s.f.reply == ReplyFor(req, ws + [it])
      && (s.Last? <==> Full(req, ws + [it])) && (s.More? ==> s.f.j == end)
  {
    if req.rtype == TYPE_PTR {
      FrontOfRecord(p, f.j, it, k, end);
      assert NameAt(p, k + 6, hostMax) == Some((Undotted(it.data.target), end));
      assert ws == [] && (ws + [it])[0] == it;
    } else {
      AllBefore(req, ws);
      AddressStep(p, req, hostMax, it, k, end, f, BytesOf(ws), AddressSize(req.rtype));
    }
  }

  /** A record that is not wanted is passed over; but a CNAME may be. */
  lemma OtherStep(p: seq<Byte>, req: Request, hostMax: nat, it: Item, k: nat, end: nat, f: Found)
    requires RecordIs(p, f.j, it, k, end) && Readable(req, hostMax, it) && !Answers(req, it) && |p| < 0x1_0000
    ensures AnswerStep(p, req, hostMax, f) == More(f.(j := end, cname :=
              if req.wantsCname && f.cname.None? && it.rtype == TYPE_CNAME && it.data.Named?
                  then Some(Undotted(it.data.target))
              else f.cname))
  {
    FrontOfRecord(p, f.j, it, k, end);
    if req.wantsCname && it.rtype == TYPE_CNAME {
      assert NameAt(p, k + 6, hostMax) == Some((Undotted(it.data.target), end));
      NoZero(it.data.target);
    }
  }

  /** One step over the answer section. */
  lemma AnswerStepIs(p: seq<Byte>, req: Request, hostMax: nat, cname: Option<seq<Byte>>, items: seq<Item>, i: nat,
                     f: Found, end: nat)
    requires i < |items| && AllReadable(req, hostMax, items, i + 1) && RecordAt(p, f.j, items[i], end) && |p| < 0x1_0000
    requires IsFound(req, cname, items[..i], f) && !Full(req, Wanted(req, items[..i]))
    ensures var s := AnswerStep(p, req, hostMax, f);
      && !s.Bad? && IsFound(req, cname, items[..i + 1], s.f)
      && (s.Last? <==> Full(req, Wanted(req, items[..i + 1]))) && (s.More? ==> s.f.j == end)
  {
    var it := items[i];
    var k :| RecordIs(p, f.j, it, k, end);
    WantedSnoc(req, items, i);
    CnameSnoc(req, cname, items, i);
    assert Readable(req, hostMax, it);
    if Answers(req, it) {
      if AddressSize(req.rtype) > 0 { WholeAddresses(req, hostMax, items, i); }
      WantedStep(p, req, hostMax, it, k, end, f, Wanted(req, items[..i]));
    } else {
      OtherStep(p, req, hostMax, it, k, end, f);
    }
  }

  /** A record that is wanted and has no whole addresses, or too long a name, makes the reply fail. */
  lemma StepFails(p: seq<Byte>, req: Request, hostMax: nat, it: Item, f: Found, end: nat)
    requires RecordAt(p, f.j, it, end) && Encodable(it.name) && |p| < 0x1_0000
    requires if Answers(req, it) then
               if req.rtype == TYPE_PTR then LongName(it.data, hostMax)
               else it.data.Raw? && |it.data.bytes| % AddressSize(req.rtype) != 0
             else req.wantsCname && f.cname.None? && it.rtype == TYPE_CNAME && LongName(it.data, hostMax)
    ensures AnswerStep(p, req, hostMax, f) == Bad(f.cname)
  {
    var k :| RecordIs(p, f.j, it, k, end);
    FrontOfRecord(p, f.j, it, k, end);
  }

  ghost predicate LongName(data: Data, hostMax: nat) {
    data.Named? && Encodable(data.target) && hostMax <= |Undotted(data.target)| <= 255
  }

  ghost predicate RoundAt(step: Found -> Step, ss: seq<Step>, i: nat)
    requires i + 1 < |ss|
  {
    ss[i].More? && ss[i + 1] == step(ss[i].f)
  }

  /** What is found before and after each round of a loop over records. */
  ghost predicate Rounds(step: Found -> Step, ss: seq<Step>) {
    |ss| > 0 && forall i {:trigger RoundAt(step, ss, i)} :: 0 <= i < |ss| - 1 ==> RoundAt(step, ss, i)
  }

  /** The loop does n rounds or, if one gives a last result, fewer. */
  lemma {:induction false} RoundsAre(step: Found -> Step, ss: seq<Step>, i: nat, n: nat)
    requires Rounds(step, ss) && i < |ss| && ss[i].More? && |ss| - 1 - i <= n
    requires |ss| - 1 - i < n ==> !ss[|ss| - 1].More?
    ensures After(step, ss[i].f, n) == ss[|ss| - 1]
    decreases n
  {
    if i + 1 < |ss| {
      assert RoundAt(step, ss, i);
      if ss[i + 1].More? {
        RoundsAre(step, ss, i + 1, n - 1);
      } else {
        assert i + 2 < |ss| ==> RoundAt(step, ss, i + 1);
      }
    }
  }

  lemma RoundsCons(step: Found -> Step, f: Found, rest: seq<Step>)
    requires Rounds(step, rest) && step(f) == rest[0]
    ensures Rounds(step, [More(f)] + rest)
  {
    var ss := [More(f)] + rest;
    forall i | 0 <= i < |ss| - 1 ensures RoundAt(step, ss, i) {
      assert i > 0 ==> RoundAt(step, rest, i - 1);
    }
  }

  /** One round of the loop over the answer section. */
  lemma AnswerRound(p: seq<Byte>, req: Request, hostMax: nat, cname: Option<seq<Byte>>, items: seq<Item>, i: nat,
                    f: Found, end: nat) returns (s: Step)
    requires i < |items| && AllReadable(req, hostMax, items, i + 1) && RecordAt(p, f.j, items[i], end) && |p| < 0x1_0000
    requires IsFound(req, cname, items[..i], f) && !Full(req, Wanted(req, items[..i]))
    ensures Rounds(AnswerReader(p, req, hostMax), [More(f), s])
    ensures !s.Bad? && IsFound(req, cname, items[..i + 1], s.f)
    ensures if Full(req, Wanted(req, items[..i + 1])) then s.Last? else s.More? && s.f.j == end
  {
    AnswerStepIs(p, req, hostMax, cname, items, i, f, end);
    s := AnswerStep(p, req, hostMax, f);
    assert AnswerReader(p, req, hostMax)(f) == s;
    RoundsCons(AnswerReader(p, req, hostMax), f, [s]);
    assert [More(f)] + [s] == [More(f), s];
  }

  /** Rounds, and then more of them. */
  lemma RoundsOn(step: Found -> Step, f: Found, s: Step, rest: seq<Step>)
    requires Rounds(step, [More(f), s]) && Rounds(step, rest) && rest[0] == s
    ensures Rounds(step, [More(f)] + rest)
  {
    assert RoundAt(step, [More(f), s], 0);
    RoundsCons(step, f, rest);
  }

  /** The loop over the answer section, from record number i on. */
  lemma {:induction false} AnswersRun(p: seq<Byte>, req: Request, hostMax: nat, cname: Option<seq<Byte>>,
                                      items: seq<Item>,
                                      offs: seq<nat>, n: nat, i: nat, f: Found) returns (ss: seq<Step>)
    requires RecordsIn(p, items, offs) && i <= n <= |items| && AllReadable(req, hostMax, items, n) && |p| < 0x1_0000
    requires f.j == offs[i] && IsFound(req, cname, items[..i], f) && !Full(req, Wanted(req, items[..i]))
    ensures Rounds(AnswerReader(p, req, hostMax), ss) && ss[0] == More(f) && |ss| - 1 <= n - i
    ensures var s, m := ss[|ss| - 1], Looked(req, items, n, i);
      && !s.Bad? && IsFound(req, cname, items[..m], s.f)
      && (if Full(req, Wanted(req, items[..m])) then s.Last?
          else s.More? && |ss| - 1 == n - i && m == n && s.f.j == offs[n])
    decreases n - i
  {
    if i == n {
      ss := [More(f)];
    } else {
      assert RecordAt(p, offs[i], items[i], offs[i + 1]);
      var s := AnswerRound(p, req, hostMax, cname, items, i, f, offs[i + 1]);
      if s.Last? {
        ss := [More(f), s];
      } else {
        var rest := AnswersRun(p, req, hostMax, cname, items, offs, n, i + 1, s.f);
        RoundsOn(AnswerReader(p, req, hostMax), f, s, rest);
        ss := [More(f)] + rest;
      }
    }
  }

  /** Whatever follows when enough was found makes no difference to the reply. */
  lemma {:induction false} ReplyOfFull(req: Request, items: seq<Item>, m: nat, n: nat)
    requires m <= n <= |items| && Full(req, Wanted(req, items[..m]))
    ensures ReplyFor(req, Wanted(req, items[..n])) == ReplyFor(req, Wanted(req, items[..m]))
    ensures Full(req, Wanted(req, items[..n]))
  {
    if m < n {
      ReplyOfFull(req, items, m, n - 1);
      FullStays(req, items, n - 1);
    }
  }

  lemma {:induction false} FullStays(req: Request, items: seq<Item>, i: nat)
    requires i < |items| && Full(req, Wanted(req, items[..i]))
    ensures ReplyFor(req, Wanted(req, items[..i + 1])) == ReplyFor(req, Wanted(req, items[..i]))
    ensures Full(req, Wanted(req, items[..i + 1]))
  {
    WantedSnoc(req, items, i);
    FullAndMore(req, Wanted(req, items[..i]), items[i]);
  }

  lemma FullAndMore(req: Request, ws: seq<Item>, it: Item)
    requires Full(req, ws)
    ensures Full(req, ws + [it]) && ReplyFor(req, ws + [it]) == ReplyFor(req, ws)
  {
    assert (ws + [it])[..|ws|] == ws && (ws + [it])[0] == ws[0];
    var more := if it.data.Raw? then it.data.bytes else [];
    var most := MAX_V4_ADDRS * AddressSize(req.rtype);
    assert BytesOf(ws + [it]) == BytesOf(ws) + more;
    assert |BytesOf(ws)| >= most ==> (BytesOf(ws) + more)[..most] == BytesOf(ws)[..most];
  }

  /** The addresses, or the name, in a reply are those of all the records of the answer section. */
  lemma ReplyOfAll(req: Request, items: seq<Item>)
    ensures ReplyFor(req, Wanted(req, items[..Looked(req, items, |items|, 0)])) == ReplyFor(req, Wanted(req, items))
  {
    var m := Looked(req, items, |items|, 0);
    LookedEnds(req, items, |items|, 0);
    assert items[..|items|] == items;
    if m < |items| {
      ReplyOfFull(req, items, m, |items|);
    }
  }

  lemma {:induction false} LookedEnds(req: Request, items: seq<Item>, n: nat, i: nat)
    requires i <= n <= |items|
    ensures var m := Looked(req, items, n, i); m < n ==> Full(req, Wanted(req, items[..m]))
    decreases n - i
  {
    if i < n && !Full(req, Wanted(req, items[..i])) {
      LookedEnds(req, items, n, i + 1);
    }
  }

  // ---------- the authority section ----------

  /** Labels of 1 to 63 bytes. */
  ghost predicate Proper(ls: seq<Label>) {
    forall i {:trigger ls[i]} :: 0 <= i < |ls| ==> 0 < |ls[i]| <= 63
  }

  /** A name without compression: its labels and a zero. */
  ghost function Wire(ls: seq<Label>): seq<Byte>
    requires Proper(ls)
  {
    if |ls| == 0 then [0] else [|ls[0]|] + ls[0] + Wire(ls[1..])
  }

  lemma {:induction false} EncodableIsProper(v: seq<Byte>)
    requires Encodable(v)
    ensures Proper(Labels(v))
  {
    if FirstDot(v) < |v| {
      EncodableIsProper(v[FirstDot(v) + 1..]);
    }
  }

  ghost function Plain(v: seq<Byte>): seq<Byte>
    requires Encodable(v)
  {
    EncodableIsProper(v);
    Wire(Labels(v))
  }

  /** At offset j stands w. */
  ghost predicate StandsAt(p: seq<Byte>, j: nat, w: seq<Byte>) {
    j + |w| <= |p| && p[j..j + |w|] == w
  }

  lemma StandsSplit(p: seq<Byte>, j: nat, a: seq<Byte>, b: seq<Byte>)
    requires StandsAt(p, j, a + b)
    ensures StandsAt(p, j, a) && StandsAt(p, j + |a|, b)
  {
    var w := p[j..j + |a| + |b|];
    assert w[..|a|] == a && w[|a|..] == b;
  }

  /** A label goes before what follows it. */
  lemma LabelDecoded(p: seq<Byte>, j: nat, l: Label, hops: nat, rest: seq<Label>)
    requires 0 < |l| <= 63 && StandsAt(p, j, [|l|] + l) && Decode(p, j + 1 + |l|, hops) == Some(rest)
    ensures Decode(p, j, hops) == Some([l] + rest) && NameEnd(p, j) == NameEnd(p, j + 1 + |l|)
  {
    StandsSplit(p, j, [|l|], l);
    assert p[j..j + 1][0] == p[j];
  }

  lemma {:induction false} WireDecodes(p: seq<Byte>, j: nat, ls: seq<Label>, hops: nat)
    requires Proper(ls) && StandsAt(p, j, Wire(ls))
    ensures Decode(p, j, hops) == Some(ls) && NameEnd(p, j) == j + |Wire(ls)|
    decreases |ls|
  {
    if |ls| == 0 {
      assert p[j..j + 1][0] == p[j];
    } else {
      var l, rest := ls[0], ls[1..];
      StandsSplit(p, j, [|l|] + l, Wire(rest));
      WireDecodes(p, j + 1 + |l|, rest, hops);
      LabelDecoded(p, j, l, hops, rest);
      assert [l] + rest == ls;
    }
  }

  lemma PlainIsName(p: seq<Byte>, j: nat, v: Text)
    requires Encodable(v) && |v| <= 255 && StandsAt(p, j, Plain(v))
    ensures NameAt(p, j, NAME_BUF).Some? && NameAt(p, j, NAME_BUF).value.1 == j + |Plain(v)|
  {
    EncodableIsProper(v);
    WireDecodes(p, j, Labels(v), |p|);
    JoinLabels(v);
  }

  predicate IsSoa(it: Item) {
    it.rtype == TYPE_SOA && it.class_ == CLASS_INET
  }

  /** The data of an SOA record: two names, and five numbers of four bytes each, of which the last is the minimum. */
  ghost predicate SoaData(it: Item, primary: Text, mailbox: Text, numbers: seq<Byte>) {
    && Encodable(primary) && |primary| <= 255 && Encodable(mailbox) && |mailbox| <= 255 && |numbers| == 20
    && it.data.Raw? && it.data.bytes == Plain(primary) + Plain(mailbox) + numbers
  }

  function Minimum(it: Item): U32 {
    if it.data.Raw? && |it.data.bytes| >= 4 then Get32(it.data.bytes, |it.data.bytes| - 4) else NO_TTL
  }

  /** The least of the times to live and the minimums of the SOA records among the first n. */
  function SoaTtl(items: seq<Item>, n: nat): U32
    requires n <= |items|
  {
    if n == 0 then NO_TTL
    else
      var before, it := SoaTtl(items, n - 1), items[n - 1];
      if IsSoa(it) then Min(Min(before, it.ttl), Minimum(it)) else before
  }

  ghost predicate SoaReadable(it: Item) {
    && Encodable(it.name)
    && (IsSoa(it) ==> exists primary, mailbox, numbers {:trigger SoaData(it, primary, mailbox, numbers)} ::
                        SoaData(it, primary, mailbox, numbers))
  }

  ghost predicate AllSoaReadable(items: seq<Item>) {
    forall i {:trigger SoaReadable(items[i])} :: 0 <= i < |items| ==> SoaReadable(items[i])
  }

  /** The last number of four bytes. */
  lemma LastNumber(p: seq<Byte>, at: nat, bytes: seq<Byte>)
    requires StandsAt(p, at, bytes) && |bytes| >= 4
    ensures Get32(p, at + |bytes| - 4) == Get32(bytes, |bytes| - 4)
  {
    var w := p[at..at + |bytes|];
    assert forall i {:trigger w[i]} :: 0 <= i < |bytes| ==> w[i] == p[at + i];
  }

  /** The names and the minimum of a written SOA record. */
  lemma SoaParts(p: seq<Byte>, it: Item, at: nat, end: nat, primary: Text, mailbox: Text, numbers: seq<Byte>)
    requires SoaData(it, primary, mailbox, numbers) && DataIs(p, at, it.data, end)
    ensures NameAt(p, at, NAME_BUF).Some?
    ensures var m := NameAt(p, at, NAME_BUF).value.1;
      NameAt(p, m, NAME_BUF).Some? && NameAt(p, m, NAME_BUF).value.1 + 20 == end
    ensures 20 <= end <= |p| && Get32(p, end - 4) == Minimum(it)
  {
    assert StandsAt(p, at, it.data.bytes);
    LastNumber(p, at, it.data.bytes);
    StandsSplit(p, at, Plain(primary) + Plain(mailbox), numbers);
    StandsSplit(p, at, Plain(primary), Plain(mailbox));
    PlainIsName(p, at, primary);
    PlainIsName(p, at + |Plain(primary)|, mailbox);
  }

  /** What AuthorityStep does, once the parts of the record are known. */
  lemma SoaStep(p: seq<Byte>, f: Found, front: Front, m: nat, end: nat)
    requires FrontAt(p, f.j) == Some(front) && front.rtype == TYPE_SOA && front.class_ == CLASS_INET
    requires NameAt(p, front.at, NAME_BUF).Some? && NameAt(p, front.at, NAME_BUF).value.1 == m
    requires NameAt(p, m, NAME_BUF).Some? && NameAt(p, m, NAME_BUF).value.1 + 20 == end <= |p|
    ensures AuthorityStep(p, f) == More(f.(j := end, ttl := Min(Min(f.ttl, front.ttl), Get32(p, end - 4))))
  {
  }

  /** One record of the authority section. */
  lemma AuthorityStepIs(p: seq<Byte>, it: Item, f: Found, end: nat)
    requires RecordAt(p, f.j, it, end) && SoaReadable(it) && |p| < 0x1_0000
    ensures AuthorityStep(p, f) ==
            More(f.(j := end, ttl := if IsSoa(it) then Min(Min(f.ttl, it.ttl), Minimum(it)) else f.ttl))
  {
    var k: nat :| RecordIs(p, f.j, it, k, end);
    FrontOfRecord(p, f.j, it, k, end);
    if IsSoa(it) {
      var primary, mailbox, numbers :| SoaData(it, primary, mailbox, numbers);
      SoaParts(p, it, k + 6, end, primary, mailbox, numbers);
      var front := Front(it.rtype, it.class_, it.ttl, end - k - 6, k + 6);
      SoaStep(p, f, front, NameAt(p, k + 6, NAME_BUF).value.1, end);
    }
  }

  /** One round, and those after it. */
  lemma AuthorityRound(p: seq<Byte>, it: Item, f: Found, end: nat, rest: seq<Step>)
    requires RecordAt(p, f.j, it, end) && SoaReadable(it) && |p| < 0x1_0000 && Rounds(AuthorityReader(p), rest)
    requires rest[0] == More(f.(j := end, ttl := if IsSoa(it) then Min(Min(f.ttl, it.ttl), Minimum(it)) else f.ttl))
    ensures Rounds(AuthorityReader(p), [More(f)] + rest)
  {
    AuthorityStepIs(p, it, f, end);
    assert AuthorityReader(p)(f) == rest[0];
    RoundsCons(AuthorityReader(p), f, rest);
  }

  /** The loop over the authority section, whose records are those from number a on. */
  lemma {:induction false} AuthoritiesRun(p: seq<Byte>, items: seq<Item>, offs: seq<nat>, section: seq<Item>, a: nat,
                                          i: nat, f: Found)
    returns (ss: seq<Step>)
    requires RecordsIn(p, items, offs) && a + |section| <= |items| && i <= |section| && |p| < 0x1_0000
    requires (forall k {:trigger section[k]} :: 0 <= k < |section| ==> section[k] == items[a + k])
             && AllSoaReadable(section)
    requires f.j == offs[a + i] && f.ttl == SoaTtl(section, i)
    ensures Rounds(AuthorityReader(p), ss) && ss[0] == More(f) && |ss| == |section| - i + 1
    ensures var last := ss[|ss| - 1];
      last.More? && last.f.ttl == SoaTtl(section, |section|) && last.f.reply == f.reply && last.f.cname == f.cname
    decreases |section| - i
  {
    if i == |section| {
      ss := [More(f)];
    } else {
      var m, it := a + i, section[i];
      assert it == items[m] && SoaReadable(section[i]);
      assert RecordAt(p, offs[m], items[m], offs[m + 1]);
      var g := f.(j := offs[m + 1], ttl := SoaTtl(section, i + 1));
      ss := AuthoritiesRun(p, items, offs, section, a, i + 1, g);
      AuthorityRound(p, it, f, offs[m + 1], ss);
      ss := [More(f)] + ss;
    }
  }

  // ---------- a whole exchange ----------

  /** The same byte, or the same letter in its two cases. */
  predicate SameLetter(a: Byte, b: Byte) {
    a == b || (65 <= a <= 90 && b == a + 32) || (65 <= b <= 90 && a == b + 32)
  }

  /** The names are the same, or the same but for the case of letters. */
  predicate SameName(a: seq<Byte>, b: seq<Byte>, anyCase: bool) {
    if anyCase then |a| == |b| && forall i {:trigger a[i]} :: 0 <= i < |a| ==> SameLetter(a[i], b[i]) else a == b
  }

  lemma SameTextIs(a: seq<Byte>, b: seq<Byte>, fold: bool)
    ensures SameText(a, b, fold) <==> SameName(a, b, fold)
  {
    if |a| == |b| {
      assert forall i {:trigger a[i]} :: 0 <= i < |a| ==> (SameLetter(a[i], b[i]) <==> Lower(a[i]) == Lower(b[i]));
    }
  }

  /** The question of the reply matches just if its name is that of the question that was sent. */
  lemma QuestionMatches(p: seq<Byte>, sent: seq<Byte>, fold: bool, q: Question, end: nat, asked: Question, sentEnd: nat)
    requires HeadIs(p, 12, q, end) && Encodable(q.name) && end <= |p|
    requires QuestionAt(sent, 12) == Some((asked, sentEnd))
    ensures MatchAfter(p, sent, fold, 12, false, 1) == Some((end, SameName(Undotted(q.name), asked.name, fold)))
  {
    NoZero(q.name);
    SameTextIs(Undotted(q.name), asked.name, fold);
    var matched := SameName(Undotted(q.name), asked.name, fold);
    assert MatchAfter(p, sent, fold, end, matched, 0) == Some((end, matched));
  }

  /** Two bytes of a packet, the higher one first. */
  function Word(high: Byte, low: Byte): U16 {
    var x: nat := high;
    x * 256 + low
  }

  /** A packet that is taken for an answer, whatever it is, has a question at an offset where the packet that was sent
      has one with the same name. */
  lemma AnsweredAsked(p: seq<Byte>, requests: map<U16, Request>, fold: bool, hostMax: nat, cname: Option<seq<Byte>>)
    returns (j: nat)
    requires ReplyOf(p, requests, fold, hostMax, cname).0.Answered?
    ensures |p| >= 12 && Word(p[0], p[1]) in requests && Get16(p, 4) > 0
    ensures var sent := requests[Word(p[0], p[1])].sent;
      && NameAt(p, j, NAME_BUF).Some? && NameAt(sent, j, NAME_BUF).Some?
      && SameName(CString(NameAt(p, j, NAME_BUF).value.0), CString(NameAt(sent, j, NAME_BUF).value.0), fold)
  {
    assert Get16(p, 0) == Word(p[0], p[1]);
    j := MatchedSomewhere(p, requests[Get16(p, 0)].sent, fold, 12, Get16(p, 4));
  }

  lemma {:induction false} MatchedSomewhere(p: seq<Byte>, sent: seq<Byte>, fold: bool, i: nat, n: nat) returns (j: nat)
    requires var m := MatchAfter(p, sent, fold, i, false, n); m.Some? && m.value.1
    ensures n > 0 && NameAt(p, j, NAME_BUF).Some? && NameAt(sent, j, NAME_BUF).Some?
    ensures SameName(CString(NameAt(p, j, NAME_BUF).value.0), CString(NameAt(sent, j, NAME_BUF).value.0), fold)
    decreases n
  {
    var a, b := NameAt(p, i, NAME_BUF).value, NameAt(sent, i, NAME_BUF).value;
    SameTextIs(CString(a.0), CString(b.0), fold);
    if SameName(CString(a.0), CString(b.0), fold) {
      j := i;
    } else {
      j := MatchedSomewhere(p, sent, fold, a.1 + 4, n - 1);
    }
  }

  /** Nothing becomes of a packet just if it is shorter than a header, or no request has its id, or its answer bit is
      clear; and an answer keeps its flags, which have no error but that the name does not exist, and is not cut
      off. */
  lemma IgnoredIff(p: seq<Byte>, requests: map<U16, Request>, fold: bool, hostMax: nat, cname: Option<seq<Byte>>)
    ensures var o := ReplyOf(p, requests, fold, hostMax, cname).0;
      && (o.Ignored? <==> |p| < 12 || Word(p[0], p[1]) !in requests || p[2] < 128)
      && (!o.Ignored? ==> o.flags == Word(p[2], p[3]))
      && (o.Answered? ==> p[2] / 2 % 2 == 0 && (p[3] % 16 == 0 || p[3] % 16 == 3))
  {
    if |p| >= 12 { FlagBytes(p[2], p[3]); }
  }

  lemma FlagBytes(x: nat, y: nat)
    requires x < 256 && y < 256
    ensures (x * 256 + y) / 0x200 == x / 2 && (x * 256 + y) % 16 == y % 16 && (x * 256 + y < 0x8000 <==> x < 128)
  {
    HighByte(x, y);
    assert x * 256 + y == 16 * (16 * x + y / 16) + y % 16;
  }

  lemma FirstQuestion(p: seq<Byte>, rsp: Response, qoffs: seq<nat>, offs: seq<nat>) returns (end: nat)
    requires MessageIs(p, rsp, qoffs, offs) && |rsp.questions| == 1
    ensures HeadIs(p, 12, rsp.questions[0], end) && end == offs[0] && end <= |p|
  {
    var i := 0;
    assert HeadIs(p, qoffs[i], rsp.questions[i], qoffs[i + 1]);
    end := qoffs[i + 1];
  }

  /** The time to live in a reply: the least of the wanted records that were looked at or, if there are none, of
      the SOA records; 0 if there are none of these either. */
  function TtlFor(req: Request, rsp: Response): U32 {
    var ws := Wanted(req, rsp.answers[..Looked(req, rsp.answers, |rsp.answers|, 0)]);
    var ttl := if |ws| > 0 then LeastTtl(ws) else SoaTtl(rsp.authority, |rsp.authority|);
    if ttl == NO_TTL then 0 else ttl
  }

  /** Reading the answer section of a written response. */
  lemma AnswersRead(p: seq<Byte>, rsp: Response, qoffs: seq<nat>, offs: seq<nat>, req: Request, hostMax: nat,
                    cname: Option<seq<Byte>>) returns (s: Step)
    requires MessageIs(p, rsp, qoffs, offs) && |p| < 0x1_0000
    requires AllReadable(req, hostMax, rsp.answers, |rsp.answers|)
    ensures s == After(AnswerReader(p, req, hostMax), Found(offs[0], NO_TTL, Reply(false, [], []), cname),
            |rsp.answers|)
    ensures !s.Bad? && IsFound(req, cname, rsp.answers[..Looked(req, rsp.answers, |rsp.answers|, 0)], s.f)
    ensures s.f.reply == ReplyFor(req, Wanted(req, rsp.answers)) && (!s.f.reply.have ==> s.f.j == offs[|rsp.answers|])
  {
    var items, n, a := rsp.Items(), |rsp.answers|, rsp.answers;
    var f0 := Found(offs[0], NO_TTL, Reply(false, [], []), cname);
    AnswersReadable(req, hostMax, rsp);
    LookedSame(req, rsp, n, 0);
    assert items[..Looked(req, a, n, 0)] == a[..Looked(req, a, n, 0)];
    var ss := AnswersRun(p, req, hostMax, cname, items, offs, n, 0, f0);
    RoundsAre(AnswerReader(p, req, hostMax), ss, 0, n);
    ReplyOfAll(req, a);
    s := ss[|ss| - 1];
  }

  lemma BothAre(answer: Found -> Step, authority: Found -> Step, f: Found, n: nat, m: nat, s: Step, t: Step)
    requires After(answer, f, n) == s && !s.Bad? && (if s.f.reply.have then t == s else After(authority, s.f, m) == t)
    ensures Both(answer, authority, f, n, m) == t
  {
  }

  /** Reading the authority section of a written response after the answers gave nothing. */
  lemma AuthorityRead(p: seq<Byte>, rsp: Response, offs: seq<nat>, f: Found) returns (t: Step)
    requires RecordsIn(p, rsp.Items(), offs) && |p| < 0x1_0000 && AllSoaReadable(rsp.authority)
    requires f.j == offs[|rsp.answers|] && f.ttl == NO_TTL
    ensures After(AuthorityReader(p), f, |rsp.authority|) == t && t.More?
    ensures t.f.ttl == SoaTtl(rsp.authority, |rsp.authority|) && t.f.reply == f.reply && t.f.cname == f.cname
  {
    var ss := AuthoritiesRun(p, rsp.Items(), offs, rsp.authority, |rsp.answers|, 0, f);
    RoundsAre(AuthorityReader(p), ss, 0, |rsp.authority|);
    t := ss[|ss| - 1];
  }

  /** Reading the two sections of a written response. */
  lemma SectionsRead(p: seq<Byte>, rsp: Response, qoffs: seq<nat>, offs: seq<nat>, req: Request, hostMax: nat,
                     cname: Option<seq<Byte>>) returns (t: Step)
    requires MessageIs(p, rsp, qoffs, offs) && |p| < 0x1_0000
    requires AllReadable(req, hostMax, rsp.answers, |rsp.answers|) && AllSoaReadable(rsp.authority)
    ensures SectionsOf(p, req, hostMax, offs[0], |rsp.answers|, |rsp.authority|, cname) == t && !t.Bad?
    ensures t.f.reply == ReplyFor(req, Wanted(req, rsp.answers))
            && (if t.f.ttl == NO_TTL then 0 else t.f.ttl) == TtlFor(req, rsp)
    ensures t.f.cname == CnameFrom(req, cname, rsp.answers[..Looked(req, rsp.answers, |rsp.answers|, 0)])
  {
    var s := AnswersRead(p, rsp, qoffs, offs, req, hostMax, cname);
    t := s;
    if !s.f.reply.have {
      t := AuthorityRead(p, rsp, offs, s.f);
    }
    BothAre(AnswerReader(p, req, hostMax), AuthorityReader(p), Found(offs[0], NO_TTL, Reply(false, [], []), cname),
            |rsp.answers|, |rsp.authority|, s, t);
  }

  lemma AnswersReadable(req: Request, hostMax: nat, rsp: Response)
    requires AllReadable(req, hostMax, rsp.answers, |rsp.answers|)
    ensures AllReadable(req, hostMax, rsp.Items(), |rsp.answers|)
  {
    forall i | 0 <= i < |rsp.answers| ensures Readable(req, hostMax, rsp.Items()[i]) {
      assert Readable(req, hostMax, rsp.answers[i]);
    }
  }

  lemma {:induction false} LookedSame(req: Request, rsp: Response, n: nat, i: nat)
    requires i <= n == |rsp.answers|
    ensures Looked(req, rsp.Items(), n, i) == Looked(req, rsp.answers, n, i)
    decreases n - i
  {
    assert rsp.Items()[..i] == rsp.answers[..i];
    if i < n {
      LookedSame(req, rsp, n, i + 1);
    }
  }

  lemma HeaderNumbers(p: seq<Byte>, rsp: Response)
    requires rsp.HeaderOf(p, rsp.flags) && |rsp.questions| == 1 && |rsp.answers| < 0x1_0000
             && |rsp.authority| < 0x1_0000
    ensures |p| >= 12 && Get16(p, 0) == rsp.id && Get16(p, 2) == rsp.flags && Get16(p, 4) == 1
    ensures Get16(p, 6) == |rsp.answers| && Get16(p, 8) == |rsp.authority|
  {
  }

  /** What becomes of a written response with one question: it fails if it is cut off or has an error other than that
      the name does not exist, or if its question has another name than the one that was sent. Otherwise it arrives as
      the first 32 of all addresses of the type asked for, or the first name, and the time to live; whatever other
      records there are. */
  lemma AnswerArrives(p: seq<Byte>, rsp: Response, qoffs: seq<nat>, offs: seq<nat>, q: Question,
                      requests: map<U16, Request>, asked: Question, sentEnd: nat,
                      fold: bool, hostMax: nat, cname: Option<seq<Byte>>)
    requires MessageIs(p, rsp, qoffs, offs) && |p| < 0x1_0000 && rsp.questions == [q]
    requires |rsp.answers| < 0x1_0000 && |rsp.authority| < 0x1_0000
    requires rsp.flags >= 0x8000 && Encodable(q.name) && rsp.id in requests
    requires AllReadable(requests[rsp.id], hostMax, rsp.answers, |rsp.answers|) && AllSoaReadable(rsp.authority)
    requires QuestionAt(requests[rsp.id].sent, 12) == Some((asked, sentEnd))
    ensures var req := requests[rsp.id];
      ReplyOf(p, requests, fold, hostMax, cname) ==
      if rsp.flags / 0x200 % 2 == 0 && (rsp.flags % 16 == 0 || rsp.flags % 16 == 3)
         && SameName(Undotted(q.name), asked.name, fold)
      then (Answered(rsp.flags, TtlFor(req, rsp), ReplyFor(req, Wanted(req, rsp.answers))),
            CnameFrom(req, cname, rsp.answers[..Looked(req, rsp.answers, |rsp.answers|, 0)]))
      else (Failed(rsp.flags), cname)
  {
    var req := requests[rsp.id];
    var j := FirstQuestion(p, rsp, qoffs, offs);
    QuestionMatches(p, req.sent, fold, q, j, asked, sentEnd);
    HeaderNumbers(p, rsp);
    var t := SectionsRead(p, rsp, qoffs, offs, req, hostMax, cname);
  }

  /** A reply that was cut off is not taken for an answer. */
  lemma TruncatedFails(p: seq<Byte>, rsp: Response, flags: U16, requests: map<U16, Request>,
                       fold: bool, hostMax: nat, cname: Option<seq<Byte>>)
    requires |p| == MAX_REPLY && rsp.HeaderOf(p, flags) && Truncated(flags) && flags >= 0x8000 && rsp.id in requests
    ensures ReplyOf(p, requests, fold, hostMax, cname) == (Failed(flags), cname)
  {
  }

  /** A query of some type that was built for a name, and a reply to the one question in it: what the asker gets is
      the addresses, or the name, and the time to live that the answerer put in. */
  lemma Exchange(query: seq<Byte>, p: seq<Byte>, id: U16, name: Text, rtype: U16, rsp: Response, qoffs: seq<nat>,
                 offs: seq<nat>,
                 fold: bool, hostMax: nat)
    requires Encodable(name)
    requires var q := Question(Undotted(name), rtype, CLASS_INET);
      QueryOf(query) == Some(Query(id, 0x0100, [q])) && rsp.questions == [q]
    requires rsp.id == id && rsp.flags == ResponseFlags(0x0100, 0)
    requires MessageIs(p, rsp, qoffs, offs) && |p| <= MAX_REPLY && |rsp.answers| < 0x1_0000
             && |rsp.authority| < 0x1_0000
    requires AllReadable(Request(rtype, query, false), hostMax, rsp.answers, |rsp.answers|)
             && AllSoaReadable(rsp.authority)
    ensures var req := Request(rtype, query, false);
      ReplyOf(p, map[id := req], fold, hostMax, None)
      == (Answered(0x8100, TtlFor(req, rsp), ReplyFor(req, Wanted(req, rsp.answers))), None)
  {
    UndottedEncodable(name);
    var q, req := rsp.questions[0], Request(rtype, query, false);
    OneQuestion(query, id, 0x0100, q);
    NoErrorFlags();
    var end := QuestionAt(query, 12).value.1;
    AnswerArrives(p, rsp, qoffs, offs, q, map[id := req], q, end, fold, hostMax, None);
    NoCname(req, None, rsp.answers[..Looked(req, rsp.answers, |rsp.answers|, 0)]);
  }

  /** The response that answers a question with some records. */
  function AnswerTo(id: U16, q: Question, answers: seq<Item>, authority: seq<Item>, additional: seq<Item>): Response {
    Response(id, 0x0100, [q], answers, authority, additional)
  }

  /** A query is built, read, answered with some records, and the reply is read: the asker gets the addresses, or the
      name, and the time to live of all the records, unless they do not fit into 512 bytes and the reply fails. */
  method AskAndAnswer(name: Text, id: U16, rtype: U16, answers: seq<Item>, authority: seq<Item>, additional: seq<Item>,
                      fold: bool, hostMax: nat)
    returns (query: seq<Byte>, outcome: Outcome)
    requires Encodable(name) && |name| <= 255 && |answers| < 0x1_0000 && |authority| < 0x1_0000
    requires AllReadable(Request(rtype, [], false), hostMax, answers, |answers|) && AllSoaReadable(authority)
    ensures var q, req := Question(Undotted(name), rtype, CLASS_INET), Request(rtype, query, false);
      var rsp := AnswerTo(id, q, answers, authority, additional);
      && QueryOf(query) == Some(Query(id, 0x0100, [q]))
      && outcome == if ResponseEnd(rsp).At? && ResponseEnd(rsp).j <= MAX_REPLY
                    then Answered(0x8100, TtlFor(req, rsp), ReplyFor(req, Wanted(req, answers)))
                    else Failed(0x8300)
  {
    var qbuf := new Byte[|name| + 102];
    var n := RequestDataBuild(name, id, rtype, CLASS_INET, qbuf, |name| + 102);
    query := qbuf[..n];
    var parsed := RequestParse(query);
    var asked := parsed.value;
    var rsp := Response(asked.id, asked.flags, asked.questions, answers, authority, additional);
    AnswerSound(name, rsp);
    var rbuf := new Byte[REPLY_BUF + 1];
    var r, packet;
    ghost var qoffs, offs, wrote;
    r, packet, qoffs, offs, wrote := FormatResponse(rsp, 0, rbuf);
    var cname;
    outcome, cname := ReplyParse(packet, map[id := Request(rtype, query, false)], fold, hostMax, None);
    ReplyArrives(query, packet, id, name, rtype, rsp, qoffs, offs, fold, hostMax);
  }

  /** The question of a query can be written again, so that there is a reply. */
  lemma {:induction false} AnswerSound(name: Text, rsp: Response)
    requires Encodable(name) && |name| <= 255 && |rsp.questions| == 1 && rsp.questions[0].name == Undotted(name)
    ensures QuestionsSound(rsp.questions) && 12 + QuestionsSize(rsp.questions, 1) <= REPLY_BUF
  {
    UndottedEncodable(name);
    OneQuestionSize(rsp.questions);
  }

  lemma {:induction false} OneQuestionSize(qs: seq<Question>)
    requires |qs| == 1
    ensures QuestionsSize(qs, 1) == |qs[0].name| + 6
  {
    assert QuestionsSize(qs, 0) == 0;
  }

  /** What is read of the packet that FormatResponse made. */
  lemma ReplyArrives(query: seq<Byte>, packet: seq<Byte>, id: U16, name: Text, rtype: U16, rsp: Response,
                     qoffs: seq<nat>, offs: seq<nat>, fold: bool, hostMax: nat)
    requires Encodable(name) && |rsp.answers| < 0x1_0000 && |rsp.authority| < 0x1_0000
    requires var q := Question(Undotted(name), rtype, CLASS_INET);
      QueryOf(query) == Some(Query(id, 0x0100, [q])) && rsp.questions == [q] && rsp.id == id && rsp.flags == 0x0100
    requires AllReadable(Request(rtype, [], false), hostMax, rsp.answers, |rsp.answers|)
    requires AllSoaReadable(rsp.authority)
    requires if Truncated(FlagsOf(packet))
             then |packet| == MAX_REPLY && rsp.HeaderOf(packet, SetTruncated(ResponseFlags(0x0100, 0)))
             else |packet| <= MAX_REPLY && MessageIs(packet, rsp.(flags := ResponseFlags(0x0100, 0)), qoffs, offs)
    ensures var req := Request(rtype, query, false);
      ReplyOf(packet, map[id := req], fold, hostMax, None).0
      == if Truncated(FlagsOf(packet)) then Failed(0x8300)
         else Answered(0x8100, TtlFor(req, rsp), ReplyFor(req, Wanted(req, rsp.answers)))
  {
    var req := Request(rtype, query, false);
    NoErrorFlags();
    if Truncated(FlagsOf(packet)) {
      TruncatedFails(packet, rsp, 0x8300, map[id := req], fold, hostMax, None);
    } else {
      forall i | 0 <= i < |rsp.answers| ensures Readable(req, hostMax, rsp.answers[i]) {
        assert Readable(Request(rtype, [], false), hostMax, rsp.answers[i]);
      }
      Exchange(query, packet, id, name, rtype, rsp.(flags := ResponseFlags(0x0100, 0)), qoffs, offs, fold, hostMax);
    }
  }

  lemma {:induction false} NoCname(req: Request, cname: Option<seq<Byte>>, items: seq<Item>)
    requires !req.wantsCname
    ensures CnameFrom(req, cname, items) == cname
  {
    if |items| > 0 {
      NoCname(req, cname, items[..|items| - 1]);
    }
  }

  lemma OneWanted(req: Request, it: Item)
    requires Answers(req, it) && AddressSize(req.rtype) > 0 && it.data.Raw?
    ensures Wanted(req, [it]) == [it] && BytesOf([it]) == it.data.bytes && LeastTtl([it]) == it.ttl
    ensures Looked(req, [it], 1, 0) == 1
  {
    WantedSnoc(req, [it], 0);
    assert [it][..1] == [it] && [it][..0] == [] && [] + [it] == [it] && [] + it.data.bytes == it.data.bytes;
    assert Looked(req, [it], 1, 1) == 1;
  }

  /** One record of addresses only. */
  lemma OneRecord(req: Request, rsp: Response, it: Item)
    requires rsp.answers == [it] && Answers(req, it) && AddressSize(req.rtype) > 0 && it.data.Raw?
    ensures ReplyFor(req, Wanted(req, rsp.answers)) ==
            Reply(true, it.data.bytes[..Min(|it.data.bytes|, MAX_V4_ADDRS * AddressSize(req.rtype))], [])
    ensures TtlFor(req, rsp) == if it.ttl == NO_TTL then 0 else it.ttl
  {
    OneWanted(req, it);
    assert rsp.answers[..1] == [it];
  }

  lemma NoErrorFlags()
    ensures ResponseFlags(0x0100, 0) == 0x8100 && !Truncated(0x8100)
  {
  }

  lemma OneQuestion(query: seq<Byte>, id: U16, flags: U16, q: Question)
    requires QueryOf(query) == Some(Query(id, flags, [q]))
    ensures QuestionAt(query, 12).Some? && QuestionAt(query, 12).value.0 == q
  {
    var asked := QuestionAt(query, 12);
    QuestionsCount([], query, 12, Get16(query, 4));
    assert [] + [asked.value.0] == [asked.value.0];
    assert QuestionsAfter([], query, 12, 1) == QuestionsAfter([asked.value.0], query, asked.value.1, 0);
  }

  lemma {:induction false} QuestionsCount(done: seq<Question>, p: seq<Byte>, j: nat, n: nat)
    ensures QuestionsAfter(done, p, j, n).Some? ==> |QuestionsAfter(done, p, j, n).value| == |done| + n
    decreases n
  {
    if n > 0 && QuestionAt(p, j).Some? {
      QuestionsCount(done + [QuestionAt(p, j).value.0], p, QuestionAt(p, j).value.1, n - 1);
    }
  }
}
