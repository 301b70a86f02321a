/** DNS replies (RFC 1035, sections 4.1.1 and 4.1.3): reading them. */
module DnsAnswers {
  import opened ByteSeqs
  import opened DnsNames
  import opened DnsLabels
  import opened DnsMessages
  import opened DnsReplies

  const TYPE_A: U16 := 1
  const TYPE_CNAME: U16 := 5
  const TYPE_SOA: U16 := 6
  const TYPE_PTR: U16 := 12
  const TYPE_AAAA: U16 := 28
  const CLASS_INET: U16 := 1
  const DNS_ERR_NOTEXIST: nat := 3
  const MAX_V4_ADDRS: nat := 32
  const MAX_V6_ADDRS: nat := 32
  const NO_TTL: U32 := 0xFFFF_FFFF

  /** A request under way: what it asks for, the packet that was sent, and whether a CNAME is wanted. */
  datatype Request = Request(rtype: U16, sent: seq<Byte>, wantsCname: bool)

  /** struct reply: the addresses one after another, or the name. */
  datatype Reply = Reply(have: bool, addrs: seq<Byte>, ptr: seq<Byte>)

  /** What becomes of a packet: nothing, an error for its request, or an answer. */
  datatype Outcome = Ignored | Failed(flags: U16) | Answered(flags: U16, ttl: U32, reply: Reply)

  /** How far the packet was read, and what was found. */
  datatype Found = Found(j: nat, ttl: U32, reply: Reply, cname: Option<seq<Byte>>)

  datatype Step = Bad(cname: Option<seq<Byte>>) | More(f: Found) | Last(f: Found)

  /** What stands before the data of a record (type, class, time to live, length of the data), and where the
      data start. */
  datatype Front = Front(rtype: U16, class_: U16, ttl: U32, len: U16, at: nat)

  ghost function FrontAt(p: seq<Byte>, j: nat): Option<Front> {
    var o := NameAt(p, j, NAME_BUF);
    if o.None? || o.value.1 + 10 > |p| then None
    else
      var k := o.value.1;
      Some(Front(Get16(p, k), Get16(p, k + 2), Get32(p, k + 4), Get16(p, k + 8), k + 10))
  }

  method ParseFront(p: seq<Byte>, j: nat) returns (o: Option<Front>)
    ensures o == FrontAt(p, j)
  {
    var named := ParseName(p, j, NAME_BUF);
    if named.None? || named.value.1 + 10 > |p| {
      return None;
    }
    var k := named.value.1;
    return Some(Front(Get16(p, k), Get16(p, k + 2), Get32(p, k + 4), Get16(p, k + 8), k + 10));
  }

  function Min(a: nat, b: nat): nat {
    if a < b then a else b
  }

  /** The addresses of a record of len bytes at offset at, as many as there is still room for. */
  function TakeAddresses(p: seq<Byte>, front: Front, f: Found, size: nat, max: nat): Step
    requires size > 0
  {
    if front.len % size != 0 then Bad(f.cname)
    else
      var have := |f.reply.addrs| / size;
      var n := Min(if have < max then max - have else 0, front.len / size);
      var end := front.at + size * n;
      if end > |p| || front.at > |p| then Bad(f.cname)
      else
        var addrs := f.reply.addrs + p[front.at..end];
        var g := Found(end, Min(f.ttl, front.ttl), f.reply.(have := true, addrs := addrs), f.cname);
        if |addrs| / size == max then Last(g) else More(g)
  }

  /** One record of the answer section; hostMax is HOST_NAME_MAX, the size of the buffers for names in answers. */
  ghost function AnswerStep(p: seq<Byte>, req: Request, hostMax: nat, f: Found): Step {
    var o := FrontAt(p, f.j);
    if o.None? then Bad(f.cname)
    else
      var front := o.value;
      var skipped := More(f.(j := front.at + front.len));
      if front.rtype == TYPE_A && front.class_ == CLASS_INET then
        if req.rtype != TYPE_A then skipped else TakeAddresses(p, front, f, 4, MAX_V4_ADDRS)
      else if front.rtype == TYPE_PTR && front.class_ == CLASS_INET then
        if req.rtype != TYPE_PTR then skipped
        else
          var named := NameAt(p, front.at, hostMax);
          if named.None? then Bad(f.cname)
          else Last(Found(named.value.1, Min(f.ttl, front.ttl), f.reply.(have := true, ptr := named.value.0), f.cname))
      else if front.rtype == TYPE_CNAME then
        if !req.wantsCname || f.cname.Some? then skipped
        else
          var named := NameAt(p, front.at, hostMax);
          if named.None? then Bad(f.cname) else More(f.(j := named.value.1, cname := Some(CString(named.value.0))))
      else if front.rtype == TYPE_AAAA && front.class_ == CLASS_INET then
        if req.rtype != TYPE_AAAA then skipped else TakeAddresses(p, front, f, 16, MAX_V6_ADDRS)
      else skipped
  }

  method ParseAnswer(p: seq<Byte>, req: Request, hostMax: nat, f: Found) returns (s: Step)
    ensures s == AnswerStep(p, req, hostMax, f)
  {
    var o := ParseFront(p, f.j);
    if o.None? {
      return Bad(f.cname);
    }
    var front := o.value;
    var skipped := More(f.(j := front.at + front.len));
    if front.rtype == TYPE_A && front.class_ == CLASS_INET {
      return if req.rtype != TYPE_A then skipped else TakeAddresses(p, front, f, 4, MAX_V4_ADDRS);
    } else if front.rtype == TYPE_PTR && front.class_ == CLASS_INET {
      if req.rtype != TYPE_PTR {
        return skipped;
      }
      var named := ParseName(p, front.at, hostMax);
      if named.None? {
        return Bad(f.cname);
      }
      return Last(Found(named.value.1, Min(f.ttl, front.ttl), f.reply.(have := true, ptr := named.value.0), f.cname));
    } else if front.rtype == TYPE_CNAME {
      if !req.wantsCname || f.cname.Some? {
        return skipped;
      }
      var named := ParseName(p, front.at, hostMax);
      if named.None? {
        return Bad(f.cname);
      }
      return More(f.(j := named.value.1, cname := Some(CString(named.value.0))));
    } else if front.rtype == TYPE_AAAA && front.class_ == CLASS_INET {
      return if req.rtype != TYPE_AAAA then skipped else TakeAddresses(p, front, f, 16, MAX_V6_ADDRS);
    }
    return skipped;
  }

  /** One record of the authority section, which may bound the time to live of a negative answer. */
  ghost function AuthorityStep(p: seq<Byte>, f: Found): Step {
    var o := FrontAt(p, f.j);
    if o.None? then Bad(f.cname)
    else
      var front := o.value;
      if front.rtype == TYPE_SOA && front.class_ == CLASS_INET then
        var primary := NameAt(p, front.at, NAME_BUF);
        if primary.None? then Bad(f.cname)
        else
          var mailbox := NameAt(p, primary.value.1, NAME_BUF);
          if mailbox.None? || mailbox.value.1 + 20 > |p| then Bad(f.cname)
          else
            var minimum := Get32(p, mailbox.value.1 + 16);
            More(f.(j := mailbox.value.1 + 20, ttl := Min(Min(f.ttl, front.ttl), minimum)))
      else More(f.(j := front.at + front.len))
  }

  method ParseAuthority(p: seq<Byte>, f: Found) returns (s: Step)
    ensures s == AuthorityStep(p, f)
  {
    var o := ParseFront(p, f.j);
    if o.None? {
      return Bad(f.cname);
    }
    var front := o.value;
    if front.rtype == TYPE_SOA && front.class_ == CLASS_INET {
      var primary := ParseName(p, front.at, NAME_BUF);
      if primary.None? {
        return Bad(f.cname);
      }
      var mailbox := ParseName(p, primary.value.1, NAME_BUF);
      if mailbox.None? || mailbox.value.1 + 20 > |p| {
        return Bad(f.cname);
      }
      var minimum := Get32(p, mailbox.value.1 + 16);
      return More(f.(j := mailbox.value.1 + 20, ttl := Min(Min(f.ttl, front.ttl), minimum)));
    }
    return More(f.(j := front.at + front.len));
  }

  /** The two loops over records do the same but for what they do with one record. */
  ghost function AnswerReader(p: seq<Byte>, req: Request, hostMax: nat): Found -> Step {
    f => AnswerStep(p, req, hostMax, f)
  }

  ghost function AuthorityReader(p: seq<Byte>): Found -> Step {
    f => AuthorityStep(p, f)
  }

  /** n more records, or fewer if one of them is the last to be looked at. */
  ghost function After(step: Found -> Step, f: Found, n: nat): Step
    decreases n
  {
    if n == 0 then More(f)
    else
      var s := step(f);
      if s.More? then After(step, s.f, n - 1) else s
  }

  function Lower(b: Byte): Byte {
    if 65 <= b <= 90 then b + 32 else b
  }

  /** strcmp or, if letters were put into random case, evutil_ascii_strcasecmp, with the result equal. */
  predicate SameText(a: seq<Byte>, b: seq<Byte>, fold: bool) {
    |a| == |b| && forall i {:trigger a[i]} :: 0 <= i < |a| ==> if fold then Lower(a[i]) == Lower(b[i]) else a[i] == b[i]
  }

  /** n more questions: the offset after them, and whether the name of one of them is that of the
      question at the same offset of the packet that was sent. */
  ghost function MatchAfter(p: seq<Byte>, sent: seq<Byte>, fold: bool, j: nat, matched: bool, n: nat)
    : Option<(nat, bool)>
    decreases n
  {
    if n == 0 then Some((j, matched))
    else
      var a, b := NameAt(p, j, NAME_BUF), NameAt(sent, j, NAME_BUF);
      if a.None? || b.None? || a.value.1 + 4 > |p| then None
      else MatchAfter(p, sent, fold, a.value.1 + 4,
                      matched || SameText(CString(a.value.0), CString(b.value.0), fold), n - 1)
  }

  method MatchQuestions(p: seq<Byte>, sent: seq<Byte>, fold: bool, n: nat) returns (o: Option<(nat, bool)>)
    ensures o == MatchAfter(p, sent, fold, 12, false, n)
  {
    var i, j: nat, matched := 0, 12, false;
    while i < n
      invariant i <= n && MatchAfter(p, sent, fold, 12, false, n) == MatchAfter(p, sent, fold, j, matched, n - i)
    {
      var a := ParseName(p, j, NAME_BUF);
      if a.None? {
        return None;
      }
      var b := ParseName(sent, j, NAME_BUF);
      if b.None? {
        return None;
      }
      if SameText(CString(a.value.0), CString(b.value.0), fold) {
        matched := true;
      }
      j := a.value.1 + 4;
      if j > |p| {
        return None;
      }
      i := i + 1;
    }
    o := Some((j, matched));
  }

  /** An error other than that the name does not exist, or truncation: flags & 0x020f. */
  predicate Refused(flags: U16) {
    Truncated(flags) || (flags % 16 != 0 && flags % 16 != DNS_ERR_NOTEXIST)
  }

  /** Two loops over records; the second one is for want of an answer. */
  ghost function Both(answer: Found -> Step, authority: Found -> Step, f: Found, n: nat, m: nat): Step {
    var s := After(answer, f, n);
    if s.Bad? || s.f.reply.have then s else After(authority, s.f, m)
  }

  ghost function SectionsOf(p: seq<Byte>, req: Request, hostMax: nat, j: nat, answers: nat, authority: nat,
                            cname: Option<seq<Byte>>): Step {
    Both(AnswerReader(p, req, hostMax), AuthorityReader(p), Found(j, NO_TTL, Reply(false, [], []), cname), answers,
      authority)
  }

  method ParseSections(p: seq<Byte>, req: Request, hostMax: nat, j: nat, answers: nat, authority: nat,
                       cname: Option<seq<Byte>>)
    returns (s: Step)
    ensures s == SectionsOf(p, req, hostMax, j, answers, authority, cname)
  {
    s := More(Found(j, NO_TTL, Reply(false, [], []), cname));
    ghost var whole := After(AnswerReader(p, req, hostMax), s.f, answers);
    var i := 0;
    while i < answers && s.More?
      invariant i <= answers && whole == if s.More? then After(AnswerReader(p, req, hostMax), s.f, answers - i) else s
    {
      s := ParseAnswer(p, req, hostMax, s.f);
      i := i + 1;
    }
    if s.Bad? || s.f.reply.have {
      return;
    }
    assert s == whole;
    s := More(s.f);
    ghost var rest := After(AuthorityReader(p), s.f, authority);
    i := 0;
    while i < authority && s.More?
      invariant i <= authority && rest == if s.More? then After(AuthorityReader(p), s.f, authority - i) else s
    {
      s := ParseAuthority(p, s.f);
      i := i + 1;
    }
  }

  /** What reply_parse makes of a packet, given the requests under way by their ids, and the CNAME found so far. */
  ghost function ReplyOf(p: seq<Byte>, requests: map<U16, Request>, fold: bool, hostMax: nat, cname: Option<seq<Byte>>):
      (Outcome, Option<seq<Byte>>) {
    if |p| < 12 || Get16(p, 0) !in requests || Get16(p, 2) < 0x8000 then (Ignored, cname)
    else
      var req, flags := requests[Get16(p, 0)], Get16(p, 2);
      if Refused(flags) then (Failed(flags), cname)
      else
        var m := MatchAfter(p, req.sent, fold, 12, false, Get16(p, 4));
        if m.None? || !m.value.1 then (Failed(flags), cname)
        else
          var s := SectionsOf(p, req, hostMax, m.value.0, Get16(p, 6), Get16(p, 8), cname);
          if s.Bad? then (Failed(flags), s.cname)
          else (Answered(flags, if s.f.ttl == NO_TTL then 0 else s.f.ttl, s.f.reply), s.f.cname)
  }

  /** reply_parse */
  method ReplyParse(p: seq<Byte>, requests: map<U16, Request>, fold: bool, hostMax: nat, cname0: Option<seq<Byte>>)
    returns (outcome: Outcome, cname: Option<seq<Byte>>)
    ensures (outcome, cname) == ReplyOf(p, requests, fold, hostMax, cname0)
  {
    cname := cname0;
    if |p| < 12 {
      return Ignored, cname;
    }
    var id, flags, questions, answers, authority := Get16(p, 0), Get16(p, 2), Get16(p, 4), Get16(p, 6), Get16(p, 8);
    if id !in requests {
      return Ignored, cname;
    }
    var req := requests[id];
    if flags < 0x8000 {
      return Ignored, cname;
    }
    if Refused(flags) {
      return Failed(flags), cname;
    }
    var m := MatchQuestions(p, req.sent, fold, questions);
    if m.None? || !m.value.1 {
      return Failed(flags), cname;
    }
    var s := ParseSections(p, req, hostMax, m.value.0, answers, authority, cname);
    if s.Bad? {
      return Failed(flags), s.cname;
    }
    return Answered(flags, if s.f.ttl == NO_TTL then 0 else s.f.ttl, s.f.reply), s.f.cname;
  }
}
