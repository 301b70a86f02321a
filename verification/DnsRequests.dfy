/** DNS requests: what the reader of a query gets from the questions that were written. */
module DnsRequests {
  import opened ByteSeqs
  import opened DnsNames
  import opened DnsLabels
  import opened DnsMessages
  import opened DnsReplies

  /** The message p is a request: a header, and questions with names that a reader gets back. */
  ghost predicate Written(p: seq<Byte>, id: U16, flags: U16, qs: seq<Question>, offs: seq<nat>) {
    && 12 <= |p| && |qs| < 0x1_0000 && Holds16(p, 0, id) && Holds16(p, 2, flags) && Holds16(p, 4, |qs|)
    && QuestionsIn(p, qs, offs) && offs[0] == 12 && offs[|qs|] == |p|
    && forall i {:trigger qs[i]} :: 0 <= i < |qs| ==> Encodable(qs[i].name)
  }

  /** The questions as they are read back. */
  ghost function AllAsked(qs: seq<Question>): (asked: seq<Question>)
    ensures |asked| == |qs|
    ensures forall i {:trigger asked[i]} :: 0 <= i < |qs| ==> asked[i] == qs[i].(name := Undotted(qs[i].name))
  {
    seq(|qs|, i requires 0 <= i < |qs| => Asked(qs[i]))
  }

  lemma {:induction false} QuestionsRead(p: seq<Byte>, id: U16, flags: U16, qs: seq<Question>, offs: seq<nat>,
                                         i: nat)
    requires i <= |qs| && Written(p, id, flags, qs, offs)
    ensures QuestionsAfter(AllAsked(qs)[..i], p, offs[i], |qs| - i) == Some(AllAsked(qs))
    decreases |qs| - i
  {
    var all := AllAsked(qs);
    if i < |qs| {
      assert HeadIs(p, offs[i], qs[i], offs[i + 1]);
      HeadIsQuestion(p, offs[i], qs[i], offs[i + 1]);
      assert all[..i] + [all[i]] == all[..i + 1];
      QuestionsRead(p, id, flags, qs, offs, i + 1);
    } else {
      assert all[..i] == all;
    }
  }

  /** A request with any number of questions is read back: its id, RD and CD of its flags, and all questions in their
      order; but it is refused if it is an answer, or asks nothing. */
  lemma RequestRead(p: seq<Byte>, id: U16, flags: U16, qs: seq<Question>, offs: seq<nat>)
    requires Written(p, id, flags, qs, offs)
    ensures QueryOf(p) ==
            if flags >= 0x8000 || qs == [] then None
            else Some(Query(id,
                            (if flags / 0x100 % 2 == 1 then 0x100 else 0) + (if flags / 0x10 % 2 == 1 then 0x10 else 0),
                            AllAsked(qs)))
  {
    QuestionsRead(p, id, flags, qs, offs, 0);
    assert AllAsked(qs)[..0] == [];
  }

  /** A question that a part of the message is enough for is the same in the whole. */
  lemma QuestionInPart(part: seq<Byte>, p: seq<Byte>, j: nat)
    requires part <= p && QuestionAt(part, j).Some?
    ensures QuestionAt(p, j) == QuestionAt(part, j) && QuestionAt(p, j).value.1 <= |part|
  {
    DecodePrefix(part, p, j, |part|, |p|);
  }

  lemma {:induction false} QuestionsCut(part: seq<Byte>, p: seq<Byte>, id: U16, flags: U16, qs: seq<Question>,
                                        offs: seq<nat>, i: nat, done: seq<Question>)
    requires i < |qs| && Written(p, id, flags, qs, offs) && part <= p && |part| < |p|
    ensures QuestionsAfter(done, part, offs[i], |qs| - i) == None
    decreases |qs| - i
  {
    var o := QuestionAt(part, offs[i]);
    if o.Some? {
      assert HeadIs(p, offs[i], qs[i], offs[i + 1]);
      HeadIsQuestion(p, offs[i], qs[i], offs[i + 1]);
      QuestionInPart(part, p, offs[i]);
      LastInside(part, qs, offs, i);
      QuestionsCut(part, p, id, flags, qs, offs, i + 1, done + [o.value.0]);
    }
  }

  lemma LastInside(part: seq<Byte>, qs: seq<Question>, offs: seq<nat>, i: nat)
    requires i < |qs| && |offs| == |qs| + 1 && offs[i + 1] <= |part| < offs[|qs|]
    ensures i + 1 < |qs|
  {
  }

  /** If a byte is missing at its end, it is refused, wherever it is cut off. */
  lemma CutIsRefused(p: seq<Byte>, id: U16, flags: U16, qs: seq<Question>, offs: seq<nat>, n: nat)
    requires Written(p, id, flags, qs, offs) && n < |p|
    ensures QueryOf(p[..n]) == None
  {
    if n >= 12 && |qs| > 0 {
      var part := p[..n];
      assert Get16(part, 4) == Get16(p, 4);
      QuestionsCut(part, p, id, flags, qs, offs, 0, []);
    }
  }
}
