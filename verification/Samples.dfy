/** Small packets with one question, for the name q of type A, used where a property needs an input that breaks it. */
module Samples {
  import opened Wire
  import opened Names
  import opened Parser

  const SAMPLE_NAME: Name := [113]
  const SAMPLE_END := 19

  function SampleQuestion(): Question { Question(SAMPLE_NAME, TYPE_A, 1) }

  /** Header and question: of a query, or of a response with so many answers. */
  function Head(response: bool, answers: Byte): (p: Packet)
    ensures |p| == SAMPLE_END
  {
    [0, 0] + (if response then [0x81, 0x80] else [1, 0]) + [0, 1, 0, answers, 0, 0, 0, 0] + [1, 113, 0, 0, 1, 0, 1]
  }

  lemma {:induction false} HeadBytes(response: bool, answers: Byte, tail: Packet)
    ensures var p := Head(response, answers) + tail;
      && p[0] == 0 && p[1] == 0 && (response ==> p[2] == 0x81 && p[3] == 0x80)
      && p[4] == 0 && p[5] == 1 && p[6] == 0 && p[7] == answers
      && p[8] == 0 && p[9] == 0 && p[10] == 0 && p[11] == 0
      && p[12] == 1 && p[13] == 113 && p[14] == 0 && p[15] == 0 && p[16] == 1 && p[17] == 0 && p[18] == 1
  {
  }

  lemma {:induction false} HeadParses(response: bool, answers: Byte, tail: Packet)
    ensures var p := Head(response, answers) + tail; var h := ParseHeader(p);
      && h.qdcount == 1 && h.ancount == answers && h.nscount == 0 && h.arcount == 0
      && Uncompressed(p, HEADER_SIZE) && NameEnd(p, HEADER_SIZE) == 15
      && ParseQuestion(p, HEADER_SIZE) == Some(SampleQuestion())
      && ParseQuestions(p, HEADER_SIZE, 1) == Some(Run([SampleQuestion()], SAMPLE_END))
  {
    hide Head;
    var p := Head(response, answers) + tail;
    HeadBytes(response, answers, tail);
    LetterName(p, 12, 113, MAX_HOPS);
    assert ParseQuestions(p, SAMPLE_END, 0) == Some(Run([], SAMPLE_END));
    assert [SampleQuestion()] + [] == [SampleQuestion()];
  }

  /** A name of one lower-case letter. */
  lemma {:induction false} LetterName(p: Packet, at: nat, c: Byte, hops: nat)
    requires at + 3 <= |p| && p[at] == 1 && p[at + 1] == c && p[at + 2] == 0 && Lower(c) == c
    ensures Labels(p, at, hops) == Some([[c]]) && NameEnd(p, at) == at + 3 && Uncompressed(p, at)
    ensures Join([[c]]) == [c] && (hops == MAX_HOPS ==> DecodeNameAt(p, at) == Some([c]))
  {
    hide Labels, NameEnd;
    OtherStep(p, at + 2, hops);
    LabelStep(p, at, hops, []);
    assert p[at + 1..at + 2] == [c];
    assert LowerAll(p[at + 1..at + 2]) == [c];
    assert [[c]] + [] == [[c]];
  }

  /** A record whose owner is a pointer to a low offset. */
  function Answer(owner: Byte, rtype: Byte, ttl: U32, rdata: Packet): (a: Packet)
    requires |rdata| < 0x100
    ensures |a| == 12 + |rdata|
  {
    [0xC0, owner] + [0, rtype, 0, 1] + U32Bytes(ttl) + [0, |rdata|] + rdata
  }

  lemma {:induction false} AnswerBytes(owner: Byte, rtype: Byte, ttl: U32, rdata: Packet)
    requires |rdata| < 0x100
    ensures var a := Answer(owner, rtype, ttl, rdata);
      && a[0] == 0xC0 && a[1] == owner && a[2] == 0 && a[3] == rtype && a[4] == 0 && a[5] == 1
      && a[6..10] == U32Bytes(ttl) && a[10] == 0 && a[11] == |rdata| && a[12..] == rdata
  {
    hide U32Bytes;
  }

  /** It is found where it stands, if its owner name is. */
  lemma {:induction false} AnswerParses(before: Packet, owner: Byte, rtype: Byte, ttl: U32, rdata: Packet, tail: Packet)
    requires |rdata| < 0x100
    ensures var p := before + Answer(owner, rtype, ttl, rdata) + tail;
      && |p| >= |before| + 12 + |rdata|
      && ParseRecord(p, |before|) == (
        match DecodeNameVia(p, owner)
        case None => None
        case Some(name) => Some(Record(name, rtype, 1, ttl, |before| + 12, rdata)))
  {
    hide Answer, U32At, U32Bytes, Labels, NameEnd, Join;
    var a := Answer(owner, rtype, ttl, rdata);
    var p := before + a + tail;
    var n := |before|;
    AnswerBytes(owner, rtype, ttl, rdata);
    assert forall i :: 0 <= i < |a| ==> p[n + i] == a[i];
    assert p[n] == a[0] && p[n + 1] == a[1] && p[n + 2] == a[2] && p[n + 3] == a[3] && p[n + 4] == a[4];
    assert p[n + 5] == a[5] && p[n + 10] == a[10] && p[n + 11] == a[11];
    OtherStep(p, n, MAX_HOPS);
    assert PointerTarget(p, n) == owner;
    TtlAt(p, n + 6, a[6..10], ttl);
    assert p[n + 12..n + 12 + |rdata|] == a[12..];
  }

  /** What a record's owner is if it is a pointer there. */
  function DecodeNameVia(p: Packet, target: nat): Option<Name> {
    if target >= |p| then None
    else
      match Labels(p, target, MAX_HOPS - 1)
      case None => None
      case Some(ls) => if |Join(ls)| > MAX_NAME then None else Some(Join(ls))
  }

  lemma {:induction false} TtlAt(p: Packet, at: nat, bytes: Packet, ttl: U32)
    requires at + 4 <= |p| && |bytes| == 4 && bytes == U32Bytes(ttl) && forall i :: 0 <= i < 4 ==> p[at + i] == bytes[i]
    ensures U32At(p, at) == ttl
  {
    assert p[at + 0] == bytes[0] && p[at + 1] == bytes[1] && p[at + 2] == bytes[2] && p[at + 3] == bytes[3];
  }

  /** A packet of header, question and one run of answers. */
  lemma {:induction false} SampleParses(response: bool, answers: Byte, tail: Packet, rs: seq<Record>, end: nat)
    requires |rs| == answers && ParseRecords(Head(response, answers) + tail, SAMPLE_END, answers) == Some(Run(rs, end))
    ensures var p := Head(response, answers) + tail;
      ParseFull(p) == Some(Parsed(Message(ParseHeader(p), [SampleQuestion()], rs, [], [], SAMPLE_END), end))
  {
    hide Head, ParseRecords, ParseHeader, ParseQuestions;
    var p := Head(response, answers) + tail;
    HeadParses(response, answers, tail);
    NoRecords(p, end);
  }

  lemma {:induction false} NoRecords(p: Packet, cursor: nat)
    ensures ParseRecords(p, cursor, 0) == Some(Run([], cursor))
  {
  }

  /** A packet whose first answer cannot be read. */
  lemma {:induction false} SampleBroken(response: bool, answers: Byte, tail: Packet)
    requires answers > 0 && ParseRecord(Head(response, answers) + tail, SAMPLE_END).None?
    ensures ParseFull(Head(response, answers) + tail).None?
  {
    hide Head, ParseRecord, ParseHeader, ParseQuestions;
    HeadParses(response, answers, tail);
  }
}
