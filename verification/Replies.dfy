/** Synthesised replies: the block, refuse and servfail builders of src/dns_writer.cpp. */
module Replies {
  import opened Wire
  import opened Names
  import opened Parser
  import opened Edits
  import opened Writer

  const BLOCK_TTL: U32 := 300

  // ----- what the builders write -----

  /** Reply flags: QR and RA set, opcode and RD taken from the query. */
  function ReplyFlags(queryFlags: U16, rcode: nat): U16
    requires rcode < 16
  {
    0x8000 + queryFlags / 0x800 % 16 * 0x800 + queryFlags / 0x100 % 2 * 0x100 + 0x80 + rcode
  }

  function ReplyHeader(query: Packet, ancount: U16, rcode: nat): (h: Packet)
    requires |query| >= HEADER_SIZE && rcode < 16
    ensures |h| == HEADER_SIZE
  {
    query[..2] + U16Bytes(ReplyFlags(U16At(query, 2), rcode)) + U16Bytes(1) + U16Bytes(ancount) + U16Bytes(0)
      + U16Bytes(0)
  }

  /** A reply: header, the query's question bytes, and what is appended. QDCOUNT is always 1. */
  function Reply(query: Packet, questionEnd: nat, ancount: U16, rcode: nat, answer: Packet): Packet
    requires HEADER_SIZE <= questionEnd <= |query| && rcode < 16
  {
    ReplyHeader(query, ancount, rcode) + query[HEADER_SIZE..questionEnd] + answer
  }

  /** An answer whose owner is a pointer to the first question's name. */
  function ZeroAnswer(rtype: U16, size: U16): (a: Packet)
    ensures |a| == 12 + size
  {
    [0xC0, 0x0C] + U16Bytes(rtype) + U16Bytes(1) + U32Bytes(BLOCK_TTL) + U16Bytes(size) + Zeros(size)
  }

  function BlockA(query: Packet, questionEnd: nat): Packet
    requires HEADER_SIZE <= questionEnd <= |query|
  {
    Reply(query, questionEnd, 1, RCODE_OK, ZeroAnswer(TYPE_A, 4))
  }

  function BlockAaaa(query: Packet, questionEnd: nat): Packet
    requires HEADER_SIZE <= questionEnd <= |query|
  {
    Reply(query, questionEnd, 1, RCODE_OK, ZeroAnswer(TYPE_AAAA, 16))
  }

  // ----- how they write it -----

  method WriteU16(out: array<Byte>, off: nat, v: U16)
    requires off + 2 <= out.Length
    modifies out
    ensures out[..] == Patch(old(out[..]), off, U16Bytes(v))
  {
    out[off] := v / 0x100;
    out[off + 1] := v % 0x100;
  }

  method WriteReplyHeader(out: array<Byte>, query: Packet, ancount: U16, rcode: nat)
    requires out.Length >= HEADER_SIZE && |query| >= HEADER_SIZE && rcode < 16
    modifies out
    ensures out[..] == ReplyHeader(query, ancount, rcode) + old(out[HEADER_SIZE..])
  {
    hide U16At, U16Bytes, ReplyFlags;
    ghost var rest := out[HEADER_SIZE..];
    out[0] := query[0];
    out[1] := query[1];
    WriteU16(out, 2, ReplyFlags(U16At(query, 2), rcode));
    ghost var h := query[..2] + U16Bytes(ReplyFlags(U16At(query, 2), rcode));
    assert out[..4] == h && out[HEADER_SIZE..] == rest;
    WriteCounts(out, ancount);
    assert h + (U16Bytes(1) + U16Bytes(ancount) + U16Bytes(0) + U16Bytes(0)) + rest ==
      ReplyHeader(query, ancount, rcode) + rest;
  }

  method WriteCounts(out: array<Byte>, ancount: U16)
    requires out.Length >= HEADER_SIZE
    modifies out
    ensures out[..] ==
      old(out[..4]) + (U16Bytes(1) + U16Bytes(ancount) + U16Bytes(0) + U16Bytes(0)) + old(out[HEADER_SIZE..])
  {
    hide U16Bytes;
    ghost var h, rest := out[..4], out[HEADER_SIZE..];
    WriteU16(out, 4, 1);
    WriteU16(out, 6, ancount);
    assert out[..8] == h + U16Bytes(1) + U16Bytes(ancount) && out[HEADER_SIZE..] == rest;
    ghost var h8 := out[..8];
    WriteU16(out, 8, 0);
    WriteU16(out, 10, 0);
    assert out[..] == h8 + U16Bytes(0) + U16Bytes(0) + rest;
  }

  method CopyQuestionBytes(out: array<Byte>, query: Packet, questionEnd: nat)
    requires HEADER_SIZE <= questionEnd <= |query| && questionEnd <= out.Length
    modifies out
    ensures out[..] == old(out[..HEADER_SIZE]) + query[HEADER_SIZE..questionEnd] + old(out[questionEnd..])
  {
    for i := HEADER_SIZE to questionEnd
      invariant forall k :: 0 <= k < out.Length ==> out[k] == if HEADER_SIZE <= k < i then query[k] else old(out[k])
    {
      out[i] := query[i];
    }
  }

  method WriteAnswer(out: array<Byte>, start: nat, answer: Packet)
    requires out.Length == start + |answer|
    modifies out
    ensures out[..] == old(out[..start]) + answer
  {
    var a := start;
    while a < out.Length
      invariant start <= a <= out.Length
      invariant forall k :: 0 <= k < a ==> out[k] == if k < start then old(out[k]) else answer[k - start]
    {
      out[a] := answer[a - start];
      a := a + 1;
    }
  }

  /** The five builders differ in size, counts, rcode and the bytes written after the question. */
  method BuildReply(query: Packet, questionEnd: nat, ancount: U16, rcode: nat, answer: Packet) returns (r: Packet)
    requires HEADER_SIZE <= questionEnd <= |query| && rcode < 16
    ensures r == Reply(query, questionEnd, ancount, rcode, answer)
  {
    hide ReplyHeader;
    var out := new Byte[questionEnd + |answer|](_ => 0);
    WriteReplyHeader(out, query, ancount, rcode);
    assert out[..HEADER_SIZE] == out[..][..HEADER_SIZE] == ReplyHeader(query, ancount, rcode);
    CopyQuestionBytes(out, query, questionEnd);
    assert out[..questionEnd] == out[..][..questionEnd] ==
      ReplyHeader(query, ancount, rcode) + query[HEADER_SIZE..questionEnd];
    WriteAnswer(out, questionEnd, answer);
    r := out[..];
  }

  // ----- reading them back -----

  /** The header a reply carries, in terms of the query's. */
  function AnsweredHeader(h: Header, ancount: U16, rcode: nat): Header {
    Header(h.id, true, h.opcode, false, false, h.rd, true, rcode, 1, ancount, 0, 0)
  }

  lemma {:induction false} FlagsAnswered(f: U16, rcode: nat)
    requires rcode < 16
    ensures var r := ReplyFlags(f, rcode);
      && r / 0x8000 % 2 == 1 && r / 0x800 % 16 == f / 0x800 % 16 && r / 0x400 % 2 == 0 && r / 0x200 % 2 == 0
      && r / 0x100 % 2 == f / 0x100 % 2 && r / 0x80 % 2 == 1 && r % 16 == rcode
  {
    var op, rd := f / 0x800 % 16, f / 0x100 % 2;
    var r := ReplyFlags(f, rcode);
    assert r == 0x8000 + op * 0x800 + rd * 0x100 + 0x80 + rcode;
    assert r / 0x80 == 0x100 + op * 0x10 + rd * 2 + 1;
    assert r / 0x100 == 0x80 + op * 8 + rd;
    assert r / 0x200 == 0x40 + op * 4;
    assert r / 0x400 == 0x20 + op * 2;
    assert r / 0x800 == 0x10 + op;
    assert r / 0x8000 == 1;
  }

  lemma {:induction false} ReplyHeaderParses(query: Packet, ancount: U16, rcode: nat, rest: Packet)
    requires |query| >= HEADER_SIZE && rcode < 16
    ensures ParseHeader(ReplyHeader(query, ancount, rcode) + rest) == AnsweredHeader(ParseHeader(query), ancount, rcode)
  {
    hide ReplyFlags, U16At, U16Bytes;
    var f := ReplyFlags(U16At(query, 2), rcode);
    var h := ReplyHeader(query, ancount, rcode);
    var p := h + rest;
    FlagsAnswered(U16At(query, 2), rcode);
    assert p[0..2] == query[..2] && p[2..4] == U16Bytes(f) && p[4..6] == U16Bytes(1);
    assert p[6..8] == U16Bytes(ancount) && p[8..10] == U16Bytes(0) && p[10..12] == U16Bytes(0);
    U16Slice(p, 0); U16Slice(p, 2); U16Slice(p, 4); U16Slice(p, 6); U16Slice(p, 8); U16Slice(p, 10);
    U16Slice(query, 0);
  }

  lemma {:induction false} U16Slice(p: Packet, off: nat)
    requires off + 2 <= |p|
    ensures U16At(p, off) == U16At(p[off..off + 2], 0)
  {
  }

  /** The first question's name is decoded from question bytes only. */
  ghost predicate NameInQuestion(query: Packet)
    requires ParseFull(query).Some?
  {
    forall i: nat ::
      Reads(query, HEADER_SIZE, MAX_HOPS, i) ==> HEADER_SIZE <= i < ParseFull(query).value.msg.questionEnd
  }

  /** What the first question is, on its own. */
  lemma {:induction false} FirstQuestion(query: Packet)
    requires ParseFull(query).Some? && |ParseFull(query).value.msg.questions| >= 1
    ensures var m := ParseFull(query).value.msg;
      && ParseQuestion(query, HEADER_SIZE) == Some(m.questions[0])
      && HEADER_SIZE < NameEnd(query, HEADER_SIZE) && NameEnd(query, HEADER_SIZE) + 4 <= m.questionEnd <= |query|
      && (|m.questions| == 1 ==> NameEnd(query, HEADER_SIZE) + 4 == m.questionEnd)
  {
    hide ParseFull, ParseRecords, DecodeName, NameEnd, ParseQuestion;
    var m := ParseFull(query).value.msg;
    var n := |m.questions|;
    SectionsAreOneRun(query);
    QuestionsFit(query, HEADER_SIZE, n);
    FirstQuestionFits(query);
    QuestionsFit(query, NameEnd(query, HEADER_SIZE) + 4, n - 1);
  }

  lemma {:induction false} FirstQuestionFits(query: Packet)
    requires ParseQuestion(query, HEADER_SIZE).Some?
    ensures HEADER_SIZE < NameEnd(query, HEADER_SIZE) && NameEnd(query, HEADER_SIZE) + 4 <= |query|
  {
    hide DecodeName, U16At;
    DecodedNameIsCanonical(query, HEADER_SIZE);
  }

  /** The reply keeps the question bytes under a header of its own. */
  lemma {:induction false} ReplyShape(query: Packet, ancount: U16, rcode: nat, answer: Packet)
    requires ParseFull(query).Some? && rcode < 16
    ensures HEADER_SIZE <= ParseFull(query).value.msg.questionEnd <= |query|
    ensures var m := ParseFull(query).value.msg; var r := Reply(query, m.questionEnd, ancount, rcode, answer);
      && ParseHeader(r) == AnsweredHeader(m.header, ancount, rcode)
      && SameRange(query, r, HEADER_SIZE, m.questionEnd) && |r| == m.questionEnd + |answer|
  {
    hide ParseFull, ReplyHeader, ParseHeader;
    HeaderIsParsed(query);
    var m := ParseFull(query).value.msg;
    var body := query[HEADER_SIZE..m.questionEnd];
    ReplyHeaderParses(query, ancount, rcode, body + answer);
    assert Reply(query, m.questionEnd, ancount, rcode, answer) == ReplyHeader(query, ancount, rcode) + (body + answer);
  }

  /** So its first question is the query's exactly if the name stands. */
  lemma {:induction false} ReplyQuestion(query: Packet, ancount: U16, rcode: nat, answer: Packet)
    requires ParseFull(query).Some? && |ParseFull(query).value.msg.questions| >= 1 && rcode < 16
    ensures HEADER_SIZE <= ParseFull(query).value.msg.questionEnd <= |query|
    ensures var m := ParseFull(query).value.msg; var r := Reply(query, m.questionEnd, ancount, rcode, answer);
      && (NameStands(query, r, HEADER_SIZE) <==> ParseQuestion(r, HEADER_SIZE) == Some(m.questions[0]))
      && NameEnd(r, HEADER_SIZE) == NameEnd(query, HEADER_SIZE)
  {
    hide ParseFull, ParseQuestion, NameEnd, Reply, ParseHeader, NameStands;
    ReplyShape(query, ancount, rcode, answer);
    FirstQuestion(query);
    QuestionStands(query, Reply(query, ParseFull(query).value.msg.questionEnd, ancount, rcode, answer), HEADER_SIZE);
  }

  /** The reply keeps the question bytes, so it keeps a first question that is decoded from them. */
  lemma {:induction false} ReplyKeepsQuestion(query: Packet, ancount: U16, rcode: nat, answer: Packet)
    requires ParseFull(query).Some? && |ParseFull(query).value.msg.questions| >= 1 && rcode < 16
      && NameInQuestion(query)
    ensures HEADER_SIZE <= ParseFull(query).value.msg.questionEnd <= |query|
    ensures var r := Reply(query, ParseFull(query).value.msg.questionEnd, ancount, rcode, answer);
      AgreesOnName(query, r, HEADER_SIZE, MAX_HOPS) && NameStands(query, r, HEADER_SIZE)
  {
    hide ParseFull, DecodeName, NameEnd, Reads, Reply, ParseHeader;
    ReplyShape(query, ancount, rcode, answer);
    FirstQuestion(query);
    DecodeNameFrame(query, Reply(query, ParseFull(query).value.msg.questionEnd, ancount, rcode, answer), HEADER_SIZE);
  }

  lemma {:induction false} HeaderIsParsed(query: Packet)
    requires ParseFull(query).Some?
    ensures ParseFull(query).value.msg.header == ParseHeader(query)
    ensures HEADER_SIZE <= ParseFull(query).value.msg.questionEnd <= |query|
  {
    hide ParseQuestions, ParseRecords, ParseHeader;
    MessageIsLaid(query);
  }

  /** What a reply without records should parse to. */
  function EmptyAnswer(query: Packet, rcode: nat): Parsed
    requires ParseFull(query).Some? && |ParseFull(query).value.msg.questions| >= 1
  {
    var m := ParseFull(query).value.msg;
    var end := NameEnd(query, HEADER_SIZE) + 4;
    Parsed(Message(AnsweredHeader(m.header, 0, rcode), [m.questions[0]], [], [], [], end), end)
  }

  /** Refused, servfail and nodata replies, for every query that parses. Without a question the reply does not
      parse: QDCOUNT = 1 promises one that is not there. With one it parses as the answer to the first question
      exactly if the name of that question stands. */
  lemma {:induction false} EmptyReplyExactly(query: Packet, rcode: nat)
    requires ParseFull(query).Some? && rcode < 16
    ensures HEADER_SIZE <= ParseFull(query).value.msg.questionEnd <= |query|
    ensures var m := ParseFull(query).value.msg; var r := Reply(query, m.questionEnd, 0, rcode, []);
      if |m.questions| == 0 then ParseFull(r).None?
      else ParseFull(r) == Some(EmptyAnswer(query, rcode)) <==> NameStands(query, r, HEADER_SIZE)
  {
    hide ParseFull, ParseHeader, NameEnd, ParseQuestion, Reply, NameStands;
    ReplyShape(query, 0, rcode, []);
    var m := ParseFull(query).value.msg;
    var r := Reply(query, m.questionEnd, 0, rcode, []);
    if |m.questions| == 0 {
      NoQuestion(query);
      NothingToParse(r);
    } else {
      ReplyQuestion(query, 0, rcode, []);
      FirstQuestion(query);
      if NameStands(query, r, HEADER_SIZE) { OneQuestion(r, m.questions[0]); }
      if ParseFull(r) == Some(EmptyAnswer(query, rcode)) { FirstQuestion(r); }
    }
  }

  /** In particular a reply to a query whose first name is decoded from question bytes parses exactly when the
      query had a question. */
  lemma {:induction false} EmptyReplyParses(query: Packet, rcode: nat)
    requires ParseFull(query).Some? && rcode < 16
    requires |ParseFull(query).value.msg.questions| >= 1 ==> NameInQuestion(query)
    ensures HEADER_SIZE <= ParseFull(query).value.msg.questionEnd <= |query|
    ensures var m := ParseFull(query).value.msg; var r := Reply(query, m.questionEnd, 0, rcode, []);
      && (ParseFull(r).Some? <==> |m.questions| >= 1)
      && (|m.questions| >= 1 ==> ParseFull(r).value == EmptyAnswer(query, rcode))
      && (|m.questions| == 1 ==> ParseFull(r).value.end == |r|)
  {
    hide ParseFull, NameEnd, Reply, NameStands, NameInQuestion, AgreesOnName;
    ReplyShape(query, 0, rcode, []);
    EmptyReplyExactly(query, rcode);
    if |ParseFull(query).value.msg.questions| >= 1 {
      FirstQuestion(query);
      ReplyKeepsQuestion(query, 0, rcode, []);
    }
  }

  /** A query of twelve zero bytes parses, and no reply to it does. */
  lemma {:induction false} NoQuestionNoReply(rcode: nat)
    requires rcode < 16
    ensures ParseFull(Zeros(HEADER_SIZE)).Some? && ParseFull(Reply(Zeros(HEADER_SIZE), HEADER_SIZE, 0, rcode, [])).None?
  {
    hide Reply;
    var q := Zeros(HEADER_SIZE);
    var h := ParseHeader(q);
    assert h.qdcount == 0 && h.ancount == 0 && h.nscount == 0 && h.arcount == 0;
    NoQuestion(q);
    EmptyReplyExactly(q, rcode);
  }

  lemma {:induction false} NoQuestion(query: Packet)
    requires ParseFull(query).Some? && |ParseFull(query).value.msg.questions| == 0
    ensures ParseFull(query).value.msg.questionEnd == HEADER_SIZE
  {
    hide ParseFull, ParseRecords;
    SectionsAreOneRun(query);
  }

  lemma {:induction false} NothingToParse(r: Packet)
    requires |r| == HEADER_SIZE && ParseHeader(r).qdcount == 1
    ensures ParseFull(r).None?
  {
    hide ParseHeader;
    assert Labels(r, HEADER_SIZE, MAX_HOPS).None?;
    assert ParseQuestion(r, HEADER_SIZE).None?;
  }

  // ----- zero-address answers -----

  lemma {:induction false} ZeroAnswerFields(rtype: U16, size: U16)
    ensures var a := ZeroAnswer(rtype, size);
      && a[0] == 0xC0 && a[1] == 0x0C && U16At(a, 2) == rtype && U16At(a, 4) == 1 && U32At(a, 6) == BLOCK_TTL
      && U16At(a, 10) == size && a[12..] == Zeros(size)
  {
    hide U32At, U32Bytes, U16At, U16Bytes;
    var a := ZeroAnswer(rtype, size);
    assert a[2..4] == U16Bytes(rtype) && a[4..6] == U16Bytes(1) && a[6..10] == U32Bytes(BLOCK_TTL)
      && a[10..12] == U16Bytes(size);
    U16Slice(a, 2);
    U16Slice(a, 4);
    U16Slice(a, 10);
    U32Slice(a, 6);
  }

  lemma {:induction false} U32Slice(p: Packet, off: nat)
    requires off + 4 <= |p|
    ensures U32At(p, off) == U32At(p[off..off + 4], 0)
  {
  }

  /** The appended record: a pointer to offset 12, then the fixed fields. */
  lemma {:induction false} PointerRecord(head: Packet, rtype: U16, size: U16)
    requires |head| >= HEADER_SIZE
    ensures var r := head + ZeroAnswer(rtype, size);
      match Labels(r, HEADER_SIZE, MAX_HOPS - 1)
      case None => ParseRecord(r, |head|) == None
      case Some(ls) => |Join(ls)| <= MAX_NAME ==>
        ParseRecord(r, |head|) == Some(Record(Join(ls), rtype, 1, BLOCK_TTL, |head| + 12, Zeros(size)))
  {
    hide ZeroAnswer, U16At, U32At, Labels, NameEnd, Join;
    var a := ZeroAnswer(rtype, size);
    var r := head + a;
    var n := |head|;
    ZeroAnswerFields(rtype, size);
    assert r[n] == a[0] && r[n + 1] == a[1];
    OtherStep(r, n, MAX_HOPS);
    assert PointerTarget(r, n) == HEADER_SIZE;
    if Labels(r, HEADER_SIZE, MAX_HOPS - 1).Some? {
      SliceAfter(head, a, 2, 4);
      SliceAfter(head, a, 4, 6);
      SliceAfter(head, a, 6, 10);
      SliceAfter(head, a, 10, 12);
      SliceAfter(head, a, 12, 12 + size);
      U16Slice(r, n + 2); U16Slice(a, 2);
      U16Slice(r, n + 4); U16Slice(a, 4);
      U32Slice(r, n + 6); U32Slice(a, 6);
      U16Slice(r, n + 10); U16Slice(a, 10);
      assert a[12..12 + size] == a[12..];
    }
  }

  /** What a block reply should parse to. */
  function ZeroAddress(query: Packet, rtype: U16, size: U16): Parsed
    requires ParseFull(query).Some? && |ParseFull(query).value.msg.questions| == 1
  {
    var m := ParseFull(query).value.msg;
    var end := m.questionEnd;
    Parsed(Message(AnsweredHeader(m.header, 1, RCODE_OK), m.questions,
                   [Record(m.questions[0].qname, rtype, 1, BLOCK_TTL, end + 12, Zeros(size))], [], [], end),
           end + 12 + size)
  }

  /** Block replies for A and AAAA, for every query with one question. The answer's pointer spends one more hop
      than the question did, so the reply parses as one zero-address answer for the question's name exactly if
      that name stands and leaves a hop to spare. */
  lemma {:induction false} BlockReplyExactly(query: Packet, rtype: U16, size: U16)
    requires ParseFull(query).Some? && |ParseFull(query).value.msg.questions| == 1
    ensures HEADER_SIZE <= ParseFull(query).value.msg.questionEnd <= |query|
    ensures var r := Reply(query, ParseFull(query).value.msg.questionEnd, 1, RCODE_OK, ZeroAnswer(rtype, size));
      ParseFull(r) == Some(ZeroAddress(query, rtype, size)) <==>
        NameStands(query, r, HEADER_SIZE) && Labels(r, HEADER_SIZE, MAX_HOPS - 1).Some?
  {
    hide ParseFull, ParseHeader, NameEnd, ParseQuestion, ReplyHeader, Labels, Join, ZeroAnswer, ParseRecord, NameStands;
    ReplyShape(query, 1, RCODE_OK, ZeroAnswer(rtype, size));
    var m := ParseFull(query).value.msg;
    var end := m.questionEnd;
    var r := Reply(query, end, 1, RCODE_OK, ZeroAnswer(rtype, size));
    ReplyQuestion(query, 1, RCODE_OK, ZeroAnswer(rtype, size));
    FirstQuestion(query);
    PointerRecord(ReplyHeader(query, 1, RCODE_OK) + query[HEADER_SIZE..end], rtype, size);
    assert m.questions == [m.questions[0]];
    if NameStands(query, r, HEADER_SIZE) && Labels(r, HEADER_SIZE, MAX_HOPS - 1).Some? {
      SpareHops(r, HEADER_SIZE, MAX_HOPS - 1, MAX_HOPS);
      QuestionName(r, m.questions[0]);
      OneQuestionOneAnswer(r, m.questions[0], end, ParseRecord(r, end));
    }
    if ParseFull(r) == Some(ZeroAddress(query, rtype, size)) {
      FirstQuestion(r);
      FirstAnswer(r);
    }
  }

  lemma {:induction false} QuestionName(r: Packet, q: Question)
    requires ParseQuestion(r, HEADER_SIZE) == Some(q)
    ensures Labels(r, HEADER_SIZE, MAX_HOPS).Some? && q.qname == Join(Labels(r, HEADER_SIZE, MAX_HOPS).value)
      && |q.qname| <= MAX_NAME
  {
    hide Labels, Join, NameEnd;
  }

  lemma {:induction false} FirstAnswer(r: Packet)
    requires ParseFull(r).Some? && |ParseFull(r).value.msg.answers| == 1
    ensures ParseRecord(r, ParseFull(r).value.msg.questionEnd).Some?
  {
    hide ParseFull, ParseRecord;
    SectionsAreOneRun(r);
  }

  /** In particular, if the name is decoded from question bytes: the reply parses exactly when the query's name
      leaves a hop to spare. */
  lemma {:induction false} BlockReplyParses(query: Packet, rtype: U16, size: U16)
    requires ParseFull(query).Some? && |ParseFull(query).value.msg.questions| == 1 && NameInQuestion(query)
    ensures HEADER_SIZE <= ParseFull(query).value.msg.questionEnd <= |query|
    ensures var r := Reply(query, ParseFull(query).value.msg.questionEnd, 1, RCODE_OK, ZeroAnswer(rtype, size));
      && (ParseFull(r).Some? <==> Labels(query, HEADER_SIZE, MAX_HOPS - 1).Some?)
      && (ParseFull(r).Some? ==> ParseFull(r).value == ZeroAddress(query, rtype, size) && ParseFull(r).value.end == |r|)
  {
    hide ParseFull, ParseHeader, NameEnd, ReplyHeader, NameInQuestion, AgreesOnName, Labels, Join, ZeroAnswer,
      NameStands, ParseQuestion, ParseRecord;
    ReplyShape(query, 1, RCODE_OK, ZeroAnswer(rtype, size));
    var m := ParseFull(query).value.msg;
    var end := m.questionEnd;
    var r := Reply(query, end, 1, RCODE_OK, ZeroAnswer(rtype, size));
    ReplyKeepsQuestion(query, 1, RCODE_OK, ZeroAnswer(rtype, size));
    ReplyQuestion(query, 1, RCODE_OK, ZeroAnswer(rtype, size));
    FirstQuestion(query);
    QuestionName(query, m.questions[0]);
    FewerHopsFrame(query, r, HEADER_SIZE, MAX_HOPS, MAX_HOPS - 1);
    BlockReplyExactly(query, rtype, size);
    if Labels(query, HEADER_SIZE, MAX_HOPS - 1).None? {
      PointerRecord(ReplyHeader(query, 1, RCODE_OK) + query[HEADER_SIZE..end], rtype, size);
      OneQuestionOneAnswer(r, m.questions[0], end, None);
    }
  }

  // ----- a name with no hop to spare -----

  /** Fifteen pointers, each to the next, and a root label: the content of a label of 31 bytes. */
  function Ladder(): (s: Packet)
    ensures |s| == 31 && s[30] == 0
    ensures forall k :: 0 <= k < 15 ==> s[2 * k] == 192 && s[2 * k + 1] == 15 + 2 * k
  {
    [192, 15, 192, 17, 192, 19, 192, 21, 192, 23, 192, 25, 192, 27, 192, 29, 192, 31,
     192, 33, 192, 35, 192, 37, 192, 39, 192, 41, 192, 43, 0]
  }

  /** A question whose name is that label and then a pointer back into it. */
  function LadderQuery(): (q: Packet)
    ensures |q| == 50 && q[12] == 31 && q[44] == 192 && q[45] == 13
    ensures forall i :: 0 <= i < 31 ==> q[13 + i] == Ladder()[i]
  {
    [0, 0, 0, 0, 0, 1] + Zeros(6) + [31] + Ladder() + [192, 13, 0, 1, 0, 1]
  }

  /** Climbing from the k-th pointer takes as many hops as pointers are left. */
  lemma {:induction false} Climb(k: nat, hops: nat)
    requires k <= 15
    ensures Labels(LadderQuery(), 13 + 2 * k, hops) == if hops >= 15 - k then Some([]) else None
    decreases 15 - k
  {
    hide Labels, LadderQuery, Ladder;
    var q := LadderQuery();
    if k < 15 {
      assert q[13 + 2 * k] == Ladder()[2 * k] == 192 && q[13 + (2 * k + 1)] == Ladder()[2 * k + 1] == 15 + 2 * k;
      assert PointerTarget(q, 13 + 2 * k) == 13 + 2 * (k + 1);
      if hops > 0 { Climb(k + 1, hops - 1); }
    } else {
      assert q[13 + 30] == Ladder()[30] == 0;
    }
    OtherStep(q, 13 + 2 * k, hops);
  }

  /** The whole name takes sixteen, all inside the question. */
  lemma {:induction false} LadderName(hops: nat)
    ensures Labels(LadderQuery(), 12, hops).Some? <==> hops >= 16
    ensures hops >= 16 ==> Labels(LadderQuery(), 12, hops) == Some([LowerAll(Ladder())])
    ensures NameEnd(LadderQuery(), 12) == 46
  {
    hide Labels, NameEnd, LadderQuery, Ladder, LowerAll;
    var q := LadderQuery();
    OtherStep(q, 44, hops);
    if hops > 0 { Climb(0, hops - 1); }
    LabelStep(q, 12, hops, []);
    assert q[13..44] == Ladder();
    assert [LowerAll(Ladder())] + [] == [LowerAll(Ladder())];
  }

  lemma {:induction false} LadderParses()
    ensures ParseFull(LadderQuery()).Some? && |ParseFull(LadderQuery()).value.msg.questions| == 1
  {
    hide Labels, NameEnd, Ladder, LowerAll;
    var q := LadderQuery();
    LadderName(MAX_HOPS);
    var l := LowerAll(Ladder());
    assert Join([l]) == l;
    assert ParseQuestion(q, 12) == Some(Question(l, 1, 1));
    OneQuestion(q, Question(l, 1, 1));
  }

  /** Such a query parses, and no block reply to it does. */
  lemma {:induction false} LadderBlockReplyFails(rtype: U16, size: U16)
    ensures ParseFull(LadderQuery()).Some? && |ParseFull(LadderQuery()).value.msg.questions| == 1
    ensures HEADER_SIZE <= ParseFull(LadderQuery()).value.msg.questionEnd <= |LadderQuery()|
    ensures var r :=
      Reply(LadderQuery(), ParseFull(LadderQuery()).value.msg.questionEnd, 1, RCODE_OK, ZeroAnswer(rtype, size));
      ParseFull(r).None?
  {
    hide ParseFull, Labels, LadderQuery, Ladder, NameEnd, Reply, ZeroAnswer, NameInQuestion;
    LadderParses();
    LadderInQuestion();
    LadderName(MAX_HOPS - 1);
    BlockReplyParses(LadderQuery(), rtype, size);
  }

  lemma {:induction false} LadderInQuestion()
    ensures ParseFull(LadderQuery()).Some? && NameInQuestion(LadderQuery())
  {
    hide ParseFull, Labels, LadderQuery, Ladder, NameEnd, Reads;
    var q := LadderQuery();
    LadderParses();
    LadderName(MAX_HOPS);
    FirstQuestion(q);
    forall i: nat | Reads(q, HEADER_SIZE, MAX_HOPS, i) ensures HEADER_SIZE <= i < ParseFull(q).value.msg.questionEnd {
      LadderReads(i);
    }
  }

  lemma {:induction false} LadderReads(i: nat)
    requires Reads(LadderQuery(), 12, MAX_HOPS, i)
    ensures 12 <= i < 46
  {
    hide LadderQuery, Ladder;
    if !(12 <= i < 46) { ClimbReads(0, MAX_HOPS - 1, i); }
  }

  lemma {:induction false} ClimbReads(k: nat, hops: nat, i: nat)
    requires k <= 15 && Reads(LadderQuery(), 13 + 2 * k, hops, i)
    ensures 13 <= i < 44
    decreases 15 - k
  {
    hide LadderQuery, Ladder;
    var q := LadderQuery();
    if k < 15 {
      assert q[13 + 2 * k] == Ladder()[2 * k] == 192 && q[13 + (2 * k + 1)] == Ladder()[2 * k + 1] == 15 + 2 * k;
      assert PointerTarget(q, 13 + 2 * k) == 13 + 2 * (k + 1);
      if hops > 0 && !(13 + 2 * k <= i < 15 + 2 * k) { ClimbReads(k + 1, hops - 1, i); }
    } else {
      assert q[13 + 30] == Ladder()[30] == 0;
    }
  }

  /** A packet that is a header, one question and one record. */
  lemma {:induction false} OneQuestionOneAnswer(r: Packet, question: Question, end: nat, a: Option<Record>)
    requires |r| >= HEADER_SIZE && ParseQuestion(r, HEADER_SIZE) == Some(question) && NameEnd(r, HEADER_SIZE) + 4 == end
    requires var h := ParseHeader(r); h.qdcount == 1 && h.ancount == 1 && h.nscount == 0 && h.arcount == 0
    requires ParseRecord(r, end) == a
    ensures ParseFull(r) == match a
      case None => None
      case Some(rr) => Some(Parsed(Message(ParseHeader(r), [question], [rr], [], [], end), rr.End()))
  {
    hide ParseHeader, ParseQuestion, ParseRecord, NameEnd;
    assert ParseQuestions(r, end, 0) == Some(Run([], end));
    assert [question] + [] == [question];
    if a.Some? {
      assert ParseRecords(r, a.value.End(), 0) == Some(Run([], a.value.End()));
      assert [a.value] + [] == [a.value];
    }
  }

  /** Clients that send the name in full: every synthesised reply parses. */
  lemma {:induction false} UncompressedQueryIsSafe(query: Packet)
    requires ParseFull(query).Some? && |ParseFull(query).value.msg.questions| >= 1 && Uncompressed(query, HEADER_SIZE)
    ensures NameInQuestion(query) && Labels(query, HEADER_SIZE, MAX_HOPS - 1).Some?
  {
    hide ParseFull, Reads, NameEnd, Labels;
    FirstQuestion(query);
    UncompressedName(query, HEADER_SIZE, MAX_HOPS);
    UncompressedName(query, HEADER_SIZE, MAX_HOPS - 1);
  }
}
