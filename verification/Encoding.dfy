/** The wire format written forwards (section 4.1 of RFC 1035): what src/dns_parser.cpp reads is exactly what this
    compressing encoder writes. */
module Encoding {
  import opened Wire
  import opened Names
  import opened Parser
  import opened Writer

  predicate Holds(p: Packet, at: nat, bytes: Packet) { at + |bytes| <= |p| && p[at..at + |bytes|] == bytes }

  /** Bytes that stand one after the other. */
  lemma {:induction false} HoldsBoth(p: Packet, at: nat, a: Packet, b: Packet)
    ensures Holds(p, at, a + b) <==> Holds(p, at, a) && Holds(p, at + |a|, b)
  {
    if Holds(p, at, a + b) {
      assert p[at..at + |a|] == p[at..at + |a + b|][..|a|] == a;
      assert p[at + |a|..at + |a| + |b|] == p[at..at + |a + b|][|a|..] == b;
    }
    if Holds(p, at, a) && Holds(p, at + |a|, b) {
      assert p[at..at + |a + b|] == p[at..at + |a|] + p[at + |a|..at + |a| + |b|];
    }
  }

  lemma {:induction false} HoldsU16(p: Packet, at: nat, v: U16)
    requires at + 2 <= |p|
    ensures Holds(p, at, U16Bytes(v)) <==> U16At(p, at) == v
  {
    assert p[at..at + 2] == [p[at], p[at + 1]];
  }

  lemma {:induction false} HoldsU32(p: Packet, at: nat, v: U32)
    requires at + 4 <= |p|
    ensures Holds(p, at, U32Bytes(v)) <==> U32At(p, at) == v
  {
    hide U16Bytes;
    var hi, lo := v / 0x1_0000, v % 0x1_0000;
    HoldsBoth(p, at, U16Bytes(hi), U16Bytes(lo));
    HoldsU16(p, at, hi);
    HoldsU16(p, at + 2, lo);
  }

  // ----- names -----

  /** How a written name ends. */
  datatype Tail = Root | Pointer(to: nat)

  datatype NameCode = NameCode(labels: seq<Name>, tail: Tail)

  predicate ValidName(n: NameCode) { AllLabels(n.labels) && (n.tail.Pointer? ==> n.tail.to < 16384) }

  function TailBytes(t: Tail): (b: Packet)
    requires t.Pointer? ==> t.to < 16384
    ensures |b| == if t.Root? then 1 else 2
  {
    match t case Root => [0] case Pointer(o) => [192 + o / 256, o % 256]
  }

  /** Labels of 1 to 63 bytes behind their lengths, then a zero byte or a pointer. */
  function NameBytes(n: NameCode): (b: Packet)
    requires ValidName(n)
    ensures |b| >= 1
  {
    EncodeLabels(n.labels) + TailBytes(n.tail)
  }

  /** The labels it stands for in a packet: its own in lower case, and those found where it points, with one
      pointer less to spend. */
  function LabelsOf(p: Packet, n: NameCode, hops: nat): Option<seq<Name>> {
    match n.tail
    case Root => Some(LowerLabels(n.labels))
    case Pointer(o) => if hops == 0 || o >= |p| then None else Prepend(LowerLabels(n.labels), Labels(p, o, hops - 1))
  }

  /** The decoder undoes the encoder, wherever the name is in the packet and whatever follows. */
  lemma {:induction false} NameIsRead(p: Packet, at: nat, n: NameCode, hops: nat)
    requires ValidName(n) && Holds(p, at, NameBytes(n))
    ensures Labels(p, at, hops) == LabelsOf(p, n, hops) && NameEnd(p, at) == at + |NameBytes(n)|
    decreases |n.labels|
  {
    hide Labels, NameEnd, LowerAll, Holds, TailBytes;
    if n.labels == [] {
      assert EncodeLabels([]) + TailBytes(n.tail) == TailBytes(n.tail);
      TailIsRead(p, at, n.tail, hops);
    } else {
      var l := n.labels[0];
      var rest := NameCode(n.labels[1..], n.tail);
      assert IsLabel(l);
      assert NameBytes(n) == ([|l|] + l) + NameBytes(rest);
      HoldsBoth(p, at, [|l|] + l, NameBytes(rest));
      LabelIsRead(p, at, l, hops);
      NameIsRead(p, at + 1 + |l|, rest, hops);
      assert LowerLabels(n.labels) == [LowerAll(l)] + LowerLabels(rest.labels);
      var more := LabelsOf(p, rest, hops);
      if n.tail.Pointer? && more.Some? {
        var far := Labels(p, n.tail.to, hops - 1).value;
        assert [LowerAll(l)] + (LowerLabels(rest.labels) + far) == LowerLabels(n.labels) + far;
      }
    }
  }

  lemma {:induction false} TailIsRead(p: Packet, at: nat, t: Tail, hops: nat)
    requires (t.Pointer? ==> t.to < 16384) && Holds(p, at, TailBytes(t))
    ensures Labels(p, at, hops) == LabelsOf(p, NameCode([], t), hops) && NameEnd(p, at) == at + |TailBytes(t)|
  {
    hide Labels, NameEnd;
    var b := TailBytes(t);
    assert p[at] == p[at..at + |b|][0] && (t.Pointer? ==> p[at + 1] == p[at..at + |b|][1]);
    assert t.Pointer? ==> PointerTarget(p, at) == t.to;
    OtherStep(p, at, hops);
    assert LowerLabels([]) == [];
    if t.Pointer? && hops > 0 && t.to < |p| && Labels(p, t.to, hops - 1).Some? {
      var far := Labels(p, t.to, hops - 1).value;
      assert [] + far == far;
    }
  }

  lemma {:induction false} LabelIsRead(p: Packet, at: nat, l: Name, hops: nat)
    requires IsLabel(l) && Holds(p, at, [|l|] + l)
    ensures var next := at + 1 + |l|;
      Labels(p, at, hops) == Prepend([LowerAll(l)], Labels(p, next, hops)) && NameEnd(p, at) == NameEnd(p, next)
  {
    hide Labels, NameEnd, LowerAll;
    var next := at + 1 + |l|;
    assert p[at] == p[at..next][0] == |l|;
    assert p[at + 1..next] == p[at..next][1..] == l;
    LabelStep(p, at, hops, []);
  }

  /** ... and reads nothing else. */
  lemma {:induction false} ReadIsName(p: Packet, at: nat, hops: nat) returns (n: NameCode)
    requires Labels(p, at, hops).Some?
    ensures ValidName(n) && Holds(p, at, NameBytes(n))
    decreases |p| - at
  {
    Begins(p, at, hops);
    hide Labels, Holds, NameBytes, ValidName;
    if 0 < p[at] < 64 {
      var next := at + 1 + p[at];
      var l := p[at + 1..next];
      var rest := ReadIsName(p, next, hops);
      n := NameCode([l] + rest.labels, rest.tail);
      LabelBefore(l, rest);
      assert Holds(p, at, [|l|] + l) by { LabelHeld(p, at); }
      HoldsBoth(p, at, [|l|] + l, NameBytes(rest));
    } else {
      n := ReadIsTail(p, at, hops);
    }
  }

  lemma {:induction false} Begins(p: Packet, at: nat, hops: nat)
    requires Labels(p, at, hops).Some?
    ensures at < |p|
    ensures 0 < p[at] < 64 ==> at + 1 + p[at] <= |p| && Labels(p, at + 1 + p[at], hops).Some?
  {
  }

  lemma {:induction false} ReadIsTail(p: Packet, at: nat, hops: nat) returns (n: NameCode)
    requires Labels(p, at, hops).Some? && !(0 < p[at] < 64)
    ensures ValidName(n) && Holds(p, at, NameBytes(n))
  {
    hide Labels;
    OtherStep(p, at, hops);
    assert EncodeLabels([]) == [];
    if p[at] == 0 {
      n := NameCode([], Root);
      assert p[at..at + 1] == [0] == NameBytes(n);
    } else {
      n := NameCode([], Pointer(PointerTarget(p, at)));
      assert n.tail.to / 256 == p[at] - 192 && n.tail.to % 256 == p[at + 1];
      assert p[at..at + 2] == [p[at], p[at + 1]] == NameBytes(n);
    }
  }

  /** One label more. */
  lemma {:induction false} LabelBefore(l: Name, rest: NameCode)
    requires IsLabel(l) && ValidName(rest)
    ensures var n := NameCode([l] + rest.labels, rest.tail);
      ValidName(n) && NameBytes(n) == ([|l|] + l) + NameBytes(rest)
  {
    hide TailBytes;
    assert ([l] + rest.labels)[1..] == rest.labels;
  }

  lemma {:induction false} LabelHeld(p: Packet, at: nat)
    requires at < |p| && at + 1 + p[at] <= |p|
    ensures Holds(p, at, [p[at]] + p[at + 1..at + 1 + p[at]])
  {
  }

  /** The name a written name stands for in a packet: at most 16 pointers and 255 bytes. */
  function NameOf(p: Packet, n: NameCode): Option<Name> {
    match LabelsOf(p, n, 16)
    case None => None
    case Some(ls) => if |Join(ls)| > 255 then None else Some(Join(ls))
  }

  /** Exactly what a name on the wire is. */
  lemma {:induction false} DecodedNameExactly(p: Packet, at: nat, d: Decoded)
    ensures DecodeName(p, at) == Some(d) <==>
      exists n :: ValidName(n) && Holds(p, at, NameBytes(n)) && Some(d.name) == NameOf(p, n)
                  && d.next == at + |NameBytes(n)|
  {
    hide Labels, NameEnd, Holds, LabelsOf, NameBytes, Join;
    if DecodeName(p, at).Some? {
      var n := ReadIsName(p, at, MAX_HOPS);
      NameIsRead(p, at, n, MAX_HOPS);
    }
    if n :| ValidName(n) && Holds(p, at, NameBytes(n)) && Some(d.name) == NameOf(p, n)
            && d.next == at + |NameBytes(n)| {
      NameIsRead(p, at, n, MAX_HOPS);
    }
  }

  // ----- questions and records -----

  datatype QuestionCode = QuestionCode(name: NameCode, qtype: U16, qclass: U16)

  datatype RecordCode = RecordCode(name: NameCode, rtype: U16, rclass: U16, ttl: U32, rdata: Packet)

  function QuestionBytes(q: QuestionCode): (b: Packet)
    requires ValidName(q.name)
    ensures |b| == |NameBytes(q.name)| + 4
  {
    NameBytes(q.name) + U16Bytes(q.qtype) + U16Bytes(q.qclass)
  }

  predicate ValidRecord(r: RecordCode) { ValidName(r.name) && |r.rdata| < 0x1_0000 }

  function RecordBytes(r: RecordCode): (b: Packet)
    requires ValidRecord(r)
    ensures |b| == |NameBytes(r.name)| + 10 + |r.rdata|
  {
    NameBytes(r.name) + U16Bytes(r.rtype) + U16Bytes(r.rclass) + U32Bytes(r.ttl) + U16Bytes(|r.rdata|) + r.rdata
  }

  /** What a question stands for, if its name can be read. */
  function QuestionOf(p: Packet, q: QuestionCode): Option<Question> {
    match NameOf(p, q.name) case None => None case Some(name) => Some(Question(name, q.qtype, q.qclass))
  }

  /** What a record at `at` stands for, if its name can be read. */
  function RecordOf(p: Packet, at: nat, r: RecordCode): Option<Record>
    requires ValidName(r.name)
  {
    match NameOf(p, r.name)
    case None => None
    case Some(name) => Some(Record(name, r.rtype, r.rclass, r.ttl, at + |NameBytes(r.name)| + 10, r.rdata))
  }

  lemma {:induction false} NameIsDecoded(p: Packet, at: nat, n: NameCode)
    requires ValidName(n) && Holds(p, at, NameBytes(n))
    ensures NameEnd(p, at) == at + |NameBytes(n)|
    ensures DecodeName(p, at) == (
      match NameOf(p, n) case None => None case Some(name) => Some(Decoded(name, at + |NameBytes(n)|)))
  {
    hide Labels, NameEnd, Holds, LabelsOf, NameBytes, Join;
    NameIsRead(p, at, n, MAX_HOPS);
  }

  lemma {:induction false} QuestionIsRead(p: Packet, at: nat, q: QuestionCode)
    requires ValidName(q.name) && Holds(p, at, QuestionBytes(q))
    ensures ParseQuestion(p, at) == QuestionOf(p, q) && NameEnd(p, at) + 4 == at + |QuestionBytes(q)|
  {
    hide Holds, NameBytes, NameOf, DecodeName, U16Bytes, U16At, NameEnd;
    var n := NameBytes(q.name);
    HoldsBoth(p, at, n + U16Bytes(q.qtype), U16Bytes(q.qclass));
    HoldsBoth(p, at, n, U16Bytes(q.qtype));
    NameIsDecoded(p, at, q.name);
    HoldsFits(p, at, QuestionBytes(q));
    HoldsU16(p, at + |n|, q.qtype);
    HoldsU16(p, at + |n| + 2, q.qclass);
  }

  lemma {:induction false} HoldsFits(p: Packet, at: nat, bytes: Packet)
    requires Holds(p, at, bytes)
    ensures at + |bytes| <= |p|
  {
  }

  /** The parts of a record, each where it stands. */
  lemma {:induction false} RecordParts(p: Packet, at: nat, r: RecordCode)
    requires ValidRecord(r)
    ensures var a := at + |NameBytes(r.name)|;
      Holds(p, at, RecordBytes(r)) <==>
        && Holds(p, at, NameBytes(r.name)) && a + 10 + |r.rdata| <= |p|
        && U16At(p, a) == r.rtype && U16At(p, a + 2) == r.rclass && U32At(p, a + 4) == r.ttl
        && U16At(p, a + 8) == |r.rdata| && p[a + 10..a + 10 + |r.rdata|] == r.rdata
  {
    hide NameBytes, U16Bytes, U32Bytes, U16At, U32At, Holds;
    var n := NameBytes(r.name);
    var a := at + |n|;
    var t, c, l, d := U16Bytes(r.rtype), U16Bytes(r.rclass), U32Bytes(r.ttl), U16Bytes(|r.rdata|);
    HoldsBoth(p, at, n + t + c + l + d, r.rdata);
    HoldsBoth(p, at, n + t + c + l, d);
    HoldsBoth(p, at, n + t + c, l);
    HoldsBoth(p, at, n + t, c);
    HoldsBoth(p, at, n, t);
    if Holds(p, a + 10, r.rdata) { HoldsFits(p, a + 10, r.rdata); }
    if a + 10 <= |p| {
      HoldsU16(p, a, r.rtype);
      HoldsU16(p, a + 2, r.rclass);
      HoldsU32(p, a + 4, r.ttl);
      HoldsU16(p, a + 8, |r.rdata|);
    }
    HoldsIs(p, a + 10, r.rdata);
  }

  lemma {:induction false} HoldsIs(p: Packet, at: nat, bytes: Packet)
    ensures Holds(p, at, bytes) <==> at + |bytes| <= |p| && p[at..at + |bytes|] == bytes
  {
  }

  lemma {:induction false} RecordIsRead(p: Packet, at: nat, r: RecordCode)
    requires ValidRecord(r) && Holds(p, at, RecordBytes(r))
    ensures ParseRecord(p, at) == RecordOf(p, at, r)
    ensures ParseRecord(p, at).Some? ==> ParseRecord(p, at).value.End() == at + |RecordBytes(r)|
  {
    hide Holds, NameBytes, NameOf, DecodeName, U16At, U32At, NameEnd;
    RecordParts(p, at, r);
    NameIsDecoded(p, at, r.name);
  }

  lemma {:induction false} ReadIsQuestion(p: Packet, at: nat) returns (q: QuestionCode)
    requires ParseQuestion(p, at).Some?
    ensures ValidName(q.name) && Holds(p, at, QuestionBytes(q))
  {
    hide Holds, NameBytes, NameOf, Labels, U16Bytes, U16At, NameEnd;
    var n := ReadIsName(p, at, MAX_HOPS);
    NameIsDecoded(p, at, n);
    var a := at + |NameBytes(n)|;
    q := QuestionCode(n, U16At(p, a), U16At(p, a + 2));
    HoldsU16(p, a, q.qtype);
    HoldsU16(p, a + 2, q.qclass);
    HoldsBoth(p, at, NameBytes(n) + U16Bytes(q.qtype), U16Bytes(q.qclass));
    HoldsBoth(p, at, NameBytes(n), U16Bytes(q.qtype));
  }

  lemma {:induction false} ReadIsRecord(p: Packet, at: nat) returns (r: RecordCode)
    requires ParseRecord(p, at).Some?
    ensures ValidRecord(r) && Holds(p, at, RecordBytes(r))
  {
    hide Holds, NameBytes, NameOf, Labels, U16At, U32At, NameEnd;
    var n := ReadIsName(p, at, MAX_HOPS);
    NameIsDecoded(p, at, n);
    var rr := ParseRecord(p, at).value;
    r := RecordCode(n, rr.rtype, rr.rclass, rr.ttl, rr.rdata);
    RecordParts(p, at, r);
  }

  // ----- runs -----

  predicate ValidQuestions(qs: seq<QuestionCode>) { forall i :: 0 <= i < |qs| ==> ValidName(qs[i].name) }

  predicate ValidRecords(rs: seq<RecordCode>) { forall i :: 0 <= i < |rs| ==> ValidRecord(rs[i]) }

  function AllQuestionBytes(qs: seq<QuestionCode>): Packet
    requires ValidQuestions(qs)
  {
    if qs == [] then [] else QuestionBytes(qs[0]) + AllQuestionBytes(qs[1..])
  }

  function AllRecordBytes(rs: seq<RecordCode>): Packet
    requires ValidRecords(rs)
  {
    if rs == [] then [] else RecordBytes(rs[0]) + AllRecordBytes(rs[1..])
  }

  /** What a run of questions stands for, if every name in it can be read. */
  function QuestionsOf(p: Packet, qs: seq<QuestionCode>): Option<seq<Question>> {
    if qs == [] then Some([])
    else
      match QuestionOf(p, qs[0])
      case None => None
      case Some(q) => match QuestionsOf(p, qs[1..]) case None => None case Some(rest) => Some([q] + rest)
  }

  function RecordsOf(p: Packet, at: nat, rs: seq<RecordCode>): Option<seq<Record>>
    requires ValidRecords(rs)
    decreases rs
  {
    if rs == [] then Some([])
    else
      match RecordOf(p, at, rs[0])
      case None => None
      case Some(r) =>
        match RecordsOf(p, at + |RecordBytes(rs[0])|, rs[1..]) case None => None case Some(rest) => Some([r] + rest)
  }

  lemma {:induction false} QuestionsAreRead(p: Packet, at: nat, qs: seq<QuestionCode>)
    requires ValidQuestions(qs) && Holds(p, at, AllQuestionBytes(qs))
    ensures ParseQuestions(p, at, |qs|) == (
      match QuestionsOf(p, qs) case None => None case Some(items) => Some(Run(items, at + |AllQuestionBytes(qs)|)))
    decreases |qs|
  {
    hide Holds, QuestionBytes, QuestionOf, ParseQuestion, NameEnd;
    if qs != [] {
      var first, rest := QuestionBytes(qs[0]), AllQuestionBytes(qs[1..]);
      HoldsBoth(p, at, first, rest);
      QuestionIsRead(p, at, qs[0]);
      QuestionsAreRead(p, at + |first|, qs[1..]);
    }
  }

  lemma {:induction false} RecordsAreRead(p: Packet, at: nat, rs: seq<RecordCode>)
    requires ValidRecords(rs) && Holds(p, at, AllRecordBytes(rs))
    ensures ParseRecords(p, at, |rs|) == (
      match RecordsOf(p, at, rs) case None => None case Some(items) => Some(Run(items, at + |AllRecordBytes(rs)|)))
    decreases |rs|
  {
    hide Holds, RecordBytes, RecordOf, ParseRecord, ValidRecord;
    if rs != [] {
      var first, rest := RecordBytes(rs[0]), AllRecordBytes(rs[1..]);
      HoldsBoth(p, at, first, rest);
      RecordIsRead(p, at, rs[0]);
      RecordsAreRead(p, at + |first|, rs[1..]);
    }
  }

  lemma {:induction false} ReadAreQuestions(p: Packet, at: nat, count: nat) returns (qs: seq<QuestionCode>)
    requires ParseQuestions(p, at, count).Some? && at <= |p|
    ensures |qs| == count && ValidQuestions(qs) && Holds(p, at, AllQuestionBytes(qs))
    decreases count
  {
    hide QuestionBytes, ParseQuestion, NameEnd;
    qs := [];
    if count > 0 {
      hide Holds;
      var q := ReadIsQuestion(p, at);
      QuestionIsRead(p, at, q);
      HoldsFits(p, at, QuestionBytes(q));
      var rest := ReadAreQuestions(p, at + |QuestionBytes(q)|, count - 1);
      qs := [q] + rest;
      assert qs[1..] == rest;
      HoldsBoth(p, at, QuestionBytes(q), AllQuestionBytes(rest));
    }
  }

  lemma {:induction false} ReadAreRecords(p: Packet, at: nat, count: nat) returns (rs: seq<RecordCode>)
    requires ParseRecords(p, at, count).Some? && at <= |p|
    ensures |rs| == count && ValidRecords(rs) && Holds(p, at, AllRecordBytes(rs))
    decreases count
  {
    hide RecordBytes, ParseRecord, ValidRecord;
    rs := [];
    if count > 0 {
      hide Holds;
      var r := ReadIsRecord(p, at);
      RecordIsRead(p, at, r);
      HoldsFits(p, at, RecordBytes(r));
      var rest := ReadAreRecords(p, at + |RecordBytes(r)|, count - 1);
      rs := [r] + rest;
      assert rs[1..] == rest;
      HoldsBoth(p, at, RecordBytes(r), AllRecordBytes(rest));
    }
  }

  // ----- messages -----

  function Bit(b: bool): (v: nat)
    ensures v <= 1 && (v == 1 <==> b)
  {
    if b then 1 else 0
  }

  predicate ValidHeader(h: Header, z: nat) { 0 <= h.opcode < 16 && 0 <= h.rcode < 16 && z < 8 }

  /** The flag bits in their order: QR, OPCODE, AA, TC, RD, RA, three that are not looked at, RCODE. */
  function Flags(h: Header, z: nat): U16
    requires ValidHeader(h, z)
  {
    Bit(h.qr) * 32768 + h.opcode * 2048 + Bit(h.aa) * 1024 + Bit(h.tc) * 512 + Bit(h.rd) * 256 + Bit(h.ra) * 128
      + z * 16 + h.rcode
  }

  function HeaderBytes(h: Header, z: nat): (b: Packet)
    requires ValidHeader(h, z)
    ensures |b| == 12
  {
    U16Bytes(h.id) + U16Bytes(Flags(h, z))
      + U16Bytes(h.qdcount) + U16Bytes(h.ancount) + U16Bytes(h.nscount) + U16Bytes(h.arcount)
  }

  /** The quotients that bring out the flags one after the other. */
  lemma {:induction false} Quotients(f: nat)
    ensures f / 16 / 8 == f / 0x80 && f / 0x80 / 2 == f / 0x100 && f / 0x100 / 2 == f / 0x200
    ensures f / 0x200 / 2 == f / 0x400 && f / 0x400 / 2 == f / 0x800 && f / 0x800 / 16 == f / 0x8000
  {
  }

  lemma {:induction false} Peel2(x: nat, q: nat, b: nat)
    requires x == 2 * q + b && b <= 1
    ensures x / 2 == q && x % 2 == b
  {
  }

  lemma {:induction false} FlagsAreRead(h: Header, z: nat)
    requires ValidHeader(h, z)
    ensures var f := Flags(h, z);
      && (f / 0x8000 % 2 == 1) == h.qr && f / 0x800 % 16 == h.opcode && (f / 0x400 % 2 == 1) == h.aa
      && (f / 0x200 % 2 == 1) == h.tc && (f / 0x100 % 2 == 1) == h.rd && (f / 0x80 % 2 == 1) == h.ra
      && f % 16 == h.rcode
  {
    hide Bit;
    var f := Flags(h, z);
    var g := 16 * Bit(h.qr) + h.opcode;
    var e := 2 * g + Bit(h.aa);
    var d := 2 * e + Bit(h.tc);
    var c := 2 * d + Bit(h.rd);
    var b := 2 * c + Bit(h.ra);
    var a := 8 * b + z;
    Summed(a, h.rcode, b, z, c, Bit(h.ra), d, Bit(h.rd), e, Bit(h.tc), g, Bit(h.aa), Bit(h.qr), h.opcode);
    Peel16(f, a, h.rcode);
    Peel8(a, b, z);
    Quotients(f);
    Peel2(b, c, Bit(h.ra));
    Peel2(c, d, Bit(h.rd));
    Peel2(d, e, Bit(h.tc));
    Peel2(e, g, Bit(h.aa));
    Peel16(g, Bit(h.qr), h.opcode);
  }

  lemma {:induction false} Peel8(x: nat, q: nat, b: nat)
    requires x == 8 * q + b && b < 8
    ensures x / 8 == q && x % 8 == b
  {
  }

  lemma {:induction false} Peel16(x: nat, q: nat, b: nat)
    requires x == 16 * q + b && b < 16
    ensures x / 16 == q && x % 16 == b
  {
  }

  lemma {:induction false} Summed(a: nat, rcode: nat, b: nat, z: nat, c: nat, ra: nat, d: nat, rd: nat,
                                  e: nat, tc: nat, g: nat, aa: nat, qr: nat, opcode: nat)
    requires a == 8 * b + z && b == 2 * c + ra && c == 2 * d + rd && d == 2 * e + tc && e == 2 * g + aa
    requires g == 16 * qr + opcode
    ensures 16 * a + rcode ==
      qr * 32768 + opcode * 2048 + aa * 1024 + tc * 512 + rd * 256 + ra * 128 + z * 16 + rcode
  {
  }

  lemma {:induction false} Cut(x: nat, k: nat) returns (q: nat, r: nat)
    requires k > 0
    ensures x == k * q + r && r < k
  {
    q, r := x / k, x % k;
  }

  /** Every sixteen bits are the flags of some header. */
  lemma {:induction false} FlagsOf(f: U16, h: Header) returns (m: Header, z: nat)
    ensures m == h.(qr := m.qr, opcode := m.opcode, aa := m.aa, tc := m.tc, rd := m.rd, ra := m.ra, rcode := m.rcode)
    ensures ValidHeader(m, z) && Flags(m, z) == f
  {
    var a, rcode := Cut(f, 16);
    var b;
    b, z := Cut(a, 8);
    var c, ra := Cut(b, 2);
    var d, rd := Cut(c, 2);
    var e, tc := Cut(d, 2);
    var g, aa := Cut(e, 2);
    var qr, opcode := Cut(g, 16);
    Summed(a, rcode, b, z, c, ra, d, rd, e, tc, g, aa, qr, opcode);
    m := h.(qr := qr == 1, opcode := opcode, aa := aa == 1, tc := tc == 1, rd := rd == 1, ra := ra == 1,
            rcode := rcode);
  }

  lemma {:induction false} HeaderParts(p: Packet, h: Header, z: nat)
    requires ValidHeader(h, z) && |p| >= 12
    ensures Holds(p, 0, HeaderBytes(h, z)) <==>
      && U16At(p, 0) == h.id && U16At(p, 2) == Flags(h, z) && U16At(p, 4) == h.qdcount
      && U16At(p, 6) == h.ancount && U16At(p, 8) == h.nscount && U16At(p, 10) == h.arcount
  {
    hide U16Bytes, U16At, Holds, Flags;
    var a, b, c := U16Bytes(h.id), U16Bytes(Flags(h, z)), U16Bytes(h.qdcount);
    var d, e, f := U16Bytes(h.ancount), U16Bytes(h.nscount), U16Bytes(h.arcount);
    HoldsBoth(p, 0, a + b + c + d + e, f);
    HoldsBoth(p, 0, a + b + c + d, e);
    HoldsBoth(p, 0, a + b + c, d);
    HoldsBoth(p, 0, a + b, c);
    HoldsBoth(p, 0, a, b);
    HoldsU16(p, 0, h.id);
    HoldsU16(p, 2, Flags(h, z));
    HoldsU16(p, 4, h.qdcount);
    HoldsU16(p, 6, h.ancount);
    HoldsU16(p, 8, h.nscount);
    HoldsU16(p, 10, h.arcount);
  }

  /** A header and no other is read from its bytes. */
  lemma {:induction false} HeaderIsRead(p: Packet, h: Header)
    requires |p| >= 12
    ensures ParseHeader(p) == h <==> exists z: nat :: ValidHeader(h, z) && Holds(p, 0, HeaderBytes(h, z))
  {
    hide U16At, Holds, HeaderBytes, Flags;
    if ParseHeader(p) == h {
      var m, z := FlagsOf(U16At(p, 2), h);
      FlagsAreRead(m, z);
      assert m == h;
      HeaderParts(p, h, z);
    }
    if z: nat :| ValidHeader(h, z) && Holds(p, 0, HeaderBytes(h, z)) {
      HeaderParts(p, h, z);
      FlagsAreRead(h, z);
    }
  }

  datatype MessageCode = MessageCode(header: Header, z: nat, questions: seq<QuestionCode>,
                                     answers: seq<RecordCode>, authority: seq<RecordCode>, additional: seq<RecordCode>)

  predicate ValidMessage(m: MessageCode) {
    && ValidHeader(m.header, m.z) && ValidQuestions(m.questions)
    && ValidRecords(m.answers) && ValidRecords(m.authority) && ValidRecords(m.additional)
    && m.header.qdcount == |m.questions| && m.header.ancount == |m.answers|
    && m.header.nscount == |m.authority| && m.header.arcount == |m.additional|
  }

  /** A message on the wire: header, questions, answers, authority and additional records. */
  function MessageBytes(m: MessageCode): (b: Packet)
    requires ValidMessage(m)
    ensures |b| >= 12
  {
    HeaderBytes(m.header, m.z) + AllQuestionBytes(m.questions)
      + AllRecordBytes(m.answers) + AllRecordBytes(m.authority) + AllRecordBytes(m.additional)
  }

  /** What it stands for in a packet that begins with it, if every name in it can be read there. */
  function MessageOf(p: Packet, m: MessageCode): Option<Message>
    requires ValidMessage(m)
  {
    var a := 12 + |AllQuestionBytes(m.questions)|;
    var b := a + |AllRecordBytes(m.answers)|;
    var c := b + |AllRecordBytes(m.authority)|;
    var qs, an, ns, ar := QuestionsOf(p, m.questions), RecordsOf(p, a, m.answers), RecordsOf(p, b, m.authority),
      RecordsOf(p, c, m.additional);
    if qs.None? || an.None? || ns.None? || ar.None? then None
    else Some(Message(m.header, qs.value, an.value, ns.value, ar.value, a))
  }

  /** Parsing undoes encoding, and fails exactly if some name cannot be read. */
  lemma {:induction false} EncodedMessageParses(p: Packet, m: MessageCode)
    requires ValidMessage(m) && Holds(p, 0, MessageBytes(m))
    ensures ParseFull(p) == (
      match MessageOf(p, m) case None => None case Some(msg) => Some(Parsed(msg, |MessageBytes(m)|)))
  {
    hide Holds, HeaderBytes, AllQuestionBytes, AllRecordBytes, ParseHeader, ParseQuestions, ParseRecords, QuestionsOf,
      RecordsOf, ValidQuestions, ValidRecords, ValidHeader;
    HoldsFits(p, 0, MessageBytes(m));
    MessageParts(p, m);
    HeaderIsRead(p, m.header);
    var a := 12 + |AllQuestionBytes(m.questions)|;
    var b := a + |AllRecordBytes(m.answers)|;
    var c := b + |AllRecordBytes(m.authority)|;
    QuestionsAreRead(p, 12, m.questions);
    RecordsAreRead(p, a, m.answers);
    RecordsAreRead(p, b, m.authority);
    RecordsAreRead(p, c, m.additional);
  }

  lemma {:induction false} MessageParts(p: Packet, m: MessageCode)
    requires ValidMessage(m)
    ensures var a := 12 + |AllQuestionBytes(m.questions)|;
      var b := a + |AllRecordBytes(m.answers)|; var c := b + |AllRecordBytes(m.authority)|;
      Holds(p, 0, MessageBytes(m)) <==>
        && Holds(p, 0, HeaderBytes(m.header, m.z)) && Holds(p, 12, AllQuestionBytes(m.questions))
        && Holds(p, a, AllRecordBytes(m.answers)) && Holds(p, b, AllRecordBytes(m.authority))
        && Holds(p, c, AllRecordBytes(m.additional))
  {
    hide Holds, HeaderBytes, AllQuestionBytes, AllRecordBytes, ValidQuestions, ValidRecords, ValidHeader;
    var h, q := HeaderBytes(m.header, m.z), AllQuestionBytes(m.questions);
    var an, ns, ar := AllRecordBytes(m.answers), AllRecordBytes(m.authority), AllRecordBytes(m.additional);
    HoldsBoth(p, 0, h + q + an + ns, ar);
    HoldsBoth(p, 0, h + q + an, ns);
    HoldsBoth(p, 0, h + q, an);
    HoldsBoth(p, 0, h, q);
  }

  /** ... and whatever parses begins with an encoded message. */
  lemma {:induction false} ParsedIsEncoded(p: Packet) returns (m: MessageCode)
    requires ParseFull(p).Some?
    ensures ValidMessage(m) && Holds(p, 0, MessageBytes(m))
  {
    hide Holds, HeaderBytes, AllQuestionBytes, AllRecordBytes, ParseHeader, ParseQuestions, ParseRecords,
      ValidQuestions, ValidRecords, ValidHeader;
    var h := ParseHeader(p);
    HeaderIsRead(p, h);
    var z: nat :| ValidHeader(h, z) && Holds(p, 0, HeaderBytes(h, z));
    var qs := ReadAreQuestions(p, 12, h.qdcount);
    var a := EndOfQuestions(p, 12, qs);
    var an := ReadAreRecords(p, a, h.ancount);
    var b := EndOfRecords(p, a, an);
    var ns := ReadAreRecords(p, b, h.nscount);
    var c := EndOfRecords(p, b, ns);
    var ar := ReadAreRecords(p, c, h.arcount);
    m := MessageCode(h, z, qs, an, ns, ar);
    MessageParts(p, m);
  }

  lemma {:induction false} EndOfQuestions(p: Packet, at: nat, qs: seq<QuestionCode>) returns (next: nat)
    requires ValidQuestions(qs) && Holds(p, at, AllQuestionBytes(qs)) && ParseQuestions(p, at, |qs|).Some?
    ensures next == at + |AllQuestionBytes(qs)| == ParseQuestions(p, at, |qs|).value.next <= |p|
  {
    hide ParseQuestions, QuestionsOf, AllQuestionBytes;
    QuestionsAreRead(p, at, qs);
    next := at + |AllQuestionBytes(qs)|;
  }

  lemma {:induction false} EndOfRecords(p: Packet, at: nat, rs: seq<RecordCode>) returns (next: nat)
    requires ValidRecords(rs) && Holds(p, at, AllRecordBytes(rs)) && ParseRecords(p, at, |rs|).Some?
    ensures next == at + |AllRecordBytes(rs)| == ParseRecords(p, at, |rs|).value.next <= |p|
  {
    hide ParseRecords, RecordsOf, AllRecordBytes;
    RecordsAreRead(p, at, rs);
    next := at + |AllRecordBytes(rs)|;
  }

  /** Exactly what a packet that parses is: an encoded message all of whose names can be read, and anything after. */
  lemma {:induction false} ParsesExactly(p: Packet, r: Parsed)
    ensures ParseFull(p) == Some(r) <==>
      exists m :: ValidMessage(m) && Holds(p, 0, MessageBytes(m)) && MessageOf(p, m) == Some(r.msg)
                  && r.end == |MessageBytes(m)|
  {
    hide Holds, MessageBytes, ParseFull, MessageOf, ValidMessage;
    if ParseFull(p).Some? {
      var m := ParsedIsEncoded(p);
      EncodedMessageParses(p, m);
    }
    if m :| ValidMessage(m) && Holds(p, 0, MessageBytes(m)) && MessageOf(p, m) == Some(r.msg)
            && r.end == |MessageBytes(m)| {
      EncodedMessageParses(p, m);
    }
  }
}
