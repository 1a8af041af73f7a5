/** Whole messages (section 4.1 of RFC 1035): `parse` of src/dns_parser.cpp. */
module Parser {
  import opened Wire
  import opened Names

  const HEADER_SIZE := 12

  const TYPE_A: U16 := 1
  const TYPE_CNAME: U16 := 5
  const TYPE_SOA: U16 := 6
  const TYPE_AAAA: U16 := 28
  const TYPE_OPT: U16 := 41

  const RCODE_OK := 0
  const RCODE_SERVFAIL := 2
  const RCODE_NXDOMAIN := 3
  const RCODE_NOTIMP := 4
  const RCODE_REFUSED := 5

  datatype Header = Header(id: U16, qr: bool, opcode: int, aa: bool, tc: bool, rd: bool, ra: bool,
                           rcode: int, qdcount: U16, ancount: U16, nscount: U16, arcount: U16)

  datatype Question = Question(qname: Name, qtype: U16, qclass: U16)

  /** `rdata` is a view into the packet in the source: an offset and the bytes found there. */
  datatype Record = Record(name: Name, rtype: U16, rclass: U16, ttl: U32, rdataOff: nat, rdata: Packet) {
    /** Where the record ends. */
    function End(): nat { rdataOff + |rdata| }
  }

  datatype Message = Message(header: Header, questions: seq<Question>, answers: seq<Record>,
                             authority: seq<Record>, additional: seq<Record>, questionEnd: nat) {
    /** The records of all three sections, in packet order. */
    function Records(): seq<Record> { answers + authority + additional }
  }

  /** A run of parsed items and the cursor after them. */
  datatype Run<T> = Run(items: seq<T>, next: nat)

  function ParseHeader(pkt: Packet): (h: Header)
    requires |pkt| >= HEADER_SIZE
  {
    var flags := U16At(pkt, 2);
    Header(U16At(pkt, 0), flags / 0x8000 % 2 == 1, flags / 0x800 % 16, flags / 0x400 % 2 == 1,
           flags / 0x200 % 2 == 1, flags / 0x100 % 2 == 1, flags / 0x80 % 2 == 1, flags % 16,
           U16At(pkt, 4), U16At(pkt, 6), U16At(pkt, 8), U16At(pkt, 10))
  }

  function ParseQuestion(pkt: Packet, cursor: nat): Option<Question> {
    match DecodeName(pkt, cursor)
    case None => None
    case Some(d) =>
      if d.next + 4 > |pkt| then None
      else Some(Question(d.name, U16At(pkt, d.next), U16At(pkt, d.next + 2)))
  }

  function ParseQuestions(pkt: Packet, cursor: nat, count: nat): (r: Option<Run<Question>>)
    ensures r.Some? ==> |r.value.items| == count
    decreases count
  {
    if count == 0 then Some(Run([], cursor))
    else
      match ParseQuestion(pkt, cursor)
      case None => None
      case Some(q) =>
        match ParseQuestions(pkt, NameEnd(pkt, cursor) + 4, count - 1)
        case None => None
        case Some(rest) => Some(Run([q] + rest.items, rest.next))
  }

  function ParseRecord(pkt: Packet, cursor: nat): Option<Record> {
    match DecodeName(pkt, cursor)
    case None => None
    case Some(d) =>
      var at := d.next;
      if at + 10 > |pkt| then None
      else
        var rdlen := U16At(pkt, at + 8);
        if at + 10 + rdlen > |pkt| then None
        else Some(Record(d.name, U16At(pkt, at), U16At(pkt, at + 2), U32At(pkt, at + 4),
                         at + 10, pkt[at + 10..at + 10 + rdlen]))
  }

  function ParseRecords(pkt: Packet, cursor: nat, count: nat): (r: Option<Run<Record>>)
    ensures r.Some? ==> |r.value.items| == count
    decreases count
  {
    if count == 0 then Some(Run([], cursor))
    else
      match ParseRecord(pkt, cursor)
      case None => None
      case Some(rr) =>
        match ParseRecords(pkt, rr.End(), count - 1)
        case None => None
        case Some(rest) => Some(Run([rr] + rest.items, rest.next))
  }

  /** A parsed message and the cursor after its last record. */
  datatype Parsed = Parsed(msg: Message, end: nat)

  function ParseFull(pkt: Packet): (r: Option<Parsed>)
    ensures r.Some? ==> |pkt| >= HEADER_SIZE
  {
    if |pkt| < HEADER_SIZE then None
    else
      var h := ParseHeader(pkt);
      match ParseQuestions(pkt, HEADER_SIZE, h.qdcount)
      case None => None
      case Some(qs) =>
        match ParseRecords(pkt, qs.next, h.ancount)
        case None => None
        case Some(an) =>
          match ParseRecords(pkt, an.next, h.nscount)
          case None => None
          case Some(ns) =>
            match ParseRecords(pkt, ns.next, h.arcount)
            case None => None
            case Some(ar) =>
              Some(Parsed(Message(h, qs.items, an.items, ns.items, ar.items, qs.next), ar.next))
  }

  function Parse(pkt: Packet): Option<Message> {
    match ParseFull(pkt) case None => None case Some(p) => Some(p.msg)
  }

  // ----- the loops -----

  function PrependRun<T>(done: seq<T>, rest: Option<Run<T>>): Option<Run<T>> {
    match rest case None => None case Some(r) => Some(Run(done + r.items, r.next))
  }

  method ParseRecordsLoop(pkt: Packet, start: nat, count: nat) returns (r: Option<Run<Record>>)
    ensures r == ParseRecords(pkt, start, count)
  {
    hide DecodeName, U16At, U32At, NameEnd;
    var out: seq<Record> := [];
    var cursor: nat := start;
    ghost var whole := ParseRecords(pkt, start, count);
    assert whole.Some? ==> out + whole.value.items == whole.value.items;
    for i := 0 to count
      invariant whole == PrependRun(out, ParseRecords(pkt, cursor, count - i))
    {
      var name := DecodeNameLoop(pkt, cursor);
      if name.None? { return None; }
      cursor := name.value.next;
      if cursor + 10 > |pkt| { return None; }
      var rtype := U16At(pkt, cursor);
      var rclass := U16At(pkt, cursor + 2);
      var ttl := U32At(pkt, cursor + 4);
      var rdlen := U16At(pkt, cursor + 8);
      cursor := cursor + 10;
      if cursor + rdlen > |pkt| { return None; }
      var rr := Record(name.value.name, rtype, rclass, ttl, cursor, pkt[cursor..cursor + rdlen]);
      cursor := cursor + rdlen;
      ghost var rest := ParseRecords(pkt, cursor, count - i - 1);
      if rest.Some? { assert out + ([rr] + rest.value.items) == out + [rr] + rest.value.items; }
      out := out + [rr];
    }
    assert out + [] == out;
    return Some(Run(out, cursor));
  }

  method ParseQuestionsLoop(pkt: Packet, start: nat, count: nat) returns (r: Option<Run<Question>>)
    ensures r == ParseQuestions(pkt, start, count)
  {
    hide DecodeName, U16At;
    var out: seq<Question> := [];
    var cursor: nat := start;
    ghost var whole := ParseQuestions(pkt, start, count);
    assert whole.Some? ==> out + whole.value.items == whole.value.items;
    for i := 0 to count
      invariant whole == PrependRun(out, ParseQuestions(pkt, cursor, count - i))
    {
      var name := DecodeNameLoop(pkt, cursor);
      if name.None? { return None; }
      cursor := name.value.next;
      if cursor + 4 > |pkt| { return None; }
      var q := Question(name.value.name, U16At(pkt, cursor), U16At(pkt, cursor + 2));
      cursor := cursor + 4;
      ghost var rest := ParseQuestions(pkt, cursor, count - i - 1);
      if rest.Some? { assert out + ([q] + rest.value.items) == out + [q] + rest.value.items; }
      out := out + [q];
    }
    assert out + [] == out;
    return Some(Run(out, cursor));
  }

  method ParseLoop(pkt: Packet) returns (r: Option<Parsed>)
    ensures r == ParseFull(pkt)
  {
    if |pkt| < HEADER_SIZE { return None; }
    var h := ParseHeader(pkt);
    var qs := ParseQuestionsLoop(pkt, HEADER_SIZE, h.qdcount);
    if qs.None? { return None; }
    var an := ParseRecordsLoop(pkt, qs.value.next, h.ancount);
    if an.None? { return None; }
    var ns := ParseRecordsLoop(pkt, an.value.next, h.nscount);
    if ns.None? { return None; }
    var ar := ParseRecordsLoop(pkt, ns.value.next, h.arcount);
    if ar.None? { return None; }
    return Some(Parsed(Message(h, qs.value.items, an.value.items, ns.value.items, ar.value.items, qs.value.next),
                       ar.value.next));
  }

  // ----- sections are runs of one record sequence -----

  lemma {:induction false} ParseRecordsSplit(pkt: Packet, cursor: nat, m: nat, n: nat)
    ensures ParseRecords(pkt, cursor, m + n) ==
      match ParseRecords(pkt, cursor, m)
      case None => None
      case Some(first) => PrependRun(first.items, ParseRecords(pkt, first.next, n))
    decreases m
  {
    hide ParseRecord;
    if m == 0 {
      var rest := ParseRecords(pkt, cursor, n);
      assert rest.Some? ==> [] + rest.value.items == rest.value.items;
    } else {
      var rr := ParseRecord(pkt, cursor);
      if rr.Some? {
        ParseRecordsSplit(pkt, rr.value.End(), m - 1, n);
        var first := ParseRecords(pkt, rr.value.End(), m - 1);
        if first.Some? {
          var rest := ParseRecords(pkt, first.value.next, n);
          if rest.Some? {
            assert [rr.value] + (first.value.items + rest.value.items) ==
              [rr.value] + first.value.items + rest.value.items;
          }
        }
      }
    }
  }

  /** The three sections of a parsed message are one run of records after the questions. */
  lemma {:induction false} SectionsAreOneRun(pkt: Packet)
    requires ParseFull(pkt).Some?
    ensures var p := ParseFull(pkt).value; var h := p.msg.header;
      && ParseQuestions(pkt, HEADER_SIZE, h.qdcount) == Some(Run(p.msg.questions, p.msg.questionEnd))
      && ParseRecords(pkt, p.msg.questionEnd, h.ancount + h.nscount + h.arcount) == Some(Run(p.msg.Records(), p.end))
      && |p.msg.answers| == h.ancount && |p.msg.authority| == h.nscount && |p.msg.additional| == h.arcount
  {
    hide ParseHeader, ParseRecords, ParseQuestions;
    var p := ParseFull(pkt).value;
    var h := p.msg.header;
    var an := ParseRecords(pkt, p.msg.questionEnd, h.ancount).value;
    ParseRecordsSplit(pkt, p.msg.questionEnd, h.ancount, h.nscount);
    ParseRecordsSplit(pkt, p.msg.questionEnd, h.ancount + h.nscount, h.arcount);
  }

  // ----- layout -----

  /** Records in packet order: each starts with at least one byte of name and ten of fixed fields
      after the previous one has ended. */
  ghost predicate Laid(records: seq<Record>, lo: nat, hi: nat) {
    && (forall i :: 0 <= i < |records| ==> lo + 11 <= records[i].rdataOff && records[i].End() <= hi)
    && (forall i, j :: 0 <= i < j < |records| ==> records[i].End() + 11 <= records[j].rdataOff)
  }

  lemma {:induction false} RecordsAreLaid(pkt: Packet, cursor: nat, count: nat)
    requires ParseRecords(pkt, cursor, count).Some?
    requires cursor <= |pkt|
    ensures var r := ParseRecords(pkt, cursor, count).value;
      Laid(r.items, cursor, r.next) && cursor + 11 * count <= r.next <= |pkt|
    decreases count
  {
    hide DecodeName, U16At, U32At;
    if count > 0 {
      DecodedNameIsCanonical(pkt, cursor);
      RecordsAreLaid(pkt, ParseRecord(pkt, cursor).value.End(), count - 1);
    }
  }

  lemma {:induction false} QuestionsFit(pkt: Packet, cursor: nat, count: nat)
    requires ParseQuestions(pkt, cursor, count).Some?
    requires cursor <= |pkt|
    ensures cursor + 5 * count <= ParseQuestions(pkt, cursor, count).value.next <= |pkt|
    decreases count
  {
    hide DecodeName, U16At;
    if count > 0 {
      DecodedNameIsCanonical(pkt, cursor);
      QuestionsFit(pkt, NameEnd(pkt, cursor) + 4, count - 1);
    }
  }

  /** Every record of a parsed message lies after the questions and inside the packet, no two overlap. */
  lemma {:induction false} MessageIsLaid(pkt: Packet)
    requires ParseFull(pkt).Some?
    ensures var p := ParseFull(pkt).value;
      HEADER_SIZE <= p.msg.questionEnd <= p.end <= |pkt| && Laid(p.msg.Records(), p.msg.questionEnd, p.end)
  {
    hide ParseHeader, ParseRecords, ParseQuestions, U16At;
    var p := ParseFull(pkt).value;
    SectionsAreOneRun(pkt);
    QuestionsFit(pkt, HEADER_SIZE, p.msg.header.qdcount);
    RecordsAreLaid(pkt, p.msg.questionEnd, |p.msg.Records()|);
  }

  // ----- the frame -----

  /** Where the k-th record from `cursor` starts. */
  function RecordStart(pkt: Packet, cursor: nat, k: nat): nat
    decreases k
  {
    if k == 0 then cursor
    else match ParseRecord(pkt, cursor) case None => |pkt| case Some(rr) => RecordStart(pkt, rr.End(), k - 1)
  }

  function QuestionStart(pkt: Packet, cursor: nat, k: nat): nat
    decreases k
  {
    if k == 0 then cursor else QuestionStart(pkt, NameEnd(pkt, cursor) + 4, k - 1)
  }

  /** The name footprint of a message: the bytes some question or owner name is decoded from. */
  ghost predicate NameReads(pkt: Packet, i: nat)
    requires ParseFull(pkt).Some?
  {
    var m := ParseFull(pkt).value.msg;
    || (exists k :: 0 <= k < |m.questions| && Reads(pkt, QuestionStart(pkt, HEADER_SIZE, k), MAX_HOPS, i))
    || (exists k :: 0 <= k < |m.Records()| && Reads(pkt, RecordStart(pkt, m.questionEnd, k), MAX_HOPS, i))
  }

  /** The same record read from another buffer: the fields that are not part of the structure. */
  function Reread(rr: Record, to: Packet): Record
    requires 6 <= rr.rdataOff && rr.End() <= |to|
  {
    rr.(ttl := U32At(to, rr.rdataOff - 6), rdata := to[rr.rdataOff..rr.End()])
  }

  function RereadAll(rs: seq<Record>, to: Packet): (r: seq<Record>)
    requires forall rr :: rr in rs ==> 6 <= rr.rdataOff && rr.End() <= |to|
    ensures |r| == |rs| && forall i :: 0 <= i < |rs| ==> r[i] == Reread(rs[i], to)
  {
    seq(|rs|, i requires 0 <= i < |rs| => Reread(rs[i], to))
  }

  /** `to` keeps the type, class and RDLENGTH bytes of the record. */
  predicate KeepsFixedFields(pkt: Packet, to: Packet, rr: Record)
    ensures KeepsFixedFields(pkt, to, rr) ==> rr.rdataOff >= 10
  {
    && 10 <= rr.rdataOff
    && SameRange(pkt, to, rr.rdataOff - 10, rr.rdataOff - 6)
    && SameRange(pkt, to, rr.rdataOff - 2, rr.rdataOff)
  }

  lemma {:induction false} RereadEnd(rr: Record, to: Packet)
    requires 6 <= rr.rdataOff && rr.End() <= |to|
    ensures Reread(rr, to).End() == rr.End()
  {
  }

  /** The message read back from an edited buffer. */
  function RereadMessage(m: Message, to: Packet): Message
    requires |to| >= HEADER_SIZE
    requires forall rr :: rr in m.Records() ==> 6 <= rr.rdataOff && rr.End() <= |to|
  {
    assert forall rr :: rr in m.answers || rr in m.authority || rr in m.additional ==> rr in m.Records();
    m.(header := ParseHeader(to), answers := RereadAll(m.answers, to),
       authority := RereadAll(m.authority, to), additional := RereadAll(m.additional, to))
  }

  /** Agreeing on the name footprint is agreeing on every name. */
  lemma {:induction false} NamesAgree(pkt: Packet, to: Packet)
    requires ParseFull(pkt).Some?
    requires forall i: nat :: NameReads(pkt, i) ==> i < |pkt| && i < |to| && to[i] == pkt[i]
    ensures var m := ParseFull(pkt).value.msg;
      && (forall k :: 0 <= k < |m.Records()| ==> AgreesOnName(pkt, to, RecordStart(pkt, m.questionEnd, k), MAX_HOPS))
      && (forall k :: 0 <= k < |m.questions| ==> AgreesOnName(pkt, to, QuestionStart(pkt, HEADER_SIZE, k), MAX_HOPS))
  {
    hide ParseFull, RecordStart, QuestionStart, Reads;
    var m := ParseFull(pkt).value.msg;
    forall k | 0 <= k < |m.Records()| ensures AgreesOnName(pkt, to, RecordStart(pkt, m.questionEnd, k), MAX_HOPS) {
      forall i: nat | Reads(pkt, RecordStart(pkt, m.questionEnd, k), MAX_HOPS, i)
        ensures i < |pkt| && i < |to| && to[i] == pkt[i] {
        assert NameReads(pkt, i);
      }
    }
    forall k | 0 <= k < |m.questions| ensures AgreesOnName(pkt, to, QuestionStart(pkt, HEADER_SIZE, k), MAX_HOPS) {
      forall i: nat | Reads(pkt, QuestionStart(pkt, HEADER_SIZE, k), MAX_HOPS, i)
        ensures i < |pkt| && i < |to| && to[i] == pkt[i] {
        assert NameReads(pkt, i);
      }
    }
  }

  lemma {:induction false} SameHeader(pkt: Packet, to: Packet)
    requires |pkt| >= HEADER_SIZE && SameRange(pkt, to, 0, HEADER_SIZE)
    ensures ParseHeader(pkt) == ParseHeader(to)
  {
    hide U16At;
    SameU16(pkt, to, 0);
    SameU16(pkt, to, 2);
    SameCounts(pkt, to);
  }

  /** Every byte a name of the message is decoded from is inside the packet. */
  lemma {:induction false} NameReadsInside(pkt: Packet, i: nat)
    requires ParseFull(pkt).Some? && NameReads(pkt, i)
    ensures i < |pkt|
  {
    hide ParseFull, ParseRecords, ParseQuestions, Reads, RecordStart, QuestionStart;
    var m := ParseFull(pkt).value.msg;
    SectionsAreOneRun(pkt);
    if k :| 0 <= k < |m.questions| && Reads(pkt, QuestionStart(pkt, HEADER_SIZE, k), MAX_HOPS, i) {
      QuestionNameDecodes(pkt, HEADER_SIZE, |m.questions|, k);
      ReadsInside(pkt, QuestionStart(pkt, HEADER_SIZE, k), MAX_HOPS, i);
    } else {
      var k :| 0 <= k < |m.Records()| && Reads(pkt, RecordStart(pkt, m.questionEnd, k), MAX_HOPS, i);
      OwnerNameDecodes(pkt, m.questionEnd, |m.Records()|, k);
      ReadsInside(pkt, RecordStart(pkt, m.questionEnd, k), MAX_HOPS, i);
    }
  }

  lemma {:induction false} OwnerNameDecodes(pkt: Packet, cursor: nat, count: nat, k: nat)
    requires ParseRecords(pkt, cursor, count).Some? && k < count
    ensures DecodeName(pkt, RecordStart(pkt, cursor, k)).Some?
    decreases k
  {
    hide DecodeName, U16At, U32At;
    if k > 0 {
      OwnerNameDecodes(pkt, ParseRecord(pkt, cursor).value.End(), count - 1, k - 1);
    }
  }

  lemma {:induction false} QuestionNameDecodes(pkt: Packet, cursor: nat, count: nat, k: nat)
    requires ParseQuestions(pkt, cursor, count).Some? && k < count
    ensures DecodeName(pkt, QuestionStart(pkt, cursor, k)).Some?
    decreases k
  {
    hide DecodeName, U16At, NameEnd;
    if k > 0 {
      QuestionNameDecodes(pkt, NameEnd(pkt, cursor) + 4, count - 1, k - 1);
    }
  }

  lemma {:induction false} SameCounts(pkt: Packet, to: Packet)
    requires |pkt| >= HEADER_SIZE && SameRange(pkt, to, 4, HEADER_SIZE)
    ensures var h := ParseHeader(pkt); var k := ParseHeader(to);
      h.qdcount == k.qdcount && h.ancount == k.ancount && h.nscount == k.nscount && h.arcount == k.arcount
  {
    hide U16At;
    SameU16(pkt, to, 4);
    SameU16(pkt, to, 6);
    SameU16(pkt, to, 8);
    SameU16(pkt, to, 10);
  }

  /** A message put together from its parts: header, questions, and one run of records. */
  lemma {:induction false} Assemble(pkt: Packet, qs: seq<Question>, questionEnd: nat, an: seq<Record>, ns: seq<Record>,
                                    ar: seq<Record>, end: nat)
    requires |pkt| >= HEADER_SIZE
    requires var h := ParseHeader(pkt); h.qdcount == |qs| && h.ancount == |an| && h.nscount == |ns| && h.arcount == |ar|
    requires ParseQuestions(pkt, HEADER_SIZE, |qs|) == Some(Run(qs, questionEnd))
    requires ParseRecords(pkt, questionEnd, |an| + |ns| + |ar|) == Some(Run(an + ns + ar, end))
    ensures ParseFull(pkt) == Some(Parsed(Message(ParseHeader(pkt), qs, an, ns, ar, questionEnd), end))
  {
    hide ParseHeader, ParseRecords, ParseQuestions;
    SplitItems(pkt, questionEnd, |an|, |ns|, |ar|, an, ns, ar, end);
  }

  /** A run of records cut into three consecutive sections. */
  lemma {:induction false} SplitItems(pkt: Packet, cursor: nat, a: nat, b: nat, c: nat, xs: seq<Record>,
                                      ys: seq<Record>, zs: seq<Record>, end: nat)
    requires ParseRecords(pkt, cursor, a + b + c) == Some(Run(xs + ys + zs, end))
    requires |xs| == a && |ys| == b && |zs| == c
    ensures ParseRecords(pkt, cursor, a).Some?
    ensures var first := ParseRecords(pkt, cursor, a).value;
      && first.items == xs
      && ParseRecords(pkt, first.next, b).Some?
      && var second := ParseRecords(pkt, first.next, b).value;
         && second.items == ys
         && ParseRecords(pkt, second.next, c) == Some(Run(zs, end))
  {
    hide ParseRecords;
    ParseRecordsSplit(pkt, cursor, a, b);
    ParseRecordsSplit(pkt, cursor, a + b, c);
    var first := ParseRecords(pkt, cursor, a).value;
    var second := ParseRecords(pkt, first.next, b).value;
    var third := ParseRecords(pkt, second.next, c).value;
    var all := xs + ys + zs;
    assert all == first.items + second.items + third.items;
    assert xs == all[..a] && first.items == (first.items + second.items + third.items)[..a];
    assert ys == all[a..a + b] && second.items == (first.items + second.items + third.items)[a..a + b];
    assert zs == all[a + b..] && third.items == (first.items + second.items + third.items)[a + b..];
  }
}
