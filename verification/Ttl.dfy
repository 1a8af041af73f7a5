/** TTL fields of an encoded response: collecting, rewriting and choosing them (src/cache.cpp). */
module Ttl {
  import opened Wire
  import opened Names
  import opened Parser
  import opened Edits
  import opened Samples

  // ----- collect_ttl_offsets -----

  /** The TTL field of every record except EDNS OPT, whose "TTL" is flags (section 6.1.3 of RFC 6891). */
  function TtlOffsets(records: seq<Record>): seq<nat> {
    if records == [] then []
    else
      var rest := TtlOffsets(records[1..]);
      if records[0].rtype == TYPE_OPT then rest else [TtlOffset(records[0])] + rest
  }

  /** RDLENGTH (2) and TTL (4) back from RDATA; a parsed record always has those bytes. */
  function TtlOffset(rr: Record): nat {
    if rr.rdataOff >= 6 then rr.rdataOff - 6 else 0
  }

  lemma {:induction false} TtlOffsetsConcat(a: seq<Record>, b: seq<Record>)
    ensures TtlOffsets(a + b) == TtlOffsets(a) + TtlOffsets(b)
  {
    if a == [] {
      assert a + b == b;
    } else {
      assert (a + b)[1..] == a[1..] + b;
      assert (a + b)[0] == a[0];
      TtlOffsetsConcat(a[1..], b);
      var rest := TtlOffsets(a[1..]) + TtlOffsets(b);
      assert [TtlOffset(a[0])] + rest == [TtlOffset(a[0])] + TtlOffsets(a[1..]) + TtlOffsets(b);
    }
  }

  method CollectSection(section: seq<Record>, before: seq<nat>) returns (out: seq<nat>)
    ensures out == before + TtlOffsets(section)
  {
    out := before;
    for i := 0 to |section|
      invariant out + TtlOffsets(section[i..]) == before + TtlOffsets(section)
    {
      assert section[i..][1..] == section[i + 1..];
      if section[i].rtype == TYPE_OPT { continue; }
      out := out + [TtlOffset(section[i])];
    }
  }

  method CollectTtlOffsets(m: Message) returns (out: seq<nat>)
    ensures out == TtlOffsets(m.Records())
  {
    out := CollectSection(m.answers, []);
    out := CollectSection(m.authority, out);
    out := CollectSection(m.additional, out);
    TtlOffsetsConcat(m.answers, m.authority);
    TtlOffsetsConcat(m.answers + m.authority, m.additional);
  }

  // ----- rewrite_ttls -----

  /** Writing one TTL; an offset that does not fit is skipped. */
  function Put(p: Packet, off: nat, ttl: U32): (r: Packet)
    ensures |r| == |p|
  {
    if off + 4 > |p| then p else Patch(p, off, U32Bytes(ttl))
  }

  function Rewritten(p: Packet, offs: seq<nat>, ttl: U32): (r: Packet)
    ensures |r| == |p|
    decreases |offs|
  {
    if offs == [] then p else Rewritten(Put(p, offs[0], ttl), offs[1..], ttl)
  }

  /** `rewrite_ttls` works in place on the buffer. */
  method RewriteTtls(buf: array<Byte>, offs: seq<nat>, ttl: U32)
    modifies buf
    ensures buf[..] == Rewritten(old(buf[..]), offs, ttl)
  {
    var b := U32Bytes(ttl);
    for k := 0 to |offs|
      invariant Rewritten(buf[..], offs[k..], ttl) == Rewritten(old(buf[..]), offs, ttl)
    {
      var off := offs[k];
      assert offs[k..][1..] == offs[k + 1..];
      if off + 4 > buf.Length { continue; }
      ghost var before := buf[..];
      buf[off] := b[0];
      buf[off + 1] := b[1];
      buf[off + 2] := b[2];
      buf[off + 3] := b[3];
      assert buf[..] == Put(before, off, ttl);
    }
  }

  lemma {:induction false} RewrittenElsewhere(p: Packet, offs: seq<nat>, ttl: U32, i: nat)
    requires i < |p|
    requires forall off :: off in offs ==> !(off <= i < off + 4)
    ensures Rewritten(p, offs, ttl)[i] == p[i]
    decreases |offs|
  {
    if offs != [] {
      assert forall off :: off in offs[1..] ==> off in offs;
      assert offs[0] in offs;
      RewrittenElsewhere(Put(p, offs[0], ttl), offs[1..], ttl, i);
    }
  }

  /** Fields that do not overlap and are in packet order. */
  ghost predicate Apart(offs: seq<nat>, hi: nat) {
    && (forall a :: 0 <= a < |offs| ==> offs[a] + 4 <= hi)
    && (forall a, b :: 0 <= a < b < |offs| ==> offs[a] + 4 <= offs[b])
  }

  lemma {:induction false} RewrittenField(p: Packet, offs: seq<nat>, ttl: U32, k: nat)
    requires k < |offs| && Apart(offs, |p|)
    ensures U32At(Rewritten(p, offs, ttl), offs[k]) == ttl
    decreases |offs|
  {
    hide U32At, U32Bytes;
    var off := offs[k];
    var rest := offs[1..];
    var q := Put(p, offs[0], ttl);
    if k > 0 {
      assert rest[k - 1] == off;
      RewrittenField(q, rest, ttl, k - 1);
    } else {
      forall i | off <= i < off + 4 ensures Rewritten(q, rest, ttl)[i] == U32Bytes(ttl)[i - off] {
        RewrittenElsewhere(q, rest, ttl, i);
      }
      SameU32(Rewritten(q, rest, ttl), off, U32Bytes(ttl));
    }
  }

  lemma {:induction false} SameU32(p: Packet, off: nat, b: Packet)
    requires off + 4 <= |p| && |b| == 4 && forall i :: off <= i < off + 4 ==> p[i] == b[i - off]
    ensures U32At(p, off) == U32At(b, 0)
  {
    assert p[off] == b[0] && p[off + 1] == b[1] && p[off + 2] == b[2] && p[off + 3] == b[3];
  }

  // ----- where the fields are -----

  lemma {:induction false} TtlOffsetsOf(records: seq<Record>, off: nat)
    ensures off in TtlOffsets(records) <==>
      exists k :: 0 <= k < |records| && records[k].rtype != TYPE_OPT && off == TtlOffset(records[k])
  {
    if records != [] {
      var rest := records[1..];
      TtlOffsetsOf(rest, off);
      if k :| 0 <= k < |rest| && rest[k].rtype != TYPE_OPT && off == TtlOffset(rest[k]) {
        assert records[k + 1] == rest[k];
      }
      if k :| 0 <= k < |records| && records[k].rtype != TYPE_OPT && off == TtlOffset(records[k]) {
        assert k > 0 ==> rest[k - 1] == records[k];
      }
    }
  }

  lemma {:induction false} TtlOffsetsApart(records: seq<Record>, lo: nat, hi: nat)
    requires Laid(records, lo, hi)
    ensures Apart(TtlOffsets(records), hi)
    ensures forall a :: 0 <= a < |TtlOffsets(records)| ==> lo + 5 <= TtlOffsets(records)[a]
  {
    if records != [] {
      TtlOffsetsApart(records[1..], records[0].End(), hi);
    }
  }

  /** A TTL field is before the record and its owner name, after it, or the record's own. */
  lemma {:induction false} FieldsAndRecord(records: seq<Record>, lo: nat, hi: nat, j: nat)
    requires Laid(records, lo, hi) && j < |records|
    ensures forall off :: off in TtlOffsets(records) ==>
      || off + 4 <= (if j == 0 then lo else records[j - 1].End()) <= records[j].rdataOff - 11
      || records[j].End() <= off
      || (off == records[j].rdataOff - 6 && records[j].rtype != TYPE_OPT)
  {
    hide TtlOffsets;
    forall off | off in TtlOffsets(records) ensures
      || off + 4 <= (if j == 0 then lo else records[j - 1].End()) <= records[j].rdataOff - 11
      || records[j].End() <= off
      || (off == records[j].rdataOff - 6 && records[j].rtype != TYPE_OPT)
    {
      TtlOffsetsOf(records, off);
      var k :| 0 <= k < |records| && records[k].rtype != TYPE_OPT && off == TtlOffset(records[k]);
      assert k + 1 < j ==> records[k].End() + 11 <= records[j - 1].rdataOff;
      assert j < k ==> records[j].End() + 11 <= records[k].rdataOff;
    }
  }

  /** Where the collected TTL fields are, for every packet that parses: after the header and the
      questions, inside the packet, in order and disjoint, and clear of every RDATA and of every OPT
      record. So the bounds test in the rewriting loop never skips one. */
  lemma {:induction false} TtlFieldsAreClear(pkt: Packet)
    requires ParseFull(pkt).Some?
    ensures var p := ParseFull(pkt).value; var m := p.msg; var offs := TtlOffsets(m.Records());
      && Apart(offs, p.end) && p.end <= |pkt|
      && (forall off :: off in offs ==> HEADER_SIZE <= m.questionEnd < off)
      && (forall off, j :: off in offs && 0 <= j < |m.Records()| ==> var rr := m.Records()[j];
            && (off + 4 <= rr.rdataOff || rr.End() <= off)
            && (rr.rtype == TYPE_OPT ==> off + 4 <= RecordStart(pkt, m.questionEnd, j) || rr.End() <= off))
  {
    hide ParseFull, ParseRecords, RecordStart, TtlOffsets;
    var p := ParseFull(pkt).value;
    var records := p.msg.Records();
    MessageIsLaid(pkt);
    SectionsAreOneRun(pkt);
    TtlOffsetsApart(records, p.msg.questionEnd, p.end);
    forall off, j | off in TtlOffsets(records) && 0 <= j < |records|
      ensures off + 4 <= records[j].rdataOff || records[j].End() <= off
      ensures records[j].rtype == TYPE_OPT ==>
        off + 4 <= RecordStart(pkt, p.msg.questionEnd, j) || records[j].End() <= off
    {
      FieldsAndRecord(records, p.msg.questionEnd, p.end, j);
      RecordStartIs(pkt, p.msg.questionEnd, |records|, j);
    }
  }

  // ----- rewriting commutes with parsing -----

  function SetTtl(rr: Record, ttl: U32): Record {
    if rr.rtype == TYPE_OPT then rr else rr.(ttl := ttl)
  }

  function SetTtls(rs: seq<Record>, ttl: U32): (r: seq<Record>)
    ensures |r| == |rs| && forall i :: 0 <= i < |rs| ==> r[i] == SetTtl(rs[i], ttl)
  {
    seq(|rs|, i requires 0 <= i < |rs| => SetTtl(rs[i], ttl))
  }

  /** The message with every TTL but those of OPT records replaced. */
  function WithTtl(m: Message, ttl: U32): Message {
    m.(answers := SetTtls(m.answers, ttl), authority := SetTtls(m.authority, ttl),
       additional := SetTtls(m.additional, ttl))
  }

  /** No name of the message is decoded from a byte of a TTL field. */
  ghost predicate TtlClearOfNames(pkt: Packet)
    requires ParseFull(pkt).Some?
  {
    forall off, i: nat ::
      off in TtlOffsets(ParseFull(pkt).value.msg.Records()) && off <= i < off + 4 ==> !NameReads(pkt, i)
  }

  /** A parsed record holds what its packet holds. */
  lemma {:induction false} RecordsAreHonest(pkt: Packet, cursor: nat, count: nat)
    requires ParseRecords(pkt, cursor, count).Some?
    ensures forall rr :: rr in ParseRecords(pkt, cursor, count).value.items ==>
      rr.rdataOff >= 6 && rr.End() <= |pkt| && Reread(rr, pkt) == rr
    decreases count
  {
    hide DecodeName, U16At, U32At;
    if count > 0 {
      RecordsAreHonest(pkt, ParseRecord(pkt, cursor).value.End(), count - 1);
    }
  }

  /** Bytes outside the TTL fields are kept by the rewriting. */
  lemma {:induction false} RewrittenKeeps(pkt: Packet, offs: seq<nat>, ttl: U32, lo: nat, hi: nat)
    requires lo <= hi <= |pkt|
    requires forall off :: off in offs ==> off + 4 <= lo || hi <= off
    ensures SameRange(pkt, Rewritten(pkt, offs, ttl), lo, hi)
  {
    forall i | lo <= i < hi ensures pkt[i] == Rewritten(pkt, offs, ttl)[i] {
      RewrittenElsewhere(pkt, offs, ttl, i);
    }
  }

  /** The rewriting leaves header, questions, types, classes and RDLENGTHs. */
  lemma {:induction false} RewrittenKeepsFields(pkt: Packet, ttl: U32)
    requires ParseFull(pkt).Some?
    ensures KeepsFields(pkt, Rewritten(pkt, TtlOffsets(ParseFull(pkt).value.msg.Records()), ttl))
  {
    hide ParseFull, TtlOffsets, Rewritten;
    var m := ParseFull(pkt).value.msg;
    var records := m.Records();
    var offs := TtlOffsets(records);
    var to := Rewritten(pkt, offs, ttl);
    MessageIsLaid(pkt);
    TtlFieldsAreClear(pkt);
    RewrittenKeeps(pkt, offs, ttl, 4, HEADER_SIZE);
    RewrittenKeeps(pkt, offs, ttl, HEADER_SIZE, m.questionEnd);
    forall rr | rr in records ensures KeepsFixedFields(pkt, to, rr) {
      var j :| 0 <= j < |records| && records[j] == rr;
      FieldsAndRecord(records, m.questionEnd, ParseFull(pkt).value.end, j);
      RewrittenKeeps(pkt, offs, ttl, rr.rdataOff - 10, rr.rdataOff - 6);
      RewrittenKeeps(pkt, offs, ttl, rr.rdataOff - 2, rr.rdataOff);
    }
  }

  /** No name of the message is decoded from a byte of a TTL field: nothing a name is read from is rewritten. */
  lemma {:induction false} RewrittenKeepsNames(pkt: Packet, ttl: U32)
    requires ParseFull(pkt).Some? && TtlClearOfNames(pkt)
    ensures KeepsNames(pkt, Rewritten(pkt, TtlOffsets(ParseFull(pkt).value.msg.Records()), ttl))
  {
    hide ParseFull, TtlOffsets, Rewritten, NameReads;
    var offs := TtlOffsets(ParseFull(pkt).value.msg.Records());
    forall i: nat | NameReads(pkt, i) ensures i < |pkt| && Rewritten(pkt, offs, ttl)[i] == pkt[i] {
      NameReadsInside(pkt, i);
      RewrittenElsewhere(pkt, offs, ttl, i);
    }
  }

  lemma {:induction false} SameU32Range(p: Packet, q: Packet, off: nat)
    requires SameRange(p, q, off, off + 4)
    ensures U32At(p, off) == U32At(q, off)
  {
  }

  /** The record re-read after the rewriting: its TTL field ... */
  lemma {:induction false} RewrittenTtl(pkt: Packet, records: seq<Record>, lo: nat, ttl: U32, j: nat)
    requires Laid(records, lo, |pkt|) && j < |records|
    ensures records[j].rdataOff >= 6
    ensures var at := records[j].rdataOff - 6; var to := Rewritten(pkt, TtlOffsets(records), ttl);
      U32At(to, at) == if records[j].rtype == TYPE_OPT then U32At(pkt, at) else ttl
  {
    hide TtlOffsets, Rewritten, U32At;
    var offs := TtlOffsets(records);
    var at := records[j].rdataOff - 6;
    if records[j].rtype == TYPE_OPT {
      FieldsAndRecord(records, lo, |pkt|, j);
      RewrittenKeeps(pkt, offs, ttl, at, at + 4);
      SameU32Range(pkt, Rewritten(pkt, offs, ttl), at);
    } else {
      TtlOffsetsOf(records, at);
      TtlOffsetsApart(records, lo, |pkt|);
      var k :| 0 <= k < |offs| && offs[k] == at;
      RewrittenField(pkt, offs, ttl, k);
    }
  }

  /** ... and all of it. */
  lemma {:induction false} RewrittenRecord(pkt: Packet, records: seq<Record>, lo: nat, ttl: U32, j: nat)
    requires Laid(records, lo, |pkt|) && j < |records|
    requires records[j].rdataOff >= 6 && Reread(records[j], pkt) == records[j]
    ensures Reread(records[j], Rewritten(pkt, TtlOffsets(records), ttl)) == SetTtl(records[j], ttl)
  {
    hide TtlOffsets, Rewritten, U32At;
    var offs := TtlOffsets(records);
    var to := Rewritten(pkt, offs, ttl);
    var rr := records[j];
    FieldsAndRecord(records, lo, |pkt|, j);
    RewrittenKeeps(pkt, offs, ttl, rr.rdataOff, rr.End());
    assert to[rr.rdataOff..rr.End()] == pkt[rr.rdataOff..rr.End()];
    RewrittenTtl(pkt, records, lo, ttl, j);
  }

  /** Rewriting TTLs commutes with parsing exactly if every name is the same where it stands: the rewritten
      response then parses to the same message with every TTL but those of OPT records replaced. */
  lemma {:induction false} TtlRewriteExactly(pkt: Packet, ttl: U32)
    requires ParseFull(pkt).Some?
    ensures var p := ParseFull(pkt).value; var to := Rewritten(pkt, TtlOffsets(p.msg.Records()), ttl);
      ParseFull(to) == Some(Parsed(WithTtl(p.msg, ttl), p.end)) <==> NamesStand(pkt, to)
  {
    hide ParseFull, TtlOffsets, Rewritten, KeepsFields, NamesStand, ParseHeader, Reread, SetTtl;
    var m := ParseFull(pkt).value.msg;
    var to := Rewritten(pkt, TtlOffsets(m.Records()), ttl);
    RewrittenKeepsFields(pkt, ttl);
    EditsCommuteExactly(pkt, to);
    RewrittenHeader(pkt, ttl);
    RewrittenRecords(pkt, ttl);
    RereadIsWithTtl(m, to, ttl);
  }

  /** In particular if no name is decoded from a TTL byte. */
  lemma {:induction false} TtlRewriteCommutes(pkt: Packet, ttl: U32)
    requires ParseFull(pkt).Some?
    requires TtlClearOfNames(pkt)
    ensures var p := ParseFull(pkt).value;
      ParseFull(Rewritten(pkt, TtlOffsets(p.msg.Records()), ttl)) == Some(Parsed(WithTtl(p.msg, ttl), p.end))
  {
    hide ParseFull, TtlOffsets, Rewritten, NamesStand, TtlClearOfNames, WithTtl, NameReads;
    RewrittenKeepsNames(pkt, ttl);
    FootprintStands(pkt, Rewritten(pkt, TtlOffsets(ParseFull(pkt).value.msg.Records()), ttl));
    TtlRewriteExactly(pkt, ttl);
  }

  lemma {:induction false} RewrittenRecords(pkt: Packet, ttl: U32)
    requires ParseFull(pkt).Some?
    ensures var m := ParseFull(pkt).value.msg; var to := Rewritten(pkt, TtlOffsets(m.Records()), ttl);
      && |to| >= HEADER_SIZE
      && forall rr :: rr in m.Records() ==> 6 <= rr.rdataOff && rr.End() <= |to| && Reread(rr, to) == SetTtl(rr, ttl)
  {
    hide ParseFull, TtlOffsets, Rewritten, Reread, SetTtl, ParseRecords;
    var m := ParseFull(pkt).value.msg;
    var records := m.Records();
    MessageIsLaid(pkt);
    SectionsAreOneRun(pkt);
    RecordsAreHonest(pkt, m.questionEnd, |records|);
    forall rr | rr in records
      ensures 6 <= rr.rdataOff && rr.End() <= |pkt|
        && Reread(rr, Rewritten(pkt, TtlOffsets(records), ttl)) == SetTtl(rr, ttl)
    {
      var j :| 0 <= j < |records| && records[j] == rr;
      RewrittenRecord(pkt, records, m.questionEnd, ttl, j);
    }
  }

  lemma {:induction false} RereadIsWithTtl(m: Message, to: Packet, ttl: U32)
    requires |to| >= HEADER_SIZE && ParseHeader(to) == m.header
    requires forall rr ::
      rr in m.Records() ==> 6 <= rr.rdataOff && rr.End() <= |to| && Reread(rr, to) == SetTtl(rr, ttl)
    ensures RereadMessage(m, to) == WithTtl(m, ttl)
  {
    hide ParseHeader, Reread, SetTtl;
    assert forall rr :: rr in m.answers || rr in m.authority || rr in m.additional ==> rr in m.Records();
    assert RereadAll(m.answers, to) == SetTtls(m.answers, ttl);
    assert RereadAll(m.authority, to) == SetTtls(m.authority, ttl);
    assert RereadAll(m.additional, to) == SetTtls(m.additional, ttl);
  }

  lemma {:induction false} RewrittenHeader(pkt: Packet, ttl: U32)
    requires ParseFull(pkt).Some?
    ensures var m := ParseFull(pkt).value.msg;
      ParseHeader(Rewritten(pkt, TtlOffsets(m.Records()), ttl)) == m.header
  {
    hide TtlOffsets, Rewritten, ParseRecords, ParseQuestions, RecordStart;
    var m := ParseFull(pkt).value.msg;
    TtlFieldsAreClear(pkt);
    RewrittenKeeps(pkt, TtlOffsets(m.Records()), ttl, 0, HEADER_SIZE);
    SameHeader(pkt, Rewritten(pkt, TtlOffsets(m.Records()), ttl));
  }

  /** A response to the question for q whose one answer is owned by a pointer to the last byte of its own TTL. */
  function Trap(ttl: U32): Packet { Head(true, 1) + Answer(28, 1, ttl, [127, 0, 0, 1]) }

  function TrapRecord(): Record { Record([], TYPE_A, 1, 256, 31, [127, 0, 0, 1]) }

  lemma {:induction false} TrapByte(ttl: U32)
    ensures |Trap(ttl)| == 35 && Trap(ttl)[28] == ttl % 0x100 && Trap(ttl)[25..29] == U32Bytes(ttl)
  {
    hide Head, Answer;
    var a := Answer(28, 1, ttl, [127, 0, 0, 1]);
    AnswerBytes(28, 1, ttl, [127, 0, 0, 1]);
    assert Trap(ttl)[25..29] == a[6..10];
    assert Trap(ttl)[28] == a[9] == a[6..10][3];
  }

  lemma {:induction false} TrapParses()
    ensures ParseFull(Trap(256)).Some? && ParseFull(Trap(256)).value.msg.Records() == [TrapRecord()]
    ensures ParseFull(Trap(256)).value.msg.questions == [SampleQuestion()]
  {
    hide ParseFull, ParseRecord, Head, Answer, Labels;
    var pkt := Trap(256);
    TrapByte(256);
    OtherStep(pkt, 28, MAX_HOPS - 1);
    JoinNothing();
    AnswerParses(Head(true, 1), 28, 1, 256, [127, 0, 0, 1], []);
    assert Head(true, 1) + Answer(28, 1, 256, [127, 0, 0, 1]) + [] == pkt;
    NoRecords(pkt, 35);
    assert [TrapRecord()] + [] == [TrapRecord()];
    SampleParses(true, 1, Answer(28, 1, 256, [127, 0, 0, 1]), [TrapRecord()], 35);
  }

  lemma {:induction false} TrapBroken()
    ensures ParseFull(Trap(255)).None?
  {
    hide ParseFull, ParseRecord, Head, Answer, Labels;
    var pkt := Trap(255);
    TrapByte(255);
    OtherStep(pkt, 28, MAX_HOPS - 1);
    AnswerParses(Head(true, 1), 28, 1, 255, [127, 0, 0, 1], []);
    assert Head(true, 1) + Answer(28, 1, 255, [127, 0, 0, 1]) + [] == pkt;
    SampleBroken(true, 1, Answer(28, 1, 255, [127, 0, 0, 1]));
  }

  /** Rewriting the TTL of a response with one answer. */
  lemma {:induction false} SampleRewritten(owner: Byte, rtype: Byte, ttl: U32, rdata: Packet, served: U32)
    requires |rdata| < 0x100
    ensures Rewritten(Head(true, 1) + Answer(owner, rtype, ttl, rdata), [25], served)
         == Head(true, 1) + Answer(owner, rtype, served, rdata)
  {
    hide Head, Answer, U32Bytes;
    var a, b := Answer(owner, rtype, ttl, rdata), Answer(owner, rtype, served, rdata);
    AnswerBytes(owner, rtype, ttl, rdata);
    AnswerBytes(owner, rtype, served, rdata);
    var from, to := Head(true, 1) + a, Head(true, 1) + b;
    assert a[..6] == b[..6] && a[10..] == b[10..];
    assert from[..25] == Head(true, 1) + a[..6] && to[..25] == Head(true, 1) + b[..6];
    assert from[29..] == a[10..] && to[29..] == b[10..];
    assert to == to[..25] + U32Bytes(served) + to[29..];
    assert Put(from, 25, served) == to;
  }

  /** The hypothesis is needed: serving the trap one second later turns it into something that does not
      parse. */
  lemma {:induction false} RewriteCanBreakName()
    ensures ParseFull(Trap(256)).Some?
    ensures ParseFull(Rewritten(Trap(256), TtlOffsets(ParseFull(Trap(256)).value.msg.Records()), 255)).None?
  {
    hide ParseFull, Head, Answer, Rewritten;
    TrapParses();
    assert TtlOffsets([TrapRecord()]) == [25];
    SampleRewritten(28, 1, 256, [127, 0, 0, 1], 255);
    TrapBroken();
  }

  // ----- compute_cache_ttl -----

  const NEGATIVE_CEILING: U32 := 86400
  const U32_MAX: U32 := 0xFFFF_FFFF

  /** MINIMUM, the last four bytes of SOA RDATA. */
  function SoaMinimum(soa: Record): Option<U32> {
    if |soa.rdata| < 4 then None else Some(U32At(soa.rdata, |soa.rdata| - 4))
  }

  predicate IsNegative(m: Message) {
    m.header.rcode == RCODE_NXDOMAIN || (m.answers == [] && m.authority != [])
  }

  /** Index of the first SOA record, or the length of the section. */
  function FirstSoa(rs: seq<Record>): (k: nat)
    ensures k <= |rs|
    ensures forall j :: 0 <= j < k ==> rs[j].rtype != TYPE_SOA
    ensures k < |rs| ==> rs[k].rtype == TYPE_SOA
  {
    if rs == [] || rs[0].rtype == TYPE_SOA then 0 else 1 + FirstSoa(rs[1..])
  }

  /** The lifetimes that limit how long a response may be kept: every answer and authority TTL, and for
      a negative one the zone's MINIMUM and a day (sections 3 and 5 of RFC 2308). */
  ghost predicate IsLimit(m: Message, b: U32) {
    || (exists rr :: rr in m.answers + m.authority && rr.rtype != 41 && rr.ttl == b)
    || (IsNegative(m) && b == 86400)
    || (IsNegative(m) && FirstSoa(m.authority) < |m.authority|
          && SoaMinimum(m.authority[FirstSoa(m.authority)]) == Some(b))
  }

  /** Responses that may be kept at all: not a server failure, and with some record to take a TTL from. */
  ghost predicate HasLifetime(m: Message) {
    && m.header.rcode != 2 && m.header.rcode != 4
    && exists rr :: rr in m.answers + m.authority && rr.rtype != 41
  }

  /** The least TTL of a section below a starting value. */
  function LeastTtl(rs: seq<Record>, start: U32): U32
    decreases |rs|
  {
    if rs == [] then start
    else LeastTtl(rs[1..], if rs[0].rtype == TYPE_OPT || start <= rs[0].ttl then start else rs[0].ttl)
  }

  predicate AnyCounted(rs: seq<Record>) {
    exists i :: 0 <= i < |rs| && rs[i].rtype != TYPE_OPT
  }

  function Min(a: U32, b: U32): U32 { if a <= b then a else b }

  /** The lifetime given to a response; 0 means it is not kept. */
  function CacheTtl(m: Message): U32 {
    if m.header.rcode == RCODE_SERVFAIL || m.header.rcode == RCODE_NOTIMP then 0
    else if !AnyCounted(m.answers) && !AnyCounted(m.authority) then 0
    else
      var least := LeastTtl(m.authority, LeastTtl(m.answers, U32_MAX));
      if !IsNegative(m) then least
      else
        var k := FirstSoa(m.authority);
        var capped := if k < |m.authority| && SoaMinimum(m.authority[k]).Some?
                      then Min(least, SoaMinimum(m.authority[k]).value) else least;
        Min(capped, NEGATIVE_CEILING)
  }

  method ScanTtls(section: seq<Record>, ttl: U32, seen: bool) returns (least: U32, any: bool)
    ensures least == LeastTtl(section, ttl)
    ensures any == (seen || AnyCounted(section))
  {
    least, any := ttl, seen;
    for i := 0 to |section|
      invariant LeastTtl(section[i..], least) == LeastTtl(section, ttl)
      invariant any == (seen || exists j :: 0 <= j < i && section[j].rtype != TYPE_OPT)
    {
      assert section[i..][1..] == section[i + 1..];
      if section[i].rtype == TYPE_OPT { continue; }
      least := if section[i].ttl < least then section[i].ttl else least;
      any := true;
    }
  }

  method ComputeCacheTtl(m: Message) returns (ttl: U32)
    ensures ttl == CacheTtl(m)
  {
    if m.header.rcode == RCODE_SERVFAIL || m.header.rcode == RCODE_NOTIMP { return 0; }
    var least, any := ScanTtls(m.answers, U32_MAX, false);
    least, any := ScanTtls(m.authority, least, any);
    if !any { return 0; }
    if least == 0 {
      return 0;
    }
    if IsNegative(m) {
      var i := 0;
      while i < |m.authority| && m.authority[i].rtype != TYPE_SOA
        invariant 0 <= i <= FirstSoa(m.authority)
      {
        i := i + 1;
      }
      if i < |m.authority| && SoaMinimum(m.authority[i]).Some? {
        least := Min(least, SoaMinimum(m.authority[i]).value);
      }
      least := Min(least, NEGATIVE_CEILING);
    }
    return least;
  }

  lemma {:induction false} LeastTtlIsLeast(rs: seq<Record>, start: U32)
    ensures LeastTtl(rs, start) <= start
    ensures forall i :: 0 <= i < |rs| && rs[i].rtype != TYPE_OPT ==> LeastTtl(rs, start) <= rs[i].ttl
    ensures
      || LeastTtl(rs, start) == start
      || exists i :: 0 <= i < |rs| && rs[i].rtype != TYPE_OPT && rs[i].ttl == LeastTtl(rs, start)
    decreases |rs|
  {
    if rs != [] {
      var rest, next := rs[1..], if rs[0].rtype == TYPE_OPT || start <= rs[0].ttl then start else rs[0].ttl;
      LeastTtlIsLeast(rest, next);
      assert forall i :: 1 <= i < |rs| ==> rs[i] == rest[i - 1];
      if i :| 0 <= i < |rest| && rest[i].rtype != TYPE_OPT && rest[i].ttl == LeastTtl(rest, next) {
        assert rs[i + 1] == rest[i];
      }
    }
  }

  /** The two sections scanned one after the other. */
  lemma {:induction false} LeastOfBoth(m: Message)
    ensures var both := m.answers + m.authority; var least := LeastTtl(m.authority, LeastTtl(m.answers, U32_MAX));
      && (AnyCounted(m.answers) || AnyCounted(m.authority) <==> exists rr :: rr in both && rr.rtype != TYPE_OPT)
      && (forall rr :: rr in both && rr.rtype != TYPE_OPT ==> least <= rr.ttl)
      && (AnyCounted(m.answers) || AnyCounted(m.authority) ==>
            exists rr :: rr in both && rr.rtype != TYPE_OPT && rr.ttl == least)
  {
    hide LeastTtl;
    var mid := LeastTtl(m.answers, U32_MAX);
    LeastTtlIsLeast(m.answers, U32_MAX);
    LeastTtlIsLeast(m.authority, mid);
    var both := m.answers + m.authority;
    if rr :| rr in both && rr.rtype != TYPE_OPT {
      assert rr in m.answers || rr in m.authority;
    }
  }

  /** The chosen lifetime is exactly the least limit: no record, no MINIMUM and no ceiling is outlived,
      and nothing else shortens it. A response without a lifetime is not kept. */
  lemma {:induction false} CacheTtlIsLeastLimit(m: Message)
    ensures !HasLifetime(m) ==> CacheTtl(m) == 0
    ensures HasLifetime(m) ==> IsLimit(m, CacheTtl(m)) && forall b: U32 :: IsLimit(m, b) ==> CacheTtl(m) <= b
  {
    hide LeastTtl, AnyCounted, FirstSoa, SoaMinimum, IsNegative;
    LeastOfBoth(m);
  }

  // ----- negative answers -----

  /** SOA RDATA (section 3.3.13 of RFC 1035): two names and five numbers. */
  function SoaRdata(mname: Packet, rname: Packet, serial: U32, refresh: U32, retry: U32, expire: U32, minimum: U32):
    Packet
  {
    mname + rname + U32Bytes(serial) + U32Bytes(refresh) + U32Bytes(retry) + U32Bytes(expire) + U32Bytes(minimum)
  }

  lemma {:induction false} MinimumIsRead(soa: Record, mname: Packet, rname: Packet, serial: U32, refresh: U32,
                                         retry: U32, expire: U32, minimum: U32)
    requires soa.rdata == SoaRdata(mname, rname, serial, refresh, retry, expire, minimum)
    ensures SoaMinimum(soa) == Some(minimum)
  {
    hide U32Bytes, U32At;
    var n := |soa.rdata| - 4;
    assert soa.rdata[n..n + 4] == U32Bytes(minimum);
    SameU32(soa.rdata, n, U32Bytes(minimum));
  }

  /** NXDOMAIN, or nothing but authority records. */
  ghost predicate SaysNo(m: Message) { m.header.rcode == 3 || (m.answers == [] && m.authority != []) }

  ghost predicate IsItsTtl(m: Message, b: U32) {
    exists rr :: rr in m.answers + m.authority && rr.rtype != 41 && rr.ttl == b
  }

  /** The limits of an answer that says no and whose first SOA record is this one: the TTLs, the last number of the
      SOA record, and a day. An answer that says yes has no limits but its TTLs. */
  lemma {:induction false} LimitsAre(m: Message, k: nat, mname: Packet, rname: Packet, serial: U32, refresh: U32,
                                     retry: U32, expire: U32, minimum: U32, b: U32)
    ensures !SaysNo(m) ==> (IsLimit(m, b) <==> IsItsTtl(m, b))
    ensures
      && SaysNo(m) && k < |m.authority| && m.authority[k].rtype == 6
      && (forall j :: 0 <= j < k ==> m.authority[j].rtype != 6)
      && m.authority[k].rdata == SoaRdata(mname, rname, serial, refresh, retry, expire, minimum)
      ==> (IsLimit(m, b) <==> IsItsTtl(m, b) || b == minimum || b == 86400)
    ensures SaysNo(m) && (forall rr :: rr in m.authority ==> rr.rtype != 6) ==>
      (IsLimit(m, b) <==> IsItsTtl(m, b) || b == 86400)
  {
    hide FirstSoa, SoaMinimum, SoaRdata;
    var f := FirstSoa(m.authority);
    if f < |m.authority| { assert m.authority[f] in m.authority; }
    if k < |m.authority| && m.authority[k].rdata == SoaRdata(mname, rname, serial, refresh, retry, expire, minimum) {
      MinimumIsRead(m.authority[k], mname, rname, serial, refresh, retry, expire, minimum);
    }
  }
}
