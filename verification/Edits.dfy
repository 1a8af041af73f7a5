/** Exactly which edits of an encoded message leave its parse alone: src/dns_parser.cpp read backwards. */
module Edits {
  import opened Wire
  import opened Names
  import opened Parser

  /** The name at `cursor` is the same in both packets and ends at the same place. */
  predicate NameStands(pkt: Packet, to: Packet, cursor: nat) { DecodeName(to, cursor) == DecodeName(pkt, cursor) }

  ghost predicate OwnersStand(pkt: Packet, to: Packet, cursor: nat, count: nat) {
    forall k: nat :: k < count ==> NameStands(pkt, to, RecordStart(pkt, cursor, k))
  }

  ghost predicate AskedStand(pkt: Packet, to: Packet, cursor: nat, count: nat) {
    forall k: nat :: k < count ==> NameStands(pkt, to, QuestionStart(pkt, cursor, k))
  }

  /** Every name of the message is the same where it stands. */
  ghost predicate NamesStand(pkt: Packet, to: Packet)
    requires ParseFull(pkt).Some?
  {
    var m := ParseFull(pkt).value.msg;
    AskedStand(pkt, to, HEADER_SIZE, |m.questions|) && OwnersStand(pkt, to, m.questionEnd, |m.Records()|)
  }

  /** The edit leaves section counts, question bytes, and each record's type, class and RDLENGTH. */
  ghost predicate KeepsFields(pkt: Packet, to: Packet)
    requires ParseFull(pkt).Some?
  {
    var p := ParseFull(pkt).value;
    && p.end <= |to| && SameRange(pkt, to, 4, HEADER_SIZE) && SameRange(pkt, to, HEADER_SIZE, p.msg.questionEnd)
    && forall rr :: rr in p.msg.Records() ==> KeepsFixedFields(pkt, to, rr)
  }

  // ----- one record -----

  lemma {:induction false} RecordStands(pkt: Packet, to: Packet, cursor: nat)
    requires ParseRecord(pkt, cursor).Some?
    requires KeepsFixedFields(pkt, to, ParseRecord(pkt, cursor).value) && ParseRecord(pkt, cursor).value.End() <= |to|
    ensures NameStands(pkt, to, cursor) <==> ParseRecord(to, cursor) == Some(Reread(ParseRecord(pkt, cursor).value, to))
  {
    hide DecodeName, U16At, U32At;
    var at := DecodeName(pkt, cursor).value.next;
    SameU16(pkt, to, at);
    SameU16(pkt, to, at + 2);
    SameU16(pkt, to, at + 8);
  }

  // ----- runs of records -----

  lemma {:induction false} OwnersStep(pkt: Packet, to: Packet, cursor: nat, count: nat)
    requires count > 0 && ParseRecord(pkt, cursor).Some?
    ensures OwnersStand(pkt, to, cursor, count) <==>
      NameStands(pkt, to, cursor) && OwnersStand(pkt, to, ParseRecord(pkt, cursor).value.End(), count - 1)
  {
    hide ParseRecord, NameStands;
    var next := ParseRecord(pkt, cursor).value.End();
    assert RecordStart(pkt, cursor, 0) == cursor;
    assert forall k: nat :: k < count - 1 ==> RecordStart(pkt, next, k) == RecordStart(pkt, cursor, k + 1);
    forall k: nat | k < count && NameStands(pkt, to, cursor) && OwnersStand(pkt, to, next, count - 1)
      ensures NameStands(pkt, to, RecordStart(pkt, cursor, k))
    {
      if k > 0 { assert NameStands(pkt, to, RecordStart(pkt, next, k - 1)); }
    }
  }

  /** A run of records is found again, with TTL and RDATA as the new bytes have them, exactly if every owner
      name stands. */
  lemma {:induction false} RecordsStand(pkt: Packet, to: Packet, cursor: nat, count: nat)
    requires ParseRecords(pkt, cursor, count).Some?
    requires forall rr :: rr in ParseRecords(pkt, cursor, count).value.items ==>
      6 <= rr.rdataOff && rr.End() <= |to| && KeepsFixedFields(pkt, to, rr)
    ensures var r := ParseRecords(pkt, cursor, count).value;
      OwnersStand(pkt, to, cursor, count) <==>
        ParseRecords(to, cursor, count) == Some(Run(RereadAll(r.items, to), r.next))
    decreases count
  {
    hide ParseRecord, Reread, KeepsFixedFields, NameStands, OwnersStand;
    if count == 0 {
      NoOwners(pkt, to, cursor);
    } else {
      var rr := ParseRecord(pkt, cursor).value;
      var rest := ParseRecords(pkt, rr.End(), count - 1).value;
      var r := ParseRecords(pkt, cursor, count).value;
      assert r.items == [rr] + rest.items && r.items[0] == rr;
      assert forall x :: x in rest.items ==> x in r.items;
      OwnersStep(pkt, to, cursor, count);
      RecordStands(pkt, to, cursor);
      RecordsStand(pkt, to, rr.End(), count - 1);
      RereadEnd(rr, to);
      assert RereadAll(r.items, to) == [Reread(rr, to)] + RereadAll(rest.items, to);
      var found := ParseRecord(to, cursor);
      if found.Some? && ParseRecords(to, found.value.End(), count - 1).Some? {
        ConsEqual(found.value, ParseRecords(to, found.value.End(), count - 1).value.items, Reread(rr, to),
          RereadAll(rest.items, to));
      }
    }
  }

  lemma {:induction false} ConsEqual<T>(a: T, xs: seq<T>, b: T, ys: seq<T>)
    ensures [a] + xs == [b] + ys <==> a == b && xs == ys
  {
    assert ([a] + xs)[0] == a && ([a] + xs)[1..] == xs && ([b] + ys)[0] == b && ([b] + ys)[1..] == ys;
  }

  lemma {:induction false} NoOwners(pkt: Packet, to: Packet, cursor: nat)
    ensures OwnersStand(pkt, to, cursor, 0)
  {
  }

  // ----- questions -----

  lemma {:induction false} NameEndStands(pkt: Packet, to: Packet, cursor: nat)
    requires SameRange(pkt, to, cursor, NameEnd(pkt, cursor))
    ensures NameEnd(to, cursor) == NameEnd(pkt, cursor)
    decreases |pkt| - cursor
  {
    NameEndGrows(pkt, cursor);
    if pkt[cursor] != 0 && pkt[cursor] < 64 {
      NameEndGrows(pkt, cursor + 1 + pkt[cursor]);
      NameEndStands(pkt, to, cursor + 1 + pkt[cursor]);
    }
  }

  lemma {:induction false} NameEndGrows(pkt: Packet, cursor: nat)
    ensures cursor < NameEnd(pkt, cursor)
    decreases |pkt| - cursor
  {
    if cursor < |pkt| && 0 < pkt[cursor] < 64 { NameEndGrows(pkt, cursor + 1 + pkt[cursor]); }
  }

  lemma {:induction false} AskedStep(pkt: Packet, to: Packet, cursor: nat, count: nat)
    requires count > 0
    ensures AskedStand(pkt, to, cursor, count) <==>
      NameStands(pkt, to, cursor) && AskedStand(pkt, to, NameEnd(pkt, cursor) + 4, count - 1)
  {
    hide NameStands, NameEnd;
    var next := NameEnd(pkt, cursor) + 4;
    assert QuestionStart(pkt, cursor, 0) == cursor;
    assert forall k: nat :: k < count - 1 ==> QuestionStart(pkt, next, k) == QuestionStart(pkt, cursor, k + 1);
    forall k: nat | k < count && NameStands(pkt, to, cursor) && AskedStand(pkt, to, next, count - 1)
      ensures NameStands(pkt, to, QuestionStart(pkt, cursor, k))
    {
      if k > 0 { assert NameStands(pkt, to, QuestionStart(pkt, next, k - 1)); }
    }
  }

  lemma {:induction false} QuestionStands(pkt: Packet, to: Packet, cursor: nat)
    requires ParseQuestion(pkt, cursor).Some? && SameRange(pkt, to, cursor, NameEnd(pkt, cursor) + 4)
    ensures NameStands(pkt, to, cursor) <==> ParseQuestion(to, cursor) == ParseQuestion(pkt, cursor)
    ensures NameEnd(to, cursor) == NameEnd(pkt, cursor)
  {
    hide DecodeName, U16At, NameEnd;
    NameEndGrows(pkt, cursor);
    NameEndStands(pkt, to, cursor);
    SameU16(pkt, to, NameEnd(pkt, cursor));
    SameU16(pkt, to, NameEnd(pkt, cursor) + 2);
  }

  /** Questions whose bytes are kept are found again exactly if every name asked for stands. */
  lemma {:induction false} QuestionsStand(pkt: Packet, to: Packet, cursor: nat, count: nat)
    requires ParseQuestions(pkt, cursor, count).Some? && cursor <= |pkt|
    requires SameRange(pkt, to, cursor, ParseQuestions(pkt, cursor, count).value.next)
    ensures AskedStand(pkt, to, cursor, count) <==>
      ParseQuestions(to, cursor, count) == ParseQuestions(pkt, cursor, count)
    decreases count
  {
    hide ParseQuestion, NameStands, NameEnd, AskedStand;
    if count == 0 {
      NoneAsked(pkt, to, cursor);
    } else {
      var next := NameEnd(pkt, cursor) + 4;
      QuestionFits(pkt, cursor);
      NameEndGrows(pkt, cursor);
      QuestionsFit(pkt, next, count - 1);
      AskedStep(pkt, to, cursor, count);
      QuestionStands(pkt, to, cursor);
      QuestionsStand(pkt, to, next, count - 1);
      var q, rest := ParseQuestion(pkt, cursor).value, ParseQuestions(pkt, next, count - 1).value;
      if ParseQuestion(to, cursor).Some? && ParseQuestions(to, next, count - 1).Some? {
        ConsEqual(ParseQuestion(to, cursor).value, ParseQuestions(to, next, count - 1).value.items, q, rest.items);
      }
    }
  }

  lemma {:induction false} QuestionFits(pkt: Packet, cursor: nat)
    requires ParseQuestion(pkt, cursor).Some?
    ensures NameEnd(pkt, cursor) + 4 <= |pkt|
  {
    hide NameEnd;
  }

  lemma {:induction false} NoneAsked(pkt: Packet, to: Packet, cursor: nat)
    ensures AskedStand(pkt, to, cursor, 0)
  {
  }

  // ----- messages -----

  lemma {:induction false} FieldsFit(pkt: Packet, to: Packet)
    requires ParseFull(pkt).Some? && KeepsFields(pkt, to)
    ensures |pkt| >= HEADER_SIZE && |to| >= HEADER_SIZE
    ensures forall rr :: rr in ParseFull(pkt).value.msg.Records() ==> 10 <= rr.rdataOff && rr.End() <= |to|
  {
    hide ParseFull;
    MessageIsLaid(pkt);
  }

  /** The message as re-read has the same sections one after the other. */
  lemma {:induction false} RereadRecords(m: Message, to: Packet)
    requires |to| >= HEADER_SIZE && forall rr :: rr in m.Records() ==> 6 <= rr.rdataOff && rr.End() <= |to|
    ensures RereadMessage(m, to).Records() == RereadAll(m.Records(), to)
  {
    hide Reread, ParseHeader;
    assert forall rr :: rr in m.answers || rr in m.authority || rr in m.additional ==> rr in m.Records();
  }

  /** What a buffer with the same counts must hold to parse as the re-read message. */
  lemma {:induction false} ParsesAsReread(pkt: Packet, to: Packet)
    requires ParseFull(pkt).Some? && KeepsFields(pkt, to)
    ensures |to| >= HEADER_SIZE
    ensures forall rr :: rr in ParseFull(pkt).value.msg.Records() ==> 10 <= rr.rdataOff && rr.End() <= |to|
    ensures var p := ParseFull(pkt).value; var m := p.msg;
      ParseFull(to) == Some(Parsed(RereadMessage(m, to), p.end)) <==>
        && ParseQuestions(to, HEADER_SIZE, |m.questions|) == Some(Run(m.questions, m.questionEnd))
        && ParseRecords(to, m.questionEnd, |m.Records()|) == Some(Run(RereadAll(m.Records(), to), p.end))
  {
    hide ParseFull, ParseHeader, ParseRecords, ParseQuestions, Reread, KeepsFixedFields;
    var p := ParseFull(pkt).value;
    var m := p.msg;
    FieldsFit(pkt, to);
    HeaderOf(pkt);
    SectionsAreOneRun(pkt);
    SameCounts(pkt, to);
    RereadRecords(m, to);
    assert forall rr :: rr in m.answers || rr in m.authority || rr in m.additional ==> rr in m.Records();
    var an, ns, ar := RereadAll(m.answers, to), RereadAll(m.authority, to), RereadAll(m.additional, to);
    if ParseFull(to) == Some(Parsed(RereadMessage(m, to), p.end)) {
      SectionsAreOneRun(to);
    } else if ParseQuestions(to, HEADER_SIZE, |m.questions|) == Some(Run(m.questions, m.questionEnd))
      && ParseRecords(to, m.questionEnd, |m.Records()|) == Some(Run(RereadAll(m.Records(), to), p.end)) {
      Assemble(to, m.questions, m.questionEnd, an, ns, ar, p.end);
    }
  }

  lemma {:induction false} HeaderOf(pkt: Packet)
    requires ParseFull(pkt).Some?
    ensures |pkt| >= HEADER_SIZE && ParseFull(pkt).value.msg.header == ParseHeader(pkt)
  {
    hide ParseHeader, ParseRecords, ParseQuestions;
  }

  /** Editing bytes commutes with parsing exactly if every name stands: a buffer that keeps the fixed fields
      of a packet parses to the same message, with id, flags, TTLs and RDATA as the buffer has them, if and
      only if each name of the message is decoded alike where it stands. */
  lemma {:induction false} EditsCommuteExactly(pkt: Packet, to: Packet)
    requires ParseFull(pkt).Some? && KeepsFields(pkt, to)
    ensures |to| >= HEADER_SIZE
    ensures forall rr :: rr in ParseFull(pkt).value.msg.Records() ==> 10 <= rr.rdataOff && rr.End() <= |to|
    ensures var p := ParseFull(pkt).value;
      ParseFull(to) == Some(Parsed(RereadMessage(p.msg, to), p.end)) <==> NamesStand(pkt, to)
  {
    hide ParseFull, ParseRecords, ParseQuestions, Reread, KeepsFixedFields, AskedStand, OwnersStand, RereadMessage;
    var m := ParseFull(pkt).value.msg;
    ParsesAsReread(pkt, to);
    SectionsAreOneRun(pkt);
    MessageIsLaid(pkt);
    QuestionsStand(pkt, to, HEADER_SIZE, |m.questions|);
    RecordsStand(pkt, to, m.questionEnd, |m.Records()|);
  }

  // ----- a condition a caller can use -----

  /** Names stand if the bytes they are decoded from do. */
  lemma {:induction false} FootprintStands(pkt: Packet, to: Packet)
    requires ParseFull(pkt).Some?
    requires forall i: nat :: NameReads(pkt, i) ==> i < |pkt| && i < |to| && to[i] == pkt[i]
    ensures NamesStand(pkt, to)
  {
    hide ParseFull, NameReads, AgreesOnName, DecodeName, QuestionStart, RecordStart, ParseRecords, ParseQuestions;
    var m := ParseFull(pkt).value.msg;
    SectionsAreOneRun(pkt);
    NamesAgree(pkt, to);
    forall k: nat | k < |m.questions| ensures NameStands(pkt, to, QuestionStart(pkt, HEADER_SIZE, k)) {
      QuestionNameDecodes(pkt, HEADER_SIZE, |m.questions|, k);
      DecodeNameFrame(pkt, to, QuestionStart(pkt, HEADER_SIZE, k));
    }
    forall k: nat | k < |m.Records()| ensures NameStands(pkt, to, RecordStart(pkt, m.questionEnd, k)) {
      OwnerNameDecodes(pkt, m.questionEnd, |m.Records()|, k);
      DecodeNameFrame(pkt, to, RecordStart(pkt, m.questionEnd, k));
    }
  }

  /** The edit touches no byte a name is decoded from. */
  ghost predicate KeepsNames(pkt: Packet, to: Packet)
    requires ParseFull(pkt).Some?
  {
    forall i: nat :: NameReads(pkt, i) ==> i < |pkt| && i < |to| && to[i] == pkt[i]
  }

  /** So an edit outside the fixed fields and the read footprint of the names commutes with parsing. */
  lemma {:induction false} EditsCommuteWithParsing(pkt: Packet, to: Packet)
    requires ParseFull(pkt).Some? && KeepsFields(pkt, to) && KeepsNames(pkt, to)
    ensures |to| >= HEADER_SIZE
    ensures forall rr :: rr in ParseFull(pkt).value.msg.Records() ==> 10 <= rr.rdataOff && rr.End() <= |to|
    ensures ParseFull(to) == Some(Parsed(RereadMessage(ParseFull(pkt).value.msg, to), ParseFull(pkt).value.end))
  {
    hide ParseFull, NamesStand, KeepsFields, NameReads;
    FootprintStands(pkt, to);
    EditsCommuteExactly(pkt, to);
  }

  // ----- one edit after another -----

  /** Kept question bytes keep the questions where they are. */
  lemma {:induction false} QuestionStartStands(pkt: Packet, to: Packet, cursor: nat, count: nat, k: nat)
    requires ParseQuestions(pkt, cursor, count).Some? && cursor <= |pkt| && k < count
    requires SameRange(pkt, to, cursor, ParseQuestions(pkt, cursor, count).value.next)
    ensures QuestionStart(to, cursor, k) == QuestionStart(pkt, cursor, k)
    decreases k
  {
    hide ParseQuestion, NameEnd;
    if k > 0 {
      var next := NameEnd(pkt, cursor) + 4;
      QuestionFits(pkt, cursor);
      NameEndGrows(pkt, cursor);
      QuestionsFit(pkt, next, count - 1);
      NameEndStands(pkt, to, cursor);
      QuestionStartStands(pkt, to, next, count - 1, k - 1);
    }
  }

  /** A record starts where the one before it ends. */
  lemma {:induction false} RecordStartIs(pkt: Packet, cursor: nat, count: nat, j: nat)
    requires ParseRecords(pkt, cursor, count).Some? && j < count
    ensures RecordStart(pkt, cursor, j) ==
      if j == 0 then cursor else ParseRecords(pkt, cursor, count).value.items[j - 1].End()
    decreases j
  {
    hide ParseRecord;
    if j > 0 { RecordStartIs(pkt, ParseRecord(pkt, cursor).value.End(), count - 1, j - 1); }
  }

  /** If two packets that differ by an edit of the header only show the same names as a third, so does the
      one of the other. */
  lemma {:induction false} StandsAcross(pkt: Packet, mid: Packet, to: Packet)
    requires ParseFull(pkt).Some? && ParseFull(mid).Some?
    requires var m := ParseFull(pkt).value.msg; var n := ParseFull(mid).value.msg;
      n.questions == m.questions && n.questionEnd == m.questionEnd && n.Records() == m.Records()
    requires SameRange(pkt, mid, HEADER_SIZE, ParseFull(pkt).value.msg.questionEnd)
    requires NamesStand(pkt, mid) && NamesStand(pkt, to)
    ensures NamesStand(mid, to)
  {
    hide ParseFull, DecodeName, QuestionStart, RecordStart, ParseRecords, ParseQuestions;
    var m := ParseFull(pkt).value.msg;
    SectionsAreOneRun(pkt);
    SectionsAreOneRun(mid);
    MessageIsLaid(pkt);
    forall k: nat | k < |m.questions| ensures NameStands(mid, to, QuestionStart(mid, HEADER_SIZE, k)) {
      QuestionStartStands(pkt, mid, HEADER_SIZE, |m.questions|, k);
      assert NameStands(pkt, mid, QuestionStart(pkt, HEADER_SIZE, k))
        && NameStands(pkt, to, QuestionStart(pkt, HEADER_SIZE, k));
    }
    forall k: nat | k < |m.Records()| ensures NameStands(mid, to, RecordStart(mid, m.questionEnd, k)) {
      RecordStartIs(pkt, m.questionEnd, |m.Records()|, k);
      RecordStartIs(mid, m.questionEnd, |m.Records()|, k);
      assert NameStands(pkt, mid, RecordStart(pkt, m.questionEnd, k))
        && NameStands(pkt, to, RecordStart(pkt, m.questionEnd, k));
    }
  }
}
