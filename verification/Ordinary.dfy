/** Ordinary traffic meets the footprint hypotheses: what the theorems on byte edits say of the packets the
    daemon builds itself and of responses compressed the usual way. */
module Ordinary {
  import opened Wire
  import opened Names
  import opened Parser
  import opened Edits
  import opened Writer
  import opened Ttl
  import opened Padding
  import opened Lru
  import opened Cache
  import opened Serving
  import opened Aliases
  import opened Resolver

  // ----- responses -----

  /** These bytes overlap neither the header nor the fixed fields of a record. */
  ghost predicate Between(pkt: Packet, lo: nat, hi: nat)
    requires ParseFull(pkt).Some?
  {
    && HEADER_SIZE <= lo
    && forall rr :: rr in ParseFull(pkt).value.msg.Records() ==> hi <= rr.rdataOff - 10 || rr.rdataOff <= lo
  }

  /** A name as encoders write it: labels that end in the root or in a pointer to such a name in the question
      section, in an owner name or in RDATA. */
  ghost predicate UsualName(pkt: Packet, cursor: nat, hops: nat)
    requires ParseFull(pkt).Some?
    decreases hops, |pkt| - cursor
  {
    && cursor < |pkt|
    && if pkt[cursor] >= 192 then
         && cursor + 1 < |pkt| && hops > 0
         && Between(pkt, PointerTarget(pkt, cursor), NameEnd(pkt, PointerTarget(pkt, cursor)))
         && UsualName(pkt, PointerTarget(pkt, cursor), hops - 1)
       else pkt[cursor] == 0 || (pkt[cursor] < 64 && UsualName(pkt, cursor + 1 + pkt[cursor], hops))
  }

  /** One question, with its name written out, and usual owner names. */
  ghost predicate UsualNames(pkt: Packet)
    requires ParseFull(pkt).Some?
  {
    var m := ParseFull(pkt).value.msg;
    && |m.questions| == 1 && Uncompressed(pkt, HEADER_SIZE)
    && forall k :: 0 <= k < |m.Records()| ==> UsualName(pkt, RecordStart(pkt, m.questionEnd, k), MAX_HOPS)
  }

  /** The target of every CNAME answer is a usual name that ends with the RDATA or before. */
  ghost predicate UsualTargets(pkt: Packet)
    requires ParseFull(pkt).Some?
  {
    forall rr :: rr in ParseFull(pkt).value.msg.answers && rr.rtype == TYPE_CNAME ==>
      NameEnd(pkt, rr.rdataOff) <= rr.End() && UsualName(pkt, rr.rdataOff, MAX_HOPS)
  }

  /** A usual name is read from no other bytes than that. */
  lemma {:induction false} UsualReads(pkt: Packet, cursor: nat, hops: nat, i: nat)
    requires ParseFull(pkt).Some? && UsualName(pkt, cursor, hops) && Between(pkt, cursor, NameEnd(pkt, cursor))
    requires Reads(pkt, cursor, hops, i)
    ensures Between(pkt, i, i + 1)
    decreases hops, |pkt| - cursor
  {
    hide ParseFull;
    NameEndGrows(pkt, cursor);
    if pkt[cursor] >= 192 {
      if !(cursor <= i < cursor + 2) { UsualReads(pkt, PointerTarget(pkt, cursor), hops - 1, i); }
    } else if pkt[cursor] > 0 {
      var next := cursor + 1 + pkt[cursor];
      NameEndGrows(pkt, next);
      if i >= next || i < cursor { UsualReads(pkt, next, hops, i); }
    }
  }

  /** The k-th record of a run is the one found at its start. */
  lemma {:induction false} RecordAt(pkt: Packet, cursor: nat, count: nat, k: nat)
    requires ParseRecords(pkt, cursor, count).Some? && k < count
    ensures ParseRecord(pkt, RecordStart(pkt, cursor, k)) == Some(ParseRecords(pkt, cursor, count).value.items[k])
    decreases k
  {
    hide ParseRecord;
    if k > 0 { RecordAt(pkt, ParseRecord(pkt, cursor).value.End(), count - 1, k - 1); }
  }

  lemma {:induction false} NameBeforeFields(pkt: Packet, cursor: nat)
    requires ParseRecord(pkt, cursor).Some?
    ensures NameEnd(pkt, cursor) + 10 == ParseRecord(pkt, cursor).value.rdataOff
  {
    hide Labels, NameEnd, Join;
  }

  /** Where the name of the k-th record is: after the records before it, ten bytes before its RDATA. */
  lemma {:induction false} OwnerBytes(pkt: Packet, k: nat)
    requires ParseFull(pkt).Some? && k < |ParseFull(pkt).value.msg.Records()|
    ensures var m := ParseFull(pkt).value.msg; var start := RecordStart(pkt, m.questionEnd, k);
      && NameEnd(pkt, start) + 10 == m.Records()[k].rdataOff
      && start == if k == 0 then m.questionEnd else m.Records()[k - 1].End()
  {
    hide ParseFull, ParseRecord, ParseRecords, RecordStart, NameEnd;
    var m := ParseFull(pkt).value.msg;
    SectionsAreOneRun(pkt);
    RecordAt(pkt, m.questionEnd, |m.Records()|, k);
    RecordStartIs(pkt, m.questionEnd, |m.Records()|, k);
    NameBeforeFields(pkt, RecordStart(pkt, m.questionEnd, k));
  }

  /** The name of the only question ends four bytes before the section does. */
  lemma {:induction false} QuestionBytes(pkt: Packet)
    requires ParseFull(pkt).Some? && |ParseFull(pkt).value.msg.questions| == 1
    ensures NameEnd(pkt, HEADER_SIZE) + 4 == ParseFull(pkt).value.msg.questionEnd
  {
    hide ParseFull, DecodeName, NameEnd, ParseRecords;
    SectionsAreOneRun(pkt);
    var h := ParseFull(pkt).value.msg.header;
    assert ParseQuestions(pkt, HEADER_SIZE, 1).Some?;
    assert ParseQuestions(pkt, NameEnd(pkt, HEADER_SIZE) + 4, 0).value.next == NameEnd(pkt, HEADER_SIZE) + 4;
  }

  /** No name of such a response is read from the header or the fixed fields of a record. */
  lemma {:induction false} UsualFootprint(pkt: Packet, i: nat)
    requires ParseFull(pkt).Some? && UsualNames(pkt) && NameReads(pkt, i)
    ensures Between(pkt, i, i + 1)
  {
    hide ParseFull, Reads, RecordStart, NameEnd, Uncompressed, UsualName, Between;
    var m := ParseFull(pkt).value.msg;
    if k :| 0 <= k < |m.Records()| && Reads(pkt, RecordStart(pkt, m.questionEnd, k), MAX_HOPS, i) {
      OwnerIsBetween(pkt, k);
      UsualReads(pkt, RecordStart(pkt, m.questionEnd, k), MAX_HOPS, i);
    } else {
      FirstQuestionReads(pkt, i);
    }
  }

  lemma {:induction false} OwnerIsBetween(pkt: Packet, k: nat)
    requires ParseFull(pkt).Some? && k < |ParseFull(pkt).value.msg.Records()|
    ensures var start := RecordStart(pkt, ParseFull(pkt).value.msg.questionEnd, k);
      Between(pkt, start, NameEnd(pkt, start))
  {
    hide ParseFull, RecordStart, NameEnd;
    MessageIsLaid(pkt);
    OwnerBytes(pkt, k);
  }

  lemma {:induction false} TargetIsBetween(pkt: Packet, rr: Record)
    requires ParseFull(pkt).Some? && rr in ParseFull(pkt).value.msg.answers && NameEnd(pkt, rr.rdataOff) <= rr.End()
    ensures Between(pkt, rr.rdataOff, NameEnd(pkt, rr.rdataOff))
  {
    hide ParseFull, NameEnd;
    var records := ParseFull(pkt).value.msg.Records();
    MessageIsLaid(pkt);
    assert rr in records;
  }

  lemma {:induction false} FirstQuestionReads(pkt: Packet, i: nat)
    requires ParseFull(pkt).Some? && |ParseFull(pkt).value.msg.questions| == 1
    requires Uncompressed(pkt, HEADER_SIZE) && Reads(pkt, QuestionStart(pkt, HEADER_SIZE, 0), MAX_HOPS, i)
    ensures Between(pkt, i, i + 1)
  {
    hide ParseFull, Labels, NameEnd, Reads;
    MessageIsLaid(pkt);
    QuestionBytes(pkt);
    UncompressedName(pkt, HEADER_SIZE, MAX_HOPS);
  }

  /** TTL fields are fixed fields. */
  lemma {:induction false} TtlIsNotBetween(pkt: Packet, off: nat, i: nat)
    requires ParseFull(pkt).Some? && off in TtlOffsets(ParseFull(pkt).value.msg.Records()) && off <= i < off + 4
    ensures !Between(pkt, i, i + 1)
  {
    hide ParseFull, TtlOffsets;
    var records := ParseFull(pkt).value.msg.Records();
    MessageIsLaid(pkt);
    TtlOffsetsOf(records, off);
    var k :| 0 <= k < |records| && off == TtlOffset(records[k]);
    assert records[k] in records;
  }

  /** A response compressed the usual way decodes no name from a TTL or id byte. */
  lemma {:induction false} UsualNamesAreClear(pkt: Packet)
    requires ParseFull(pkt).Some? && UsualNames(pkt)
    ensures TtlClearOfNames(pkt) && IdClearOfNames(pkt)
  {
    hide ParseFull, NameReads, UsualNames, TtlOffsets;
    forall off, i: nat | off in TtlOffsets(ParseFull(pkt).value.msg.Records()) && off <= i < off + 4
      ensures !NameReads(pkt, i)
    {
      if NameReads(pkt, i) {
        UsualFootprint(pkt, i);
        TtlIsNotBetween(pkt, off, i);
      }
    }
    forall i: nat | i < 2 ensures !NameReads(pkt, i) {
      if NameReads(pkt, i) { UsualFootprint(pkt, i); }
    }
  }

  lemma {:induction false} TargetFootprint(pkt: Packet, i: nat)
    requires ParseFull(pkt).Some? && UsualTargets(pkt) && TargetReads(pkt, i)
    ensures Between(pkt, i, i + 1)
  {
    hide ParseFull, Reads, NameEnd, UsualName, Between, Decides;
    var rs := ParseFull(pkt).value.msg.answers;
    var k :| 0 <= k < |rs| && DecidingAlias(rs, k) && Reads(pkt, rs[k].rdataOff, MAX_HOPS, i);
    TargetIsBetween(pkt, rs[k]);
    UsualReads(pkt, rs[k].rdataOff, MAX_HOPS, i);
  }

  /** ... and no alias target either. */
  lemma {:induction false} UsualTargetsAreClear(pkt: Packet)
    requires ParseFull(pkt).Some? && UsualTargets(pkt)
    ensures TargetsClear(pkt)
  {
    hide ParseFull, TargetReads, UsualTargets, TtlOffsets;
    forall off, i: nat | off in TtlOffsets(ParseFull(pkt).value.msg.Records()) && off <= i < off + 4
      ensures !TargetReads(pkt, i)
    {
      if TargetReads(pkt, i) {
        TargetFootprint(pkt, i);
        TtlIsNotBetween(pkt, off, i);
      }
    }
    forall i: nat | i < 2 ensures !TargetReads(pkt, i) {
      if TargetReads(pkt, i) { TargetFootprint(pkt, i); }
    }
  }

  /** So a cached response compressed the usual way is served as the same message, under the client's id and
      with the time that is left, and what it says of every name is what the stored response says. */
  lemma {:induction false} UsualResponseIsServed(e: Entry, now: int, id: U16)
    requires Fresh(e, now) && ParseFull(e.response).Some? && UsualNames(e.response) && UsualTargets(e.response)
    requires e.offsets == TtlOffsets(ParseFull(e.response).value.msg.Records())
    ensures var p := ParseFull(e.response).value; var to := ServedBytes(e, now, id);
      && ParseFull(to) == Some(Parsed(SetId(WithTtl(p.msg, Served(e, now)), id), p.end))
      && ShowsAlike(e.response, to) && NamesStand(e.response, to) && TargetsStand(e.response, to)
  {
    hide ParseFull, UsualNames, UsualTargets, TtlClearOfNames, IdClearOfNames, TargetsClear, ServedBytes, Served,
      TtlOffsets, ShowsAlike, NamesStand, TargetsStand;
    UsualNamesAreClear(e.response);
    UsualTargetsAreClear(e.response);
    ClearAliasesAreServed(e, now, id);
    ServedAliasesExactly(e, now, id);
  }

  // ----- queries -----

  /** A query with usual names has none that is decoded from a byte padding overwrites. */
  lemma {:induction false} UsualQueryIsPadded(pkt: Packet)
    requires ParseFull(pkt).Some? && UsualNames(pkt)
    ensures PaddingClearOfNames(pkt)
  {
    hide ParseFull, NameReads, UsualNames, ScanOpt;
    ScanOptFinds(Parse(pkt).value.additional, |pkt|);
    MessageIsLaid(pkt);
    assert forall rr :: rr in Parse(pkt).value.additional ==> rr in Parse(pkt).value.Records();
    forall i: nat | Overwrites(pkt, i) ensures !NameReads(pkt, i) {
      if NameReads(pkt, i) { UsualFootprint(pkt, i); }
    }
  }

  lemma {:induction false} EncodedIsUncompressed(pkt: Packet, cursor: nat, ls: seq<Name>)
    requires AllLabels(ls) && cursor + |EncodeLabels(ls)| < |pkt|
    requires pkt[cursor..cursor + |EncodeLabels(ls)|] == EncodeLabels(ls) && pkt[cursor + |EncodeLabels(ls)|] == 0
    ensures Uncompressed(pkt, cursor)
    decreases |ls|
  {
    var code := EncodeLabels(ls);
    if ls != [] {
      var n := 1 + |ls[0]|;
      var rest := EncodeLabels(ls[1..]);
      assert IsLabel(ls[0]);
      assert code == [|ls[0]|] + ls[0] + rest;
      assert pkt[cursor] == code[0];
      assert pkt[cursor + n..cursor + n + |rest|] == code[n..] == rest;
      EncodedIsUncompressed(pkt, cursor + n, ls[1..]);
    }
  }

  /** A query the daemon builds: one question, no record, its name written out. */
  lemma {:induction false} BuiltQueryIsPlain(qname: Name, id: U16)
    requires Encodable(qname)
    ensures ParseFull(AQuery(qname, id)).Some? && UsualNames(AQuery(qname, id))
  {
    hide ParseFull, EncodeLabels, RecordStart, Split, Uncompressed;
    var q := AQuery(qname, id);
    var code := EncodeLabels(Split(qname));
    AQueryRoundTrip(qname, id);
    assert q[HEADER_SIZE..HEADER_SIZE + |code|] == code && q[HEADER_SIZE + |code|] == 0;
    EncodedIsUncompressed(q, HEADER_SIZE, Split(qname));
  }

  /** It meets every hypothesis of the padding theorem. */
  lemma {:induction false} BuiltQueryPads(qname: Name, id: U16, block: nat)
    requires Encodable(qname) && 1 <= block <= 65532
    ensures var q := AQuery(qname, id);
      && Pads(q, block) && PaddingClearOfNames(q)
      && ScanOpt(Parse(q).value.additional, |q|).NoOpt? && ParseFull(q).value.end == |q|
      && OPTION_HEAD + PadLen(q, NoOpt, block) <= U16_MAX
  {
    hide ParseFull, NameReads, UsualNames, RoundUp, Split, AllLabels, AQuery;
    var q := AQuery(qname, id);
    AQueryRoundTrip(qname, id);
    BuiltQueryIsPlain(qname, id);
    UsualQueryIsPadded(q);
    RoundUpBounds(|q| + AddedHead(NoOpt), block);
  }

  /** The uncloaker's re-query as upstream receives it, whatever the name, the ids and the block size: it is
      consumed to its last byte, a multiple of the block, as one question for the lower-cased name under our
      id, with recursion desired and one OPT record holding the padding. */
  lemma {:induction false} RequeryOnTheWire(qname: Name, id: U16, ourId: U16, block: nat)
    requires Encodable(qname) && 1 <= block <= 65532
    ensures var q := AQuery(qname, id); var sent := Outbound(q, block, ourId); var pad := |sent| - |q| - 15;
      && IsLeastMultiple(|sent|, |q| + 15, block) && 0 <= pad < 0x1_0000
      && ParseFull(sent) == Some(Parsed(
           Message(Header(ourId, false, 0, false, false, true, false, 0, 1, 0, 0, 1),
                   [Question(LowerAll(qname), 1, 1)], [], [],
                   [Record([], 41, 4096, 0, |q| + 11, [0, 12, pad / 256, pad % 256] + Zeros(pad))], |q|), |sent|))
  {
    hide ParseFull, PaddingClearOfNames, IdClearOfNames, ScanOpt, Pads, PadLen, PaddingOption, Split, AllLabels, AQuery,
      PadQuery, IsLeastMultiple;
    var q := AQuery(qname, id);
    AQueryRoundTrip(qname, id);
    BuiltQueryPads(qname, id, block);
    BuiltQueryIsPlain(qname, id);
    UsualNamesAreClear(q);
    OutboundCarriesQuery(q, block, ourId);
    PaddedLength(q, block);
    assert ScanOpt(Parse(q).value.additional, |q|) == NoOpt;
    PadIs(q, block);
    PaddingOptionBytes(PadLen(q, NoOpt, block));
    var opt := Record([], TYPE_OPT, UDP_PAYLOAD, 0, |q| + OPT_SKELETON, PaddingOption(PadLen(q, NoOpt, block)));
    assert Parse(q).value.additional + [opt] == [opt];
  }
}
