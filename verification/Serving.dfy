/** What a cached answer is when it is served: the pieces of src/cache.cpp put together. */
module Serving {
  import opened Wire
  import opened Parser
  import opened Edits
  import opened Ttl
  import opened Lru
  import opened Cache

  function SetId(m: Message, id: U16): Message { m.(header := m.header.(id := id)) }

  /** No name of the message is decoded from the id bytes. */
  ghost predicate IdClearOfNames(pkt: Packet)
    requires ParseFull(pkt).Some?
  {
    !NameReads(pkt, 0) && !NameReads(pkt, 1)
  }

  lemma {:induction false} HeaderExceptId(pkt: Packet, id: U16)
    requires |pkt| >= HEADER_SIZE
    ensures ParseHeader(WithId(pkt, id)) == ParseHeader(pkt).(id := id)
  {
    hide U16At, U16Bytes;
    var to := WithId(pkt, id);
    assert to[0..2] == U16Bytes(id);
    FirstField(to, id);
    SameU16(pkt, to, 2);
    SameCounts(pkt, to);
  }

  lemma {:induction false} FirstField(to: Packet, id: U16)
    requires |to| >= 2 && to[0..2] == U16Bytes(id)
    ensures U16At(to, 0) == id
  {
    assert to[0] == to[0..2][0] && to[1] == to[0..2][1];
  }

  /** Changing the id after another edit keeps the fields, and the records as that edit left them. */
  lemma {:induction false} IdKeepsFields(pkt: Packet, edited: Packet, id: U16)
    requires ParseFull(pkt).Some? && KeepsFields(pkt, edited)
    ensures KeepsFields(pkt, WithId(edited, id))
    ensures forall rr :: rr in ParseFull(pkt).value.msg.Records() ==>
      6 <= rr.rdataOff && rr.End() <= |edited| && Reread(rr, WithId(edited, id)) == Reread(rr, edited)
  {
    hide ParseFull, U16Bytes, U32At;
    var to := WithId(edited, id);
    var m := ParseFull(pkt).value.msg;
    MessageIsLaid(pkt);
    assert forall i :: 2 <= i < |edited| ==> to[i] == edited[i];
    forall rr | rr in m.Records()
      ensures KeepsFixedFields(pkt, to, rr) && 6 <= rr.rdataOff && rr.End() <= |edited|
        && Reread(rr, to) == Reread(rr, edited)
    {
      assert KeepsFixedFields(pkt, edited, rr);
      SameU32Range(edited, to, rr.rdataOff - 6);
      assert to[rr.rdataOff..rr.End()] == edited[rr.rdataOff..rr.End()];
    }
  }

  lemma {:induction false} KeepsItself(pkt: Packet)
    requires ParseFull(pkt).Some?
    ensures KeepsFields(pkt, pkt) && KeepsNames(pkt, pkt) && |pkt| >= HEADER_SIZE
  {
    hide ParseFull, NameReads;
    MessageIsLaid(pkt);
    forall i: nat | NameReads(pkt, i) ensures i < |pkt| { NameReadsInside(pkt, i); }
  }

  /** Messages read from buffers that show every record alike differ only in their headers. */
  lemma {:induction false} SameRereads(m: Message, a: Packet, b: Packet)
    requires |a| >= HEADER_SIZE && |b| >= HEADER_SIZE
    requires forall rr :: rr in m.Records() ==>
      6 <= rr.rdataOff && rr.End() <= |a| && rr.End() <= |b| && Reread(rr, b) == Reread(rr, a)
    ensures RereadMessage(m, b) == RereadMessage(m, a).(header := ParseHeader(b))
  {
    hide Reread, ParseHeader;
    assert forall rr :: rr in m.answers || rr in m.authority || rr in m.additional ==> rr in m.Records();
    assert RereadAll(m.answers, b) == RereadAll(m.answers, a);
    assert RereadAll(m.authority, b) == RereadAll(m.authority, a);
    assert RereadAll(m.additional, b) == RereadAll(m.additional, a);
  }

  /** An edit under another id: it parses to what the edit alone stands for, with that id, exactly if every
      name is the same where it stands. */
  lemma {:induction false} IdAfterEdit(pkt: Packet, edited: Packet, meant: Message, id: U16)
    requires ParseFull(pkt).Some? && KeepsFields(pkt, edited) && |edited| >= HEADER_SIZE
    requires forall rr :: rr in ParseFull(pkt).value.msg.Records() ==> 6 <= rr.rdataOff && rr.End() <= |edited|
    requires RereadMessage(ParseFull(pkt).value.msg, edited) == meant
    ensures var to := WithId(edited, id);
      ParseFull(to) == Some(Parsed(SetId(meant, id), ParseFull(pkt).value.end)) <==> NamesStand(pkt, to)
  {
    hide ParseFull, ParseHeader, WithId, Reread, KeepsFields, NamesStand;
    var to := WithId(edited, id);
    IdKeepsFields(pkt, edited, id);
    EditsCommuteExactly(pkt, to);
    HeaderExceptId(edited, id);
    SameRereads(ParseFull(pkt).value.msg, edited, to);
  }

  /** Restoring the client's id commutes with parsing exactly if every name is the same where it stands. */
  lemma {:induction false} IdRewriteExactly(pkt: Packet, id: U16)
    requires ParseFull(pkt).Some?
    ensures var p := ParseFull(pkt).value;
      ParseFull(WithId(pkt, id)) == Some(Parsed(SetId(p.msg, id), p.end)) <==> NamesStand(pkt, WithId(pkt, id))
  {
    hide ParseFull, WithId, Reread, KeepsFields, KeepsNames, NamesStand, RereadMessage;
    KeepsItself(pkt);
    EditsCommuteWithParsing(pkt, pkt);
    IdAfterEdit(pkt, pkt, ParseFull(pkt).value.msg, id);
  }

  /** In particular if no name is decoded from the id bytes. */
  lemma {:induction false} IdRewriteCommutes(pkt: Packet, id: U16)
    requires ParseFull(pkt).Some? && IdClearOfNames(pkt)
    ensures ParseFull(WithId(pkt, id)) == Some(Parsed(SetId(ParseFull(pkt).value.msg, id), ParseFull(pkt).value.end))
  {
    hide ParseFull, NameReads, U16Bytes, NamesStand;
    forall i: nat | NameReads(pkt, i) ensures i < |pkt| && WithId(pkt, id)[i] == pkt[i] {
      NameReadsInside(pkt, i);
      assert i != 0 && i != 1;
    }
    FootprintStands(pkt, WithId(pkt, id));
    IdRewriteExactly(pkt, id);
  }

  /** The bytes served on a hit parse to the cached message, with the client's id and with every TTL but those
      of OPT records replaced, exactly if every name is the same where it stands. */
  lemma {:induction false} ServedBytesExactly(e: Entry, now: int, id: U16)
    requires Fresh(e, now) && ParseFull(e.response).Some?
    requires e.offsets == TtlOffsets(ParseFull(e.response).value.msg.Records())
    ensures var p := ParseFull(e.response).value; var to := ServedBytes(e, now, id);
      ParseFull(to) == Some(Parsed(SetId(WithTtl(p.msg, Served(e, now)), id), p.end)) <==> NamesStand(e.response, to)
  {
    hide ParseFull, ParseHeader, Reread, KeepsFields, NamesStand, Rewritten, TtlOffsets, Served, WithId, RereadMessage,
      WithTtl;
    var pkt := e.response;
    var r := Rewritten(pkt, e.offsets, Served(e, now));
    RewrittenKeepsFields(pkt, Served(e, now));
    RewrittenHeader(pkt, Served(e, now));
    RewrittenRecords(pkt, Served(e, now));
    RereadIsWithTtl(ParseFull(pkt).value.msg, r, Served(e, now));
    IdAfterEdit(pkt, r, WithTtl(ParseFull(pkt).value.msg, Served(e, now)), id);
  }

  /** In particular if no name of the response is decoded from a TTL or id byte. */
  lemma {:induction false} ServedBytesParse(e: Entry, now: int, id: U16)
    requires Fresh(e, now) && ParseFull(e.response).Some?
    requires e.offsets == TtlOffsets(ParseFull(e.response).value.msg.Records())
    requires TtlClearOfNames(e.response) && IdClearOfNames(e.response)
    ensures var p := ParseFull(e.response).value;
      ParseFull(ServedBytes(e, now, id)) == Some(Parsed(SetId(WithTtl(p.msg, Served(e, now)), id), p.end))
  {
    hide ParseFull, NameReads, Rewritten, TtlOffsets, TtlClearOfNames, Served, U16Bytes, NamesStand, WithTtl;
    var pkt := e.response;
    var to := ServedBytes(e, now, id);
    RewrittenKeepsNames(pkt, Served(e, now));
    forall i: nat | NameReads(pkt, i) ensures i < |pkt| && i < |to| && to[i] == pkt[i] { assert i != 0 && i != 1; }
    FootprintStands(pkt, to);
    ServedBytesExactly(e, now, id);
  }

  lemma {:induction false} LongEnough(pkt: Packet)
    requires ParseFull(pkt).Some?
    ensures |pkt| >= HEADER_SIZE
  {
  }

  // ----- whole runs -----

  /** An insert as the server makes it: the parsed response, its TTL fields and its computed lifetime. */
  ghost predicate Honest(op: Op) {
    op.InsertOp? ==>
      && ParseFull(op.response).Some?
      && op.offsets == TtlOffsets(ParseFull(op.response).value.msg.Records())
      && op.ttl == CacheTtl(ParseFull(op.response).value.msg)
  }

  ghost predicate Clocked(ops: seq<Op>, now: int) {
    forall i :: 0 <= i < |ops| ==> ops[i].now <= now
  }

  /** Cached answers are never stale. In every run whose clock has not passed `now`, a hit serves the latest
      response stored under the key, with a TTL that outlives neither the time that response was given, nor
      any TTL in its answer and authority sections, nor for a negative answer the zone's MINIMUM or a day. */
  lemma {:induction false} HitIsNeverStale(max: nat, ops: seq<Op>, key: Key, now: int)
    requires max >= 1 && Clocked(ops, now) && forall i :: 0 <= i < |ops| ==> Honest(ops[i])
    requires Hit(After(max, ops), key, now).Some?
    ensures var e := Hit(After(max, ops), key, now).value; var j := LatestInsert(ops, key);
      && j >= 0 && e == EntryOf(ops[j])
      && WholeSeconds(Served(e, now), Expiry(ops, key) - now)
      && ParseFull(e.response).Some?
      && forall b: U32 :: IsLimit(ParseFull(e.response).value.msg, b) ==> Served(e, now) <= b
  {
    hide After, LatestInsert, Served, ParseFull, TtlOffsets, CacheTtl, IsLimit;
    HitIsLatest(max, ops, key, now);
    var j := LatestInsert(ops, key);
    assert Honest(ops[j]);
    CacheTtlIsLeastLimit(ParseFull(ops[j].response).value.msg);
  }
}
