/** EDNS padding of outgoing queries (RFC 7830, section 6.1.2 of RFC 6891): src/edns_padding.cpp. */
module Padding {
  import opened Wire
  import opened Names
  import opened Parser
  import opened Edits
  import opened Samples
  import opened Ttl

  const OPTION_PADDING: U16 := 12
  const UDP_PAYLOAD: U16 := 4096
  const OPT_SKELETON := 11
  const OPTION_HEAD := 4
  const U16_MAX: U16 := 0xFFFF

  function RoundUp(n: nat, block: nat): nat
    requires block > 0
  {
    (n + block - 1) / block * block
  }

  function Times(k: nat, block: nat): nat { k * block }

  ghost predicate IsMultiple(r: nat, block: nat) { exists k: nat :: r == Times(k, block) }

  /** `r` is the least multiple of `block` that is at least `n`. */
  ghost predicate IsLeastMultiple(r: nat, n: nat, block: nat) {
    IsMultiple(r, block) && n <= r && forall m: nat :: n <= m && IsMultiple(m, block) ==> r <= m
  }

  lemma {:induction false} DivBounds(x: nat, block: nat)
    requires block > 0
    ensures x / block * block <= x < x / block * block + block
  {
  }

  lemma {:induction false} TimesGrows(k: nat, q: nat, block: nat)
    requires k < q
    ensures Times(k, block) + block <= Times(q, block)
  {
    assert (k + 1) * block <= q * block;
  }

  lemma {:induction false} RoundUpIsLeastMultiple(n: nat, block: nat)
    requires block > 0
    ensures IsLeastMultiple(RoundUp(n, block), n, block) && RoundUp(n, block) < n + block
  {
    hide Times;
    var q := (n + block - 1) / block;
    assert RoundUp(n, block) == Times(q, block) && n <= Times(q, block) < n + block by {
      RoundUpBounds(n, block);
    }
    forall m: nat | n <= m && IsMultiple(m, block) ensures RoundUp(n, block) <= m {
      var k: nat :| m == Times(k, block);
      if k < q { TimesGrows(k, q, block); }
      if q < k { TimesGrows(q, k, block); }
    }
  }

  lemma {:induction false} RoundUpBounds(n: nat, block: nat)
    requires block > 0
    ensures RoundUp(n, block) == Times((n + block - 1) / block, block)
    ensures n <= RoundUp(n, block) < n + block
  {
    DivBounds(n + block - 1, block);
  }

  /** A padding option; its length field holds the low 16 bits. */
  function PaddingOption(pad: nat): (o: Packet)
    ensures |o| == OPTION_HEAD + pad
  {
    U16Bytes(OPTION_PADDING) + U16Bytes(pad % 0x1_0000) + Zeros(pad)
  }

  datatype OptScan = NoOpt | LastOpt(rr: Record) | BuriedOpt

  /** The first OPT record decides: it must end where the query ends to be extended. */
  function ScanOpt(additional: seq<Record>, size: nat): OptScan {
    if additional == [] then NoOpt
    else if additional[0].rtype != TYPE_OPT then ScanOpt(additional[1..], size)
    else if additional[0].End() == size then LastOpt(additional[0])
    else BuriedOpt
  }

  method ScanOptLoop(additional: seq<Record>, size: nat) returns (r: OptScan)
    ensures r == ScanOpt(additional, size)
  {
    for i := 0 to |additional|
      invariant ScanOpt(additional, size) == ScanOpt(additional[i..], size)
    {
      assert additional[i..][1..] == additional[i + 1..];
      if additional[i].rtype != TYPE_OPT { continue; }
      if additional[i].End() == size { return LastOpt(additional[i]); }
      return BuriedOpt;
    }
    return NoOpt;
  }

  /** Bytes the padding must add at least, and the zero bytes added on top. */
  function AddedHead(opt: OptScan): nat { if opt.LastOpt? then OPTION_HEAD else OPT_SKELETON + OPTION_HEAD }

  function PadLen(query: Packet, opt: OptScan, block: nat): nat
    requires block > 0
  {
    var atLeast := |query| + AddedHead(opt);
    assert RoundUp(atLeast, block) >= atLeast by { RoundUpBounds(atLeast, block); }
    RoundUp(atLeast, block) - atLeast
  }

  /** When `pad_query` pads rather than returning the query as it was. */
  predicate Pads(query: Packet, block: nat) {
    && block > 0 && Parse(query).Some?
    && var opt := ScanOpt(Parse(query).value.additional, |query|);
       match opt
       case BuriedOpt => false
       case LastOpt(rr) => |rr.rdata| + OPTION_HEAD + PadLen(query, opt, block) <= U16_MAX
       case NoOpt => Parse(query).value.header.arcount < U16_MAX
  }

  /** The OPT record header written when there was none; RDLENGTH holds the low 16 bits. */
  function NewOptHead(pad: nat): (h: Packet)
    ensures |h| == OPT_SKELETON
  {
    [0] + U16Bytes(TYPE_OPT) + U16Bytes(UDP_PAYLOAD) + [0, 0] + [0, 0] + U16Bytes((OPTION_HEAD + pad) % 0x1_0000)
  }

  function PadQuery(query: Packet, block: nat): Packet {
    if !Pads(query, block) then query
    else
      var opt := ScanOpt(Parse(query).value.additional, |query|);
      var pad := PadLen(query, opt, block);
      if opt.LastOpt? then
        LastOptIsLast(query);
        Patch(query, opt.rr.rdataOff - 2, U16Bytes(|opt.rr.rdata| + OPTION_HEAD + pad)) + PaddingOption(pad)
      else
        Patch(query, 10, U16Bytes(Parse(query).value.header.arcount + 1)) + NewOptHead(pad) + PaddingOption(pad)
  }

  method AppendPaddingOption(before: Packet, pad: nat) returns (out: Packet)
    ensures out == before + PaddingOption(pad)
  {
    out := before + U16Bytes(OPTION_PADDING);
    out := out + U16Bytes(pad % 0x1_0000);
    out := out + Zeros(pad);
  }

  /** `pad_query`: the output vector is grown and patched step by step. */
  method PadQuerySteps(query: Packet, block: nat) returns (out: Packet)
    ensures out == PadQuery(query, block)
  {
    hide ScanOpt, ParseFull, PadLen, PaddingOption, NewOptHead, U16Bytes, U16At;
    out := query;
    if block == 0 { return; }
    var parsed := ParseLoop(query);
    if parsed.None? { return; }
    var msg := parsed.value.msg;
    var opt := ScanOptLoop(msg.additional, |query|);
    if opt.BuriedOpt? { return; }
    var pad := PadLen(query, opt, block);
    if opt.LastOpt? {
      LastOptIsLast(query);
      var rdlen := |opt.rr.rdata| + OPTION_HEAD + pad;
      if rdlen > U16_MAX { return; }
      out := Patch(out, opt.rr.rdataOff - 2, U16Bytes(rdlen));
      out := AppendPaddingOption(out, pad);
      return;
    }
    assert U16At(query, 10) == msg.header.arcount by { HeaderCounts(query); }
    if U16At(query, 10) == U16_MAX { return; }
    out := AddOptRecord(query, pad);
  }

  /** The branch that appends an OPT record and then bumps ARCOUNT in the header. */
  method AddOptRecord(query: Packet, pad: nat) returns (out: Packet)
    requires |query| >= HEADER_SIZE && U16At(query, 10) < U16_MAX
    ensures out == Patch(query, 10, U16Bytes(U16At(query, 10) + 1)) + NewOptHead(pad) + PaddingOption(pad)
  {
    hide PaddingOption, NewOptHead, U16Bytes, U16At, Patch;
    var count := U16Bytes(U16At(query, 10) + 1);
    out := query + NewOptHead(pad);
    out := AppendPaddingOption(out, pad);
    assert out == query + (NewOptHead(pad) + PaddingOption(pad));
    out := Patch(out, 10, count);
    PatchBeforeAppend(query, 10, count, NewOptHead(pad) + PaddingOption(pad));
    assert out == Patch(query, 10, count) + NewOptHead(pad) + PaddingOption(pad);
  }

  lemma {:induction false} HeaderCounts(query: Packet)
    requires ParseFull(query).Some?
    ensures |query| >= HEADER_SIZE && U16At(query, 10) == ParseFull(query).value.msg.header.arcount
    ensures ParseFull(query).value.msg.header == ParseHeader(query)
  {
    hide U16At, ParseQuestions, ParseRecords;
  }

  lemma {:induction false} PatchBeforeAppend(p: Packet, off: nat, patch: Packet, tail: Packet)
    requires off + |patch| <= |p|
    ensures Patch(p + tail, off, patch) == Patch(p, off, patch) + tail
  {
  }

  // ----- where the OPT record is -----

  lemma {:induction false} ScanOptFinds(rs: seq<Record>, size: nat)
    ensures ScanOpt(rs, size).NoOpt? <==> forall k :: 0 <= k < |rs| ==> rs[k].rtype != TYPE_OPT
    ensures ScanOpt(rs, size).LastOpt? ==>
      exists k :: (&& 0 <= k < |rs| && rs[k] == ScanOpt(rs, size).rr && rs[k].rtype == TYPE_OPT && rs[k].End() == size
                   && forall j :: 0 <= j < k ==> rs[j].rtype != TYPE_OPT)
  {
    if rs != [] {
      var rest := rs[1..];
      ScanOptFinds(rest, size);
      assert forall k :: 1 <= k < |rs| ==> rs[k] == rest[k - 1];
      if rs[0].rtype != TYPE_OPT && ScanOpt(rest, size).LastOpt? {
        var k :| 0 <= k < |rest| && rest[k] == ScanOpt(rest, size).rr &&
          rest[k].rtype == TYPE_OPT && rest[k].End() == size && forall j :: 0 <= j < k ==> rest[j].rtype != TYPE_OPT;
        assert rs[k + 1] == rest[k];
      }
    }
  }

  /** An OPT record that ends the packet is the last record, and parsing consumed everything. */
  lemma {:induction false} LastOptIsLast(query: Packet)
    requires Parse(query).Some? && ScanOpt(Parse(query).value.additional, |query|).LastOpt?
    ensures var p := ParseFull(query).value; var rr := ScanOpt(p.msg.additional, |query|).rr;
      && p.msg.additional != [] && p.msg.additional[|p.msg.additional| - 1] == rr
      && (forall k :: 0 <= k < |p.msg.additional| - 1 ==> p.msg.additional[k].rtype != TYPE_OPT)
      && rr.rtype == TYPE_OPT && rr.End() == |query| == p.end && rr.rdataOff >= HEADER_SIZE + 11
  {
    hide ParseFull, ScanOpt;
    var p := ParseFull(query).value;
    var rs := p.msg.additional;
    ScanOptFinds(rs, |query|);
    MessageIsLaid(query);
    var k :| 0 <= k < |rs| && rs[k] == ScanOpt(rs, |query|).rr && rs[k].rtype == TYPE_OPT && rs[k].End() == |query|
      && forall j :: 0 <= j < k ==> rs[j].rtype != TYPE_OPT;
    var base := |p.msg.answers| + |p.msg.authority|;
    var end := |rs| - 1;
    assert p.msg.Records()[base + k] == rs[k];
    assert p.msg.Records()[base + end] == rs[end];
    assert k == end;
  }

  // ----- a message whose last record is new or has grown -----

  lemma {:induction false} SingleRecord(pkt: Packet, cursor: nat)
    ensures ParseRecord(pkt, cursor).Some? ==>
      ParseRecords(pkt, cursor, 1) == Some(Run([ParseRecord(pkt, cursor).value], ParseRecord(pkt, cursor).value.End()))
  {
    hide ParseRecord;
    if ParseRecord(pkt, cursor).Some? {
      var rr := ParseRecord(pkt, cursor).value;
      assert ParseRecords(pkt, rr.End(), 0) == Some(Run([], rr.End()));
      assert [rr] + [] == [rr];
    }
  }

  /** The first records of a run and the one after them. */
  lemma {:induction false} RunSnoc(pkt: Packet, cursor: nat, init: seq<Record>, last: Record, c: nat)
    requires c == if init == [] then cursor else init[|init| - 1].End()
    ensures ParseRecords(pkt, cursor, |init| + 1) == Some(Run(init + [last], last.End())) <==>
      ParseRecords(pkt, cursor, |init|) == Some(Run(init, c)) && ParseRecord(pkt, c) == Some(last)
  {
    hide ParseRecord, ParseRecords;
    ParseRecordsSplit(pkt, cursor, |init|, 1);
    var first := ParseRecords(pkt, cursor, |init|);
    if first.Some? {
      RunEnds(pkt, cursor, |init|);
      OneRecord(pkt, first.value.next);
      var r := ParseRecord(pkt, first.value.next);
      if r.Some? { SnocEqual(first.value.items, r.value, init, last); }
    }
  }

  /** A run ends where its last record does. */
  lemma {:induction false} RunEnds(pkt: Packet, cursor: nat, count: nat)
    requires ParseRecords(pkt, cursor, count).Some?
    ensures var r := ParseRecords(pkt, cursor, count).value;
      |r.items| == count && r.next == if count == 0 then cursor else r.items[count - 1].End()
    decreases count
  {
    hide ParseRecord;
    if count > 0 { RunEnds(pkt, ParseRecord(pkt, cursor).value.End(), count - 1); }
  }

  lemma {:induction false} OneRecord(pkt: Packet, cursor: nat)
    ensures ParseRecord(pkt, cursor).None? ==> ParseRecords(pkt, cursor, 1).None?
    ensures ParseRecord(pkt, cursor).Some? ==>
      ParseRecords(pkt, cursor, 1) == Some(Run([ParseRecord(pkt, cursor).value], ParseRecord(pkt, cursor).value.End()))
  {
    hide ParseRecord;
    SingleRecord(pkt, cursor);
  }

  lemma {:induction false} SnocEqual(xs: seq<Record>, a: Record, ys: seq<Record>, b: Record)
    requires |xs| == |ys|
    ensures xs + [a] == ys + [b] <==> xs == ys && a == b
  {
    assert (xs + [a])[..|xs|] == xs && (ys + [b])[..|ys|] == ys && (xs + [a])[|xs|] == a && (ys + [b])[|ys|] == b;
  }

  lemma {:induction false} RecordStartAfter(pkt: Packet, cursor: nat, count: nat)
    requires ParseRecords(pkt, cursor, count).Some?
    ensures RecordStart(pkt, cursor, count) == ParseRecords(pkt, cursor, count).value.next
    decreases count
  {
    hide ParseRecord;
    if count > 0 {
      RecordStartAfter(pkt, ParseRecord(pkt, cursor).value.End(), count - 1);
    }
  }

  lemma {:induction false} RereadOne(pkt: Packet, to: Packet, rr: Record)
    requires rr.rdataOff >= 6 && rr.End() <= |pkt| && Reread(rr, pkt) == rr
    requires SameRange(pkt, to, rr.rdataOff - 6, rr.End())
    ensures Reread(rr, to) == rr
  {
    hide U32At;
    SameU32Range(pkt, to, rr.rdataOff - 6);
    assert to[rr.rdataOff..rr.End()] == pkt[rr.rdataOff..rr.End()];
  }

  /** The records at the front of a message are a run of their own. */
  lemma {:induction false} FrontRecords(query: Packet, init: seq<Record>)
    requires ParseFull(query).Some? && init <= ParseFull(query).value.msg.Records()
    ensures var qEnd := ParseFull(query).value.msg.questionEnd; var c := RecordStart(query, qEnd, |init|);
      && ParseRecords(query, qEnd, |init|) == Some(Run(init, c)) && HEADER_SIZE <= qEnd <= c
      && c == (if init == [] then qEnd else init[|init| - 1].End())
  {
    hide ParseFull, RecordStart, ParseRecords;
    var m := ParseFull(query).value.msg;
    var n := |init|;
    MessageIsLaid(query);
    SectionsAreOneRun(query);
    ParseRecordsSplit(query, m.questionEnd, n, |m.Records()| - n);
    RunEnds(query, m.questionEnd, n);
    var first := ParseRecords(query, m.questionEnd, n).value;
    var rest := ParseRecords(query, first.next, |m.Records()| - n).value;
    assert m.Records() == first.items + rest.items;
    assert init == m.Records()[..n] == first.items;
    RecordStartAfter(query, m.questionEnd, n);
    assert n > 0 ==> init[n - 1] == m.Records()[n - 1];
  }

  /** They are unchanged in a buffer that agrees up to where they end. */
  lemma {:induction false} FrontFields(query: Packet, to: Packet, init: seq<Record>, x: Record)
    requires ParseFull(query).Some? && init <= ParseFull(query).value.msg.Records() && x in init
    requires SameRange(query, to, HEADER_SIZE, init[|init| - 1].End())
    ensures 10 <= x.rdataOff && x.End() <= |to| && KeepsFixedFields(query, to, x) && Reread(x, to) == x
  {
    hide ParseFull, Reread, ParseRecords, RecordStart;
    var m := ParseFull(query).value.msg;
    FrontRecords(query, init);
    RecordsAreHonest(query, m.questionEnd, |init|);
    FrontPlace(query, init, x);
    RereadOne(query, to, x);
  }

  lemma {:induction false} FrontPlace(query: Packet, init: seq<Record>, x: Record)
    requires ParseFull(query).Some? && init <= ParseFull(query).value.msg.Records() && x in init
    ensures HEADER_SIZE + 11 <= x.rdataOff && x.End() <= init[|init| - 1].End()
  {
    hide ParseFull;
    var records := ParseFull(query).value.msg.Records();
    MessageIsLaid(query);
    var j :| 0 <= j < |init| && init[j] == x;
    assert records[j] == x && records[|init| - 1] == init[|init| - 1];
  }

  /** So they are found there exactly if their owner names stand. */
  lemma {:induction false} FrontStands(query: Packet, to: Packet, init: seq<Record>, c: nat)
    requires ParseFull(query).Some? && init <= ParseFull(query).value.msg.Records()
    requires c == RecordStart(query, ParseFull(query).value.msg.questionEnd, |init|)
      && SameRange(query, to, HEADER_SIZE, c)
    ensures var qEnd := ParseFull(query).value.msg.questionEnd;
      && HEADER_SIZE <= qEnd <= c && c == (if init == [] then qEnd else init[|init| - 1].End())
      && (OwnersStand(query, to, qEnd, |init|) <==> ParseRecords(to, qEnd, |init|) == Some(Run(init, c)))
  {
    hide ParseFull, RecordStart, Reread, OwnersStand, ParseRecords, KeepsFixedFields;
    FrontRecords(query, init);
    forall x | x in init
      ensures 10 <= x.rdataOff && x.End() <= |to| && KeepsFixedFields(query, to, x) && Reread(x, to) == x {
      FrontFields(query, to, init, x);
    }
    RecordsStand(query, to, ParseFull(query).value.msg.questionEnd, |init|);
    assert RereadAll(init, to) == init;
  }

  /** A message whose last record is another one: it is what the buffer parses to exactly if every earlier
      name stands and that record is found where the earlier ones end. */
  lemma {:induction false} LastRecordExactly(query: Packet, to: Packet, before: seq<Record>, last: Record, c: nat)
    requires ParseFull(query).Some? && before <= ParseFull(query).value.msg.additional
    requires var m := ParseFull(query).value.msg;
      && c == RecordStart(query, m.questionEnd, |m.answers| + |m.authority| + |before|)
        && SameRange(query, to, HEADER_SIZE, c)
    requires |to| >= HEADER_SIZE
    requires var m := ParseFull(query).value.msg; var h := ParseHeader(to);
      h.qdcount == |m.questions| && h.ancount == |m.answers| && h.nscount == |m.authority| && h.arcount == |before| + 1
    ensures var m := ParseFull(query).value.msg; var n := |m.answers| + |m.authority| + |before|;
      ParseFull(to) == Some(Parsed(m.(header := ParseHeader(to), additional := before + [last]), last.End())) <==>
        && AskedStand(query, to, HEADER_SIZE, |m.questions|) && OwnersStand(query, to, m.questionEnd, n)
        && ParseRecord(to, c) == Some(last)
  {
    hide ParseFull, ParseHeader, RecordStart, AskedStand, OwnersStand, ParseRecord, ParseRecords, ParseQuestions;
    var m := ParseFull(query).value.msg;
    var init := m.answers + m.authority + before;
    assert m.Records()[..|init|] == init;
    FrontStands(query, to, init, c);
    MessageIsLaid(query);
    SectionsAreOneRun(query);
    QuestionsStand(query, to, HEADER_SIZE, |m.questions|);
    RunSnoc(to, m.questionEnd, init, last, c);
    assert init + [last] == m.answers + m.authority + (before + [last]);
    if ParseFull(to) == Some(Parsed(m.(header := ParseHeader(to), additional := before + [last]), last.End())) {
      SectionsAreOneRun(to);
    } else if AskedStand(query, to, HEADER_SIZE, |m.questions|) && OwnersStand(query, to, m.questionEnd, |init|)
      && ParseRecord(to, c) == Some(last) {
      Assemble(to, m.questions, m.questionEnd, m.answers, m.authority, before + [last], last.End());
    }
  }

  // ----- the query that had no OPT -----

  lemma {:induction false} HeaderExceptArcount(pkt: Packet, to: Packet)
    requires |pkt| >= HEADER_SIZE && |to| >= HEADER_SIZE && SameRange(pkt, to, 0, 10)
    ensures ParseHeader(to) == ParseHeader(pkt).(arcount := U16At(to, 10))
  {
    hide U16At;
    SameU16(pkt, to, 0);
    SameU16(pkt, to, 2);
    SameU16(pkt, to, 4);
    SameU16(pkt, to, 6);
    SameU16(pkt, to, 8);
  }

  lemma {:induction false} NewOptHeadFields(pad: nat)
    ensures var h := NewOptHead(pad);
      && h[0] == 0 && U16At(h, 1) == TYPE_OPT && U16At(h, 3) == UDP_PAYLOAD && U32At(h, 5) == 0
      && U16At(h, 9) == (OPTION_HEAD + pad) % 0x1_0000
  {
  }

  /** Fields of a buffer that continues with `h` at `n`. */
  lemma {:induction false} FieldsAfter(before: Packet, h: Packet, tail: Packet, k: nat)
    requires k + 2 <= |h|
    ensures U16At(before + h + tail, |before| + k) == U16At(h, k)
    ensures k + 4 <= |h| ==> U32At(before + h + tail, |before| + k) == U32At(h, k)
  {
    var to := before + h + tail;
    assert forall i :: 0 <= i < |h| ==> to[|before| + i] == h[i];
  }

  /** What is appended, found as a record at `c`: its name is the root and ends where the appended fields
      begin, and its RDATA is what RDLENGTH says. */
  lemma {:induction false} AppendedRecord(before: Packet, pad: nat, c: nat)
    requires DecodeName(before + NewOptHead(pad) + PaddingOption(pad), c) == Some(Decoded([], |before| + 1))
    ensures ParseRecord(before + NewOptHead(pad) + PaddingOption(pad), c) == Some(NewOpt(|before|, pad))
  {
    hide PaddingOption, NewOptHead, U16At, U32At, DecodeName;
    var h, o := NewOptHead(pad), PaddingOption(pad);
    var to := before + h + o;
    var n := |before|;
    NewOptHeadFields(pad);
    FieldsAfter(before, h, o, 1);
    FieldsAfter(before, h, o, 3);
    FieldsAfter(before, h, o, 5);
    FieldsAfter(before, h, o, 9);
    var rdlen := (OPTION_HEAD + pad) % 0x1_0000;
    assert to[n + 11..n + 11 + rdlen] == o[..rdlen];
  }

  /** The record added to a query of that size: its RDATA is as much of the option as RDLENGTH can say. */
  function NewOpt(size: nat, pad: nat): Record {
    Record([], TYPE_OPT, UDP_PAYLOAD, 0, size + OPT_SKELETON, PaddingOption(pad)[..(OPTION_HEAD + pad) % 0x1_0000])
  }

  lemma {:induction false} FoundName(pkt: Packet, c: nat, rr: Record)
    requires ParseRecord(pkt, c) == Some(rr)
    ensures rr.rdataOff >= 10 && DecodeName(pkt, c) == Some(Decoded(rr.name, rr.rdataOff - 10))
  {
    hide Labels, NameEnd, Join;
  }

  /** The shape of a query to which an OPT record has been added. */
  lemma {:induction false} NewOptShape(query: Packet, block: nat)
    requires Pads(query, block) && ScanOpt(Parse(query).value.additional, |query|).NoOpt?
    ensures var m := Parse(query).value; var pad := PadLen(query, NoOpt, block); var to := PadQuery(query, block);
      && HEADER_SIZE <= |query|
        && to == Patch(query, 10, U16Bytes(m.header.arcount + 1)) + NewOptHead(pad) + PaddingOption(pad)
      && SameRange(query, to, HEADER_SIZE, |query|) && to[|query|] == 0
      && ParseHeader(to) == m.header.(arcount := m.header.arcount + 1)
  {
    hide ParseFull, ParseHeader, ScanOpt, PadLen, PaddingOption, NewOptHead;
    var m := Parse(query).value;
    var pad := PadLen(query, NoOpt, block);
    var to := PadQuery(query, block);
    HeaderCounts(query);
    NewOptHeadFields(pad);
    assert to[10..12] == U16Bytes(m.header.arcount + 1);
    FieldU16(to, 10, U16Bytes(m.header.arcount + 1));
    HeaderExceptArcount(query, to);
  }

  lemma {:induction false} FieldU16(p: Packet, off: nat, b: Packet)
    requires off + 2 <= |p| && |b| == 2 && forall i :: 0 <= i < 2 ==> p[off + i] == b[i]
    ensures U16At(p, off) == U16At(b, 0)
  {
    assert p[off + 0] == b[0] && p[off + 1] == b[1];
  }

  /** A query that had no OPT, padded: it parses to the same message plus the new record exactly if its names
      stand and the root name is read where parsing stopped and ends after the first byte appended. */
  lemma {:induction false} NewOptExactly(query: Packet, block: nat)
    requires Pads(query, block) && ScanOpt(Parse(query).value.additional, |query|).NoOpt?
    ensures var p := ParseFull(query).value; var m := p.msg; var to := PadQuery(query, block);
      var opt := NewOpt(|query|, PadLen(query, NoOpt, block));
      ParseFull(to) ==
        Some(Parsed(m.(header := m.header.(arcount := m.header.arcount + 1), additional := m.additional + [opt]),
          opt.End())) <==>
        NamesStand(query, to) && DecodeName(to, p.end) == Some(Decoded([], |query| + 1))
  {
    hide ParseFull, ParseHeader, ScanOpt, PadLen, PaddingOption, NewOptHead, RecordStart, AskedStand, OwnersStand,
      ParseRecord, DecodeName, PadQuery;
    var p := ParseFull(query).value;
    var m := p.msg;
    var pad := PadLen(query, NoOpt, block);
    var to := PadQuery(query, block);
    var opt := NewOpt(|query|, pad);
    NewOptShape(query, block);
    HeaderCounts(query);
    SectionsAreOneRun(query);
    MessageIsLaid(query);
    RecordStartAfter(query, m.questionEnd, |m.Records()|);
    LastRecordExactly(query, to, m.additional, opt, p.end);
    if DecodeName(to, p.end) == Some(Decoded([], |query| + 1)) {
      AppendedRecord(Patch(query, 10, U16Bytes(m.header.arcount + 1)), pad, p.end);
    }
    if ParseRecord(to, p.end) == Some(opt) { FoundName(to, p.end, opt); }
  }

  /** Which queries have the root name there: those consumed to their end, and those with one byte left that
      makes a pointer with the zero byte appended and leads to a root name. */
  lemma {:induction false} RootWhereParsingStopped(query: Packet, to: Packet, end: nat)
    requires end <= |query| < |to| && SameRange(query, to, end, |query|) && to[|query|] == 0
    ensures DecodeName(to, end) == Some(Decoded([], |query| + 1)) <==>
      || end == |query|
      || (end + 1 == |query| && query[end] >= 192
            && Labels(to, (query[end] as int - 192) * 0x100, MAX_HOPS - 1) == Some([]))
  {
    hide Labels, NameEnd;
    OtherStep(to, |query|, MAX_HOPS);
    if end < |query| {
      if to[end] >= 64 || to[end] == 0 {
        OtherStep(to, end, MAX_HOPS);
        if end + 1 == |query| && to[end] >= 192 { StrayPointer(to, end); }
        RootOnly(to, end);
      } else {
        LongName(to, end);
      }
    }
  }

  lemma {:induction false} StrayPointer(to: Packet, end: nat)
    requires end + 1 < |to| && to[end] >= 192 && to[end + 1] == 0
    ensures PointerTarget(to, end) == (to[end] as int - 192) * 0x100
    ensures Labels(to, end, MAX_HOPS) == Labels(to, PointerTarget(to, end), MAX_HOPS - 1)
  {
    hide NameEnd;
  }

  lemma {:induction false} RootOnly(to: Packet, c: nat)
    ensures DecodeName(to, c).Some? && DecodeName(to, c).value.name == [] <==> Labels(to, c, MAX_HOPS) == Some([])
    ensures DecodeName(to, c).Some? ==> DecodeName(to, c).value.next == NameEnd(to, c)
  {
    hide Labels, NameEnd;
    if Labels(to, c, MAX_HOPS).Some? && Labels(to, c, MAX_HOPS).value != [] {
      LabelsAreLabels(to, c, MAX_HOPS);
      JoinedNotEmpty(Labels(to, c, MAX_HOPS).value);
    }
  }

  /** A name that begins with a label is not the root. */
  lemma {:induction false} LongName(to: Packet, c: nat)
    requires c < |to| && 0 < to[c] < 64
    ensures DecodeName(to, c).Some? ==> DecodeName(to, c).value.name != []
  {
    hide NameEnd;
    RootOnly(to, c);
  }

  lemma {:induction false} JoinedNotEmpty(ls: seq<Name>)
    requires ls != [] && forall l :: l in ls ==> 1 <= |l|
    ensures Join(ls) != []
  {
    assert ls[0] in ls;
  }

  // ----- the query that already had one -----

  /** The shape of a query whose last OPT record has grown. */
  lemma {:induction false} GrownShape(query: Packet, block: nat)
    requires Pads(query, block) && ScanOpt(Parse(query).value.additional, |query|).LastOpt?
    ensures var m := Parse(query).value; var opt := ScanOpt(m.additional, |query|);
      var extra := PaddingOption(PadLen(query, opt, block)); var to := PadQuery(query, block);
      && HEADER_SIZE + 11 <= opt.rr.rdataOff && opt.rr.End() == |query| && |opt.rr.rdata| + |extra| <= U16_MAX
      && to == Patch(query, opt.rr.rdataOff - 2, U16Bytes(|opt.rr.rdata| + |extra|)) + extra
      && SameRange(query, to, 0, opt.rr.rdataOff - 2) && ParseHeader(to) == m.header
  {
    hide ParseFull, ParseHeader, ScanOpt, PadLen, PaddingOption, U16Bytes;
    LastOptIsLast(query);
    HeaderCounts(query);
    SameHeader(query, PadQuery(query, block));
  }

  /** A last record given more RDATA is found exactly if its owner name stands. */
  lemma {:induction false} GrownRecord(pkt: Packet, cursor: nat, extra: Packet)
    requires ParseRecord(pkt, cursor).Some?
    requires var rr := ParseRecord(pkt, cursor).value;
      rr.End() == |pkt| && |rr.rdata| + |extra| <= U16_MAX && rr.rdataOff >= 10
    ensures var rr := ParseRecord(pkt, cursor).value;
      var to := Patch(pkt, rr.rdataOff - 2, U16Bytes(|rr.rdata| + |extra|)) + extra;
      ParseRecord(to, cursor) == Some(rr.(rdata := rr.rdata + extra)) <==> NameStands(pkt, to, cursor)
  {
    hide DecodeName, U16At, U32At, U16Bytes;
    var rr := ParseRecord(pkt, cursor).value;
    var len: U16 := |rr.rdata| + |extra|;
    var to := Patch(pkt, rr.rdataOff - 2, U16Bytes(len)) + extra;
    var at := rr.rdataOff - 10;
    SameU16(pkt, to, at);
    SameU16(pkt, to, at + 2);
    SameU32Range(pkt, to, at + 4);
    FieldU16(to, at + 8, U16Bytes(len));
    assert to[rr.rdataOff..|to|] == rr.rdata + extra;
    if ParseRecord(to, cursor) == Some(rr.(rdata := rr.rdata + extra)) {
      FoundName(to, cursor, rr.(rdata := rr.rdata + extra));
    }
    FoundName(pkt, cursor, rr);
  }

  /** A query that ends in an OPT record, padded: it parses to the same message with the option added to that
      record exactly if its names stand. */
  lemma {:induction false} LastOptExactly(query: Packet, block: nat)
    requires Pads(query, block) && ScanOpt(Parse(query).value.additional, |query|).LastOpt?
    ensures var m := Parse(query).value; var opt := ScanOpt(m.additional, |query|); var to := PadQuery(query, block);
      var last := opt.rr.(rdata := opt.rr.rdata + PaddingOption(PadLen(query, opt, block)));
      && |m.additional| > 0 && last.End() == |to|
      && (ParseFull(to) == Some(Parsed(m.(additional := m.additional[..|m.additional| - 1] + [last]), last.End())) <==>
            NamesStand(query, to))
  {
    hide ParseFull, ParseHeader, ScanOpt, PadLen, PaddingOption, U16Bytes, RecordStart, AskedStand, ParseRecord,
      NameStands, PadQuery, ParseRecords;
    var m := ParseFull(query).value.msg;
    var opt := ScanOpt(m.additional, |query|);
    var to := PadQuery(query, block);
    var extra := PaddingOption(PadLen(query, opt, block));
    var last := opt.rr.(rdata := opt.rr.rdata + extra);
    LastOptIsLast(query);
    GrownShape(query, block);
    HeaderCounts(query);
    SectionsAreOneRun(query);
    var before := m.additional[..|m.additional| - 1];
    var n := |m.Records()| - 1;
    var c := RecordStart(query, m.questionEnd, n);
    LastStart(query);
    LastRecordExactly(query, to, before, last, c);
    GrownRecord(query, c, extra);
    assert OwnersStand(query, to, m.questionEnd, n + 1) <==>
      OwnersStand(query, to, m.questionEnd, n) && NameStands(query, to, c);
  }

  /** Where the last record of a message starts. */
  lemma {:induction false} LastStart(query: Packet)
    requires ParseFull(query).Some? && ParseFull(query).value.msg.Records() != []
    ensures var m := ParseFull(query).value.msg; var n := |m.Records()| - 1;
      var c := RecordStart(query, m.questionEnd, n);
      HEADER_SIZE <= c <= m.Records()[n].rdataOff - 11 && ParseRecord(query, c) == Some(m.Records()[n])
  {
    hide ParseFull, RecordStart, ParseRecord, ParseRecords;
    var m := ParseFull(query).value.msg;
    var n := |m.Records()| - 1;
    var init, last := m.Records()[..n], m.Records()[n];
    SectionsAreOneRun(query);
    MessageIsLaid(query);
    RecordStartIs(query, m.questionEnd, n + 1, n);
    assert m.Records() == init + [last];
    RunEnds(query, m.questionEnd, n + 1);
    RunSnoc(query, m.questionEnd, init, last, RecordStart(query, m.questionEnd, n));
  }

  // ----- the theorem -----

  /** Bytes of the query that padding overwrites: ARCOUNT, or RDLENGTH of the OPT record that is there. */
  predicate Overwrites(query: Packet, i: nat)
    requires Parse(query).Some?
  {
    match ScanOpt(Parse(query).value.additional, |query|)
    case NoOpt => 10 <= i < 12
    case LastOpt(rr) => rr.rdataOff - 2 <= i < rr.rdataOff
    case BuriedOpt => false
  }

  /** No name of the query is decoded from a byte that padding overwrites. */
  ghost predicate PaddingClearOfNames(query: Packet)
    requires Parse(query).Some?
  {
    forall i: nat :: Overwrites(query, i) ==> !NameReads(query, i)
  }

  /** The message a padded query stands for. */
  function PaddedMessage(query: Packet, block: nat): Message
    requires Pads(query, block)
  {
    var m := Parse(query).value;
    var opt := ScanOpt(m.additional, |query|);
    var pad := PadLen(query, opt, block);
    if opt.LastOpt? && |m.additional| > 0 then
      m.(additional := m.additional[..|m.additional| - 1] + [opt.rr.(rdata := opt.rr.rdata + PaddingOption(pad))])
    else
      m.(header := m.header.(arcount := m.header.arcount + 1),
         additional :=
           m.additional + [Record([], TYPE_OPT, UDP_PAYLOAD, 0, |query| + OPT_SKELETON, PaddingOption(pad))])
  }

  /** Exactly when padding preserves meaning: every name of the query stands and, if an OPT record has to be
      added, the root name is read where parsing had stopped and the option fits in RDLENGTH. The result then
      re-parses to its last byte as the same message with one padding option in its last OPT record. */
  lemma {:induction false} PaddingExactly(query: Packet, block: nat)
    requires Pads(query, block)
    ensures var to := PadQuery(query, block); var opt := ScanOpt(Parse(query).value.additional, |query|);
      ParseFull(to) == Some(Parsed(PaddedMessage(query, block), |to|)) <==>
        && NamesStand(query, to)
        && (opt.NoOpt? ==>
              && DecodeName(to, ParseFull(query).value.end) == Some(Decoded([], |query| + 1))
              && OPTION_HEAD + PadLen(query, opt, block) <= U16_MAX)
  {
    hide ParseFull, ScanOpt, PadLen, PaddingOption, NamesStand, DecodeName, NewOptHead;
    var opt := ScanOpt(Parse(query).value.additional, |query|);
    if opt.LastOpt? {
      LastOptExactly(query, block);
    } else {
      NewOptShape(query, block);
      NewOptExactly(query, block);
      FittingOption(query, block);
    }
  }

  // ----- what is added is a padding option -----

  /** An option of an OPT record (section 6.1.2 of RFC 6891). */
  datatype EdnsOption = EdnsOption(code: int, data: Packet)

  /** Where the first option of a list ends, from its length field. */
  function OptionEnd(d: Packet): (n: nat)
    requires |d| >= 4
    ensures n >= 4
  {
    4 + (d[2] as int) * 256 + d[3]
  }

  /** RDATA as a list of options: code, length and data, one after the other. */
  function ReadOptions(d: Packet): Option<seq<EdnsOption>>
    decreases |d|
  {
    if d == [] then Some([])
    else if |d| < 4 || OptionEnd(d) > |d| then None
    else
      match ReadOptions(d[OptionEnd(d)..])
      case None => None
      case Some(rest) => Some([FirstOption(d)] + rest)
  }

  /** The first option of a list that is not empty. */
  function FirstOption(d: Packet): EdnsOption
    requires |d| >= 4 && OptionEnd(d) <= |d|
  {
    EdnsOption((d[0] as int) * 256 + d[1], d[4..OptionEnd(d)])
  }

  lemma {:induction false} OptionStep(d: Packet)
    requires d != []
    ensures ReadOptions(d).Some? <==> |d| >= 4 && OptionEnd(d) <= |d| && ReadOptions(d[OptionEnd(d)..]).Some?
    ensures ReadOptions(d).Some? ==> ReadOptions(d).value == [FirstOption(d)] + ReadOptions(d[OptionEnd(d)..]).value
  {
  }

  lemma {:induction false} SameFirstOption(a: Packet, b: Packet)
    requires |a| >= 4 && OptionEnd(a) <= |a|
    ensures OptionEnd(a + b) == OptionEnd(a) && FirstOption(a + b) == FirstOption(a)
    ensures (a + b)[OptionEnd(a)..] == a[OptionEnd(a)..] + b
  {
  }

  lemma {:induction false} OptionsAppend(a: Packet, b: Packet)
    requires ReadOptions(a).Some? && ReadOptions(b).Some?
    ensures ReadOptions(a + b) == Some(ReadOptions(a).value + ReadOptions(b).value)
    decreases |a|
  {
    if a == [] {
      assert a + b == b && [] + ReadOptions(b).value == ReadOptions(b).value;
    } else {
      hide ReadOptions, OptionEnd, FirstOption;
      OptionStep(a);
      SameFirstOption(a, b);
      OptionsAppend(a[OptionEnd(a)..], b);
      OptionStep(a + b);
      var xs, ys := ReadOptions(a[OptionEnd(a)..]).value, ReadOptions(b).value;
      assert [FirstOption(a)] + (xs + ys) == [FirstOption(a)] + xs + ys;
    }
  }

  /** The bytes of the option: code 12, the length of the rest, zeros. */
  lemma {:induction false} PaddingOptionBytes(pad: nat)
    requires pad < 0x1_0000
    ensures PaddingOption(pad) == [0, 12, pad / 256, pad % 256] + Zeros(pad)
  {
    assert U16Bytes(OPTION_PADDING) == [0, 12] && U16Bytes(pad) == [pad / 256, pad % 256];
  }

  lemma {:induction false} PaddingIsRead(pad: nat)
    requires pad < 0x1_0000
    ensures ReadOptions([0, 12, pad / 256, pad % 256] + Zeros(pad)) == Some([EdnsOption(12, Zeros(pad))])
  {
    hide Zeros;
    var d: Packet := [0, 12, pad / 256, pad % 256] + Zeros(pad);
    assert d[2] == pad / 256 && d[3] == pad % 256 && OptionEnd(d) == 4 + pad;
    assert d[4..4 + pad] == Zeros(pad) && d[4 + pad..] == [];
    assert ReadOptions([]) == Some([]);
    assert [EdnsOption(12, Zeros(pad))] + [] == [EdnsOption(12, Zeros(pad))];
  }

  /** RDATA of the OPT record that is there to be extended, if any. */
  function OldOptions(query: Packet): Packet
    requires Parse(query).Some?
  {
    match ScanOpt(Parse(query).value.additional, |query|) case LastOpt(rr) => rr.rdata case _ => []
  }

  /** The one message is the other with a padding option added: everything else is kept, and the last additional
      record, which is the one that was last or a new OPT record with an empty name, payload size 4096 and TTL 0,
      has behind its old options one more, of code 12 and with `pad` zero bytes. */
  ghost predicate AddsPadding(m: Message, to: Message, size: nat, isNew: bool, before: Packet, pad: nat) {
    var n := |to.additional|;
    && to.header == m.header.(arcount := to.header.arcount) && to.header.arcount == n
    && to.questions == m.questions && to.answers == m.answers && to.authority == m.authority
    && n == |m.additional| + (if isNew then 1 else 0) && n > 0 && pad < 0x1_0000
    && to.additional[..n - 1] == m.additional[..n - 1]
    && var last := to.additional[n - 1];
       && last.rtype == 41 && last.rdata == before + ([0, 12, pad / 256, pad % 256] + Zeros(pad))
       && last == if isNew then Record([], 41, 4096, 0, size + 11, last.rdata)
                  else m.additional[n - 1].(rdata := last.rdata)
  }

  /** Whatever options were there are still there, and the padding is the one behind them. */
  lemma {:induction false} PaddingIsAdded(before: Packet, pad: nat)
    requires pad < 0x1_0000 && ReadOptions(before).Some?
    ensures ReadOptions(before + ([0, 12, pad / 256, pad % 256] + Zeros(pad)))
         == Some(ReadOptions(before).value + [EdnsOption(12, Zeros(pad))])
  {
    hide Zeros, ReadOptions;
    PaddingIsRead(pad);
    OptionsAppend(before, [0, 12, pad / 256, pad % 256] + Zeros(pad));
  }

  lemma {:induction false} PadIs(query: Packet, block: nat)
    requires Pads(query, block)
    ensures var opt := ScanOpt(Parse(query).value.additional, |query|);
      |PadQuery(query, block)| == |query| + AddedHead(opt) + PadLen(query, opt, block)
  {
    hide ParseFull, ScanOpt, PadLen, PaddingOption, NewOptHead;
  }

  /** What padding does to the message, in full, where `pad` is what fills the query up to the block. */
  lemma {:induction false} PaddedMessageIs(query: Packet, block: nat)
    requires Pads(query, block)
    requires var opt := ScanOpt(Parse(query).value.additional, |query|);
      opt.NoOpt? ==> OPTION_HEAD + PadLen(query, opt, block) <= U16_MAX
    ensures var m := Parse(query).value; var opt := ScanOpt(m.additional, |query|);
      var pad := |PadQuery(query, block)| - |query| - AddedHead(opt);
      pad >= 0 && AddsPadding(m, PaddedMessage(query, block), |query|, opt.NoOpt?, OldOptions(query), pad)
  {
    hide ParseFull, ScanOpt, PadLen, PaddingOption, PadQuery, Zeros, AddsPadding;
    var m := Parse(query).value;
    var opt := ScanOpt(m.additional, |query|);
    var pad := PadLen(query, opt, block);
    PadIs(query, block);
    SectionsAreOneRun(query);
    PaddingOptionBytes(pad);
    if opt.LastOpt? {
      LastOptIsLast(query);
      GrownPadding(m, |query|, pad);
    } else {
      NewPadding(m, |query|, pad);
    }
  }

  lemma {:induction false} GrownPadding(m: Message, size: nat, pad: nat)
    requires pad < 0x1_0000 && m.header.arcount == |m.additional| > 0 && m.additional[|m.additional| - 1].rtype == 41
    ensures var n := |m.additional|; var last := m.additional[n - 1];
      var to := m.(additional := m.additional[..n - 1]
                   + [last.(rdata := last.rdata + ([0, 12, pad / 256, pad % 256] + Zeros(pad)))]);
      AddsPadding(m, to, size, false, last.rdata, pad)
  {
    hide Zeros;
  }

  lemma {:induction false} NewPadding(m: Message, size: nat, pad: nat)
    requires pad < 0x1_0000 && m.header.arcount == |m.additional| < U16_MAX
    ensures var opt := Record([], 41, 4096, 0, size + 11, [0, 12, pad / 256, pad % 256] + Zeros(pad));
      var to := m.(header := m.header.(arcount := m.header.arcount + 1), additional := m.additional + [opt]);
      AddsPadding(m, to, size, true, [], pad)
  {
    hide Zeros;
    var bytes: Packet := [0, 12, pad / 256, pad % 256] + Zeros(pad);
    assert [] + bytes == bytes;
  }

  /** The OPT record that decides is the first. */
  lemma {:induction false} ScanOptAt(rs: seq<Record>, size: nat, k: nat)
    requires k < |rs| && rs[k].rtype == 41 && forall j :: 0 <= j < k ==> rs[j].rtype != 41
    ensures ScanOpt(rs, size) == if rs[k].End() == size then LastOpt(rs[k]) else BuriedOpt
  {
    if k > 0 { ScanOptAt(rs[1..], size, k - 1); }
  }

  /** The query has no OPT record, or the only one is the last record and ends the packet. */
  ghost predicate NoOptYet(query: Packet)
    requires Parse(query).Some?
  {
    forall rr :: rr in Parse(query).value.additional ==> rr.rtype != 41
  }

  ghost predicate EndsInOpt(query: Packet)
    requires Parse(query).Some?
  {
    var rs := Parse(query).value.additional;
    && rs != [] && rs[|rs| - 1].rtype == 41 && rs[|rs| - 1].End() == |query|
    && forall j :: 0 <= j < |rs| - 1 ==> rs[j].rtype != 41
  }

  ghost predicate RoomForPadding(query: Packet, block: nat)
    requires block > 0 && Parse(query).Some?
  {
    var rs := Parse(query).value.additional;
    || (NoOptYet(query) && |rs| < 65535)
    || (EndsInOpt(query) && |rs[|rs| - 1].rdata| + RoundUp(|query| + 4, block) - |query| <= 65535)
  }

  /** What the search finds, without the search. */
  lemma {:induction false} ScanOptExactly(query: Packet)
    requires Parse(query).Some?
    ensures var rs := Parse(query).value.additional; var opt := ScanOpt(rs, |query|);
      && (opt.NoOpt? <==> NoOptYet(query)) && (opt.LastOpt? <==> EndsInOpt(query))
      && (opt.LastOpt? ==> opt.rr == rs[|rs| - 1])
  {
    hide ParseFull, ScanOpt;
    var rs := Parse(query).value.additional;
    ScanOptFinds(rs, |query|);
    assert forall k :: 0 <= k < |rs| ==> rs[k] in rs;
    if ScanOpt(rs, |query|).LastOpt? { LastOptIsLast(query); }
    if EndsInOpt(query) { ScanOptAt(rs, |query|, |rs| - 1); }
  }

  lemma {:induction false} PadsExactly(query: Packet, block: nat)
    ensures Pads(query, block) <==> block > 0 && Parse(query).Some? && RoomForPadding(query, block)
  {
    hide ParseFull, ScanOpt, RoundUp, NoOptYet, EndsInOpt, PadLen;
    if block > 0 && Parse(query).Some? {
      ScanOptExactly(query);
      SectionsAreOneRun(query);
      var opt := ScanOpt(Parse(query).value.additional, |query|);
      if opt.LastOpt? { PadFills(query, opt, block); }
    }
  }

  lemma {:induction false} PadFills(query: Packet, opt: OptScan, block: nat)
    requires block > 0 && opt.LastOpt?
    ensures 4 + PadLen(query, opt, block) == RoundUp(|query| + 4, block) - |query|
  {
    hide RoundUp;
  }

  /** Exactly which queries grow: those that parse, for a block that is not zero, either without an OPT record and
      with room for one more additional record, or with one that ends the packet and whose RDATA can grow up to the
      next multiple of the block. Every other query is left as it was. */
  lemma {:induction false} GrowsExactly(query: Packet, block: nat)
    ensures PadQuery(query, block) != query <==> block > 0 && Parse(query).Some? && RoomForPadding(query, block)
    ensures PadQuery(query, block) != query ==> |PadQuery(query, block)| > |query|
  {
    hide ParseFull, ScanOpt, RoomForPadding, Pads, PaddingOption, NewOptHead, PadLen;
    PadsExactly(query, block);
    if Pads(query, block) { PadIs(query, block); }
  }

  /** When the option fits, RDLENGTH says all of it, and only then can the padded query be consumed whole. */
  lemma {:induction false} FittingOption(query: Packet, block: nat)
    requires Pads(query, block) && ScanOpt(Parse(query).value.additional, |query|).NoOpt?
    ensures var m := Parse(query).value; var pad := PadLen(query, NoOpt, block); var to := PadQuery(query, block);
      var opt := NewOpt(|query|, pad);
      && (OPTION_HEAD + pad <= U16_MAX ==> opt.End() == |to|)
      && (OPTION_HEAD + pad <= U16_MAX ==>
            PaddedMessage(query, block) ==
              m.(header := m.header.(arcount := m.header.arcount + 1), additional := m.additional + [opt]))
      && (OPTION_HEAD + pad > U16_MAX ==> ParseFull(to) != Some(Parsed(PaddedMessage(query, block), |to|)))
  {
    hide ParseFull, ScanOpt, PadLen, PaddingOption, NewOptHead;
    var pad := PadLen(query, NoOpt, block);
    var to := PadQuery(query, block);
    var o := PaddingOption(pad);
    assert o[..|o|] == o;
    if OPTION_HEAD + pad > U16_MAX && ParseFull(to).Some? { RdataFits(to); }
  }

  /** No parsed record has more than 65535 bytes of RDATA. */
  lemma {:induction false} RdataFits(pkt: Packet)
    requires ParseFull(pkt).Some?
    ensures forall rr :: rr in ParseFull(pkt).value.msg.additional ==> |rr.rdata| <= U16_MAX
  {
    hide ParseFull, ParseRecords;
    var m := ParseFull(pkt).value.msg;
    SectionsAreOneRun(pkt);
    RunFits(pkt, m.questionEnd, |m.Records()|);
    assert forall rr :: rr in m.additional ==> rr in m.Records();
  }

  lemma {:induction false} RunFits(pkt: Packet, cursor: nat, count: nat)
    requires ParseRecords(pkt, cursor, count).Some?
    ensures forall rr :: rr in ParseRecords(pkt, cursor, count).value.items ==> |rr.rdata| <= U16_MAX
    decreases count
  {
    hide DecodeName, U32At;
    if count > 0 { RunFits(pkt, ParseRecord(pkt, cursor).value.End(), count - 1); }
  }

  /** What a caller can check before the call, if no name is decoded from an overwritten byte: a query without
      OPT keeps its meaning exactly if the option fits and the query was consumed to its end, or all but one
      byte that makes with the first byte appended a pointer to a root name. */
  lemma {:induction false} NewOptKeepsMeaningExactly(query: Packet, block: nat)
    requires Pads(query, block) && PaddingClearOfNames(query) && ScanOpt(Parse(query).value.additional, |query|).NoOpt?
    ensures var to := PadQuery(query, block); var end := ParseFull(query).value.end;
      && end <= |query|
      && (ParseFull(to) == Some(Parsed(PaddedMessage(query, block), |to|)) <==>
            && OPTION_HEAD + PadLen(query, NoOpt, block) <= U16_MAX
            && (|| end == |query|
                || (end + 1 == |query| && query[end] >= 192
                      && Labels(to, (query[end] as int - 192) * 0x100, MAX_HOPS - 1) == Some([]))))
  {
    hide ParseFull, ScanOpt, PadLen, PaddingOption, NamesStand, DecodeName, NewOptHead, PaddingClearOfNames, Labels;
    MessageIsLaid(query);
    PaddingExactly(query, block);
    ClearNamesStand(query, block);
    NewOptShape(query, block);
    RootWhereParsingStopped(query, PadQuery(query, block), ParseFull(query).value.end);
  }

  /** No name is decoded from an overwritten byte: nothing a name is read from changes. */
  lemma {:induction false} PaddingKeepsNames(query: Packet, block: nat)
    requires Pads(query, block) && PaddingClearOfNames(query)
    ensures KeepsNames(query, PadQuery(query, block))
  {
    hide ParseFull, ScanOpt, PadLen, PaddingOption, NewOptHead, NameReads, U16Bytes;
    var to := PadQuery(query, block);
    if ScanOpt(Parse(query).value.additional, |query|).LastOpt? { LastOptIsLast(query); } else { HeaderCounts(query); }
    forall i: nat | NameReads(query, i) ensures i < |query| && i < |to| && to[i] == query[i] {
      NameReadsInside(query, i);
      assert !Overwrites(query, i);
    }
  }

  lemma {:induction false} ClearNamesStand(query: Packet, block: nat)
    requires Pads(query, block) && PaddingClearOfNames(query)
    ensures NamesStand(query, PadQuery(query, block))
  {
    hide ParseFull, PadQuery, NameReads, NamesStand, PaddingClearOfNames;
    PaddingKeepsNames(query, block);
    FootprintStands(query, PadQuery(query, block));
  }

  /** Padding preserves meaning. Whenever `pad_query` pads, the result is the least multiple of the block
      that fits the added headers. If no name is decoded from an overwritten byte, and, when an OPT record
      has to be added, the query was consumed to its end and the option fits in RDLENGTH, the result
      re-parses to its last byte as the same message with one padding option in its last OPT record. */
  lemma {:induction false} PaddingPreservesMeaning(query: Packet, block: nat)
    requires Pads(query, block) && PaddingClearOfNames(query)
    requires var opt := ScanOpt(Parse(query).value.additional, |query|);
      opt.NoOpt? ==> ParseFull(query).value.end == |query| && OPTION_HEAD + PadLen(query, opt, block) <= U16_MAX
    ensures IsLeastMultiple(|PadQuery(query, block)|,
      |query| + AddedHead(ScanOpt(Parse(query).value.additional, |query|)), block)
    ensures ParseFull(PadQuery(query, block)) == Some(Parsed(PaddedMessage(query, block), |PadQuery(query, block)|))
    ensures var m := Parse(query).value; var opt := ScanOpt(m.additional, |query|); var to := PadQuery(query, block);
      var pad := |to| - |query| - (if opt.NoOpt? then 15 else 4);
      && (opt.NoOpt? <==> NoOptYet(query)) && pad >= 0 && ParseFull(to).Some?
      && AddsPadding(m, ParseFull(to).value.msg, |query|, opt.NoOpt?, OldOptions(query), pad)
  {
    hide ParseFull, ScanOpt, PadLen, PaddingOption, PaddingClearOfNames, IsLeastMultiple, NamesStand, DecodeName,
      PadQuery, PaddedMessage, AddsPadding, NoOptYet;
    PaddedMessageIs(query, block);
    ScanOptExactly(query);
    PaddedLength(query, block);
    if ScanOpt(Parse(query).value.additional, |query|).NoOpt? {
      NewOptKeepsMeaningExactly(query, block);
    } else {
      PaddingExactly(query, block);
      ClearNamesStand(query, block);
    }
  }

  lemma {:induction false} PaddedLength(query: Packet, block: nat)
    requires Pads(query, block)
    ensures IsLeastMultiple(|PadQuery(query, block)|,
      |query| + AddedHead(ScanOpt(Parse(query).value.additional, |query|)), block)
  {
    hide ParseFull, ScanOpt, RoundUp, PaddingOption, IsLeastMultiple;
    RoundUpIsLeastMultiple(|query| + AddedHead(ScanOpt(Parse(query).value.additional, |query|)), block);
  }

  /** The missing guard in the branch that adds an OPT record: the padded query is consumed to its end
      exactly when the option fits in RDLENGTH. Past that, RDLENGTH is truncated and bytes are left over. */
  lemma {:induction false} NewOptNeedsRoom(query: Packet, block: nat)
    requires Pads(query, block) && PaddingClearOfNames(query)
    requires ScanOpt(Parse(query).value.additional, |query|).NoOpt? && ParseFull(query).value.end == |query|
    ensures ParseFull(PadQuery(query, block)).Some?
    ensures ParseFull(PadQuery(query, block)).value.end == |PadQuery(query, block)|
      <==> OPTION_HEAD + PadLen(query, NoOpt, block) <= U16_MAX
    ensures block <= 65532 ==> OPTION_HEAD + PadLen(query, NoOpt, block) <= U16_MAX
  {
    hide ParseFull, ScanOpt, PaddingOption, PaddingClearOfNames, RoundUp, NamesStand, DecodeName, Labels, NewOptHead;
    NewOptShape(query, block);
    NewOptExactly(query, block);
    ClearNamesStand(query, block);
    RootWhereParsingStopped(query, PadQuery(query, block), |query|);
    RoundUpBounds(|query| + AddedHead(NoOpt), block);
  }

  /** A query for q with nothing after its question but these bytes. */
  function Plain(tail: Packet): Packet { Head(false, 0) + tail }

  lemma {:induction false} PlainParses(tail: Packet)
    ensures var q := Plain(tail);
      ParseFull(q) == Some(Parsed(Message(ParseHeader(q), [SampleQuestion()], [], [], [], SAMPLE_END), SAMPLE_END))
    ensures ParseHeader(Plain(tail)).arcount == 0
  {
    hide Head, ParseHeader, ParseFull;
    HeadParses(false, 0, tail);
    NoRecords(Plain(tail), SAMPLE_END);
    SampleParses(false, 0, tail, [], SAMPLE_END);
  }

  /** Its only name is read from the question. */
  lemma {:induction false} PlainReads(tail: Packet, i: nat)
    requires ParseFull(Plain(tail)).Some? && NameReads(Plain(tail), i)
    ensures HEADER_SIZE <= i < SAMPLE_END
  {
    hide ParseFull, Head, ParseHeader, Reads, Labels, ParseQuestion, Uncompressed, NameEnd;
    PlainParses(tail);
    HeadParses(false, 0, tail);
    assert QuestionStart(Plain(tail), HEADER_SIZE, 0) == HEADER_SIZE;
    UncompressedName(Plain(tail), HEADER_SIZE, MAX_HOPS);
  }

  lemma {:induction false} PlainPads(tail: Packet, block: nat)
    requires 0 < block
    ensures Pads(Plain(tail), block) && PaddingClearOfNames(Plain(tail))
    ensures ScanOpt(Parse(Plain(tail)).value.additional, |Plain(tail)|).NoOpt?
    ensures |Plain(tail)| == SAMPLE_END + |tail| && ParseFull(Plain(tail)).value.end == SAMPLE_END
  {
    hide ParseFull, ParseHeader, RoundUp, Head, NameReads;
    var q := Plain(tail);
    PlainParses(tail);
    forall i: nat | Overwrites(q, i) ensures !NameReads(q, i) {
      if NameReads(q, i) { PlainReads(tail, i); }
    }
  }

  /** That the query was consumed to its end is needed: padding appends after the stray byte, which is then
      taken for the beginning of the new record, and the padded query no longer parses. */
  lemma {:induction false} StrayByteBreaksPadding(block: nat)
    requires 0 < block <= 16000
    ensures Pads(Plain([255]), block) && PaddingClearOfNames(Plain([255]))
    ensures ParseFull(PadQuery(Plain([255]), block)).None?
  {
    hide ParseFull, ParseHeader, RoundUp, NewOptHead, PaddingOption, Head, NameReads, ScanOpt, PadQuery, ParseQuestion;
    var q := Plain([255]);
    PlainParses([255]);
    HeadParses(false, 0, [255]);
    PlainPads([255], block);
    NewOptShape(q, block);
    PaddedSize(q, block);
    HeadBytes(false, 0, [255]);
    assert q[SAMPLE_END] == 255;
    StrayRecord(PadQuery(q, block), q);
  }

  lemma {:induction false} PaddedSize(query: Packet, block: nat)
    requires Pads(query, block) && ScanOpt(Parse(query).value.additional, |query|).NoOpt?
    ensures var least := |query| + OPT_SKELETON + OPTION_HEAD; least <= |PadQuery(query, block)| < least + block
  {
    hide ParseFull, ScanOpt, RoundUp, NewOptHead, PaddingOption;
    RoundUpBounds(|query| + AddedHead(NoOpt), block);
  }

  /** A message of one question and one record whose name begins with a pointer past the end. */
  lemma {:induction false} StrayRecord(to: Packet, q: Packet)
    requires SAMPLE_END + 2 <= |to| <= 0x3F00 && to[SAMPLE_END] == 255 && to[SAMPLE_END + 1] == 0
    requires |q| >= HEADER_SIZE && ParseHeader(to) == ParseHeader(q).(arcount := 1)
    requires var h := ParseHeader(q); h.qdcount == 1 && h.ancount == 0 && h.nscount == 0
    requires to[12] == 1 && to[13] == 113 && to[14] == 0
    ensures ParseFull(to).None?
  {
    hide Labels, ParseHeader, NameEnd, Join;
    OtherStep(to, SAMPLE_END, MAX_HOPS);
    assert DecodeName(to, SAMPLE_END) == None;
    assert ParseRecord(to, SAMPLE_END) == None;
    LetterName(to, 12, 113, MAX_HOPS);
    assert ParseQuestions(to, SAMPLE_END, 0) == Some(Run([], SAMPLE_END));
    assert ParseRecords(to, SAMPLE_END, 0) == Some(Run([], SAMPLE_END));
  }

  /** The other case of the condition is real too: a stray byte that makes, with the zero byte appended, a pointer
      to a zero byte of the header. Padding such a query preserves its meaning. */
  lemma {:induction false} StrayPointerKeepsMeaning(block: nat)
    requires 0 < block <= 65532
    ensures Pads(Plain([192]), block)
    ensures var to := PadQuery(Plain([192]), block);
      ParseFull(to) == Some(Parsed(PaddedMessage(Plain([192]), block), |to|))
  {
    hide ParseFull, ParseHeader, RoundUp, NewOptHead, PaddingOption, Head, NameReads, ScanOpt, Labels, PaddedMessage,
      PaddingClearOfNames, PadQuery;
    var q := Plain([192]);
    PlainPads([192], block);
    HeadBytes(false, 0, [192]);
    NewOptShape(q, block);
    RoundUpBounds(|q| + AddedHead(NoOpt), block);
    var to := PadQuery(q, block);
    assert to[0] == q[0] == 0;
    OtherStep(to, 0, MAX_HOPS - 1);
    NewOptKeepsMeaningExactly(q, block);
  }

  /** That the option fits in RDLENGTH is needed: a query padded to 65600 bytes is not consumed to its end. */
  lemma {:induction false} LongOptionLeavesBytes()
    ensures var q := Plain([]);
      && Pads(q, 65600) && PaddingClearOfNames(q) && ParseFull(PadQuery(q, 65600)).Some?
      && ParseFull(PadQuery(q, 65600)).value.end != |PadQuery(q, 65600)|
  {
    hide ParseFull, ParseHeader, NameReads, PaddingOption, NewOptHead, Head, PadQuery, Plain;
    var q := Plain([]);
    PlainPads([], 65600);
    assert PadLen(q, NoOpt, 65600) == 65600 - 34;
    NewOptNeedsRoom(q, 65600);
  }
}
