/** The aliases a response shows when it is served from the cache. A CNAME target is decoded out of RDATA, by
    src/uncloaker.cpp and by every client, and may be read through a pointer from bytes that src/cache.cpp rewrites. */
module Aliases {
  import opened Wire
  import opened Names
  import opened Parser
  import opened Edits
  import opened Samples
  import opened Ttl
  import opened Lru
  import opened Cache
  import opened Serving
  import opened Uncloaker
  import Blocklist

  /** Read from the queried name, the response's aliases can be followed and none of them is blocked. */
  ghost predicate AliasesUnblocked(rules: Blocklist.Rules, qname: Name, response: Packet) {
    && Parse(response).Some?
    && var w := WalkAnswers(Parse(response).value.answers, response, qname);
       w.Walked? && forall i :: 0 <= i < |w.hops| ==> !Blocklist.Match(rules, w.hops[i]).blocked
  }

  // ----- which records decide -----

  /** The k-th record is the first address or alias of its owner, so the scan stops there. */
  predicate Decides(rs: seq<Record>, k: nat)
    requires k < |rs|
  {
    Relevant(rs[k]) && forall j :: 0 <= j < k && rs[j].name == rs[k].name ==> !Relevant(rs[j])
  }

  predicate DecidingAlias(rs: seq<Record>, k: nat)
    requires k < |rs|
  {
    rs[k].rtype == TYPE_CNAME && Decides(rs, k)
  }

  /** Every alias that decides has the same target in both packets. */
  ghost predicate TargetsStand(pkt: Packet, to: Packet)
    requires ParseFull(pkt).Some?
  {
    TargetsStandIn(ParseFull(pkt).value.msg.answers, pkt, to)
  }

  ghost predicate TargetsStandIn(rs: seq<Record>, pkt: Packet, to: Packet) {
    forall k :: 0 <= k < |rs| && DecidingAlias(rs, k) ==>
      DecodeNameAt(to, rs[k].rdataOff) == DecodeNameAt(pkt, rs[k].rdataOff)
  }

  /** The scan answers with the record that decides for the name. */
  lemma {:induction false} ScanStops(rs: seq<Record>, packet: Packet, current: Name) returns (k: nat)
    ensures k <= |rs|
    ensures forall j :: 0 <= j < k && rs[j].name == current ==> !Relevant(rs[j])
    ensures k < |rs| ==> rs[k].name == current && Decides(rs, k)
    ensures Scan(rs, packet, current) == if k < |rs| then Says(rs[k], packet) else Silent
  {
    hide DecodeNameAt;
    if rs == [] || (rs[0].name == current && Relevant(rs[0])) {
      k := 0;
    } else {
      var rest := ScanStops(rs[1..], packet, current);
      k := rest + 1;
      assert forall j :: 1 <= j < |rs| ==> rs[j] == rs[1..][j - 1];
    }
  }

  /** Records that differ only in their TTLs. */
  predicate SameButTtl(a: seq<Record>, b: seq<Record>) {
    |a| == |b| && forall i :: 0 <= i < |a| ==> b[i] == a[i].(ttl := b[i].ttl)
  }

  /** Both say the same of every name. */
  ghost predicate SayAlike(a: seq<Record>, b: seq<Record>, pkt: Packet, to: Packet) {
    forall n :: Scan(b, to, n) == Scan(a, pkt, n)
  }

  /** Two packets with the same answers but for TTLs say the same of every name exactly if every deciding alias has
      the same target. */
  lemma {:induction false} SayAlikeExactly(a: seq<Record>, b: seq<Record>, pkt: Packet, to: Packet)
    requires SameButTtl(a, b)
    ensures SayAlike(a, b, pkt, to) <==> TargetsStandIn(a, pkt, to)
  {
    hide Scan, DecodeNameAt, DecidingAlias;
    if TargetsStandIn(a, pkt, to) {
      forall n ensures Scan(b, to, n) == Scan(a, pkt, n) { ScansAlike(a, b, pkt, to, n); }
    }
    if SayAlike(a, b, pkt, to) {
      forall k | 0 <= k < |a| && DecidingAlias(a, k)
        ensures DecodeNameAt(to, a[k].rdataOff) == DecodeNameAt(pkt, a[k].rdataOff)
      {
        assert Scan(b, to, a[k].name) == Scan(a, pkt, a[k].name);
        DecidingTarget(a, b, pkt, to, k);
      }
    }
  }

  lemma {:induction false} DecidingTarget(a: seq<Record>, b: seq<Record>, pkt: Packet, to: Packet, k: nat)
    requires SameButTtl(a, b) && k < |a| && DecidingAlias(a, k) && Scan(b, to, a[k].name) == Scan(a, pkt, a[k].name)
    ensures DecodeNameAt(to, a[k].rdataOff) == DecodeNameAt(pkt, a[k].rdataOff)
  {
    hide Scan, DecodeNameAt;
    var i := ScanStops(a, pkt, a[k].name);
    var j := ScanStops(b, to, a[k].name);
    assert i == k == j;
  }

  lemma {:induction false} ScansAlike(a: seq<Record>, b: seq<Record>, pkt: Packet, to: Packet, n: Name)
    requires SameButTtl(a, b)
    ensures TargetsStandIn(a, pkt, to) ==> Scan(b, to, n) == Scan(a, pkt, n)
  {
    hide Scan, DecodeNameAt;
    var i := ScanStops(a, pkt, n);
    var j := ScanStops(b, to, n);
    assert i == j;
  }

  /** Whoever scans alike walks alike. */
  lemma {:induction false} WalksAlike(a: seq<Record>, b: seq<Record>, pkt: Packet, to: Packet, start: Name, turns: nat)
    requires SayAlike(a, b, pkt, to)
    ensures Walk(b, to, start, turns) == Walk(a, pkt, start, turns)
    decreases turns
  {
    hide Scan;
    if turns > 0 && Scan(a, pkt, start).Alias? {
      WalksAlike(a, b, pkt, to, Scan(a, pkt, start).target, turns - 1);
    }
  }

  // ----- served from the cache -----

  ghost predicate ShowsAlike(pkt: Packet, to: Packet)
    requires ParseFull(pkt).Some? && ParseFull(to).Some?
  {
    SayAlike(ParseFull(pkt).value.msg.answers, ParseFull(to).value.msg.answers, pkt, to)
  }

  /** The bytes served on a hit are the cached message, with the client's id and the time that is left, and say the
      same of every name, exactly if every name of the message and every deciding alias's target is the same where
      it stands. */
  lemma {:induction false} ServedAliasesExactly(e: Entry, now: int, id: U16)
    requires Fresh(e, now) && ParseFull(e.response).Some?
    requires e.offsets == TtlOffsets(ParseFull(e.response).value.msg.Records())
    ensures var p := ParseFull(e.response).value; var to := ServedBytes(e, now, id);
      && ParseFull(to) == Some(Parsed(SetId(WithTtl(p.msg, Served(e, now)), id), p.end))
      && ShowsAlike(e.response, to)
      <==> NamesStand(e.response, to) && TargetsStand(e.response, to)
  {
    hide ParseFull, TtlOffsets, ServedBytes, Served, NamesStand, TargetsStandIn, SayAlike;
    var p := ParseFull(e.response).value;
    var to := ServedBytes(e, now, id);
    ServedBytesExactly(e, now, id);
    if ParseFull(to) == Some(Parsed(SetId(WithTtl(p.msg, Served(e, now)), id), p.end)) {
      var a, b := p.msg.answers, ParseFull(to).value.msg.answers;
      assert b == SetTtls(a, Served(e, now));
      SayAlikeExactly(a, b, e.response, to);
    }
  }

  /** Then whatever the rules and the queried name, the aliases in the bytes served are unblocked exactly if those in
      the stored response are. */
  lemma {:induction false} ShownAlikeJudgedAlike(pkt: Packet, to: Packet, rules: Blocklist.Rules, qname: Name)
    requires ParseFull(pkt).Some? && ParseFull(to).Some? && ShowsAlike(pkt, to)
    requires |ParseFull(to).value.msg.answers| == |ParseFull(pkt).value.msg.answers|
    ensures AliasesUnblocked(rules, qname, to) <==> AliasesUnblocked(rules, qname, pkt)
  {
    hide ParseFull, SayAlike, Walk, Blocklist.Match;
    var a, b := ParseFull(pkt).value.msg.answers, ParseFull(to).value.msg.answers;
    WalksAlike(a, b, pkt, to, qname, |a| + 1);
  }

  lemma {:induction false} ServedAliases(e: Entry, now: int, id: U16, rules: Blocklist.Rules, qname: Name)
    requires Fresh(e, now) && ParseFull(e.response).Some?
    requires e.offsets == TtlOffsets(ParseFull(e.response).value.msg.Records())
    requires var to := ServedBytes(e, now, id); NamesStand(e.response, to) && TargetsStand(e.response, to)
    ensures AliasesUnblocked(rules, qname, ServedBytes(e, now, id)) <==> AliasesUnblocked(rules, qname, e.response)
  {
    hide ParseFull, TtlOffsets, ServedBytes, Served, NamesStand, TargetsStand, AliasesUnblocked, ShowsAlike;
    ServedAliasesExactly(e, now, id);
    ShownAlikeJudgedAlike(e.response, ServedBytes(e, now, id), rules, qname);
  }

  // ----- a condition a caller can use -----

  /** Some deciding alias's target is decoded from this byte. */
  ghost predicate TargetReads(pkt: Packet, i: nat)
    requires ParseFull(pkt).Some?
  {
    var rs := ParseFull(pkt).value.msg.answers;
    exists k :: 0 <= k < |rs| && DecidingAlias(rs, k) && Reads(pkt, rs[k].rdataOff, MAX_HOPS, i)
  }

  /** No target is decoded from a TTL or id byte. */
  ghost predicate TargetsClear(pkt: Packet)
    requires ParseFull(pkt).Some?
  {
    && (forall off, i: nat ::
          off in TtlOffsets(ParseFull(pkt).value.msg.Records()) && off <= i < off + 4 ==> !TargetReads(pkt, i))
    && !TargetReads(pkt, 0) && !TargetReads(pkt, 1)
  }

  /** The served bytes are the stored ones but for the id and the TTL fields. */
  lemma {:induction false} ServedElsewhere(e: Entry, now: int, id: U16, i: nat)
    requires Fresh(e, now) && 2 <= i < |e.response| && forall off :: off in e.offsets ==> !(off <= i < off + 4)
    ensures |ServedBytes(e, now, id)| == |e.response| && ServedBytes(e, now, id)[i] == e.response[i]
  {
    hide Rewritten, Served, U16Bytes;
    RewrittenElsewhere(e.response, e.offsets, Served(e, now), i);
  }

  lemma {:induction false} ClearTargetStands(e: Entry, now: int, id: U16, k: nat)
    requires Fresh(e, now) && ParseFull(e.response).Some? && TargetsClear(e.response)
    requires e.offsets == TtlOffsets(ParseFull(e.response).value.msg.Records())
    requires k < |ParseFull(e.response).value.msg.answers|
    requires DecidingAlias(ParseFull(e.response).value.msg.answers, k)
    ensures var off := ParseFull(e.response).value.msg.answers[k].rdataOff;
      DecodeNameAt(ServedBytes(e, now, id), off) == DecodeNameAt(e.response, off)
  {
    hide ParseFull, TtlOffsets, ServedBytes, Reads, DecidingAlias, Labels, NameEnd;
    var pkt, to := e.response, ServedBytes(e, now, id);
    var at := ParseFull(pkt).value.msg.answers[k].rdataOff;
    assert |to| == |pkt| by { SameSize(e, now, id); }
    forall i: nat | i < |pkt| && Reads(pkt, at, MAX_HOPS, i) ensures to[i] == pkt[i] {
      assert TargetReads(pkt, i);
      assert i != 0 && i != 1;
      ServedElsewhere(e, now, id, i);
    }
    InPlaceFrame(pkt, to, at, MAX_HOPS);
  }

  lemma {:induction false} SameSize(e: Entry, now: int, id: U16)
    requires Fresh(e, now)
    ensures |ServedBytes(e, now, id)| == |e.response|
  {
  }

  /** If no name or target of the response is decoded from a TTL or id byte, the bytes served say the same of every
      name, so they show a blocked alias only if the stored response does. */
  lemma {:induction false} ClearAliasesAreServed(e: Entry, now: int, id: U16)
    requires Fresh(e, now) && ParseFull(e.response).Some?
    requires e.offsets == TtlOffsets(ParseFull(e.response).value.msg.Records())
    requires TtlClearOfNames(e.response) && IdClearOfNames(e.response) && TargetsClear(e.response)
    ensures var to := ServedBytes(e, now, id); NamesStand(e.response, to) && TargetsStand(e.response, to)
  {
    hide ParseFull, TtlOffsets, ServedBytes, Served, NamesStand, TtlClearOfNames, IdClearOfNames, TargetsClear,
      DecodeNameAt, DecidingAlias, SetId, WithTtl;
    ServedBytesParse(e, now, id);
    ServedBytesExactly(e, now, id);
    var rs := ParseFull(e.response).value.msg.answers;
    forall k | 0 <= k < |rs| && DecidingAlias(rs, k)
      ensures DecodeNameAt(ServedBytes(e, now, id), rs[k].rdataOff) == DecodeNameAt(e.response, rs[k].rdataOff)
    {
      ClearTargetStands(e, now, id, k);
    }
  }

  // ----- the hypothesis is needed -----

  /** A response in which q is an alias of the name spelled by the alias's own TTL. */
  function Shifting(ttl: U32): Packet { Head(true, 1) + Answer(12, 5, ttl, [0xC0, 27]) }

  function ShiftingRecord(ttl: U32): Record { Record(SAMPLE_NAME, TYPE_CNAME, 1, ttl, 31, [0xC0, 27]) }

  /** A TTL of 256 + c, read from its third byte on, is the name of the one letter c. */
  lemma {:induction false} ShiftingParses(c: Byte)
    requires Lower(c) == c
    ensures var p := Shifting(256 + c);
      && ParseFull(p) == Some(Parsed(Message(ParseHeader(p), [SampleQuestion()], [ShiftingRecord(256 + c)], [], [],
                                             SAMPLE_END), 33))
      && DecodeNameAt(p, 31) == Some([c])
  {
    hide ParseFull, ParseRecord, ParseHeader, Head, Answer, Labels, NameEnd, Join;
    var ttl := 256 + c as int;
    var p, a := Shifting(ttl), Answer(12, 5, ttl, [0xC0, 27]);
    AnswerBytes(12, 5, ttl, [0xC0, 27]);
    HeadBytes(true, 1, a);
    assert p[27] == a[8] == a[6..10][2] == 1 && p[28] == a[9] == a[6..10][3] == c && p[29] == a[10] == 0;
    assert p[31] == a[12] == a[12..][0] == 0xC0 && p[32] == a[13] == a[12..][1] == 27;
    LetterName(p, 12, 113, MAX_HOPS - 1);
    LetterName(p, 27, c, MAX_HOPS - 1);
    OtherStep(p, 31, MAX_HOPS);
    AnswerParses(Head(true, 1), 12, 5, ttl, [0xC0, 27], []);
    assert Head(true, 1) + a + [] == p;
    NoRecords(p, 33);
    assert [ShiftingRecord(ttl)] + [] == [ShiftingRecord(ttl)];
    SampleParses(true, 1, a, [ShiftingRecord(ttl)], 33);
  }

  lemma {:induction false} ShiftingWalk(c: Byte, rules: Blocklist.Rules)
    requires Lower(c) == c && c != 113
    ensures AliasesUnblocked(rules, SAMPLE_NAME, Shifting(256 + c)) <==> !Blocklist.Match(rules, [c]).blocked
  {
    hide ParseFull, Shifting, DecodeNameAt, Blocklist.Match;
    ShiftingParses(c);
    var p, rs := Shifting(256 + c), [ShiftingRecord(256 + c)];
    assert [c] != SAMPLE_NAME;
    assert Scan(rs, p, [c]) == Silent;
    assert Walk(rs, p, [c], 1) == Walked([], false);
    assert [[c]] + [] == [[c]];
    assert Scan(rs, p, SAMPLE_NAME) == Alias([c]);
    assert Walk(rs, p, SAMPLE_NAME, 2) == Walked([[c]], false);
    var w := WalkAnswers(Parse(p).value.answers, p, SAMPLE_NAME);
    assert w.hops[0] == [c];
  }

  /** The letter a is blocked, and whatever is below it. */
  function OnlyA(): Blocklist.Rules { Blocklist.NO_RULES.(suffix := {[97]}) }

  lemma {:induction false} OnlyAIsBlocked()
    ensures Blocklist.Match(OnlyA(), [97]).blocked && !Blocklist.Match(OnlyA(), [98]).blocked
  {
  }

  /** The response as the daemon stores it at time 0. */
  function Kept(): Op { InsertOp(0, Key(SAMPLE_NAME, TYPE_A, 1), Shifting(354), [25], 354) }

  lemma {:induction false} KeptIsHonest()
    ensures Honest(Kept())
  {
    hide ParseFull, Shifting, ParseHeader, DecodeNameAt;
    ShiftingParses(98);
    var m := ParseFull(Shifting(354)).value.msg;
    assert m.Records() == [ShiftingRecord(354)];
    assert TtlOffsets([ShiftingRecord(354)]) == [25];
    ShiftingHeader();
    assert AnyCounted(m.answers);
    assert LeastTtl(m.answers, U32_MAX) == 354;
  }

  lemma {:induction false} ServedASecondLater()
    ensures ServedBytes(EntryOf(Kept()), SECOND, 0) == Shifting(353) && Served(EntryOf(Kept()), SECOND) == 353
  {
    hide Head, Answer, Rewritten;
    var e := EntryOf(Kept());
    assert Served(e, SECOND) == 353;
    SampleRewritten(12, 5, 354, [0xC0, 27], 353);
    HeadBytes(true, 1, Answer(12, 5, 353, [0xC0, 27]));
    assert WithId(Shifting(353), 0) == Shifting(353);
  }

  /** The targets have to be asked for: q is an alias of b in the stored response and of a in the bytes served one
      second later, which show a blocked alias though they parse to the very message that was stored, with the
      time that is left. */
  lemma {:induction false} ServedAliasCanChange()
    ensures var e, rules := EntryOf(Kept()), OnlyA(); var to := ServedBytes(e, SECOND, 0);
      && Honest(Kept()) && NamesStand(e.response, to)
      && AliasesUnblocked(rules, SAMPLE_NAME, e.response) && !AliasesUnblocked(rules, SAMPLE_NAME, to)
  {
    hide ParseFull, ParseHeader, Shifting, AliasesUnblocked, Blocklist.Match, NamesStand, ServedBytes, TtlOffsets,
      CacheTtl;
    KeptIsHonest();
    ServedASecondLater();
    OnlyAIsBlocked();
    ShiftingWalk(98, OnlyA());
    ShiftingWalk(97, OnlyA());
    ShiftingNamesStand();
  }

  lemma {:induction false} ShiftingNamesStand()
    ensures ParseFull(Shifting(354)).Some? && NamesStand(Shifting(354), Shifting(353))
  {
    hide ParseFull, ParseHeader, Shifting, NamesStand, ServedBytes, CacheTtl, TtlOffsets, DecodeNameAt, Served;
    KeptIsHonest();
    ServedASecondLater();
    ShiftingParses(98);
    ShiftingParses(97);
    var e := EntryOf(Kept());
    ServedBytesExactly(e, SECOND, 0);
    assert SetTtls([ShiftingRecord(354)], 353) == [ShiftingRecord(353)];
    assert SetTtls([], 353) == [];
    ShiftingHeader();
  }

  lemma {:induction false} ShiftingHeader()
    ensures ParseHeader(Shifting(353)) == ParseHeader(Shifting(354)) && ParseHeader(Shifting(354)).id == 0
    ensures ParseHeader(Shifting(354)).rcode == 0
  {
    hide Head, Answer, ParseHeader;
    HeadBytes(true, 1, Answer(12, 5, 353, [0xC0, 27]));
    HeadBytes(true, 1, Answer(12, 5, 354, [0xC0, 27]));
    SameHeader(Shifting(353), Shifting(354));
    SuccessHeader(Shifting(354));
  }

  lemma {:induction false} SuccessHeader(p: Packet)
    requires |p| >= HEADER_SIZE && p[0] == 0 && p[1] == 0 && p[2] == 0x81 && p[3] == 0x80
    ensures ParseHeader(p).id == 0 && ParseHeader(p).rcode == 0
  {
    assert U16At(p, 2) == 0x8180;
  }
}
