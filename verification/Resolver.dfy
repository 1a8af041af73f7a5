/** Forwarding a query upstream with retries and fallbacks: src/resolver.cpp. */
module Resolver {
  import opened Wire
  import opened Names
  import opened Parser
  import opened Edits
  import opened Padding
  import opened Cache
  import opened Serving

  /** The reply answers the client's question (section 6 of RFC 5452). */
  predicate ReplyMatches(query: Packet, reply: Packet) {
    Parse(query).Some? && Parse(reply).Some? && Parse(query).value.questions == Parse(reply).value.questions
  }

  method ReplyMatchesLoop(query: Packet, reply: Packet) returns (ok: bool)
    ensures ok == ReplyMatches(query, reply)
  {
    hide ParseFull;
    var req := ParseLoop(query);
    if req.None? { return false; }
    var rep := ParseLoop(reply);
    if rep.None? { return false; }
    var qs, rs := req.value.msg.questions, rep.value.msg.questions;
    if |qs| != |rs| { return false; }
    for i := 0 to |qs|
      invariant forall j :: 0 <= j < i ==> qs[j] == rs[j]
    {
      var q, r := qs[i], rs[i];
      if q.qname != r.qname || q.qtype != r.qtype || q.qclass != r.qclass { return false; }
    }
    return true;
  }

  /** What a reply must be to be taken: long enough, our id, our question. */
  predicate Accepts(query: Packet, ourId: U16, reply: Packet) {
    |reply| >= HEADER_SIZE && U16At(reply, 0) == ourId && ReplyMatches(query, reply)
  }

  // ----- the schedule -----

  /** Attempts on the primary adapter. */
  function Primary(retries: int): nat { if 1 + retries > 0 then 1 + retries else 0 }

  /** The adapter that the k-th attempt goes to: the primary for its attempts, then each fallback once. */
  function AdapterOf(retries: int, k: nat): nat {
    if k < Primary(retries) then 0 else k - Primary(retries) + 1
  }

  function Attempts(retries: int, adapters: nat): nat
    requires adapters >= 1
  {
    Primary(retries) + adapters - 1
  }

  /** What the k-th attempt brings back: any function at all, so any upstream behaviour. */
  type Upstream = nat -> Option<Packet>

  predicate Valid(query: Packet, ourId: U16, replies: Upstream, k: nat) {
    replies(k).Some? && Accepts(query, ourId, replies(k).value)
  }

  /** The first attempt from k on, of n, whose reply is taken. */
  function FirstValid(query: Packet, ourId: U16, replies: Upstream, k: nat, n: nat): (r: Option<nat>)
    ensures r.Some? ==> replies(r.value).Some?
    decreases n - k
  {
    if k >= n then None
    else if Valid(query, ourId, replies, k) then Some(k)
    else FirstValid(query, ourId, replies, k + 1, n)
  }

  lemma {:induction false} FirstValidIsFirst(query: Packet, ourId: U16, replies: Upstream, k: nat, n: nat)
    ensures match FirstValid(query, ourId, replies, k, n)
      case None => forall j: nat :: k <= j < n ==> !Valid(query, ourId, replies, j)
      case Some(f) =>
        && k <= f < n && Valid(query, ourId, replies, f)
        && forall j: nat :: k <= j < f ==> !Valid(query, ourId, replies, j)
    decreases n - k
  {
    hide Accepts;
    if k < n && !Valid(query, ourId, replies, k) { FirstValidIsFirst(query, ourId, replies, k + 1, n); }
  }

  /** The bytes sent on every attempt: padded once, under our own id. */
  function Outbound(query: Packet, block: nat, ourId: U16): Packet { WithId(PadQuery(query, block), ourId) }

  // ----- counters -----

  function Sum(s: seq<nat>): nat { if s == [] then 0 else s[0] + Sum(s[1..]) }

  function Bump(s: seq<nat>, i: nat): seq<nat> { if i < |s| then s[i := s[i] + 1] else s }

  lemma {:induction false} SumBump(s: seq<nat>, i: nat)
    requires i < |s|
    ensures Sum(Bump(s, i)) == Sum(s) + 1
  {
    if i > 0 {
      assert Bump(s, i)[1..] == Bump(s[1..], i - 1);
      SumBump(s[1..], i - 1);
    }
  }

  /** The timeout counters after n attempts. */
  function TimeoutsAfter(ts: seq<nat>, retries: int, replies: Upstream, n: nat): (r: seq<nat>)
    ensures |r| == |ts|
  {
    if n == 0 then ts
    else
      var t := TimeoutsAfter(ts, retries, replies, n - 1);
      if replies(n - 1).None? then Bump(t, AdapterOf(retries, n - 1)) else t
  }

  /** Replies that did not come, among the first n. */
  function Absent(replies: Upstream, n: nat): nat {
    if n == 0 then 0 else Absent(replies, n - 1) + if replies(n - 1).None? then 1 else 0
  }

  lemma {:induction false} TimeoutsSum(ts: seq<nat>, retries: int, replies: Upstream, n: nat)
    requires |ts| >= 1 && n <= Attempts(retries, |ts|)
    ensures Sum(TimeoutsAfter(ts, retries, replies, n)) == Sum(ts) + Absent(replies, n)
  {
    if n > 0 {
      TimeoutsSum(ts, retries, replies, n - 1);
      SumBump(TimeoutsAfter(ts, retries, replies, n - 1), AdapterOf(retries, n - 1));
    }
  }

  // ----- forward -----

  datatype Forwarded = Forwarded(response: Packet, adapter: nat)

  /** `forward` without its counters: the first acceptable reply, under the client's id. */
  function Forward(query: Packet, retries: int, adapters: nat, ourId: U16, replies: Upstream): Option<Forwarded>
    requires adapters >= 1
  {
    if |query| < HEADER_SIZE then None
    else
      match FirstValid(query, ourId, replies, 0, Attempts(retries, adapters))
      case None => None
      case Some(k) => Some(Forwarded(WithId(replies(k).value, U16At(query, 0)), AdapterOf(retries, k)))
  }

  /** Attempts made: up to and including the one that succeeded, or all of them. */
  function Calls(query: Packet, retries: int, adapters: nat, ourId: U16, replies: Upstream): nat
    requires adapters >= 1
  {
    if |query| < HEADER_SIZE then 0
    else
      match FirstValid(query, ourId, replies, 0, Attempts(retries, adapters))
      case None => Attempts(retries, adapters)
      case Some(k) => k + 1
  }

  class Resolver {
    const retries: int
    const block: nat
    var answered: seq<nat>
    var timeouts: seq<nat>
    ghost var successes: nat
    ghost var absent: nat

    /** Over every run so far: answered counters sum to the queries that succeeded, timeout counters to the
        replies that never came. */
    ghost predicate Valid()
      reads this
    {
      |answered| == |timeouts| >= 1 && Sum(answered) == successes && Sum(timeouts) == absent
    }

    constructor (retries: int, block: nat, adapters: nat)
      requires adapters >= 1
      ensures Valid() && |answered| == adapters && this.retries == retries && this.block == block
        && successes == absent == 0
    {
      this.retries, this.block := retries, block;
      answered, timeouts := seq(adapters, _ => 0), seq(adapters, _ => 0);
      successes, absent := 0, 0;
      SumZeros(adapters);
    }

    /** The attempts on one adapter, numbered from `from`. */
    method TryAdapter(i: nat, attempts: int, from: nat, query: Packet, ourId: U16, outbound: Packet, replies: Upstream,
                      ghost total: nat, ghost before: seq<nat>)
      returns (r: Option<Packet>, k: nat, ghost sent: seq<Packet>)
      requires i < |timeouts| == |before| && from + attempts <= total
      requires forall j: nat :: from <= j < from + attempts ==> AdapterOf(retries, j) == i
      requires timeouts == TimeoutsAfter(before, retries, replies, from)
      modifies `timeouts
      ensures timeouts == TimeoutsAfter(before, retries, replies, k)
      ensures |sent| == k - from && forall j :: 0 <= j < |sent| ==> sent[j] == outbound
      ensures if r.None? then k == (if attempts > 0 then from + attempts else from)
              else from < k <= from + attempts && r == replies(k - 1)
      ensures FirstValid(query, ourId, replies, from, total) ==
              if r.None? then FirstValid(query, ourId, replies, k, total) else Some(k - 1)
    {
      hide Accepts;
      sent, k := [], from;
      var a := 0;
      while a < attempts
        invariant 0 <= a && (a <= attempts || a == 0) && k == from + a && |timeouts| == |before|
        invariant |sent| == a && forall j :: 0 <= j < a ==> sent[j] == outbound
        invariant timeouts == TimeoutsAfter(before, retries, replies, k)
        invariant FirstValid(query, ourId, replies, from, total) == FirstValid(query, ourId, replies, k, total)
      {
        assert AdapterOf(retries, k) == i;
        sent := sent + [outbound];
        var reply := replies(k);
        k, a := k + 1, a + 1;
        if reply.None? {
          timeouts := timeouts[i := timeouts[i] + 1];
          continue;
        }
        var ok := Check(query, ourId, reply.value);
        if !ok { continue; }
        return reply, k, sent;
      }
      r := None;
    }

    method Send(query: Packet, ourId: U16, replies: Upstream) returns (r: Option<Forwarded>, ghost sent: seq<Packet>)
      requires Valid()
      modifies this
      ensures Valid() && |answered| == |old(answered)|
      ensures r == Forward(query, retries, |old(answered)|, ourId, replies)
      ensures var n := Calls(query, retries, |old(answered)|, ourId, replies);
        && |sent| == n && (forall i :: 0 <= i < n ==> sent[i] == Outbound(query, block, ourId))
        && timeouts == TimeoutsAfter(old(timeouts), retries, replies, n)
        && absent == old(absent) + Absent(replies, n)
      ensures if r.None? then answered == old(answered) && successes == old(successes)
              else (&& r.value.adapter < |old(answered)| && successes == old(successes) + 1
                    && answered == old(answered)[r.value.adapter := old(answered)[r.value.adapter] + 1])
    {
      hide PadQuery, WithId, Sum, FirstValid, TimeoutsAfter, Absent, U16At;
      sent := [];
      if |query| < HEADER_SIZE {
        TimeoutsSum(timeouts, retries, replies, 0);
        NothingTried(timeouts, retries, replies);
        return None, [];
      }
      var clientId := U16At(query, 0);
      var outbound := PadQuerySteps(query, block);
      outbound := WithId(outbound, ourId);
      var n := |answered|;
      ghost var total := Attempts(retries, n);
      var k: nat := 0;
      var i := 0;
      NothingTried(timeouts, retries, replies);
      while i < n
        invariant 0 <= i <= n && |timeouts| == n && answered == old(answered)
        invariant k == (if i == 0 then 0 else Primary(retries) + i - 1) == |sent|
        invariant forall j :: 0 <= j < k ==> sent[j] == outbound
        invariant timeouts == TimeoutsAfter(old(timeouts), retries, replies, k)
        invariant FirstValid(query, ourId, replies, 0, total) == FirstValid(query, ourId, replies, k, total)
        invariant successes == old(successes) && absent == old(absent)
      {
        var reply;
        ghost var more;
        reply, k, more :=
          TryAdapter(i, if i == 0 then 1 + retries else 1, k, query, ourId, outbound, replies, total, old(timeouts));
        sent := sent + more;
        if reply.Some? {
          answered := answered[i := answered[i] + 1];
          SumBump(old(answered), i);
          TimeoutsSum(old(timeouts), retries, replies, k);
          successes, absent := successes + 1, absent + Absent(replies, k);
          return Some(Forwarded(WithId(reply.value, clientId), i)), sent;
        }
        i := i + 1;
      }
      NoneLeft(query, ourId, replies, k, total);
      TimeoutsSum(old(timeouts), retries, replies, k);
      absent := absent + Absent(replies, k);
      return None, sent;
    }
  }

  method Check(query: Packet, ourId: U16, reply: Packet) returns (ok: bool)
    ensures ok == Accepts(query, ourId, reply)
  {
    hide ReplyMatches;
    if |reply| < HEADER_SIZE { return false; }
    if U16At(reply, 0) != ourId { return false; }
    ok := ReplyMatchesLoop(query, reply);
  }

  lemma {:induction false} NothingTried(ts: seq<nat>, retries: int, replies: Upstream)
    ensures TimeoutsAfter(ts, retries, replies, 0) == ts && Absent(replies, 0) == 0
  {
  }

  lemma {:induction false} NoneLeft(query: Packet, ourId: U16, replies: Upstream, k: nat, n: nat)
    requires k >= n
    ensures FirstValid(query, ourId, replies, k, n) == None
  {
  }

  lemma {:induction false} SumZeros(n: nat)
    ensures Sum(seq(n, _ => 0)) == 0
  {
    if n > 0 {
      var s: seq<nat> := seq(n, _ => 0);
      var t: seq<nat> := seq(n - 1, _ => 0);
      assert s[1..] == t;
      SumZeros(n - 1);
    }
  }

  // ----- what comes back -----

  /** The k-th reply came, has a header, begins with our id, and it and the query parse with the same questions. */
  ghost predicate AnswersUs(query: Packet, ourId: U16, replies: Upstream, k: nat) {
    && replies(k).Some?
    && var reply := replies(k).value;
       && |reply| >= 12 && reply[0] == ourId / 256 && reply[1] == ourId % 256
       && ParseFull(query).Some? && ParseFull(reply).Some?
       && ParseFull(reply).value.msg.questions == ParseFull(query).value.msg.questions
  }

  /** The adapter whose turn it is: the primary for its first attempt and its retries, then each other one once. */
  function OnTurn(retries: int, k: nat): int {
    if k <= retries then 0 else if retries >= 0 then k - retries else k + 1
  }

  /** How many attempts there are in all. */
  function AllTurns(retries: int, adapters: nat): int {
    if retries >= 0 then retries + adapters else adapters - 1
  }

  lemma {:induction false} ValidAnswersUs(query: Packet, ourId: U16, replies: Upstream, k: nat)
    ensures Valid(query, ourId, replies, k) <==> AnswersUs(query, ourId, replies, k)
  {
    hide ParseFull;
  }

  /** The first two bytes replaced by the client's. */
  ghost predicate UnderIdOf(query: Packet, reply: Packet, response: Packet)
    requires |query| >= 2
  {
    |response| == |reply| >= 2 && response[0] == query[0] && response[1] == query[1] && response[2..] == reply[2..]
  }

  /** `forward` returns exactly the first reply of the schedule that answers us, under the client's id, and makes no
      attempt after it; it fails only after every attempt of the schedule, or at once on a query without a header. */
  lemma {:induction false} ForwardIsFirstValid(query: Packet, retries: int, adapters: nat, ourId: U16,
                                               replies: Upstream)
    requires adapters >= 1
    ensures var n := AllTurns(retries, adapters); var calls := Calls(query, retries, adapters, ourId, replies);
      match Forward(query, retries, adapters, ourId, replies)
      case None => (
        if |query| < 12 then calls == 0
        else calls == n && forall j: nat :: j < n ==> !AnswersUs(query, ourId, replies, j))
      case Some(f) => (
        && |query| >= 12 && 1 <= calls <= n && AnswersUs(query, ourId, replies, calls - 1)
        && (forall j: nat :: j < calls - 1 ==> !AnswersUs(query, ourId, replies, j))
        && UnderIdOf(query, replies(calls - 1).value, f.response)
        && f.adapter == OnTurn(retries, calls - 1) < adapters)
  {
    hide Accepts, WithId, FirstValid, U16At, AnswersUs;
    FirstValidIsFirst(query, ourId, replies, 0, Attempts(retries, adapters));
    forall j: nat ensures Valid(query, ourId, replies, j) <==> AnswersUs(query, ourId, replies, j) {
      ValidAnswersUs(query, ourId, replies, j);
    }
    var f := Forward(query, retries, adapters, ourId, replies);
    if f.Some? {
      var k := Calls(query, retries, adapters, ourId, replies) - 1;
      HasHeader(query, ourId, replies, k);
      ClientIdWritten(query, replies(k).value);
    }
  }

  lemma {:induction false} HasHeader(query: Packet, ourId: U16, replies: Upstream, k: nat)
    requires AnswersUs(query, ourId, replies, k)
    ensures |replies(k).value| >= 12
  {
  }

  lemma {:induction false} ClientIdWritten(query: Packet, reply: Packet)
    requires |query| >= 2 && |reply| >= 2
    ensures UnderIdOf(query, reply, WithId(reply, U16At(query, 0)))
  {
    assert U16Bytes(U16At(query, 0)) == [query[0], query[1]];
  }

  /** The attempts among the first n that were on this adapter and brought nothing. */
  ghost function Missed(retries: int, replies: Upstream, n: nat, i: nat): set<nat> {
    set k: nat | k < n && replies(k).None? && OnTurn(retries, k) == i
  }

  /** Each timeout is counted against the adapter whose turn it was. */
  lemma {:induction false} TimeoutsAreCounted(ts: seq<nat>, retries: int, replies: Upstream, n: nat, i: nat)
    requires i < |ts|
    ensures TimeoutsAfter(ts, retries, replies, n)[i] == ts[i] + |Missed(retries, replies, n, i)|
  {
    if n == 0 {
      assert Missed(retries, replies, 0, i) == {};
    } else {
      TimeoutsAreCounted(ts, retries, replies, n - 1, i);
      var before := Missed(retries, replies, n - 1, i);
      assert AdapterOf(retries, n - 1) == OnTurn(retries, n - 1);
      if replies(n - 1).None? && OnTurn(retries, n - 1) == i {
        assert Missed(retries, replies, n, i) == before + {n - 1};
      } else {
        assert Missed(retries, replies, n, i) == before;
      }
    }
  }

  /** An accepted reply, given back to the client: if none of its names uses the id bytes, it parses with
      the client's id and the client's questions. */
  lemma {:induction false} ReturnedReplyAnswersClient(query: Packet, ourId: U16, reply: Packet)
    requires |query| >= HEADER_SIZE && Accepts(query, ourId, reply) && IdClearOfNames(reply)
    ensures var r := WithId(reply, U16At(query, 0));
      && ParseFull(r) == Some(Parsed(SetId(ParseFull(reply).value.msg, U16At(query, 0)), ParseFull(reply).value.end))
      && Parse(r).value.header.id == Parse(query).value.header.id
      && Parse(r).value.questions == Parse(query).value.questions
  {
    hide ParseFull, NameReads, WithId, U16At;
    IdRewriteCommutes(reply, U16At(query, 0));
    IdOfQuery(query);
  }

  lemma {:induction false} IdOfQuery(query: Packet)
    requires ParseFull(query).Some?
    ensures |query| >= HEADER_SIZE && ParseFull(query).value.msg.header.id == U16At(query, 0)
  {
    hide ParseQuestions, ParseRecords, U16At;
  }

  /** What the client's message becomes on the way out. */
  function SentMessage(query: Packet, block: nat, ourId: U16): Message
    requires ParseFull(query).Some?
  {
    SetId(if Pads(query, block) then PaddedMessage(query, block) else Parse(query).value, ourId)
  }

  /** A field further on and what is appended can be written before or after the id. */
  lemma {:induction false} IdFirst(p: Packet, id: U16, off: nat, patch: Packet, tail: Packet)
    requires 2 <= off && off + |patch| <= |p|
    ensures Patch(WithId(p, id), off, patch) + tail == WithId(Patch(p, off, patch) + tail, id)
  {
    hide U16Bytes;
  }

  lemma {:induction false} Unpadded(query: Packet, block: nat)
    requires !Pads(query, block)
    ensures PadQuery(query, block) == query
  {
  }

  /** The client's query under our id is padded alike. */
  lemma {:induction false} PadsAlike(query: Packet, block: nat, ourId: U16)
    requires ParseFull(query).Some?
    requires ParseFull(WithId(query, ourId)) ==
      Some(Parsed(SetId(ParseFull(query).value.msg, ourId), ParseFull(query).value.end))
    ensures var q := WithId(query, ourId);
      && Pads(q, block) == Pads(query, block) && PadQuery(q, block) == Outbound(query, block, ourId)
      && (Pads(q, block) ==> PaddedMessage(q, block) == SetId(PaddedMessage(query, block), ourId))
  {
    hide ParseFull, ScanOpt, PaddingOption, RoundUp, WithId, PadQuery;
    if Pads(query, block) {
      if ScanOpt(Parse(query).value.additional, |query|).LastOpt? {
        GrownAlike(query, block, ourId);
      } else {
        NewOptAlike(query, block, ourId);
      }
    } else {
      Unpadded(query, block);
      Unpadded(WithId(query, ourId), block);
    }
  }

  lemma {:induction false} GrownAlike(query: Packet, block: nat, ourId: U16)
    requires Pads(query, block) && ScanOpt(Parse(query).value.additional, |query|).LastOpt?
    requires ParseFull(WithId(query, ourId)) ==
      Some(Parsed(SetId(ParseFull(query).value.msg, ourId), ParseFull(query).value.end))
    ensures PadQuery(WithId(query, ourId), block) == Outbound(query, block, ourId)
  {
    hide ParseFull, ScanOpt, PaddingOption, RoundUp, U16Bytes, WithId, ParseHeader, PadQuery, Patch, SameRange;
    var opt := ScanOpt(Parse(query).value.additional, |query|);
    var o := PaddingOption(PadLen(query, opt, block));
    GrownShape(query, block);
    GrownShape(WithId(query, ourId), block);
    IdFirst(query, ourId, opt.rr.rdataOff - 2, U16Bytes(|opt.rr.rdata| + |o|), o);
  }

  lemma {:induction false} NewOptAlike(query: Packet, block: nat, ourId: U16)
    requires Pads(query, block) && ScanOpt(Parse(query).value.additional, |query|).NoOpt?
    requires ParseFull(WithId(query, ourId)) ==
      Some(Parsed(SetId(ParseFull(query).value.msg, ourId), ParseFull(query).value.end))
    ensures PadQuery(WithId(query, ourId), block) == Outbound(query, block, ourId)
  {
    hide ParseFull, ScanOpt, PaddingOption, RoundUp, U16Bytes, WithId, ParseHeader, NewOptHead, PadQuery;
    var q := WithId(query, ourId);
    var patch := U16Bytes(Parse(query).value.header.arcount + 1);
    var head, o := NewOptHead(PadLen(query, NoOpt, block)), PaddingOption(PadLen(query, NoOpt, block));
    NewOptShape(query, block);
    NewOptShape(q, block);
    IdFirst(query, ourId, 10, patch, head + o);
    assert Patch(q, 10, patch) + (head + o) == Patch(q, 10, patch) + head + o;
    assert Patch(query, 10, patch) + (head + o) == Patch(query, 10, patch) + head + o;
  }

  /** What upstream is asked is what the client asked. If no name of the query uses the id bytes and, where it is
      padded, the hypotheses of the padding theorem hold, the outbound bytes parse to the client's message with
      our id and the padding added. */
  lemma {:induction false} OutboundCarriesQuery(query: Packet, block: nat, ourId: U16)
    requires ParseFull(query).Some? && IdClearOfNames(query)
    requires Pads(query, block) ==> PaddingClearOfNames(query)
    requires Pads(query, block) ==>
      var opt := ScanOpt(Parse(query).value.additional, |query|);
      opt.NoOpt? ==> ParseFull(query).value.end == |query| && OPTION_HEAD + PadLen(query, opt, block) <= U16_MAX
    ensures var sent := Outbound(query, block, ourId);
      var end := if Pads(query, block) then |sent| else ParseFull(query).value.end;
      ParseFull(sent) == Some(Parsed(SentMessage(query, block, ourId), end))
    ensures SentMessage(query, block, ourId).questions == Parse(query).value.questions
  {
    SameQuestions(query, block);
    hide ParseFull, PadQuery, NameReads, ScanOpt, RoundUp, PaddingClearOfNames, WithId, NamesStand, Pads, DecodeName,
      Labels, PaddedMessage;
    var q := WithId(query, ourId);
    IdRewriteCommutes(query, ourId);
    PadsAlike(query, block, ourId);
    if Pads(query, block) {
      SentNamesStand(query, block, ourId);
      PaddingExactly(q, block);
      SentRoot(query, block, ourId);
    } else {
      Unpadded(query, block);
    }
  }

  lemma {:induction false} SameQuestions(query: Packet, block: nat)
    ensures Pads(query, block) ==> PaddedMessage(query, block).questions == Parse(query).value.questions
  {
    hide ParseFull, ScanOpt, PadLen, PaddingOption;
  }

  /** The names of the query under our id stand in what is sent. */
  lemma {:induction false} SentNamesStand(query: Packet, block: nat, ourId: U16)
    requires ParseFull(query).Some? && IdClearOfNames(query) && Pads(query, block) && PaddingClearOfNames(query)
    ensures ParseFull(WithId(query, ourId)).Some? && NamesStand(WithId(query, ourId), Outbound(query, block, ourId))
  {
    hide ParseFull, PadQuery, NameReads, NamesStand, Pads, U16Bytes, PaddingClearOfNames, KeepsNames;
    var q := WithId(query, ourId);
    var sent := Outbound(query, block, ourId);
    IdRewriteCommutes(query, ourId);
    IdRewriteExactly(query, ourId);
    PaddingKeepsNames(query, block);
    IdKeepsNames(query, PadQuery(query, block), ourId);
    FootprintStands(query, sent) by { KeepsNamesMeans(query, sent); }
    MessageIsLaid(query);
    StandsAcross(query, q, sent);
  }

  lemma {:induction false} KeepsNamesMeans(pkt: Packet, to: Packet)
    requires ParseFull(pkt).Some? && KeepsNames(pkt, to)
    ensures forall i: nat :: NameReads(pkt, i) ==> i < |pkt| && i < |to| && to[i] == pkt[i]
  {
  }

  lemma {:induction false} IdKeepsNames(pkt: Packet, edited: Packet, id: U16)
    requires ParseFull(pkt).Some? && IdClearOfNames(pkt) && KeepsNames(pkt, edited)
    ensures KeepsNames(pkt, WithId(edited, id))
  {
    hide ParseFull, NameReads, U16Bytes;
    forall i: nat | NameReads(pkt, i) ensures i < |pkt| && i < |edited| && WithId(edited, id)[i] == pkt[i] {
      assert i != 0 && i != 1;
    }
  }

  /** A query without OPT, consumed to its end, gets its new record where parsing stopped. */
  lemma {:induction false} SentRoot(query: Packet, block: nat, ourId: U16)
    requires ParseFull(query).Some? && IdClearOfNames(query) && Pads(query, block)
    requires ScanOpt(Parse(query).value.additional, |query|).NoOpt? ==> ParseFull(query).value.end == |query|
    ensures ScanOpt(Parse(query).value.additional, |query|).NoOpt? ==>
      DecodeName(Outbound(query, block, ourId), |query|) == Some(Decoded([], |query| + 1))
  {
    hide ParseFull, ScanOpt, PadQuery, NameReads, DecodeName, Labels, U16Bytes, PadLen, NewOptHead, PaddingOption, Pads;
    var sent := Outbound(query, block, ourId);
    if ScanOpt(Parse(query).value.additional, |query|).NoOpt? {
      NewOptShape(query, block);
      assert sent[|query|] == 0;
      RootWhereParsingStopped(query, sent, |query|);
    }
  }
}
