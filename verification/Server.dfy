/** The daemon as a step system: queries arrive, are worked on in any interleaving, and rule lists are
    reloaded meanwhile (`handle`, `serve` and the reload handler of src/server.cpp). */
module Server {
  import opened Wire
  import opened Names
  import opened Parser
  import opened Edits
  import opened Replies
  import opened Ttl
  import opened Lru
  import opened Cache
  import opened Serving
  import Blocklist
  import opened Uncloaker
  import opened Aliases
  import Ordinary
  import opened Resolver

  type Rules = Blocklist.Rules

  const FORWARDABLE: set<U16> := {1, 2, 5, 6, 12, 15, 16, 28, 33, 35, 43, 46, 47, 48, 64, 65, 257}

  /** A, NS, CNAME, SOA, PTR, MX, TXT, AAAA, SRV, NAPTR, DS, RRSIG, NSEC, DNSKEY, SVCB, HTTPS and CAA. */
  lemma {:induction false} ForwardableTypes(t: U16)
    ensures t in FORWARDABLE <==>
      || t == 1 || t == 2 || t == 5 || t == 6 || t == 12 || t == 15 || t == 16 || t == 28 || t == 33 || t == 35
      || t == 43 || t == 46 || t == 47 || t == 48 || t == 64 || t == 65 || t == 257
  {
  }

  predicate IsAddress(qtype: U16) { qtype == TYPE_A || qtype == TYPE_AAAA }

  /** Fixed configuration. */
  datatype Config = Config(maxEntries: nat, maxDepth: int, table: seq<Name>, retries: int, adapters: nat)

  /** Where a reply comes from: four kinds are made up, the others pass on what upstream said. */
  datatype Source = Refused | NameBlocked | AliasBlocked | Failed | Cached(entry: Entry) | Relayed

  predicate MadeUp(source: Source) { !source.Cached? && !source.Relayed? }

  datatype Phase =
    | Arrived
    | Forwarding
    | Judging(response: Packet)
    | Sending(reply: Packet, source: Source)
    | Done

  /** A query being handled, with the rule version that was live when it arrived. */
  datatype Task = Task(query: Packet, version: nat, phase: Phase)

  datatype Sent = Sent(task: nat, bytes: Packet, source: Source)

  /** Every rule version so far, the newest last; the first is the one the uncloaker has pinned. */
  datatype World = World(versions: seq<Rules>, cache: State, tasks: seq<Task>, sent: seq<Sent>)

  /** One atomic stretch of work. `replies` and `upstream` are arbitrary: they stand for whatever the
      network does during that stretch. */
  datatype Event =
    | Arrive(query: Packet)
    | Reload(rules: Rules)
    | Begin(t: nat, now: int)
    | Answer(t: nat, now: int, ourId: U16, replies: Upstream)
    | Judge(t: nat, now: int, upstream: (nat, Packet) -> Option<Packet>)
    | Send(t: nat)
    | SweepCache(now: int)

  // ----- handle -----

  function KeyOf(q: Question): Key { Key(q.qname, q.qtype, q.qclass) }

  function Refusal(query: Packet, m: Message): Packet
    requires HEADER_SIZE <= m.questionEnd <= |query|
  {
    Reply(query, m.questionEnd, 0, RCODE_REFUSED, [])
  }

  function BlockReply(query: Packet, m: Message, qtype: U16): Packet
    requires HEADER_SIZE <= m.questionEnd <= |query|
  {
    if qtype == TYPE_A then BlockA(query, m.questionEnd)
    else if qtype == TYPE_AAAA then BlockAaaa(query, m.questionEnd)
    else Reply(query, m.questionEnd, 0, RCODE_OK, [])
  }

  /** From a received query to the first wait: refused, blocked, served from the cache, or forwarded. */
  function BeginQuery(rules: Rules, cache: State, query: Packet, now: int): (Phase, State) {
    var parsed := ParseFull(query);
    if parsed.None? then (Done, cache)
    else
      var m := parsed.value.msg;
      HeaderIsParsed(query);
      if |m.questions| != 1 || m.questions[0].qtype !in FORWARDABLE then
        (Sending(Refusal(query, m), Refused), cache)
      else
        var q := m.questions[0];
        if Blocklist.Match(rules, q.qname).blocked then (Sending(BlockReply(query, m, q.qtype), NameBlocked), cache)
        else
          match Hit(cache, KeyOf(q), now)
          case Some(e) => (Sending(ServedBytes(e, now, m.header.id), Cached(e)), Lookup(cache, KeyOf(q), now))
          case None => (Forwarding, Lookup(cache, KeyOf(q), now))
  }

  /** The moment an event happens, if it looks at the clock. */
  function TimeOf(e: Event): int {
    match e
    case Begin(_, now) => now
    case Answer(_, now, _, _) => now
    case Judge(_, now, _) => now
    case SweepCache(now) => now
    case _ => 0
  }

  /** The insert made for a response that parses. */
  function Storing(key: Key, response: Packet, now: int): Op
    requires ParseFull(response).Some?
  {
    var m := ParseFull(response).value.msg;
    InsertOp(now, key, response, TtlOffsets(m.Records()), CacheTtl(m))
  }

  /** Storing a response under the query's key, if it parses and has a lifetime. */
  function TryInsert(c: Config, cache: State, key: Key, response: Packet, now: int): State {
    if ParseFull(response).None? then cache else Step(cache, c.maxEntries, Storing(key, response, now))
  }

  function ServFail(query: Packet, m: Message): Packet
    requires HEADER_SIZE <= m.questionEnd <= |query|
  {
    Reply(query, m.questionEnd, 0, RCODE_SERVFAIL, [])
  }

  /** A query that got past the first stage has exactly one question. */
  predicate OneQuestionQuery(query: Packet) {
    ParseFull(query).Some? && |ParseFull(query).value.msg.questions| == 1
  }

  function TheQuestion(query: Packet): Question
    requires OneQuestionQuery(query)
  {
    ParseFull(query).value.msg.questions[0]
  }

  /** What the resolver brought, or did not bring. */
  function AnswerQuery(c: Config, cache: State, query: Packet, now: int, ourId: U16, replies: Upstream): (Phase, State)
    requires OneQuestionQuery(query) && c.adapters >= 1
  {
    HeaderIsParsed(query);
    match Forward(query, c.retries, c.adapters, ourId, replies)
    case None => (Sending(ServFail(query, ParseFull(query).value.msg), Failed), cache)
    case Some(f) =>
      var q := TheQuestion(query);
      if IsAddress(q.qtype) then (Judging(f.response), cache)
      else (Sending(f.response, Relayed), TryInsert(c, cache, KeyOf(q), f.response, now))
  }

  function PinnedEnv(c: Config, pinned: Rules, upstream: (nat, Packet) -> Option<Packet>): Env {
    Env(pinned, c.table, c.maxDepth, upstream)
  }

  /** The uncloaker's verdict, under the pinned rules. */
  function JudgeQuery(c: Config, pinned: Rules, cache: State, query: Packet, response: Packet, now: int,
                      upstream: (nat, Packet) -> Option<Packet>): (Phase, State)
    requires OneQuestionQuery(query)
  {
    HeaderIsParsed(query);
    var m := ParseFull(query).value.msg;
    var q := m.questions[0];
    match UncloakName(PinnedEnv(c, pinned, upstream), q.qname, response).status
    case Blocked =>
      var reply := if q.qtype == TYPE_AAAA then BlockAaaa(query, m.questionEnd) else BlockA(query, m.questionEnd);
      (Sending(reply, AliasBlocked), cache)
    case Aborted => (Sending(ServFail(query, m), Failed), cache)
    case Clean => (Sending(response, Relayed), TryInsert(c, cache, KeyOf(q), response, now))
  }

  /** A task advances and the cache with it. */
  function Advance(w: World, t: nat, next: (Phase, State)): World
    requires t < |w.tasks|
  {
    w.(tasks := w.tasks[t := w.tasks[t].(phase := next.0)], cache := next.1)
  }

  /** The next world. An event that does not fit the task's phase changes nothing. */
  function Next(c: Config, w: World, e: Event): World
    requires w.versions != [] && c.adapters >= 1
  {
    match e
    case Arrive(query) => w.(tasks := w.tasks + [Task(query, |w.versions| - 1, Arrived)])
    case Reload(rules) => w.(versions := w.versions + [rules])
    case SweepCache(now) => w.(cache := Sweep(w.cache, now))
    case Begin(t, now) =>
      if t < |w.tasks| && w.tasks[t].phase.Arrived? && w.tasks[t].version < |w.versions| then
        Advance(w, t, BeginQuery(w.versions[w.tasks[t].version], w.cache, w.tasks[t].query, now))
      else w
    case Answer(t, now, ourId, replies) =>
      if t < |w.tasks| && w.tasks[t].phase.Forwarding? && OneQuestionQuery(w.tasks[t].query) then
        Advance(w, t, AnswerQuery(c, w.cache, w.tasks[t].query, now, ourId, replies))
      else w
    case Judge(t, now, upstream) =>
      if t < |w.tasks| && w.tasks[t].phase.Judging? && OneQuestionQuery(w.tasks[t].query) then
        Advance(w, t, JudgeQuery(c, w.versions[0], w.cache, w.tasks[t].query, w.tasks[t].phase.response, now, upstream))
      else w
    case Send(t) =>
      if t < |w.tasks| && w.tasks[t].phase.Sending? then
        var p := w.tasks[t].phase;
        Advance(w, t, (Done, w.cache)).(sent := w.sent + [Sent(t, p.reply, p.source)])
      else w
  }

  /** The world after a run, from an empty cache and the rules loaded at startup. */
  function RunFrom(c: Config, rules: Rules, events: seq<Event>): (w: World)
    requires c.adapters >= 1
    ensures w.versions != [] && w.versions[0] == rules
  {
    if events == [] then World([rules], EMPTY, [], [])
    else Next(c, RunFrom(c, rules, events[..|events| - 1]), events[|events| - 1])
  }

  // ----- what made-up replies say -----

  /** A message in answer to the one question: the query's id, opcode and RD, QR and RA set. */
  function InAnswer(query: Packet, rcode: int, answers: seq<Record>): Message
    requires OneQuestionQuery(query) && |answers| <= 1
  {
    var m := ParseFull(query).value.msg;
    var h := m.header;
    Message(Header(h.id, true, h.opcode, false, false, h.rd, true, rcode, 1, |answers|, 0, 0), [TheQuestion(query)],
            answers, [], [], m.questionEnd)
  }

  /** The reply parses to its last byte as this message. */
  ghost predicate Tells(reply: Packet, msg: Message) { ParseFull(reply) == Some(Parsed(msg, |reply|)) }

  /** The address 0.0.0.0 or :: of the queried name, for five minutes. */
  function ZeroOf(query: Packet, rtype: U16, size: nat): Record
    requires OneQuestionQuery(query)
  {
    Record(TheQuestion(query).qname, rtype, 1, 300, ParseFull(query).value.msg.questionEnd + 12, Zeros(size))
  }

  /** What each made-up reply says, for every query with one question: REFUSED, SERVFAIL, or for a blocked name the
      address 0.0.0.0 to type A, :: to type AAAA and no record to any other. It does so exactly if the name of the
      question is the same in the reply and, where it is pointed to, leaves a pointer to spare. */
  lemma {:induction false} MadeUpRepliesSay(query: Packet, qtype: U16)
    requires OneQuestionQuery(query)
    ensures 12 <= ParseFull(query).value.msg.questionEnd <= |query|
    ensures var m := ParseFull(query).value.msg;
      var refusal, failure, block := Refusal(query, m), ServFail(query, m), BlockReply(query, m, qtype);
      && (Tells(refusal, InAnswer(query, 5, [])) <==> NameStands(query, refusal, 12))
      && (Tells(failure, InAnswer(query, 2, [])) <==> NameStands(query, failure, 12))
      && (qtype == 1 ==> (Tells(block, InAnswer(query, 0, [ZeroOf(query, 1, 4)])) <==>
                            NameStands(query, block, 12) && Labels(block, 12, 15).Some?))
      && (qtype == 28 ==> (Tells(block, InAnswer(query, 0, [ZeroOf(query, 28, 16)])) <==>
                             NameStands(query, block, 12) && Labels(block, 12, 15).Some?))
      && (qtype != 1 && qtype != 28 ==> (Tells(block, InAnswer(query, 0, [])) <==> NameStands(query, block, 12)))
  {
    hide ParseFull, Reply, NameStands, Labels, NameEnd, Zeros;
    EmptyReplySays(query, 5);
    EmptyReplySays(query, 2);
    EmptyReplySays(query, 0);
    BlockReplySays(query, 1, 4);
    BlockReplySays(query, 28, 16);
  }

  lemma {:induction false} EmptyReplySays(query: Packet, rcode: nat)
    requires OneQuestionQuery(query) && rcode < 16
    ensures 12 <= ParseFull(query).value.msg.questionEnd <= |query|
    ensures var r := Reply(query, ParseFull(query).value.msg.questionEnd, 0, rcode, []);
      Tells(r, InAnswer(query, rcode, [])) <==> NameStands(query, r, 12)
  {
    hide ParseFull, Reply, NameStands, NameEnd, ParseHeader, ParseQuestion;
    EmptyReplyExactly(query, rcode);
    FirstQuestion(query);
    ReplyShape(query, 0, rcode, []);
  }

  lemma {:induction false} BlockReplySays(query: Packet, rtype: U16, size: U16)
    requires OneQuestionQuery(query)
    ensures 12 <= ParseFull(query).value.msg.questionEnd <= |query|
    ensures var r := Reply(query, ParseFull(query).value.msg.questionEnd, 1, 0, ZeroAnswer(rtype, size));
      Tells(r, InAnswer(query, 0, [ZeroOf(query, rtype, size)])) <==>
        NameStands(query, r, 12) && Labels(r, 12, 15).Some?
  {
    hide ParseFull, Reply, NameStands, NameEnd, ParseHeader, ZeroAnswer, Labels, Zeros;
    BlockReplyExactly(query, rtype, size);
    ReplyShape(query, 1, 0, ZeroAnswer(rtype, size));
    assert ParseFull(query).value.msg.questions == [TheQuestion(query)];
  }

  /** A client that sends the name in full is always told so. */
  lemma {:induction false} PlainQueriesAreTold(query: Packet, qtype: U16)
    requires OneQuestionQuery(query) && Uncompressed(query, 12)
    ensures 12 <= ParseFull(query).value.msg.questionEnd <= |query|
    ensures var m := ParseFull(query).value.msg; var block := BlockReply(query, m, qtype);
      && Tells(Refusal(query, m), InAnswer(query, 5, [])) && Tells(ServFail(query, m), InAnswer(query, 2, []))
      && (qtype == 1 ==> Tells(block, InAnswer(query, 0, [ZeroOf(query, 1, 4)])))
      && (qtype == 28 ==> Tells(block, InAnswer(query, 0, [ZeroOf(query, 28, 16)])))
      && (qtype != 1 && qtype != 28 ==> Tells(block, InAnswer(query, 0, [])))
  {
    hide ParseFull, Reply, NameStands, Labels, NameEnd, Zeros, NameInQuestion, Tells, InAnswer, ZeroOf, AgreesOnName,
      ZeroAnswer;
    UncompressedQueryIsSafe(query);
    MadeUpRepliesSay(query, qtype);
    ReplyKeepsQuestion(query, 0, 5, []);
    ReplyKeepsQuestion(query, 0, 2, []);
    ReplyKeepsQuestion(query, 0, 0, []);
    ReplyKeepsQuestion(query, 1, 0, ZeroAnswer(1, 4));
    ReplyKeepsQuestion(query, 1, 0, ZeroAnswer(28, 16));
    HopToSpare(query, 1, 4);
    HopToSpare(query, 28, 16);
  }

  lemma {:induction false} HopToSpare(query: Packet, rtype: U16, size: U16)
    requires OneQuestionQuery(query) && Uncompressed(query, 12)
    ensures 12 <= ParseFull(query).value.msg.questionEnd <= |query|
    ensures Labels(Reply(query, ParseFull(query).value.msg.questionEnd, 1, 0, ZeroAnswer(rtype, size)), 12, 15).Some?
  {
    hide ParseFull, Reply, Labels, NameEnd, NameInQuestion, AgreesOnName, ZeroAnswer, Uncompressed, NameStands;
    UncompressedQueryIsSafe(query);
    var a := ZeroAnswer(rtype, size);
    ReplyKeepsQuestion(query, 1, 0, a);
    UncompressedName(query, 12, 16);
    FewerHopsFrame(query, Reply(query, ParseFull(query).value.msg.questionEnd, 1, 0, a), 12, 16, 15);
  }

  // ----- what happened in a run -----

  /** A configuration, the rules loaded at startup, and everything that happens. */
  datatype Run = Run(c: Config, rules: Rules, events: seq<Event>)

  /** The world after the first n events. */
  function WorldAt(run: Run, n: nat): (w: World)
    requires run.c.adapters >= 1 && n <= |run.events|
    ensures w.versions != [] && w.versions[0] == run.rules
  {
    RunFrom(run.c, run.rules, run.events[..n])
  }

  lemma {:induction false} WorldStep(run: Run, n: nat)
    requires run.c.adapters >= 1 && n < |run.events|
    ensures WorldAt(run, n + 1) == Next(run.c, WorldAt(run, n), run.events[n])
  {
    hide Next;
    assert run.events[..n + 1][..n] == run.events[..n];
  }

  /** When event i happens, task t has this query and is in this phase. */
  predicate TaskAt(run: Run, i: nat, t: nat, query: Packet, phase: Phase)
    requires run.c.adapters >= 1
    ensures TaskAt(run, i, t, query, phase) ==> i < |run.events|
  {
    && i < |run.events| && t < |WorldAt(run, i).tasks|
    && WorldAt(run, i).tasks[t].query == query && WorldAt(run, i).tasks[t].phase == phase
  }

  /** Event i is the answer to task t, forwarded then, and brings this response. */
  predicate AnsweredAt(run: Run, i: nat, t: nat, query: Packet, response: Packet)
    requires run.c.adapters >= 1
  {
    && TaskAt(run, i, t, query, Forwarding) && run.events[i].Answer? && run.events[i].t == t
    && var f := Forward(query, run.c.retries, run.c.adapters, run.events[i].ourId, run.events[i].replies);
       f.Some? && f.value.response == response
  }

  /** Event i is the moment the resolver gives up on task t. */
  predicate GaveUpAt(run: Run, i: nat, t: nat, query: Packet)
    requires run.c.adapters >= 1
  {
    && TaskAt(run, i, t, query, Forwarding) && run.events[i].Answer? && run.events[i].t == t
    && Forward(query, run.c.retries, run.c.adapters, run.events[i].ourId, run.events[i].replies).None?
  }

  /** Event i is the uncloaker's verdict on the response task t holds, with the rules it was given at startup. */
  predicate JudgedAt(run: Run, i: nat, t: nat, query: Packet, response: Packet, verdict: Status)
    requires run.c.adapters >= 1
  {
    && TaskAt(run, i, t, query, Judging(response)) && run.events[i].Judge? && run.events[i].t == t
    && OneQuestionQuery(query)
    && UncloakName(PinnedEnv(run.c, run.rules, run.events[i].upstream), TheQuestion(query).qname, response).status ==
      verdict
  }

  /** Event i is the cache hit that serves task t from this entry with these bytes. */
  predicate RecalledAt(run: Run, i: nat, t: nat, query: Packet, e: Entry, reply: Packet)
    requires run.c.adapters >= 1
  {
    && TaskAt(run, i, t, query, Arrived) && run.events[i].Begin? && run.events[i].t == t
    && OneQuestionQuery(query) && |query| >= HEADER_SIZE
    && Hit(WorldAt(run, i).cache, KeyOf(TheQuestion(query)), run.events[i].now) == Some(e)
    && reply == ServedBytes(e, run.events[i].now, U16At(query, 0))
  }

  // Each of these at some moment before the n-th event.
  ghost predicate Answered(run: Run, n: nat, t: nat, query: Packet, response: Packet)
    requires run.c.adapters >= 1
  {
    exists i :: 0 <= i < n && AnsweredAt(run, i, t, query, response)
  }

  ghost predicate GaveUp(run: Run, n: nat, t: nat, query: Packet)
    requires run.c.adapters >= 1
  {
    exists i :: 0 <= i < n && GaveUpAt(run, i, t, query)
  }

  /** ... a verdict on a response that the task had been given before. */
  ghost predicate Judged(run: Run, n: nat, t: nat, query: Packet, response: Packet, verdict: Status)
    requires run.c.adapters >= 1
  {
    exists i :: 0 <= i < n && JudgedAt(run, i, t, query, response, verdict) && Answered(run, i, t, query, response)
  }

  ghost predicate JudgedSomehow(run: Run, n: nat, t: nat, query: Packet, verdict: Status)
    requires run.c.adapters >= 1
  {
    exists response :: Judged(run, n, t, query, response, verdict)
  }

  /** Event i makes this entry of what task t was given: an address response when it is judged clean, any other
      when it arrives. */
  ghost predicate StoredBy(run: Run, i: nat, t: nat, query: Packet, key: Key, e: Entry)
    requires run.c.adapters >= 1
  {
    && OneQuestionQuery(query) && KeyOf(TheQuestion(query)) == key && i < |run.events|
    && (if IsAddress(key.qtype)
          then JudgedAt(run, i, t, query, e.response, Clean) && Answered(run, i, t, query, e.response)
        else AnsweredAt(run, i, t, query, e.response))
    && ParseFull(e.response).Some? && e == EntryOf(Storing(key, e.response, TimeOf(run.events[i])))
  }

  ghost predicate Stored(run: Run, n: nat, key: Key, e: Entry)
    requires run.c.adapters >= 1
  {
    exists i, t, query :: 0 <= i < n && StoredBy(run, i, t, query, key, e)
  }

  /** ... a hit on an entry that had been stored before. */
  ghost predicate Recalled(run: Run, n: nat, t: nat, query: Packet, e: Entry, reply: Packet)
    requires run.c.adapters >= 1
  {
    exists i :: 0 <= i < n && RecalledAt(run, i, t, query, e, reply) && Stored(run, i, KeyOf(TheQuestion(query)), e)
  }

  // ----- what justifies a reply -----

  /** One question, of a type that may be forwarded. */
  ghost predicate Forwardable(query: Packet) { OneQuestionQuery(query) && TheQuestion(query).qtype in FORWARDABLE }

  /** The query was let through: the rules do not block its name either. */
  ghost predicate LetThrough(rules: Rules, query: Packet) {
    Forwardable(query) && !Blocklist.Match(rules, TheQuestion(query).qname).blocked
  }

  predicate CarriesId(query: Packet, reply: Packet) {
    |query| >= 2 && |reply| >= 2 && reply[0] == query[0] && reply[1] == query[1]
  }

  /** What justifies a reply to task t before the n-th event, by its source. The first two are settled by the
      query and the rules live at its arrival. The others need a query that was let through and something that
      happened to this very task. */
  ghost predicate Justified(run: Run, n: nat, t: nat, rules: Rules, query: Packet, reply: Packet, source: Source)
    requires run.c.adapters >= 1
  {
    && ParseFull(query).Some? && HEADER_SIZE <= ParseFull(query).value.msg.questionEnd <= |query|
    && var m := ParseFull(query).value.msg;
       match source
       case Refused => !Forwardable(query) && reply == Refusal(query, m)
       case NameBlocked =>
         && Forwardable(query) && Blocklist.Match(rules, TheQuestion(query).qname).blocked
         && reply == BlockReply(query, m, TheQuestion(query).qtype)
       case AliasBlocked =>
         && LetThrough(rules, query) && IsAddress(TheQuestion(query).qtype) && JudgedSomehow(run, n, t, query, Blocked)
         && reply == BlockReply(query, m, TheQuestion(query).qtype)
       case Failed =>
         && LetThrough(rules, query) && (GaveUp(run, n, t, query) || JudgedSomehow(run, n, t, query, Aborted))
         && reply == ServFail(query, m)
       case Relayed =>
         && LetThrough(rules, query)
         && (if IsAddress(TheQuestion(query).qtype) then Judged(run, n, t, query, reply, Clean)
               else Answered(run, n, t, query, reply))
       case Cached(e) => LetThrough(rules, query) && Recalled(run, n, t, query, e, reply)
  }

  ghost predicate PhaseOk(run: Run, n: nat, t: nat, rules: Rules, query: Packet, phase: Phase)
    requires run.c.adapters >= 1
  {
    match phase
    case Arrived => true
    case Done => true
    case Forwarding => LetThrough(rules, query)
    case Judging(response) =>
      LetThrough(rules, query) && IsAddress(TheQuestion(query).qtype) && Answered(run, n, t, query, response)
    case Sending(reply, source) => CarriesId(query, reply) && Justified(run, n, t, rules, query, reply, source)
  }

  function Count(sent: seq<Sent>, t: nat): nat {
    if sent == [] then 0 else Count(sent[..|sent| - 1], t) + if sent[|sent| - 1].task == t then 1 else 0
  }

  ghost predicate TaskOk(run: Run, n: nat, w: World, t: nat)
    requires run.c.adapters >= 1 && t < |w.tasks|
  {
    var task := w.tasks[t];
    && task.version < |w.versions|
    && PhaseOk(run, n, t, w.versions[task.version], task.query, task.phase)
    && Count(w.sent, t) == if task.phase.Done? && ParseFull(task.query).Some? then 1 else 0
  }

  /** Event j sends the reply, which is justified by what happened before. */
  ghost predicate SentAt(run: Run, j: nat, t: nat, rules: Rules, query: Packet, bytes: Packet, source: Source)
    requires run.c.adapters >= 1
  {
    && TaskAt(run, j, t, query, Sending(bytes, source)) && run.events[j] == Send(t)
    && CarriesId(query, bytes) && Justified(run, j, t, rules, query, bytes, source)
  }

  ghost predicate SentOk(run: Run, n: nat, w: World, s: Sent)
    requires run.c.adapters >= 1
  {
    && s.task < |w.tasks| && w.tasks[s.task].version < |w.versions|
    && var query := w.tasks[s.task].query; var rules := w.versions[w.tasks[s.task].version];
       exists j :: 0 <= j < n && SentAt(run, j, s.task, rules, query, s.bytes, s.source)
  }

  ghost predicate CacheOk(run: Run, n: nat, cache: State)
    requires run.c.adapters >= 1
  {
    Consistent(cache) && Balanced(cache) && forall k :: k in cache.entries ==> Stored(run, n, k, cache.entries[k])
  }

  ghost predicate Inv(run: Run, n: nat, w: World)
    requires run.c.adapters >= 1
  {
    && CacheOk(run, n, w.cache)
    && (forall t :: 0 <= t < |w.tasks| ==> TaskOk(run, n, w, t))
    && (forall i :: 0 <= i < |w.sent| ==> SentOk(run, n, w, w.sent[i]))
  }

  // ----- what has happened has happened -----

  lemma {:induction false} JustifiedLater(run: Run, n: nat, t: nat, rules: Rules, query: Packet, reply: Packet,
                                          source: Source)
    requires run.c.adapters >= 1 && Justified(run, n, t, rules, query, reply, source)
    ensures Justified(run, n + 1, t, rules, query, reply, source)
  {
    hide AnsweredAt, GaveUpAt, JudgedAt, RecalledAt, Stored, ParseFull, Reply, Blocklist.Match, FORWARDABLE;
    if source.AliasBlocked? || (source.Failed? && !GaveUp(run, n, t, query)) {
      var verdict := if source.Failed? then Aborted else Blocked;
      var response :| Judged(run, n, t, query, response, verdict);
      assert Judged(run, n + 1, t, query, response, verdict);
    }
  }

  lemma {:induction false} PhaseLater(run: Run, n: nat, t: nat, rules: Rules, query: Packet, phase: Phase)
    requires run.c.adapters >= 1 && PhaseOk(run, n, t, rules, query, phase)
    ensures PhaseOk(run, n + 1, t, rules, query, phase)
  {
    hide AnsweredAt, Justified, LetThrough;
    if phase.Sending? { JustifiedLater(run, n, t, rules, query, phase.reply, phase.source); }
  }

  lemma {:induction false} StoredLater(run: Run, n: nat, key: Key, e: Entry)
    requires run.c.adapters >= 1 && Stored(run, n, key, e)
    ensures Stored(run, n + 1, key, e)
  {
    hide StoredBy;
  }

  lemma {:induction false} CacheLater(run: Run, n: nat, cache: State)
    requires run.c.adapters >= 1 && CacheOk(run, n, cache)
    ensures CacheOk(run, n + 1, cache)
  {
    hide Stored, Consistent, Balanced;
    forall k | k in cache.entries ensures Stored(run, n + 1, k, cache.entries[k]) {
      StoredLater(run, n, k, cache.entries[k]);
    }
  }

  lemma {:induction false} SentLater(run: Run, n: nat, w: World, r: World, s: Sent)
    requires run.c.adapters >= 1 && SentOk(run, n, w, s) && w.versions <= r.versions && |w.tasks| <= |r.tasks|
    requires r.tasks[s.task].query == w.tasks[s.task].query && r.tasks[s.task].version == w.tasks[s.task].version
    ensures SentOk(run, n + 1, r, s)
  {
    hide SentAt;
  }

  // ----- the cache keeps only what was stored in the run -----

  /** After any operation, what is in the cache was there before or has just been stored. */
  lemma {:induction false} StepKeepsCache(run: Run, n: nat, cache: State, op: Op)
    requires run.c.adapters >= 1 && CacheOk(run, n, cache) && run.c.maxEntries >= 1
    requires op.InsertOp? && op.ttl > 0 ==> Stored(run, n, op.key, EntryOf(op))
    ensures CacheOk(run, n, Step(cache, run.c.maxEntries, op))
  {
    hide Stored, Consistent, Insert, Lookup, Sweep, Balanced;
    var next := Step(cache, run.c.maxEntries, op);
    match op {
      case InsertOp(_, key, _, _, ttl) => InsertConsistent(cache, run.c.maxEntries, key, EntryOf(op));
      case LookupOp(now, key) => LookupConsistent(cache, key, now);
      case SweepOp(now) => SweepConsistent(cache, now);
    }
    forall k | k in next.entries ensures Stored(run, n, k, next.entries[k]) {
      StepEntry(cache, run.c.maxEntries, op, k);
    }
  }

  /** A response with a lifetime is what the cache now has under its key. */
  ghost predicate IsKept(cache: State, key: Key, response: Packet) {
    ParseFull(response).Some? && CacheTtl(ParseFull(response).value.msg) > 0 ==>
      key in cache.entries && cache.entries[key].response == response
  }

  /** Storing the response that event n brought or judged. */
  lemma {:induction false} InsertKeepsCache(run: Run, n: nat, t: nat, query: Packet, cache: State, response: Packet)
    requires run.c.adapters >= 1 && n < |run.events| && CacheOk(run, n, cache) && run.c.maxEntries >= 1
      && OneQuestionQuery(query)
    requires if IsAddress(TheQuestion(query).qtype)
      then JudgedAt(run, n, t, query, response, Clean) && Answered(run, n, t, query, response)
             else AnsweredAt(run, n, t, query, response)
    ensures var key := KeyOf(TheQuestion(query));
      var next := TryInsert(run.c, cache, key, response, TimeOf(run.events[n]));
      CacheOk(run, n + 1, next) && IsKept(next, key, response)
  {
    hide Stored, JudgedAt, AnsweredAt, Answered, ParseFull, TtlOffsets, CacheTtl, Step, Consistent, Balanced;
    var key := KeyOf(TheQuestion(query));
    CacheLater(run, n, cache);
    if ParseFull(response).Some? {
      var op := Storing(key, response, TimeOf(run.events[n]));
      JustStored(run, n, t, query, EntryOf(op));
      StepKeepsCache(run, n + 1, cache, op);
      StepEntry(cache, run.c.maxEntries, op, key);
    }
  }

  lemma {:induction false} JustStored(run: Run, n: nat, t: nat, query: Packet, e: Entry)
    requires run.c.adapters >= 1 && OneQuestionQuery(query) && StoredBy(run, n, t, query, KeyOf(TheQuestion(query)), e)
    ensures Stored(run, n + 1, KeyOf(TheQuestion(query)), e)
  {
    hide StoredBy;
  }

  // ----- what was received answers the question -----

  /** The response is a reply to that question with only its id changed; unless a name of the reply uses
      the id bytes, that one question is what the response itself says. */
  ghost predicate Echoes(question: Question, response: Packet) {
    exists raw, id: U16 :: EchoOf(question, response, raw, id)
  }

  ghost predicate EchoOf(question: Question, response: Packet, raw: Packet, id: U16) {
    && response == WithId(raw, id) && |raw| >= HEADER_SIZE
    && ParseFull(raw).Some? && ParseFull(raw).value.msg.questions == [question]
    && (IdClearOfNames(raw) ==> ParseFull(response).Some? && ParseFull(response).value.msg.questions == [question])
  }

  lemma {:induction false} WithIdBytes(query: Packet, p: Packet)
    requires |query| >= HEADER_SIZE && |p| >= 2
    ensures CarriesId(query, WithId(p, U16At(query, 0)))
  {
    var b := U16Bytes(U16At(query, 0));
    assert b == [query[0], query[1]];
  }

  lemma {:induction false} ReplyCarriesId(query: Packet, questionEnd: nat, ancount: U16, rcode: nat, answer: Packet)
    requires HEADER_SIZE <= questionEnd <= |query| && rcode < 16
    ensures CarriesId(query, Reply(query, questionEnd, ancount, rcode, answer))
  {
  }

  /** An accepted reply under the client's id. */
  lemma {:induction false} AcceptedEchoes(query: Packet, ourId: U16, raw: Packet)
    requires OneQuestionQuery(query) && |query| >= HEADER_SIZE && Accepts(query, ourId, raw)
    ensures Echoes(TheQuestion(query), WithId(raw, U16At(query, 0))) && CarriesId(query, WithId(raw, U16At(query, 0)))
  {
    hide ParseFull, NameReads, WithId, U16At;
    var q := TheQuestion(query);
    var response := WithId(raw, U16At(query, 0));
    assert ParseFull(raw).value.msg.questions == [q];
    if IdClearOfNames(raw) { IdRewriteCommutes(raw, U16At(query, 0)); }
    assert EchoOf(q, response, raw, U16At(query, 0));
    WithIdBytes(query, raw);
  }

  /** What the resolver brings answers the query. */
  lemma {:induction false} ForwardEchoes(c: Config, query: Packet, ourId: U16, replies: Upstream)
    requires c.adapters >= 1 && OneQuestionQuery(query) && Forward(query, c.retries, c.adapters, ourId, replies).Some?
    ensures var response := Forward(query, c.retries, c.adapters, ourId, replies).value.response;
      Echoes(TheQuestion(query), response) && CarriesId(query, response)
  {
    hide ParseFull, Echoes, FirstValid, Accepts, WithId, CarriesId;
    IdOfQuery(query);
    FirstValidIsFirst(query, ourId, replies, 0, Attempts(c.retries, c.adapters));
    var k := FirstValid(query, ourId, replies, 0, Attempts(c.retries, c.adapters)).value;
    AcceptedEchoes(query, ourId, replies(k).value);
  }

  lemma {:induction false} AnsweredEchoes(run: Run, n: nat, t: nat, query: Packet, response: Packet)
    requires run.c.adapters >= 1 && OneQuestionQuery(query) && Answered(run, n, t, query, response)
    ensures Echoes(TheQuestion(query), response) && CarriesId(query, response)
  {
    hide TaskAt, ParseFull, Forward, Echoes, CarriesId;
    var i :| 0 <= i < n && AnsweredAt(run, i, t, query, response);
    ForwardEchoes(run.c, query, run.events[i].ourId, run.events[i].replies);
  }

  lemma {:induction false} StoredEchoes(run: Run, n: nat, key: Key, e: Entry)
    requires run.c.adapters >= 1 && Stored(run, n, key, e)
    ensures Echoes(Question(key.qname, key.qtype, key.qclass), e.response) && |e.response| >= HEADER_SIZE
  {
    hide AnsweredAt, JudgedAt, ParseFull, Echoes, CarriesId, TtlOffsets, CacheTtl;
    var i, t, query :| 0 <= i < n && StoredBy(run, i, t, query, key, e);
    if !IsAddress(key.qtype) { assert Answered(run, i + 1, t, query, e.response); }
    AnsweredEchoes(run, if IsAddress(key.qtype) then i else i + 1, t, query, e.response);
    LongEnough(e.response);
  }

  // ----- each stretch of work -----

  /** The builders, for a query that parses. */
  lemma {:induction false} BlockReplyCarriesId(query: Packet, qtype: U16)
    requires ParseFull(query).Some?
    ensures HEADER_SIZE <= ParseFull(query).value.msg.questionEnd <= |query|
    ensures CarriesId(query, BlockReply(query, ParseFull(query).value.msg, qtype))
    ensures CarriesId(query, Refusal(query, ParseFull(query).value.msg))
    ensures CarriesId(query, ServFail(query, ParseFull(query).value.msg))
  {
    hide ParseFull, Reply;
    HeaderIsParsed(query);
    var end := ParseFull(query).value.msg.questionEnd;
    ReplyCarriesId(query, end, 0, RCODE_REFUSED, []);
    ReplyCarriesId(query, end, 0, RCODE_SERVFAIL, []);
    ReplyCarriesId(query, end, 0, RCODE_OK, []);
    ReplyCarriesId(query, end, 1, RCODE_OK, ZeroAnswer(TYPE_A, 4));
    ReplyCarriesId(query, end, 1, RCODE_OK, ZeroAnswer(TYPE_AAAA, 16));
  }

  ghost predicate HasFresh(cache: State, key: Key, now: int) { key in cache.entries && Fresh(cache.entries[key], now) }

  /** A hit at event n. */
  lemma {:induction false} HitIsRecalled(run: Run, n: nat, t: nat, rules: Rules, query: Packet)
    requires run.c.adapters >= 1 && TaskAt(run, n, t, query, Arrived) && run.events[n].Begin? && run.events[n].t == t
    requires CacheOk(run, n, WorldAt(run, n).cache) && LetThrough(rules, query)
    requires Hit(WorldAt(run, n).cache, KeyOf(TheQuestion(query)), run.events[n].now).Some?
    ensures var e := Hit(WorldAt(run, n).cache, KeyOf(TheQuestion(query)), run.events[n].now).value;
      var reply := ServedBytes(e, run.events[n].now, ParseFull(query).value.msg.header.id);
      CarriesId(query, reply) && Recalled(run, n + 1, t, query, e, reply)
  {
    hide ParseFull, WorldAt, Consistent, Balanced, Rewritten, Served, Blocklist.Match, FORWARDABLE, Stored, WithId,
      U16At, CarriesId;
    var key := KeyOf(TheQuestion(query));
    var e := Hit(WorldAt(run, n).cache, key, run.events[n].now).value;
    IdOfQuery(query);
    assert Stored(run, n, key, e);
    StoredEchoes(run, n, key, e);
    WithIdBytes(query, Rewritten(e.response, e.offsets, Served(e, run.events[n].now)));
    assert RecalledAt(run, n, t, query, e, ServedBytes(e, run.events[n].now, U16At(query, 0)));
  }

  /** The first stage. A query that is let through is forwarded exactly if the cache has no fresh entry. */
  lemma {:induction false} BeginKeeps(run: Run, n: nat, t: nat, rules: Rules, query: Packet)
    requires run.c.adapters >= 1 && TaskAt(run, n, t, query, Arrived) && run.events[n].Begin? && run.events[n].t == t
    requires CacheOk(run, n, WorldAt(run, n).cache) && run.c.maxEntries >= 1
    ensures var (phase, next) := BeginQuery(rules, WorldAt(run, n).cache, query, run.events[n].now);
      && PhaseOk(run, n + 1, t, rules, query, phase) && CacheOk(run, n + 1, next)
      && (phase.Done? <==> ParseFull(query).None?)
      && (LetThrough(rules, query) ==>
            (phase.Forwarding? <==> !HasFresh(WorldAt(run, n).cache, KeyOf(TheQuestion(query)), run.events[n].now)))
  {
    hide ParseFull, WorldAt, CacheOk, Refusal, BlockReply, ServedBytes, Lookup, Blocklist.Match, FORWARDABLE, TaskAt,
      JudgedSomehow, GaveUp, Recalled, Answered, Judged, CarriesId;
    var cache, now := WorldAt(run, n).cache, run.events[n].now;
    CacheLater(run, n, cache);
    if ParseFull(query).Some? {
      var m := ParseFull(query).value.msg;
      BlockReplyCarriesId(query, if |m.questions| == 1 then m.questions[0].qtype else 0);
      if |m.questions| == 1 && m.questions[0].qtype in FORWARDABLE
        && !Blocklist.Match(rules, m.questions[0].qname).blocked {
        var key := KeyOf(m.questions[0]);
        StepKeepsCache(run, n + 1, cache, LookupOp(now, key));
        if Hit(cache, key, now).Some? { HitIsRecalled(run, n, t, rules, query); }
      }
    }
  }

  /** Upstream's answer: relayed and kept if it cannot hold addresses, else judged first. */
  lemma {:induction false} AnswerKeeps(run: Run, n: nat, t: nat, rules: Rules, query: Packet)
    requires run.c.adapters >= 1 && TaskAt(run, n, t, query, Forwarding) && run.events[n].Answer?
      && run.events[n].t == t
    requires CacheOk(run, n, WorldAt(run, n).cache) && run.c.maxEntries >= 1 && LetThrough(rules, query)
    ensures var e := run.events[n];
      var (phase, next) := AnswerQuery(run.c, WorldAt(run, n).cache, query, e.now, e.ourId, e.replies);
      && PhaseOk(run, n + 1, t, rules, query, phase) && CacheOk(run, n + 1, next) && !phase.Done?
      && (phase.Judging? ==> next == WorldAt(run, n).cache)
      && (phase.Sending? && phase.source.Relayed? ==> IsKept(next, KeyOf(TheQuestion(query)), phase.reply))
  {
    hide ParseFull, WorldAt, CacheOk, ServFail, Echoes, Forward, TryInsert, FORWARDABLE, Blocklist.Match, TaskAt,
      IsKept, JudgedSomehow, Recalled, Judged, CarriesId;
    var e := run.events[n];
    var cache := WorldAt(run, n).cache;
    BlockReplyCarriesId(query, 0);
    CacheLater(run, n, cache);
    var f := Forward(query, run.c.retries, run.c.adapters, e.ourId, e.replies);
    if f.Some? {
      ForwardEchoes(run.c, query, e.ourId, e.replies);
      assert AnsweredAt(run, n, t, query, f.value.response);
      if !IsAddress(TheQuestion(query).qtype) { InsertKeepsCache(run, n, t, query, cache, f.value.response); }
    } else {
      assert GaveUpAt(run, n, t, query);
    }
  }

  /** The verdict: only a clean response is relayed and kept. */
  lemma {:induction false} JudgeKeeps(run: Run, n: nat, t: nat, rules: Rules, query: Packet, response: Packet)
    requires run.c.adapters >= 1 && TaskAt(run, n, t, query, Judging(response)) && run.events[n].Judge?
      && run.events[n].t == t
    requires CacheOk(run, n, WorldAt(run, n).cache) && run.c.maxEntries >= 1
    requires PhaseOk(run, n, t, rules, query, Judging(response))
    ensures var e := run.events[n];
      var (phase, next) := JudgeQuery(run.c, run.rules, WorldAt(run, n).cache, query, response, e.now, e.upstream);
      && PhaseOk(run, n + 1, t, rules, query, phase) && CacheOk(run, n + 1, next) && phase.Sending?
      && (if phase.source.Relayed? then IsKept(next, KeyOf(TheQuestion(query)), response)
            else next == WorldAt(run, n).cache)
  {
    hide ParseFull, WorldAt, CacheOk, ServFail, BlockA, BlockAaaa, UncloakName, TryInsert, FORWARDABLE, Blocklist.Match,
      TaskAt, IsKept, Answered, GaveUp, Recalled, CarriesId, Echoes;
    var e := run.events[n];
    var cache := WorldAt(run, n).cache;
    var q := TheQuestion(query);
    AnsweredEchoes(run, n, t, query, response);
    BlockReplyCarriesId(query, q.qtype);
    CacheLater(run, n, cache);
    var verdict := UncloakName(PinnedEnv(run.c, run.rules, e.upstream), q.qname, response).status;
    assert JudgedAt(run, n, t, query, response, verdict);
    assert Judged(run, n + 1, t, query, response, verdict);
    if verdict == Clean { InsertKeepsCache(run, n, t, query, cache, response); }
  }

  // ----- the invariant -----

  /** A task that moves on without ending keeps the invariant if its new phase and the cache are fine. */
  lemma {:induction false} AdvanceKeeps(run: Run, n: nat, w: World, t: nat, next: (Phase, State))
    requires run.c.adapters >= 1
    requires t < |w.tasks| && w.tasks[t].version < |w.versions| && !w.tasks[t].phase.Done?
    requires next.0.Done? ==> ParseFull(w.tasks[t].query).None?
    requires PhaseOk(run, n + 1, t, w.versions[w.tasks[t].version], w.tasks[t].query, next.0)
    requires CacheOk(run, n + 1, next.1) && Inv(run, n, w)
    ensures Inv(run, n + 1, Advance(w, t, next))
  {
    hide ParseFull, CacheOk, PhaseOk, SentOk, Count;
    var r := Advance(w, t, next);
    var later := n + 1;
    forall i | 0 <= i < |r.tasks| ensures TaskOk(run, later, r, i) {
      assert TaskOk(run, n, w, i);
      if i != t { PhaseLater(run, n, i, w.versions[w.tasks[i].version], w.tasks[i].query, w.tasks[i].phase); }
    }
    forall i | 0 <= i < |r.sent| ensures SentOk(run, n + 1, r, r.sent[i]) { SentStays(run, n, w, r, i); }
  }

  lemma {:induction false} SentStays(run: Run, n: nat, w: World, r: World, i: nat)
    requires run.c.adapters >= 1 && i < |w.sent| && SentOk(run, n, w, w.sent[i]) && w.versions <= r.versions
      && |w.tasks| <= |r.tasks|
    requires forall t ::
      0 <= t < |w.tasks| ==> r.tasks[t].query == w.tasks[t].query && r.tasks[t].version == w.tasks[t].version
    ensures SentOk(run, n + 1, r, w.sent[i])
  {
    hide SentAt;
    SentLater(run, n, w, r, w.sent[i]);
  }

  lemma {:induction false} CountSnoc(sent: seq<Sent>, s: Sent, t: nat)
    ensures Count(sent + [s], t) == Count(sent, t) + if s.task == t then 1 else 0
  {
    assert (sent + [s])[..|sent|] == sent;
  }

  lemma {:induction false} SendKeeps(run: Run, n: nat, t: nat)
    requires run.c.adapters >= 1 && n < |run.events| && Inv(run, n, WorldAt(run, n)) && run.events[n] == Send(t)
    requires t < |WorldAt(run, n).tasks| && WorldAt(run, n).tasks[t].phase.Sending?
    ensures Inv(run, n + 1, Next(run.c, WorldAt(run, n), Send(t)))
  {
    hide WorldAt, ParseFull, CacheOk, Justified, Count, CarriesId;
    var w := WorldAt(run, n);
    var p := w.tasks[t].phase;
    var s := Sent(t, p.reply, p.source);
    var r := Next(run.c, w, Send(t));
    assert TaskOk(run, n, w, t);
    CacheLater(run, n, w.cache);
    SendingParses(run, n, t, w.versions[w.tasks[t].version], w.tasks[t].query, p);
    var later := n + 1;
    forall i | 0 <= i < |r.tasks| ensures TaskOk(run, later, r, i) {
      assert TaskOk(run, n, w, i);
      PhaseLater(run, n, i, w.versions[w.tasks[i].version], w.tasks[i].query, w.tasks[i].phase);
      CountSnoc(w.sent, s, i);
    }
    forall i | 0 <= i < |r.sent| ensures SentOk(run, n + 1, r, r.sent[i]) {
      if i < |w.sent| {
        SentStays(run, n, w, r, i);
      } else {
        assert SentAt(run, n, t, w.versions[w.tasks[t].version], w.tasks[t].query, p.reply, p.source);
      }
    }
  }

  lemma {:induction false} SendingParses(run: Run, n: nat, t: nat, rules: Rules, query: Packet, phase: Phase)
    requires run.c.adapters >= 1 && phase.Sending? && PhaseOk(run, n, t, rules, query, phase)
    ensures ParseFull(query).Some?
  {
    hide ParseFull, GaveUp, JudgedSomehow, Judged, Answered, Recalled, LetThrough, Forwardable;
  }

  /** A longer history of rules, and a newly arrived query. */
  lemma {:induction false} GrowKeeps(run: Run, n: nat, w: World, r: World)
    requires run.c.adapters >= 1 && Inv(run, n, w) && w.versions <= r.versions && r.sent == w.sent && r.cache == w.cache
    requires w.tasks <= r.tasks
    requires forall t :: |w.tasks| <= t < |r.tasks| ==> r.tasks[t].version < |w.versions| && r.tasks[t].phase.Arrived?
    ensures Inv(run, n + 1, r)
  {
    hide ParseFull, CacheOk, SentAt, Count, Justified, CarriesId, LetThrough, Answered;
    CacheLater(run, n, w.cache);
    forall i | 0 <= i < |r.sent| ensures SentOk(run, n + 1, r, r.sent[i]) { SentStays(run, n, w, r, i); }
    var later := n + 1;
    forall i | 0 <= i < |r.tasks| ensures TaskOk(run, later, r, i) {
      if i < |w.tasks| {
        assert TaskOk(run, n, w, i);
        PhaseLater(run, n, i, w.versions[w.tasks[i].version], w.tasks[i].query, w.tasks[i].phase);
      } else {
        NoneSent(run, n, w, w.sent, i);
      }
    }
  }

  /** Nothing has been sent for a task that does not exist yet. */
  lemma {:induction false} NoneSent(run: Run, n: nat, w: World, sent: seq<Sent>, t: nat)
    requires run.c.adapters >= 1 && |w.tasks| <= t && forall i :: 0 <= i < |sent| ==> SentOk(run, n, w, sent[i])
    ensures Count(sent, t) == 0
  {
    hide SentAt;
    if sent != [] {
      assert SentOk(run, n, w, sent[|sent| - 1]);
      NoneSent(run, n, w, sent[..|sent| - 1], t);
    }
  }

  lemma {:induction false} CacheChange(run: Run, n: nat, w: World, cache: State)
    requires run.c.adapters >= 1 && Inv(run, n, w) && CacheOk(run, n + 1, cache)
    ensures Inv(run, n + 1, w.(cache := cache))
  {
    hide ParseFull, CacheOk, PhaseOk, SentAt, Count;
    var r := w.(cache := cache);
    var later := n + 1;
    forall i | 0 <= i < |r.tasks| ensures TaskOk(run, later, r, i) {
      assert TaskOk(run, n, w, i);
      PhaseLater(run, n, i, w.versions[w.tasks[i].version], w.tasks[i].query, w.tasks[i].phase);
    }
    forall i | 0 <= i < |r.sent| ensures SentOk(run, n + 1, r, r.sent[i]) { SentStays(run, n, w, r, i); }
  }

  /** An event that changes nothing. */
  lemma {:induction false} IdleKeeps(run: Run, n: nat, w: World)
    requires run.c.adapters >= 1 && Inv(run, n, w)
    ensures Inv(run, n + 1, w)
  {
    hide CacheOk, TaskOk, SentOk;
    CacheLater(run, n, w.cache);
    CacheChange(run, n, w, w.cache);
  }

  /** The next event keeps the invariant. */
  lemma {:induction false} StepKeeps(run: Run, n: nat)
    requires run.c.adapters >= 1 && run.c.maxEntries >= 1 && n < |run.events| && Inv(run, n, WorldAt(run, n))
    ensures Inv(run, n + 1, WorldAt(run, n + 1))
  {
    hide WorldAt, ParseFull, CacheOk, PhaseOk, SentOk, Count, BeginQuery, AnswerQuery, JudgeQuery, Sweep, Advance,
      LetThrough;
    WorldStep(run, n);
    var w, e := WorldAt(run, n), run.events[n];
    match e {
      case Arrive(query) => GrowKeeps(run, n, w, Next(run.c, w, e));
      case Reload(rules) => GrowKeeps(run, n, w, Next(run.c, w, e));
      case SweepCache(now) =>
        CacheLater(run, n, w.cache);
        StepKeepsCache(run, n + 1, w.cache, SweepOp(now));
        CacheChange(run, n, w, Sweep(w.cache, now));
      case Begin(t, now) =>
        if t < |w.tasks| && w.tasks[t].phase.Arrived? {
          var task := w.tasks[t];
          assert TaskOk(run, n, w, t);
          BeginKeeps(run, n, t, w.versions[task.version], task.query);
          AdvanceKeeps(run, n, w, t, BeginQuery(w.versions[task.version], w.cache, task.query, now));
        } else { IdleKeeps(run, n, w); }
      case Answer(t, now, ourId, replies) =>
        if t < |w.tasks| && w.tasks[t].phase.Forwarding? {
          var task := w.tasks[t];
          assert TaskOk(run, n, w, t);
          ForwardingIsLetThrough(run, n, t, w.versions[task.version], task.query);
          AnswerKeeps(run, n, t, w.versions[task.version], task.query);
          AdvanceKeeps(run, n, w, t, AnswerQuery(run.c, w.cache, task.query, now, ourId, replies));
        } else { IdleKeeps(run, n, w); }
      case Judge(t, now, upstream) =>
        if t < |w.tasks| && w.tasks[t].phase.Judging? {
          var task := w.tasks[t];
          assert TaskOk(run, n, w, t);
          JudgingIsLetThrough(run, n, t, w.versions[task.version], task.query, task.phase.response);
          JudgeKeeps(run, n, t, w.versions[task.version], task.query, task.phase.response);
          AdvanceKeeps(run, n, w, t,
            JudgeQuery(run.c, run.rules, w.cache, task.query, task.phase.response, now, upstream));
        } else { IdleKeeps(run, n, w); }
      case Send(t) =>
        if t < |w.tasks| && w.tasks[t].phase.Sending? { SendKeeps(run, n, t); } else { IdleKeeps(run, n, w); }
    }
  }

  lemma {:induction false} ForwardingIsLetThrough(run: Run, n: nat, t: nat, rules: Rules, query: Packet)
    requires run.c.adapters >= 1 && PhaseOk(run, n, t, rules, query, Forwarding)
    ensures LetThrough(rules, query) && OneQuestionQuery(query)
  {
  }

  lemma {:induction false} JudgingIsLetThrough(run: Run, n: nat, t: nat, rules: Rules, query: Packet, response: Packet)
    requires run.c.adapters >= 1 && PhaseOk(run, n, t, rules, query, Judging(response))
    ensures LetThrough(rules, query) && OneQuestionQuery(query)
  {
  }

  lemma {:induction false} RunKeeps(run: Run, n: nat)
    requires run.c.maxEntries >= 1 && run.c.adapters >= 1 && n <= |run.events|
    ensures Inv(run, n, WorldAt(run, n))
  {
    hide Inv, Next;
    if n == 0 {
      StartOk(run);
    } else {
      hide WorldAt;
      RunKeeps(run, n - 1);
      StepKeeps(run, n - 1);
    }
  }

  lemma {:induction false} StartOk(run: Run)
    requires run.c.adapters >= 1
    ensures Inv(run, 0, World([run.rules], EMPTY, [], []))
  {
    hide Stored;
  }

  // ----- what every run guarantees -----

  lemma {:induction false} CleanAliases(run: Run, i: nat, t: nat, query: Packet, response: Packet)
    requires run.c.adapters >= 1 && JudgedAt(run, i, t, query, response, Clean)
    ensures AliasesUnblocked(run.rules, TheQuestion(query).qname, response)
  {
    hide UncloakName, WalkAnswers, ParseFull, Blocklist.Match, TaskAt;
    CleanFirstResponse(PinnedEnv(run.c, run.rules, run.events[i].upstream), TheQuestion(query).qname, response);
  }

  /** Some task asked that question, was given this response by upstream, and it was then judged clean. */
  ghost predicate Vetted(run: Run, n: nat, q: Question, response: Packet)
    requires run.c.adapters >= 1
  {
    exists i, t, query :: 0 <= i < n && VettedBy(run, i, t, query, q, response)
  }

  ghost predicate VettedBy(run: Run, i: nat, t: nat, query: Packet, q: Question, response: Packet)
    requires run.c.adapters >= 1
  {
    && OneQuestionQuery(query) && TheQuestion(query) == q
    && JudgedAt(run, i, t, query, response, Clean) && Answered(run, i, t, query, response)
  }

  lemma {:induction false} VettedAliases(run: Run, n: nat, q: Question, response: Packet)
    requires run.c.adapters >= 1 && Vetted(run, n, q, response)
    ensures AliasesUnblocked(run.rules, q.qname, response)
  {
    hide AliasesUnblocked, JudgedAt, Answered;
    var i, t, query :| 0 <= i < n && VettedBy(run, i, t, query, q, response);
    CleanAliases(run, i, t, query, response);
  }

  /** The rules in force after these events: those of the last reload, or else those loaded at startup. */
  function InForce(start: Rules, events: seq<Event>): Rules {
    if events == [] then start
    else
      match events[|events| - 1]
      case Reload(rules) => rules
      case _ => InForce(start, events[..|events| - 1])
  }

  /** The rules in force when event a happens. */
  function Live(run: Run, a: nat): Rules
    requires a <= |run.events|
  {
    InForce(run.rules, run.events[..a])
  }

  /** In every run the newest version is the one in force. */
  lemma {:induction false} NewestIsLive(run: Run, a: nat)
    requires run.c.adapters >= 1 && a <= |run.events|
    ensures var v := WorldAt(run, a).versions; v[|v| - 1] == Live(run, a)
  {
    hide Next;
    if a > 0 {
      NewestIsLive(run, a - 1);
      WorldStep(run, a - 1);
      assert run.events[..a][..a - 1] == run.events[..a - 1];
      NextVersions(run.c, WorldAt(run, a - 1), run.events[a - 1]);
    }
  }

  lemma {:induction false} NextVersions(c: Config, w: World, e: Event)
    requires w.versions != [] && c.adapters >= 1
    ensures Next(c, w, e).versions == w.versions + if e.Reload? then [e.rules] else []
  {
    hide BeginQuery, AnswerQuery, JudgeQuery, Sweep, OneQuestionQuery;
    assert w.versions + [] == w.versions;
  }

  /** Event a is the arrival of task t. */
  predicate ArrivedAt(run: Run, a: nat, t: nat, query: Packet)
    requires run.c.adapters >= 1
    ensures ArrivedAt(run, a, t, query) ==> a < |run.events|
  {
    a < |run.events| && run.events[a] == Arrive(query) && t == |WorldAt(run, a).tasks|
  }

  /** Tasks and rule versions are only ever added, and a task keeps its query and its version. */
  lemma {:induction false} NextAdds(c: Config, w: World, e: Event)
    requires w.versions != [] && c.adapters >= 1
    ensures var next := Next(c, w, e);
      && w.versions <= next.versions
      && |next.tasks| == |w.tasks| + (if e.Arrive? then 1 else 0)
      && (forall t :: 0 <= t < |w.tasks| ==>
            next.tasks[t].query == w.tasks[t].query && next.tasks[t].version == w.tasks[t].version)
      && (e.Arrive? ==> next.tasks[|w.tasks|] == Task(e.query, |w.versions| - 1, Arrived))
  {
    hide BeginQuery, AnswerQuery, JudgeQuery, Sweep, OneQuestionQuery;
  }

  lemma {:induction false} TasksGrow(run: Run, i: nat, n: nat)
    requires run.c.adapters >= 1 && i <= n <= |run.events|
    ensures |WorldAt(run, i).tasks| <= |WorldAt(run, n).tasks|
    decreases n
  {
    hide WorldAt, Next;
    if i < n {
      TasksGrow(run, i, n - 1);
      WorldStep(run, n - 1);
      NextAdds(run.c, WorldAt(run, n - 1), run.events[n - 1]);
    }
  }

  /** Every task stems from an arrival, and the rules it carries are the ones that were in force then. */
  lemma {:induction false} TaskArrived(run: Run, n: nat, t: nat) returns (a: nat)
    requires run.c.adapters >= 1 && n <= |run.events| && t < |WorldAt(run, n).tasks|
    ensures var w := WorldAt(run, n); var task := w.tasks[t];
      && a < n && ArrivedAt(run, a, t, task.query) && WorldAt(run, a).versions <= w.versions
      && task.version == |WorldAt(run, a).versions| - 1 && w.versions[task.version] == Live(run, a)
    decreases n
  {
    hide Next;
    if n == 0 {
      assert false;
    } else {
      hide WorldAt;
      WorldStep(run, n - 1);
      NextAdds(run.c, WorldAt(run, n - 1), run.events[n - 1]);
      if t < |WorldAt(run, n - 1).tasks| {
        a := TaskArrived(run, n - 1, t);
      } else {
        a := n - 1;
      }
      NewestIsLive(run, a);
    }
  }

  /** A task is there only after its arrival. */
  lemma {:induction false} ArrivedBefore(run: Run, a: nat, j: nat, t: nat, query: Packet, phase: Phase)
    requires run.c.adapters >= 1 && ArrivedAt(run, a, t, query) && TaskAt(run, j, t, query, phase)
    ensures a < j
  {
    hide WorldAt;
    if j <= a { TasksGrow(run, j, a); }
  }

  /** What upstream had said: the bytes relayed, or those stored in the entry that was served. */
  function Origin(s: Sent): Packet
    requires !MadeUp(s.source)
  {
    if s.source.Cached? then s.source.entry.response else s.bytes
  }

  /** The query of the task a reply belongs to. */
  function QueryOf(w: World, s: Sent): Packet
    requires s.task < |w.tasks|
  {
    w.tasks[s.task].query
  }

  /** In every run, every reply belongs to a query that had arrived, was sent by its own event, and is justified by
      what had happened to its own task before. So a query that may not be forwarded is refused, and one whose name
      the rules live at its arrival block gets the block reply of its type, whatever else happens. */
  lemma {:induction false} EveryReplyIsJustified(run: Run, n: nat, i: nat) returns (a: nat, j: nat)
    requires run.c.maxEntries >= 1 && run.c.adapters >= 1 && n <= |run.events| && i < |WorldAt(run, n).sent|
    ensures var w := WorldAt(run, n); var s := w.sent[i];
      && s.task < |w.tasks| && a < j < n && ArrivedAt(run, a, s.task, QueryOf(w, s))
      && SentAt(run, j, s.task, Live(run, a), QueryOf(w, s), s.bytes, s.source)
      && Justified(run, j, s.task, Live(run, a), QueryOf(w, s), s.bytes, s.source)
      && (!Forwardable(QueryOf(w, s)) ==> s.bytes == Refusal(QueryOf(w, s), ParseFull(QueryOf(w, s)).value.msg))
      && (Forwardable(QueryOf(w, s)) && Blocklist.Match(Live(run, a), TheQuestion(QueryOf(w, s)).qname).blocked ==>
            s.bytes == BlockReply(QueryOf(w, s), ParseFull(QueryOf(w, s)).value.msg, TheQuestion(QueryOf(w, s)).qtype))
  {
    hide WorldAt, CacheOk, TaskOk, Refusal, BlockReply, Blocklist.Match, FORWARDABLE, ParseFull, CarriesId, Answered,
      Judged, JudgedSomehow, GaveUp, Recalled, ArrivedAt, TaskAt;
    RunKeeps(run, n);
    var w := WorldAt(run, n);
    var s := w.sent[i];
    assert SentOk(run, n, w, s);
    a := TaskArrived(run, n, s.task);
    j :| 0 <= j < n && SentAt(run, j, s.task, Live(run, a), QueryOf(w, s), s.bytes, s.source);
    ArrivedBefore(run, a, j, s.task, QueryOf(w, s), Sending(s.bytes, s.source));
  }

  /** The bytes of a reply show every name and every alias as what upstream had said does. */
  ghost predicate ShowsOrigin(s: Sent)
    requires !MadeUp(s.source)
  {
    s.source.Relayed? ||
      (ParseFull(Origin(s)).Some? && NamesStand(Origin(s), s.bytes) && TargetsStand(Origin(s), s.bytes))
  }

  /** In every run, whatever upstream does and however queries and reloads interleave, a reply that was not made
      up belongs to a query whose name the rules live at its arrival do not block, and is what upstream said to
      that question. If it can hold addresses, what upstream said was judged clean by an event of this run, for a
      task that had been given it, under the startup rules: none of the aliases it shows is blocked by them, and
      none of those the client is shown, unless rewriting a cached reply changed a name or a target. */
  lemma {:induction false} AddressAnswersAreVetted(run: Run, n: nat, i: nat) returns (a: nat)
    requires run.c.maxEntries >= 1 && run.c.adapters >= 1 && n <= |run.events| && i < |WorldAt(run, n).sent|
    requires !MadeUp(WorldAt(run, n).sent[i].source)
    ensures var w := WorldAt(run, n); var s := w.sent[i];
      && s.task < |w.tasks| && a < n && ArrivedAt(run, a, s.task, QueryOf(w, s))
      && LetThrough(Live(run, a), QueryOf(w, s))
      && var q := TheQuestion(QueryOf(w, s));
         && Echoes(q, Origin(s))
         && (q.qtype == 1 || q.qtype == 28 ==>
               && Vetted(run, n, q, Origin(s)) && AliasesUnblocked(run.rules, q.qname, Origin(s))
               && (ShowsOrigin(s) ==> AliasesUnblocked(run.rules, q.qname, s.bytes)))
         && (s.source.Cached? ==> Recalled(run, n, s.task, QueryOf(w, s), s.source.entry, s.bytes))
  {
    hide WorldAt, Echoes, ParseFull, AliasesUnblocked, TaskAt, Refusal, BlockReply, ServFail, Blocklist.Match,
      FORWARDABLE, CarriesId, Judged, Answered, Recalled, Vetted, NamesStand, TargetsStand;
    var j;
    a, j := EveryReplyIsJustified(run, n, i);
    var w := WorldAt(run, n);
    var s := w.sent[i];
    var query := QueryOf(w, s);
    if s.source.Cached? {
      RecalledIsVetted(run, j, n, s.task, query, s.source.entry, s.bytes);
    } else {
      RelayedIsVetted(run, j, n, s.task, query, s.bytes);
    }
    if IsAddress(TheQuestion(query).qtype) {
      VettedAliases(run, n, TheQuestion(query), Origin(s));
      if s.source.Cached? && ShowsOrigin(s) {
        var now := RecalledBytes(run, n, s.task, query, s.source.entry, s.bytes);
        ServedAliases(s.source.entry, now, U16At(query, 0), run.rules, TheQuestion(query).qname);
      }
    }
  }

  /** What a hit sends. */
  lemma {:induction false} RecalledBytes(run: Run, n: nat, t: nat, query: Packet, e: Entry, reply: Packet)
    returns (now: int)
    requires run.c.adapters >= 1 && Recalled(run, n, t, query, e, reply)
    ensures Fresh(e, now) && |query| >= 2 && reply == ServedBytes(e, now, U16At(query, 0))
    ensures ParseFull(e.response).Some? && e.offsets == TtlOffsets(ParseFull(e.response).value.msg.Records())
  {
    hide ParseFull, TaskAt, ServedBytes, TtlOffsets, CacheTtl, JudgedAt, Answered, AnsweredAt;
    var i :| 0 <= i < n && RecalledAt(run, i, t, query, e, reply) && Stored(run, i, KeyOf(TheQuestion(query)), e);
    now := run.events[i].now;
  }

  /** So in every run, no address answer shows the client an alias that the startup rules block, if upstream's
      response was compressed the usual way. */
  lemma {:induction false} UsualAnswersAreVetted(run: Run, n: nat, i: nat)
    requires run.c.maxEntries >= 1 && run.c.adapters >= 1 && n <= |run.events| && i < |WorldAt(run, n).sent|
    requires var s := WorldAt(run, n).sent[i];
      && !MadeUp(s.source) && ParseFull(Origin(s)).Some?
      && Ordinary.UsualNames(Origin(s)) && Ordinary.UsualTargets(Origin(s))
    ensures var w := WorldAt(run, n); var s := w.sent[i];
      && s.task < |w.tasks| && OneQuestionQuery(QueryOf(w, s))
      && var q := TheQuestion(QueryOf(w, s));
         (q.qtype == 1 || q.qtype == 28 ==> AliasesUnblocked(run.rules, q.qname, s.bytes))
  {
    hide WorldAt, Echoes, ParseFull, AliasesUnblocked, Blocklist.Match, FORWARDABLE, Recalled, Vetted, NamesStand,
      TargetsStand, Ordinary.UsualNames, Ordinary.UsualTargets;
    var a := AddressAnswersAreVetted(run, n, i);
    var w := WorldAt(run, n);
    var s := w.sent[i];
    if s.source.Cached? {
      var now := RecalledBytes(run, n, s.task, QueryOf(w, s), s.source.entry, s.bytes);
      Ordinary.UsualResponseIsServed(s.source.entry, now, U16At(QueryOf(w, s), 0));
    }
  }

  lemma {:induction false} RelayedIsVetted(run: Run, j: nat, n: nat, t: nat, query: Packet, reply: Packet)
    requires run.c.adapters >= 1 && j < n && OneQuestionQuery(query)
    requires if IsAddress(TheQuestion(query).qtype) then Judged(run, j, t, query, reply, Clean)
      else Answered(run, j, t, query, reply)
    ensures Echoes(TheQuestion(query), reply)
      && (IsAddress(TheQuestion(query).qtype) ==> Vetted(run, n, TheQuestion(query), reply))
  {
    hide Echoes, ParseFull, JudgedAt, Answered, CarriesId;
    if IsAddress(TheQuestion(query).qtype) {
      var i :| 0 <= i < j && JudgedAt(run, i, t, query, reply, Clean) && Answered(run, i, t, query, reply);
      assert VettedBy(run, i, t, query, TheQuestion(query), reply);
      AnsweredEchoes(run, i, t, query, reply);
    } else {
      AnsweredEchoes(run, j, t, query, reply);
    }
  }

  lemma {:induction false} RecalledIsVetted(run: Run, j: nat, n: nat, t: nat, query: Packet, e: Entry, reply: Packet)
    requires run.c.adapters >= 1 && j < n && OneQuestionQuery(query) && Recalled(run, j, t, query, e, reply)
    ensures Recalled(run, n, t, query, e, reply) && Echoes(TheQuestion(query), e.response)
    ensures IsAddress(TheQuestion(query).qtype) ==> Vetted(run, n, TheQuestion(query), e.response)
  {
    hide Echoes, ParseFull, RecalledAt, Stored, Vetted;
    var i :| 0 <= i < j && RecalledAt(run, i, t, query, e, reply) && Stored(run, i, KeyOf(TheQuestion(query)), e);
    StoredEchoes(run, i, KeyOf(TheQuestion(query)), e);
    if IsAddress(TheQuestion(query).qtype) { StoredIsVetted(run, i, n, TheQuestion(query), e); }
  }

  lemma {:induction false} StoredIsVetted(run: Run, i: nat, n: nat, q: Question, e: Entry)
    requires run.c.adapters >= 1 && i <= n && Stored(run, i, KeyOf(q), e) && IsAddress(q.qtype)
    ensures Vetted(run, n, q, e.response)
  {
    hide ParseFull, JudgedAt, Answered, TtlOffsets, CacheTtl;
    var k, t, query :| 0 <= k < i && StoredBy(run, k, t, query, KeyOf(q), e);
    assert VettedBy(run, k, t, query, q, e.response);
  }

  /** In every run, whatever is in the cache is what upstream said to its own key, stored by an event of the run,
      and was judged clean then if it can hold addresses. */
  lemma {:induction false} CacheHoldsVettedReplies(run: Run, n: nat, key: Key)
    requires run.c.maxEntries >= 1 && run.c.adapters >= 1 && n <= |run.events| && key in WorldAt(run, n).cache.entries
    ensures var e := WorldAt(run, n).cache.entries[key]; var q := Question(key.qname, key.qtype, key.qclass);
      && Stored(run, n, key, e) && Echoes(q, e.response)
      && (key.qtype == 1 || key.qtype == 28 ==>
            Vetted(run, n, q, e.response) && AliasesUnblocked(run.rules, key.qname, e.response))
  {
    hide WorldAt, TaskOk, SentOk, Echoes, AliasesUnblocked, Stored, Vetted, Consistent, Balanced;
    RunKeeps(run, n);
    var e := WorldAt(run, n).cache.entries[key];
    var q := Question(key.qname, key.qtype, key.qclass);
    assert Stored(run, n, key, e);
    StoredEchoes(run, n, key, e);
    if IsAddress(key.qtype) {
      StoredIsVetted(run, n, n, q, e);
      VettedAliases(run, n, q, e.response);
    }
  }

  /** The queries that arrived, in order. */
  function Arrivals(events: seq<Event>): seq<Packet> {
    if events == [] then []
    else
      Arrivals(events[..|events| - 1])
        + match events[|events| - 1] case Arrive(query) => [query] case _ => []
  }

  /** In every run there is one task for each query that arrived, in that order. */
  lemma {:induction false} TasksAreArrivals(run: Run, n: nat)
    requires run.c.adapters >= 1 && n <= |run.events|
    ensures var w, qs := WorldAt(run, n), Arrivals(run.events[..n]);
      |w.tasks| == |qs| && forall t :: 0 <= t < |qs| ==> w.tasks[t].query == qs[t]
  {
    hide Next;
    if n > 0 {
      TasksAreArrivals(run, n - 1);
      assert run.events[..n][..n - 1] == run.events[..n - 1];
      hide WorldAt;
      WorldStep(run, n - 1);
      NextAdds(run.c, WorldAt(run, n - 1), run.events[n - 1]);
    }
  }

  /** In every run, there is one task for each query that arrived; it gets no reply while it is being handled, and when
      it is done it has exactly one if it parsed and none if it did not. Every reply carries the id of its query. */
  lemma {:induction false} OneReplyEach(run: Run, n: nat)
    requires run.c.maxEntries >= 1 && run.c.adapters >= 1 && n <= |run.events|
    ensures var w := WorldAt(run, n);
      && |w.tasks| == |Arrivals(run.events[..n])|
      && (forall t :: 0 <= t < |w.tasks| ==> w.tasks[t].query == Arrivals(run.events[..n])[t])
      && (forall t: nat :: t < |w.tasks| ==>
            Count(w.sent, t) == if w.tasks[t].phase.Done? && ParseFull(w.tasks[t].query).Some? then 1 else 0)
      && (forall i :: 0 <= i < |w.sent| ==>
            w.sent[i].task < |w.tasks| && CarriesId(w.tasks[w.sent[i].task].query, w.sent[i].bytes))
  {
    hide WorldAt, CacheOk, PhaseOk, ParseFull, Count, TaskAt, Justified, CarriesId, Arrivals;
    TasksAreArrivals(run, n);
    RunKeeps(run, n);
    var w := WorldAt(run, n);
    forall t: nat | t < |w.tasks|
      ensures Count(w.sent, t) == if w.tasks[t].phase.Done? && ParseFull(w.tasks[t].query).Some? then 1 else 0
    {
      assert TaskOk(run, n, w, t);
    }
    forall i | 0 <= i < |w.sent|
      ensures w.sent[i].task < |w.tasks| && CarriesId(w.tasks[w.sent[i].task].query, w.sent[i].bytes)
    {
      assert SentOk(run, n, w, w.sent[i]);
    }
  }

  // ----- what events do to the cache -----

  /** A sweep drops exactly what has expired. */
  lemma {:induction false} SweepDropsExpired(run: Run, n: nat, key: Key)
    requires run.c.adapters >= 1 && n < |run.events| && run.events[n].SweepCache?
    ensures var before, after := WorldAt(run, n).cache.entries, WorldAt(run, n + 1).cache.entries;
      && (key in after <==> key in before && before[key].expiresAt > run.events[n].now)
      && (key in after ==> after[key] == before[key])
  {
    hide WorldAt;
    WorldStep(run, n);
  }

  /** What is passed on is kept, if it has a lifetime: an address response when it is judged clean, any other when it
      arrives. It can be served until its lifetime is over. */
  lemma {:induction false} PassedOnIsKept(run: Run, n: nat, t: nat, query: Packet, response: Packet)
    requires run.c.adapters >= 1 && run.c.maxEntries >= 1 && OneQuestionQuery(query) && ParseFull(response).Some?
    requires if IsAddress(TheQuestion(query).qtype) then JudgedAt(run, n, t, query, response, Clean)
      else AnsweredAt(run, n, t, query, response)
    requires CacheTtl(ParseFull(response).value.msg) > 0
    ensures n < |run.events|
    ensures var m := ParseFull(response).value.msg; var entries := WorldAt(run, n + 1).cache.entries;
      && KeyOf(TheQuestion(query)) in entries
      && entries[KeyOf(TheQuestion(query))] ==
           Entry(response, TtlOffsets(m.Records()), run.events[n].now + CacheTtl(m) * SECOND)
  {
    hide ParseFull, WorldAt, UncloakName, Forward, TtlOffsets, CacheTtl, MakeRoom, Removed, ServFail, BlockA, BlockAaaa;
    WorldStep(run, n);
  }

  /** An answer from the cache makes its entry the most recently used one and changes no entry. */
  lemma {:induction false} HitIsPromoted(run: Run, n: nat, t: nat, query: Packet)
    requires run.c.adapters >= 1 && TaskAt(run, n, t, query, Arrived) && OneQuestionQuery(query)
    requires run.events[n].Begin? && run.events[n].t == t && t < |WorldAt(run, n + 1).tasks|
    requires var phase := WorldAt(run, n + 1).tasks[t].phase; phase.Sending? && phase.source.Cached?
    ensures var before, after := WorldAt(run, n).cache, WorldAt(run, n + 1).cache;
      && after.entries == before.entries && after.order != []
      && after.order[|after.order| - 1] == KeyOf(TheQuestion(query))
  {
    hide ParseFull, WorldAt, ServedBytes, Blocklist.Match, FORWARDABLE, Refusal, BlockReply;
    WorldStep(run, n);
  }

  // ----- the cache of a run is an LRU map of its inserts, lookups and sweeps -----

  function StoreOps(key: Key, response: Packet, now: int): seq<Op> {
    if ParseFull(response).Some? then [Storing(key, response, now)] else []
  }

  /** What an event does to the cache. */
  ghost function OpsOf(c: Config, w: World, e: Event): seq<Op>
    requires w.versions != [] && c.adapters >= 1
  {
    match e
    case SweepCache(now) => [SweepOp(now)]
    case Begin(t, now) =>
      if t < |w.tasks| && w.tasks[t].phase.Arrived? && w.tasks[t].version < |w.versions|
        && LetThrough(w.versions[w.tasks[t].version], w.tasks[t].query)
      then [LookupOp(now, KeyOf(TheQuestion(w.tasks[t].query)))]
      else []
    case Answer(t, now, ourId, replies) =>
      if t < |w.tasks| && w.tasks[t].phase.Forwarding? && OneQuestionQuery(w.tasks[t].query) then
        var q := TheQuestion(w.tasks[t].query);
        var f := Forward(w.tasks[t].query, c.retries, c.adapters, ourId, replies);
        if f.Some? && !IsAddress(q.qtype) then StoreOps(KeyOf(q), f.value.response, now) else []
      else []
    case Judge(t, now, upstream) =>
      if t < |w.tasks| && w.tasks[t].phase.Judging? && OneQuestionQuery(w.tasks[t].query) then
        var q := TheQuestion(w.tasks[t].query);
        var response := w.tasks[t].phase.response;
        if UncloakName(PinnedEnv(c, w.versions[0], upstream), q.qname, response).status == Clean
          then StoreOps(KeyOf(q), response, now) else []
      else []
    case _ => []
  }

  ghost function OpsBefore(run: Run, n: nat): seq<Op>
    requires run.c.adapters >= 1 && n <= |run.events|
  {
    if n == 0 then [] else OpsBefore(run, n - 1) + OpsOf(run.c, WorldAt(run, n - 1), run.events[n - 1])
  }

  /** No more than one operation, and the cache after it. */
  lemma {:induction false} EventIsOps(c: Config, w: World, e: Event)
    requires w.versions != [] && c.adapters >= 1
    ensures var ops := OpsOf(c, w, e);
      |ops| <= 1 && Next(c, w, e).cache == if ops == [] then w.cache else Step(w.cache, c.maxEntries, ops[0])
  {
    hide ParseFull, Reply, ServedBytes, UncloakName, Forward, Blocklist.Match, FORWARDABLE, Insert, Lookup, Sweep,
      TtlOffsets, CacheTtl;
  }

  lemma {:induction false} AfterOps(max: nat, ops: seq<Op>, more: seq<Op>)
    requires |more| <= 1
    ensures After(max, ops + more) == if more == [] then After(max, ops) else Step(After(max, ops), max, more[0])
  {
    hide Step;
    if more == [] { assert ops + more == ops; } else { assert (ops + more)[..|ops|] == ops; }
  }

  /** The cache of a run is the abstract LRU map after the operations of the run. */
  lemma {:induction false} CacheIsLru(run: Run, n: nat)
    requires run.c.adapters >= 1 && n <= |run.events|
    ensures WorldAt(run, n).cache == After(run.c.maxEntries, OpsBefore(run, n))
  {
    hide Next, Step, OpsOf;
    if n > 0 {
      CacheIsLru(run, n - 1);
      WorldStep(run, n - 1);
      var w, e := WorldAt(run, n - 1), run.events[n - 1];
      EventIsOps(run.c, w, e);
      AfterOps(run.c.maxEntries, OpsBefore(run, n - 1), OpsOf(run.c, w, e));
    }
  }

  /** Events that look at the clock see it go on. */
  predicate UsesClock(e: Event) { e.Begin? || e.Answer? || e.Judge? || e.SweepCache? }

  ghost predicate ClockRuns(run: Run) {
    forall i, j :: 0 <= i < j < |run.events| && UsesClock(run.events[i]) && UsesClock(run.events[j]) ==>
      TimeOf(run.events[i]) <= TimeOf(run.events[j])
  }

  lemma {:induction false} OpsAreHonest(c: Config, w: World, e: Event, op: Op)
    requires w.versions != [] && c.adapters >= 1 && op in OpsOf(c, w, e)
    ensures Honest(op) && UsesClock(e) && op.now == TimeOf(e)
  {
    hide ParseFull, UncloakName, Forward, Blocklist.Match, FORWARDABLE, TtlOffsets, CacheTtl;
  }

  /** Every insert of a run is of a parsed response with its own lifetime, and no operation is later than an
      event that follows. */
  lemma {:induction false} RunIsHonest(run: Run, n: nat, later: nat)
    requires run.c.adapters >= 1 && n <= later < |run.events| && ClockRuns(run) && UsesClock(run.events[later])
    ensures forall k ::
      0 <= k < |OpsBefore(run, n)| ==>
        Honest(OpsBefore(run, n)[k]) && OpsBefore(run, n)[k].now <= TimeOf(run.events[later])
  {
    hide OpsOf, WorldAt, Honest, ParseFull;
    if n > 0 {
      RunIsHonest(run, n - 1, later);
      var w, e := WorldAt(run, n - 1), run.events[n - 1];
      forall op | op in OpsOf(run.c, w, e) ensures Honest(op) && op.now <= TimeOf(run.events[later]) {
        OpsAreHonest(run.c, w, e, op);
      }
    }
  }

  /** In every run whose clock goes on, a reply from the cache serves the latest response stored under its key,
      with a TTL that outlives neither the time that response was given, nor any TTL in its answer and authority
      sections, nor for a negative answer the zone's MINIMUM or a day. */
  lemma {:induction false} CachedRepliesAreNeverStale(run: Run, n: nat, i: nat) returns (j: nat)
    requires run.c.maxEntries >= 1 && run.c.adapters >= 1 && n <= |run.events| && i < |WorldAt(run, n).sent|
    requires ClockRuns(run) && WorldAt(run, n).sent[i].source.Cached?
    ensures var w := WorldAt(run, n); var s := w.sent[i];
      && s.task < |w.tasks| && j < n && RecalledAt(run, j, s.task, QueryOf(w, s), s.source.entry, s.bytes)
      && var e := s.source.entry; var now := TimeOf(run.events[j]); var key := KeyOf(TheQuestion(QueryOf(w, s)));
         var ops := OpsBefore(run, j); var k := LatestInsert(ops, key);
         && k >= 0 && e == EntryOf(ops[k]) && WholeSeconds(Served(e, now), Expiry(ops, key) - now)
         && ParseFull(e.response).Some?
         && forall b: U32 :: IsLimit(ParseFull(e.response).value.msg, b) ==> Served(e, now) <= b
  {
    hide WorldAt, ParseFull, Echoes, LetThrough, Vetted, AliasesUnblocked, Stored, TaskAt, ServedBytes, Served, IsLimit,
      LatestInsert, After, OpsBefore, Hit, Honest, ClockRuns;
    var a := AddressAnswersAreVetted(run, n, i);
    var w := WorldAt(run, n);
    var s := w.sent[i];
    var query, e := QueryOf(w, s), s.source.entry;
    j :| 0 <= j < n && RecalledAt(run, j, s.task, query, e, s.bytes) && Stored(run, j, KeyOf(TheQuestion(query)), e);
    var now := TimeOf(run.events[j]);
    CacheIsLru(run, j);
    RunIsHonest(run, j, j);
    HitIsNeverStale(run.c.maxEntries, OpsBefore(run, j), KeyOf(TheQuestion(query)), now);
  }

  // ----- no query is stuck -----

  function StepsLeft(phase: Phase): nat {
    match phase
    case Arrived => 4
    case Forwarding => 3
    case Judging(_) => 2
    case Sending(_, _) => 1
    case Done => 0
  }

  /** The event a task waits for, when upstream is silent. */
  function Due(t: nat, phase: Phase, now: int): Event {
    match phase
    case Forwarding => Answer(t, now, 0, _ => None)
    case Judging(_) => Judge(t, now, (_, _) => None)
    case Sending(_, _) => Send(t)
    case _ => Begin(t, now)
  }

  lemma {:induction false} DueMovesOn(run: Run, n: nat, w: World, t: nat, now: int)
    requires run.c.adapters >= 1 && Inv(run, n, w) && w.versions != [] && t < |w.tasks| && !w.tasks[t].phase.Done?
    ensures var next := Next(run.c, w, Due(t, w.tasks[t].phase, now));
      t < |next.tasks| && next.tasks[t].query == w.tasks[t].query
        && StepsLeft(next.tasks[t].phase) < StepsLeft(w.tasks[t].phase)
  {
    hide ParseFull, CacheOk, Justified, Reply, UncloakName, Forward, TryInsert, Blocklist.Match, Hit, Lookup,
      FORWARDABLE, SentOk, Count, Answered, CarriesId;
    assert TaskOk(run, n, w, t);
  }

  /** The clock goes on and has not passed this moment. */
  ghost predicate ClockedUntil(run: Run, now: int) {
    && ClockRuns(run)
    && forall i :: 0 <= i < |run.events| && UsesClock(run.events[i]) ==> TimeOf(run.events[i]) <= now
  }

  lemma {:induction false} DueIsInTime(run: Run, t: nat, phase: Phase, now: int)
    requires ClockedUntil(run, now)
    ensures ClockedUntil(run.(events := run.events + [Due(t, phase, now)]), now)
  {
  }

  /** Wherever a run has got to, any query still being handled can be finished within four more steps, at any
      moment from then on, even if upstream never answers again. */
  lemma {:induction false} EveryQueryCanFinish(run: Run, t: nat, now: int) returns (more: seq<Event>)
    requires run.c.maxEntries >= 1 && run.c.adapters >= 1 && t < |RunFrom(run.c, run.rules, run.events).tasks|
    ensures |more| <= StepsLeft(RunFrom(run.c, run.rules, run.events).tasks[t].phase)
    ensures var w := RunFrom(run.c, run.rules, run.events + more);
      && t < |w.tasks| && w.tasks[t].query == RunFrom(run.c, run.rules, run.events).tasks[t].query
        && w.tasks[t].phase.Done?
      && Count(w.sent, t) == if ParseFull(w.tasks[t].query).Some? then 1 else 0
    ensures ClockedUntil(run, now) ==> ClockedUntil(run.(events := run.events + more), now)
    decreases StepsLeft(RunFrom(run.c, run.rules, run.events).tasks[t].phase)
  {
    hide Next, ParseFull, Inv, Due, Count, ClockedUntil;
    var w := RunFrom(run.c, run.rules, run.events);
    assert run.events[..|run.events|] == run.events;
    if w.tasks[t].phase.Done? {
      more := [];
      assert run.events + more == run.events;
      OneReplyEach(run, |run.events|);
      assert w == WorldAt(run, |run.events|);
    } else {
      RunKeeps(run, |run.events|);
      DueMovesOn(run, |run.events|, w, t, now);
      var e := Due(t, w.tasks[t].phase, now);
      var longer := run.(events := run.events + [e]);
      assert longer.events[..|longer.events| - 1] == run.events;
      if ClockedUntil(run, now) { DueIsInTime(run, t, w.tasks[t].phase, now); }
      var rest := EveryQueryCanFinish(longer, t, now);
      more := [e] + rest;
      assert longer.events + rest == run.events + more;
    }
  }
}
