/** Following CNAME chains: src/uncloaker.cpp. */
module Uncloaker {
  import opened Wire
  import opened Names
  import opened Parser
  import opened Writer
  import opened Blocklist
  import opened Etld
  import opened Samples

  // ----- walk_answers -----

  /** What the answers say about one name. */
  datatype Finding = Address | Alias(target: Name) | Silent | Malformed

  /** The first address or CNAME record of the name decides. */
  function Scan(answers: seq<Record>, packet: Packet, current: Name): Finding {
    if answers == [] then Silent
    else
      var rr := answers[0];
      if rr.name != current then Scan(answers[1..], packet, current)
      else if rr.rtype == TYPE_A || rr.rtype == TYPE_AAAA then Address
      else if rr.rtype != TYPE_CNAME then Scan(answers[1..], packet, current)
      else match DecodeNameAt(packet, rr.rdataOff) case None => Malformed case Some(t) => Alias(t)
  }

  datatype WalkResult = Unreadable | Walked(hops: seq<Name>, terminated: bool)

  function PrependHops(done: seq<Name>, w: WalkResult): WalkResult {
    match w case Unreadable => Unreadable case Walked(hops, t) => Walked(done + hops, t)
  }

  /** Following aliases inside one response, at most `turns` times. */
  function Walk(answers: seq<Record>, packet: Packet, current: Name, turns: nat): WalkResult
    decreases turns
  {
    if turns == 0 then Walked([], false)
    else
      match Scan(answers, packet, current)
      case Address => Walked([], true)
      case Silent => Walked([], false)
      case Malformed => Unreadable
      case Alias(t) => PrependHops([t], Walk(answers, packet, t, turns - 1))
  }

  function WalkAnswers(answers: seq<Record>, packet: Packet, start: Name): WalkResult {
    Walk(answers, packet, start, |answers| + 1)
  }

  method ScanLoop(answers: seq<Record>, packet: Packet, current: Name) returns (f: Finding)
    ensures f == Scan(answers, packet, current)
  {
    for i := 0 to |answers|
      invariant Scan(answers, packet, current) == Scan(answers[i..], packet, current)
    {
      var rr := answers[i];
      assert answers[i..][1..] == answers[i + 1..];
      if rr.name != current { continue; }
      if rr.rtype == TYPE_A || rr.rtype == TYPE_AAAA { return Address; }
      if rr.rtype != TYPE_CNAME { continue; }
      var d := DecodeNameLoop(packet, rr.rdataOff);
      if d.None? { return Malformed; }
      return Alias(d.value.name);
    }
    return Silent;
  }

  method WalkLoop(answers: seq<Record>, packet: Packet, start: Name) returns (w: WalkResult)
    ensures w == WalkAnswers(answers, packet, start)
  {
    hide Scan;
    var hops: seq<Name> := [];
    var current := start;
    var cap := |answers| + 1;
    ghost var whole := Walk(answers, packet, start, cap);
    assert whole.Walked? ==> hops + whole.hops == whole.hops;
    for turn := 0 to cap
      invariant whole == PrependHops(hops, Walk(answers, packet, current, cap - turn))
    {
      var f := ScanLoop(answers, packet, current);
      ghost var rest := if f.Alias? then Walk(answers, packet, f.target, cap - turn - 1) else Unreadable;
      match f {
        case Address => assert hops + [] == hops; return Walked(hops, true);
        case Silent => assert hops + [] == hops; return Walked(hops, false);
        case Malformed => return Unreadable;
        case Alias(t) =>
          if rest.Walked? { assert hops + ([t] + rest.hops) == hops + [t] + rest.hops; }
          hops := hops + [t];
          current := t;
      }
    }
    assert hops + [] == hops;
    return Walked(hops, false);
  }

  // ----- uncloak -----

  datatype Status = Clean | Blocked | Aborted

  datatype Reason = NoReason | BadPacket | BadTarget | Loop | DepthLimit | CannotEncode | RequeryFailed

  /** The verdict, and the names that were re-queried, in order. */
  datatype Outcome = Outcome(status: Status, reason: Reason, hit: MatchResult, progress: Progress, asked: seq<Name>)

  /** The chain so far and the first registrable domain it crossed into. */
  datatype Progress = Progress(chain: seq<Name>, crossed: bool, crossedTo: Name)

  /** What a run depends on. `upstream(k, q)` is what the k-th re-query gets for the packet `q`: any
      function at all, so any upstream behaviour, including failure. */
  datatype Env = Env(rules: Rules, table: seq<Name>, maxDepth: int, upstream: (nat, Packet) -> Option<Packet>)

  function Last(p: Progress): Name
    requires p.chain != []
  {
    p.chain[|p.chain| - 1]
  }

  /** Recording one hop. */
  function Push(env: Env, p: Progress, hop: Name): Progress
    requires p.chain != []
  {
    var home := EtldPlusOne(env.table, p.chain[0]);
    var there := EtldPlusOne(env.table, hop);
    if !p.crossed && home != [] && there != [] && there != home then Progress(p.chain + [hop], true, there)
    else p.(chain := p.chain + [hop])
  }

  datatype Taken = Going(progress: Progress) | Ended(outcome: Outcome)

  /** The hops of one response, checked in order: loop, depth, crossing, blocklist. */
  function TakeHops(env: Env, p: Progress, hops: seq<Name>, asked: seq<Name>): Taken
    requires p.chain != []
    decreases |hops|
  {
    if hops == [] then Going(p)
    else if hops[0] in p.chain then Ended(Outcome(Aborted, Loop, CLEAR, p, asked))
    else if |p.chain| >= env.maxDepth then Ended(Outcome(Aborted, DepthLimit, CLEAR, p, asked))
    else
      var next := Push(env, p, hops[0]);
      var m := Match(env.rules, hops[0]);
      if m.blocked then Ended(Outcome(Blocked, NoReason, m, next, asked))
      else TakeHops(env, next, hops[1..], asked)
  }

  lemma {:induction false} TakenLength(env: Env, p: Progress, hops: seq<Name>, asked: seq<Name>)
    requires p.chain != []
    ensures var t := TakeHops(env, p, hops, asked); t.Going? ==> |t.progress.chain| == |p.chain| + |hops|
    decreases |hops|
  {
    if hops != [] && hops[0] !in p.chain && |p.chain| < env.maxDepth && !Match(env.rules, hops[0]).blocked {
      TakenLength(env, Push(env, p, hops[0]), hops[1..], asked);
    }
  }

  /** The whole run from a response in hand. */
  function Uncloak(env: Env, p: Progress, packet: Packet, asked: seq<Name>): Outcome
    requires p.chain != []
    decreases env.maxDepth - |p.chain|
  {
    var parsed := Parse(packet);
    if parsed.None? then Outcome(Aborted, BadPacket, CLEAR, p, asked)
    else
      var walk := WalkAnswers(parsed.value.answers, packet, Last(p));
      if walk.Unreadable? then Outcome(Aborted, BadTarget, CLEAR, p, asked)
      else
        TakenLength(env, p, walk.hops, asked);
        match TakeHops(env, p, walk.hops, asked)
        case Ended(o) => o
        case Going(q) =>
          if walk.terminated || walk.hops == [] then Outcome(Clean, NoReason, CLEAR, q, asked)
          else if |q.chain| >= env.maxDepth then Outcome(Aborted, DepthLimit, CLEAR, q, asked)
          else if !Encodable(Last(q)) then Outcome(Aborted, CannotEncode, CLEAR, q, asked)
          else
            match env.upstream(|asked|, AQuery(Last(q), 0))
            case None => Outcome(Aborted, RequeryFailed, CLEAR, q, asked + [Last(q)])
            case Some(answer) => Uncloak(env, q, answer, asked + [Last(q)])
  }

  function Start(qname: Name): Progress { Progress([qname], false, []) }

  /** `uncloak(qname, first_response)`. */
  function UncloakName(env: Env, qname: Name, first: Packet): Outcome { Uncloak(env, Start(qname), first, []) }

  function Elements(s: seq<Name>): set<Name> { set x | x in s }

  /** The inner loop of `uncloak`, with the set of names seen so far. */
  method TakeHopsLoop(env: Env, before: Progress, seenBefore: set<Name>, hops: seq<Name>, asked: seq<Name>)
    returns (t: Taken, seen: set<Name>)
    requires before.chain != [] && seenBefore == Elements(before.chain)
    ensures t == TakeHops(env, before, hops, asked)
    ensures t.Going? ==> seen == Elements(t.progress.chain)
  {
    hide Match, EtldPlusOne;
    var p := before;
    seen := seenBefore;
    for i := 0 to |hops|
      invariant p.chain != [] && seen == Elements(p.chain)
      invariant TakeHops(env, before, hops, asked) == TakeHops(env, p, hops[i..], asked)
    {
      var hop := hops[i];
      assert hops[i..][0] == hop && hops[i..][1..] == hops[i + 1..];
      if hop in seen { return Ended(Outcome(Aborted, Loop, CLEAR, p, asked)), seen; }
      seen := seen + {hop};
      if |p.chain| >= env.maxDepth { return Ended(Outcome(Aborted, DepthLimit, CLEAR, p, asked)), seen; }
      p := Push(env, p, hop);
      var m := Match(env.rules, hop);
      if m.blocked { return Ended(Outcome(Blocked, NoReason, m, p, asked)), seen; }
    }
    t := Going(p);
  }

  method UncloakLoop(env: Env, qname: Name, first: Packet) returns (o: Outcome)
    ensures o == UncloakName(env, qname, first)
  {
    hide TakeHops, WalkAnswers, ParseFull, Match, Encodable;
    var p := Start(qname);
    var seen := {qname};
    var current := first;
    var asked: seq<Name> := [];
    while true
      invariant p.chain != [] && seen == Elements(p.chain)
      invariant UncloakName(env, qname, first) == Uncloak(env, p, current, asked)
      decreases env.maxDepth - |p.chain|
    {
      var parsed := ParseLoop(current);
      if parsed.None? { return Outcome(Aborted, BadPacket, CLEAR, p, asked); }
      var walk := WalkLoop(parsed.value.msg.answers, current, Last(p));
      if walk.Unreadable? { return Outcome(Aborted, BadTarget, CLEAR, p, asked); }
      TakenLength(env, p, walk.hops, asked);
      var taken;
      taken, seen := TakeHopsLoop(env, p, seen, walk.hops, asked);
      if taken.Ended? { return taken.outcome; }
      var q := taken.progress;
      if walk.terminated || walk.hops == [] { return Outcome(Clean, NoReason, CLEAR, q, asked); }
      if |q.chain| >= env.maxDepth { return Outcome(Aborted, DepthLimit, CLEAR, q, asked); }
      var req := BuildAQuery(Last(q), 0);
      if req.None? { return Outcome(Aborted, CannotEncode, CLEAR, q, asked); }
      var answer := env.upstream(|asked|, req.value);
      if answer.None? { return Outcome(Aborted, RequeryFailed, CLEAR, q, asked + [Last(q)]); }
      p, current, asked := q, answer.value, asked + [Last(q)];
    }
  }

  // ----- the pigeonhole behind the iteration cap -----

  /** More numbers below n than n: two are equal. */
  lemma {:induction false} Pigeonhole(s: seq<nat>, n: nat)
    requires |s| > n && forall i :: 0 <= i < |s| ==> s[i] < n
    ensures !Distinct(s)
    decreases n
  {
    assert s[0] < n;
    if Distinct(s) {
      if i :| 0 <= i < |s| && s[i] == n - 1 {
        var rest := s[..i] + s[i + 1..];
        assert forall k :: 0 <= k < |rest| ==> rest[k] == s[if k < i then k else k + 1];
        Pigeonhole(rest, n - 1);
      } else {
        Pigeonhole(s[1..], n - 1);
      }
    }
  }

  /** The record that made the scan answer with an alias. */
  lemma {:induction false} AliasRecord(answers: seq<Record>, packet: Packet, current: Name) returns (k: nat)
    requires Scan(answers, packet, current).Alias?
    ensures k < |answers| && answers[k].name == current && answers[k].rtype == TYPE_CNAME
    ensures DecodeNameAt(packet, answers[k].rdataOff) == Some(Scan(answers, packet, current).target)
  {
    var rr := answers[0];
    if rr.name == current && rr.rtype == TYPE_CNAME {
      k := 0;
    } else {
      k := AliasRecord(answers[1..], packet, current);
      k := k + 1;
    }
  }

  /** The records used by the steps of a walk, one per hop, each owned by the name it was used for. */
  lemma {:induction false} WalkRecords(answers: seq<Record>, packet: Packet, current: Name, turns: nat)
    returns (ks: seq<nat>)
    requires Walk(answers, packet, current, turns).Walked?
    ensures var hops := Walk(answers, packet, current, turns).hops;
      && |ks| == |hops|
      && forall i :: 0 <= i < |ks| ==> ks[i] < |answers| && answers[ks[i]].name == ([current] + hops)[i]
    decreases turns
  {
    hide Scan;
    ks := [];
    if turns > 0 && Scan(answers, packet, current).Alias? {
      var t := Scan(answers, packet, current).target;
      var rest := WalkRecords(answers, packet, t, turns - 1);
      var k := AliasRecord(answers, packet, current);
      ks := [k] + rest;
      var hops := Walk(answers, packet, current, turns).hops;
      assert hops == [t] + Walk(answers, packet, t, turns - 1).hops;
      assert ([current] + hops)[1..] == hops;
    }
  }

  /** A walk that used every turn went through some name twice: the cap never cuts off a genuine chain. */
  lemma {:induction false} CappedWalkRepeats(answers: seq<Record>, packet: Packet, start: Name)
    requires WalkAnswers(answers, packet, start).Walked?
    requires |WalkAnswers(answers, packet, start).hops| == |answers| + 1
    ensures !Distinct([start] + WalkAnswers(answers, packet, start).hops)
  {
    hide Walk;
    var hops := WalkAnswers(answers, packet, start).hops;
    var ks := WalkRecords(answers, packet, start, |answers| + 1);
    Pigeonhole(ks, |answers|);
    var i, j :| 0 <= i < j < |ks| && ks[i] == ks[j];
    assert ([start] + hops)[i] == ([start] + hops)[j];
  }

  /** The chain check does not get past a repeated name. */
  lemma {:induction false} RepeatsEnd(env: Env, p: Progress, hops: seq<Name>, asked: seq<Name>)
    requires p.chain != [] && !Distinct([Last(p)] + hops)
    ensures TakeHops(env, p, hops, asked).Ended? && TakeHops(env, p, hops, asked).outcome.status != Clean
    decreases |hops|
  {
    hide Match, EtldPlusOne;
    var all := [Last(p)] + hops;
    var i, j :| 0 <= i < j < |all| && all[i] == all[j];
    if hops[0] !in p.chain && |p.chain| < env.maxDepth && !Match(env.rules, hops[0]).blocked {
      var next := Push(env, p, hops[0]);
      if i == 0 {
        RevisitEnds(env, next, hops[1..], asked, Last(p), j - 2);
      } else {
        assert ([Last(next)] + hops[1..])[i - 1] == ([Last(next)] + hops[1..])[j - 1];
        RepeatsEnd(env, next, hops[1..], asked);
      }
    }
  }

  lemma {:induction false} RevisitEnds(env: Env, p: Progress, hops: seq<Name>, asked: seq<Name>, name: Name, k: nat)
    requires p.chain != [] && name in p.chain && k < |hops| && hops[k] == name
    ensures TakeHops(env, p, hops, asked).Ended? && TakeHops(env, p, hops, asked).outcome.status != Clean
    decreases |hops|
  {
    hide Match, EtldPlusOne;
    if hops[0] !in p.chain && |p.chain| < env.maxDepth && !Match(env.rules, hops[0]).blocked {
      RevisitEnds(env, Push(env, p, hops[0]), hops[1..], asked, name, k - 1);
    }
  }

  /** So a capped walk ends the run: it is neither reported clean nor followed by a re-query. */
  lemma {:induction false} CappedWalkEndsRun(env: Env, p: Progress, packet: Packet, asked: seq<Name>)
    requires p.chain != [] && Parse(packet).Some?
    requires var w := WalkAnswers(Parse(packet).value.answers, packet, Last(p));
      w.Walked? && |w.hops| == |Parse(packet).value.answers| + 1
    ensures var o := Uncloak(env, p, packet, asked); o.status != Clean && o.asked == asked
  {
    hide WalkAnswers, TakeHops, ParseFull;
    var w := WalkAnswers(Parse(packet).value.answers, packet, Last(p));
    CappedWalkRepeats(Parse(packet).value.answers, packet, Last(p));
    RepeatsEnd(env, p, w.hops, asked);
    EndedHere(env, p, w.hops, asked);
  }

  lemma {:induction false} EndedHere(env: Env, p: Progress, hops: seq<Name>, asked: seq<Name>)
    requires p.chain != [] && TakeHops(env, p, hops, asked).Ended?
    ensures TakeHops(env, p, hops, asked).outcome.asked == asked
    decreases |hops|
  {
    hide Match, EtldPlusOne;
    if hops != [] && hops[0] !in p.chain && |p.chain| < env.maxDepth && !Match(env.rules, hops[0]).blocked {
      EndedHere(env, Push(env, p, hops[0]), hops[1..], asked);
    }
  }

  // ----- soundness for every upstream -----

  /** The packet has a CNAME record of `from` whose target decodes to `to`. */
  ghost predicate Links(packet: Packet, from: Name, to: Name) {
    && Parse(packet).Some?
    && exists k :: 0 <= k < |Parse(packet).value.answers| && IsAlias(Parse(packet).value.answers[k], packet, from, to)
  }

  predicate IsAlias(rr: Record, packet: Packet, from: Name, to: Name) {
    rr.name == from && rr.rtype == TYPE_CNAME && DecodeNameAt(packet, rr.rdataOff) == Some(to)
  }

  /** Re-query number k, for that name, was answered with the packet. */
  predicate AnsweredWith(env: Env, k: nat, name: Name, packet: Packet) {
    Encodable(name) && env.upstream(k, AQuery(name, 0)) == Some(packet)
  }

  /** A packet the run has seen, by the time it knew these names: the first response, or the answer to one of the
      re-queries it has made, for one of them. */
  ghost predicate Received(env: Env, first: Packet, asked: seq<Name>, names: seq<Name>, packet: Packet) {
    packet == first || exists k :: 0 <= k < |asked| && asked[k] in names && AnsweredWith(env, k, asked[k], packet)
  }

  /** The link from the i-th name of the chain to the next is in a packet the run has seen before it got there. */
  ghost predicate LinkReceived(env: Env, first: Packet, chain: seq<Name>, i: nat, asked: seq<Name>)
    requires i + 1 < |chain|
  {
    var names, from, to := chain[..i + 1], chain[i], chain[i + 1];
    exists packet :: Received(env, first, asked, names, packet) && Links(packet, from, to)
  }

  /** What has been seen stays seen. */
  lemma {:induction false} ReceivedLater(env: Env, first: Packet, asked: seq<Name>, later: seq<Name>,
                                         names: seq<Name>, more: seq<Name>, packet: Packet)
    requires Received(env, first, asked, names, packet) && names <= more && asked <= later
    ensures Received(env, first, later, more, packet)
  {
    hide AnsweredWith;
    if packet != first {
      var k :| 0 <= k < |asked| && asked[k] in names && AnsweredWith(env, k, asked[k], packet);
      assert later[k] == asked[k];
      assert forall n :: n in names ==> n in more;
    }
  }

  /** The hop goes to another registrable domain than the one the chain started in. */
  predicate Crosses(env: Env, home: Name, hop: Name) {
    var h := EtldPlusOne(env.table, home);
    var t := EtldPlusOne(env.table, hop);
    h != [] && t != [] && t != h
  }

  /** What holds of the chain at every moment of every run. */
  ghost predicate SoundChain(env: Env, qname: Name, first: Packet, p: Progress, asked: seq<Name>) {
    && |p.chain| >= 1 && p.chain[0] == qname && Distinct(p.chain)
    && (|p.chain| == 1 || |p.chain| <= env.maxDepth)
    && (forall i :: 0 <= i < |p.chain| - 1 ==> LinkReceived(env, first, p.chain, i, asked))
    && Distinct(asked) && (forall k :: 0 <= k < |asked| ==> asked[k] in p.chain)
    && CrossingRecorded(env, p)
  }

  /** The crossing flag is set exactly if some hop crosses, and the first such hop is the one recorded. */
  ghost predicate CrossingRecorded(env: Env, p: Progress) {
    && (p.crossed <==> exists i :: 1 <= i < |p.chain| && Crosses(env, p.chain[0], p.chain[i]))
    && (p.crossed ==> exists i :: (&& 1 <= i < |p.chain| && Crosses(env, p.chain[0], p.chain[i])
                                   && p.crossedTo == EtldPlusOne(env.table, p.chain[i])
                                   && forall j :: 1 <= j < i ==> !Crosses(env, p.chain[0], p.chain[j])))
    && (!p.crossed ==> p.crossedTo == [])
  }

  ghost predicate Unblocked(env: Env, chain: seq<Name>, end: int)
    requires end <= |chain|
  {
    forall i :: 1 <= i < end ==> !Match(env.rules, chain[i]).blocked
  }

  ghost predicate SoundOutcome(env: Env, qname: Name, first: Packet, o: Outcome) {
    var chain := o.progress.chain;
    && SoundChain(env, qname, first, o.progress, o.asked)
    && (o.status != Blocked ==> Unblocked(env, chain, |chain|) && o.hit == CLEAR)
    && (o.status == Blocked ==>
          |chain| >= 2 && Unblocked(env, chain, |chain| - 1) && o.hit == Match(env.rules, chain[|chain| - 1])
            && o.hit.blocked)
    && |o.asked| <= (if env.maxDepth > 2 then env.maxDepth - 2 else 0)
    && (o.status == Aborted <==> o.reason != NoReason)
  }

  /** Each hop of a walk is the alias of the one before. */
  lemma {:induction false} WalkLinks(packet: Packet, current: Name, turns: nat, i: nat)
    requires Parse(packet).Some?
    requires var w := Walk(Parse(packet).value.answers, packet, current, turns); w.Walked? && i < |w.hops|
    ensures Links(packet, ([current] + Walk(Parse(packet).value.answers, packet, current, turns).hops)[i],
                  Walk(Parse(packet).value.answers, packet, current, turns).hops[i])
    decreases turns
  {
    hide ParseFull, Scan, DecodeNameAt;
    var answers := Parse(packet).value.answers;
    var t := Scan(answers, packet, current).target;
    var rest := Walk(answers, packet, t, turns - 1).hops;
    assert Walk(answers, packet, current, turns).hops == [t] + rest;
    if i == 0 {
      var k := AliasRecord(answers, packet, current);
      assert IsAlias(answers[k], packet, current, t);
    } else {
      WalkLinks(packet, t, turns - 1, i - 1);
      assert ([current] + ([t] + rest))[i] == ([t] + rest)[i - 1];
    }
  }

  lemma {:induction false} PushSound(env: Env, qname: Name, first: Packet, p: Progress, hop: Name, packet: Packet,
                                     asked: seq<Name>)
    requires SoundChain(env, qname, first, p, asked) && hop !in p.chain && |p.chain| < env.maxDepth
    requires Received(env, first, asked, p.chain, packet) && Links(packet, Last(p), hop)
    ensures SoundChain(env, qname, first, Push(env, p, hop), asked)
  {
    hide EtldPlusOne, Received, Links;
    var q := Push(env, p, hop);
    var n := |p.chain|;
    assert q.chain == p.chain + [hop];
    assert Distinct(q.chain);
    forall i | 0 <= i < n ensures LinkReceived(env, first, q.chain, i, asked) {
      if i < n - 1 {
        assert LinkReceived(env, first, p.chain, i, asked);
        assert q.chain[..i + 1] == p.chain[..i + 1];
      } else {
        assert q.chain[..i + 1] == p.chain && q.chain[i] == Last(p) && q.chain[i + 1] == hop;
      }
    }
    PushCrossing(env, p, hop);
  }

  lemma {:induction false} PushCrossing(env: Env, p: Progress, hop: Name)
    requires p.chain != [] && CrossingRecorded(env, p)
    ensures CrossingRecorded(env, Push(env, p, hop))
  {
    hide EtldPlusOne;
    var q := Push(env, p, hop);
    var n := |p.chain|;
    assert q.chain[n] == hop && forall i :: 0 <= i < n ==> q.chain[i] == p.chain[i];
    if p.crossed {
      var i :| 1 <= i < n && Crosses(env, p.chain[0], p.chain[i])
        && p.crossedTo == EtldPlusOne(env.table, p.chain[i])
        && forall j :: 1 <= j < i ==> !Crosses(env, p.chain[0], p.chain[j]);
      assert Crosses(env, q.chain[0], q.chain[i]);
    } else if q.crossed {
      assert Crosses(env, q.chain[0], q.chain[n]);
    }
  }

  /** The hops of one received packet keep the chain sound. */
  lemma {:induction false} TakeHopsSound(env: Env, qname: Name, first: Packet, p: Progress, hops: seq<Name>,
                                         asked: seq<Name>, packet: Packet)
    requires SoundChain(env, qname, first, p, asked) && Unblocked(env, p.chain, |p.chain|)
    requires Received(env, first, asked, p.chain, packet)
    requires forall i :: 0 <= i < |hops| ==> Links(packet, ([Last(p)] + hops)[i], hops[i])
    requires |asked| <= (if env.maxDepth > 2 then env.maxDepth - 2 else 0)
    ensures match TakeHops(env, p, hops, asked)
      case Ended(o) => SoundOutcome(env, qname, first, o)
      case Going(q) => SoundChain(env, qname, first, q, asked) && Unblocked(env, q.chain, |q.chain|)
    decreases |hops|
  {
    hide EtldPlusOne, Match, Received, Links, CrossingRecorded;
    if hops != [] && hops[0] !in p.chain && |p.chain| < env.maxDepth {
      assert ([Last(p)] + hops)[0] == Last(p);
      PushSound(env, qname, first, p, hops[0], packet, asked);
      var next := Push(env, p, hops[0]);
      assert next.chain == p.chain + [hops[0]];
      if !Match(env.rules, hops[0]).blocked {
        forall i | 0 <= i < |hops[1..]| ensures Links(packet, ([Last(next)] + hops[1..])[i], hops[1..][i]) {
          assert ([Last(p)] + hops)[i + 1] == ([Last(next)] + hops[1..])[i];
        }
        ReceivedLater(env, first, asked, asked, p.chain, next.chain, packet);
        TakeHopsSound(env, qname, first, next, hops[1..], asked, packet);
      }
    }
  }

  /** An outcome that is not a block is sound if its chain is. */
  lemma {:induction false} PlainOutcome(env: Env, qname: Name, first: Packet, o: Outcome)
    requires SoundChain(env, qname, first, o.progress, o.asked)
      && Unblocked(env, o.progress.chain, |o.progress.chain|)
    requires o.status != Blocked && o.hit == CLEAR && (o.status == Aborted <==> o.reason != NoReason)
    requires |o.asked| <= (if env.maxDepth > 2 then env.maxDepth - 2 else 0)
    ensures SoundOutcome(env, qname, first, o)
  {
  }

  /** The hops of a whole response. */
  lemma {:induction false} ResponseSound(env: Env, qname: Name, first: Packet, p: Progress, packet: Packet,
                                         asked: seq<Name>)
    requires SoundChain(env, qname, first, p, asked) && Unblocked(env, p.chain, |p.chain|)
      && Received(env, first, asked, p.chain, packet)
    requires |asked| <= (if env.maxDepth > 2 then env.maxDepth - 2 else 0)
    requires Parse(packet).Some? && WalkAnswers(Parse(packet).value.answers, packet, Last(p)).Walked?
    ensures var hops := WalkAnswers(Parse(packet).value.answers, packet, Last(p)).hops;
      match TakeHops(env, p, hops, asked)
      case Ended(o) => SoundOutcome(env, qname, first, o)
      case Going(q) =>
        SoundChain(env, qname, first, q, asked) && Unblocked(env, q.chain, |q.chain|)
          && |q.chain| == |p.chain| + |hops|
  {
    hide ParseFull, WalkAnswers, TakeHops, Links, LinkReceived, CrossingRecorded, Unblocked, Received, SoundOutcome;
    var hops := WalkAnswers(Parse(packet).value.answers, packet, Last(p)).hops;
    forall i | 0 <= i < |hops| ensures Links(packet, ([Last(p)] + hops)[i], hops[i]) {
      WalkAnswersLinks(packet, Last(p), i);
    }
    TakeHopsSound(env, qname, first, p, hops, asked, packet);
    TakenLength(env, p, hops, asked);
  }

  /** Asking for the last name of a chain that has grown since the last time. */
  lemma {:induction false} AskingKeepsSound(env: Env, qname: Name, first: Packet, p: Progress, asked: seq<Name>)
    requires SoundChain(env, qname, first, p, asked) && Last(p) !in asked
    ensures SoundChain(env, qname, first, p, asked + [Last(p)])
  {
    hide CrossingRecorded, Received, Links;
    var later := asked + [Last(p)];
    forall i | 0 <= i < |p.chain| - 1 ensures LinkReceived(env, first, p.chain, i, later) {
      assert LinkReceived(env, first, p.chain, i, asked);
      var names := p.chain[..i + 1];
      var packet :| Received(env, first, asked, names, packet) && Links(packet, p.chain[i], p.chain[i + 1]);
      ReceivedLater(env, first, asked, later, names, names, packet);
    }
  }

  lemma {:induction false} JustReceived(env: Env, first: Packet, p: Progress, asked: seq<Name>)
    requires p.chain != [] && Encodable(Last(p)) && env.upstream(|asked|, AQuery(Last(p), 0)).Some?
    ensures Received(env, first, asked + [Last(p)], p.chain, env.upstream(|asked|, AQuery(Last(p), 0)).value)
  {
    hide Split, AllLabels;
    var later := asked + [Last(p)];
    assert AnsweredWith(env, |asked|, later[|asked|], env.upstream(|asked|, AQuery(Last(p), 0)).value);
  }

  /** A hop that was taken was not in the chain before, so it has not been asked for. */
  lemma {:induction false} LastIsNew(p: Progress, q: Progress, asked: seq<Name>)
    requires p.chain != [] && p.chain < q.chain && Distinct(q.chain)
    requires forall k :: 0 <= k < |asked| ==> asked[k] in p.chain
    ensures Last(q) !in asked
  {
    assert forall i :: 0 <= i < |p.chain| ==> p.chain[i] == q.chain[i];
  }

  lemma {:induction false} UncloakSoundFrom(env: Env, qname: Name, first: Packet, p: Progress, packet: Packet,
                                            asked: seq<Name>)
    requires SoundChain(env, qname, first, p, asked) && Unblocked(env, p.chain, |p.chain|)
      && Received(env, first, asked, p.chain, packet)
    requires |asked| + 1 <= |p.chain| && (asked == [] || |asked| <= env.maxDepth - 2)
    ensures SoundOutcome(env, qname, first, Uncloak(env, p, packet, asked))
    decreases env.maxDepth - |p.chain|
  {
    hide ParseFull, WalkAnswers, TakeHops, LinkReceived, CrossingRecorded, Unblocked, SoundOutcome, Split, AllLabels,
      Received;
    var o := Uncloak(env, p, packet, asked);
    var w := if Parse(packet).Some? then WalkAnswers(Parse(packet).value.answers, packet, Last(p)) else Unreadable;
    if w.Unreadable? {
      PlainOutcome(env, qname, first, o);
    } else {
      ResponseSound(env, qname, first, p, packet, asked);
      var taken := TakeHops(env, p, w.hops, asked);
      if taken.Going? {
        var q := taken.progress;
        var asks := !w.terminated && w.hops != [] && |q.chain| < env.maxDepth && Encodable(Last(q));
        if asks {
          TakenChain(env, p, w.hops, asked);
          LastIsNew(p, q, asked);
          AskingKeepsSound(env, qname, first, q, asked);
        }
        if asks && env.upstream(|asked|, AQuery(Last(q), 0)).Some? {
          JustReceived(env, first, q, asked);
          var answer := env.upstream(|asked|, AQuery(Last(q), 0)).value;
          UncloakSoundFrom(env, qname, first, q, answer, asked + [Last(q)]);
        } else {
          PlainOutcome(env, qname, first, o);
        }
      }
    }
  }

  lemma {:induction false} WalkAnswersLinks(packet: Packet, current: Name, i: nat)
    requires Parse(packet).Some?
    requires var w := WalkAnswers(Parse(packet).value.answers, packet, current); w.Walked? && i < |w.hops|
    ensures var w := WalkAnswers(Parse(packet).value.answers, packet, current);
      Links(packet, ([current] + w.hops)[i], w.hops[i])
  {
    hide ParseFull, Walk, Links;
    WalkLinks(packet, current, |Parse(packet).value.answers| + 1, i);
  }

  /** Uncloaking is sound whatever upstream does: the chain starts at the query name, never repeats a
      name, stays within the depth limit, and every hop is the decoded CNAME target of the one before in
      a packet this run has seen before, its first response or the answer to one of the re-queries it made for an
      earlier name of the chain; no name is re-queried twice; a clean run met no blocked hop, a blocked run stopped
      at the first; the crossing flag is exact; and re-queries are at most the depth limit less two. */
  lemma {:induction false} UncloakIsSound(env: Env, qname: Name, first: Packet)
    ensures SoundOutcome(env, qname, first, UncloakName(env, qname, first))
  {
    hide Uncloak;
    UncloakSoundFrom(env, qname, first, Start(qname), first, []);
  }

  // ----- the order of the answers does not matter -----

  predicate Relevant(rr: Record) { rr.rtype == TYPE_A || rr.rtype == TYPE_AAAA || rr.rtype == TYPE_CNAME }

  /** Each owner has one CNAME record, or only address records. */
  ghost predicate OneAliasOrAddresses(answers: seq<Record>) {
    forall r, s :: r in answers && s in answers && r.name == s.name && Relevant(s) && r.rtype == TYPE_CNAME ==> r == s
  }

  /** What a record says on its own. */
  function Says(rr: Record, packet: Packet): Finding {
    if rr.rtype != TYPE_CNAME then Address
    else match DecodeNameAt(packet, rr.rdataOff) case None => Malformed case Some(t) => Alias(t)
  }

  /** The scan answers what some relevant record of the name says, and is silent only if there is none. */
  lemma {:induction false} ScanSays(answers: seq<Record>, packet: Packet, current: Name)
    ensures var f := Scan(answers, packet, current);
      && (f == Silent <==> forall rr :: rr in answers && rr.name == current ==> !Relevant(rr))
      && (f != Silent ==> exists rr :: rr in answers && rr.name == current && Relevant(rr) && f == Says(rr, packet))
  {
    hide DecodeNameAt;
    if answers != [] {
      ScanSays(answers[1..], packet, current);
      assert forall rr :: rr in answers <==> rr == answers[0] || rr in answers[1..];
    }
  }

  lemma {:induction false} ScanOrderFree(a: seq<Record>, b: seq<Record>, packet: Packet, current: Name)
    requires OneAliasOrAddresses(a) && forall rr :: rr in a <==> rr in b
    ensures Scan(a, packet, current) == Scan(b, packet, current)
  {
    hide DecodeNameAt, Scan;
    ScanSays(a, packet, current);
    ScanSays(b, packet, current);
  }

  /** Answers that differ only in order are walked alike. */
  lemma {:induction false} WalkOrderFree(a: seq<Record>, b: seq<Record>, packet: Packet, current: Name, turns: nat)
    requires OneAliasOrAddresses(a) && forall rr :: rr in a <==> rr in b
    ensures Walk(a, packet, current, turns) == Walk(b, packet, current, turns)
    decreases turns
  {
    hide Scan;
    if turns > 0 {
      ScanOrderFree(a, b, packet, current);
      if Scan(a, packet, current).Alias? {
        WalkOrderFree(a, b, packet, Scan(a, packet, current).target, turns - 1);
      }
    }
  }

  lemma {:induction false} PermutedAnswersWalkAlike(a: seq<Record>, b: seq<Record>, packet: Packet, start: Name)
    requires OneAliasOrAddresses(a) && multiset(a) == multiset(b)
    ensures WalkAnswers(a, packet, start) == WalkAnswers(b, packet, start)
  {
    hide Walk;
    assert |a| == |multiset(a)| == |multiset(b)| == |b|;
    assert forall rr :: rr in a <==> rr in multiset(a);
    assert forall rr :: rr in b <==> rr in multiset(b);
    WalkOrderFree(a, b, packet, start, |a| + 1);
  }

  // ----- how hops are spread over responses does not matter -----

  /** The response says nothing about names that the alias map does not say. */
  ghost predicate Agrees(packet: Packet, alias: map<Name, Name>) {
    Parse(packet).Some? ==>
      forall rr ::
        rr in Parse(packet).value.answers && rr.rtype == TYPE_CNAME && DecodeNameAt(packet, rr.rdataOff).Some? ==>
        rr.name in alias && alias[rr.name] == DecodeNameAt(packet, rr.rdataOff).value
  }

  /** The response has the alias of the name asked for, if there is one, and no address beside an alias. */
  ghost predicate Complete(packet: Packet, asked: Name, alias: map<Name, Name>) {
    Parse(packet).Some? ==>
      && (asked in alias ==>
            exists rr :: rr in Parse(packet).value.answers && rr.name == asked && rr.rtype == TYPE_CNAME)
      && (forall rr ::
            rr in Parse(packet).value.answers && rr.name in alias ==> rr.rtype != TYPE_A && rr.rtype != TYPE_AAAA)
  }

  ghost predicate EnvAgrees(env: Env, first: Packet, alias: map<Name, Name>) {
    && Agrees(first, alias)
    && forall k, n ::
      Encodable(n) && env.upstream(k, AQuery(n, 0)).Some? ==> Agrees(env.upstream(k, AQuery(n, 0)).value, alias)
  }

  ghost predicate EnvComplete(env: Env, qname: Name, first: Packet, alias: map<Name, Name>) {
    && Complete(first, qname, alias)
    && forall k, n ::
      Encodable(n) && env.upstream(k, AQuery(n, 0)).Some? ==> Complete(env.upstream(k, AQuery(n, 0)).value, n, alias)
  }

  /** A stretch of the orbit of its first name. */
  ghost predicate IsOrbit(alias: map<Name, Name>, chain: seq<Name>) {
    forall i :: 0 <= i < |chain| - 1 ==> chain[i] in alias && alias[chain[i]] == chain[i + 1]
  }

  lemma {:induction false} SeenAgrees(env: Env, first: Packet, alias: map<Name, Name>, asked: seq<Name>,
                                      names: seq<Name>, packet: Packet)
    requires EnvAgrees(env, first, alias) && Received(env, first, asked, names, packet)
    ensures Agrees(packet, alias)
  {
    hide Agrees, Split, AllLabels;
    if packet != first {
      var k :| 0 <= k < |asked| && asked[k] in names && AnsweredWith(env, k, asked[k], packet);
    }
  }

  /** However the hops were spread over responses, the chain is a prefix of the alias map's orbit. */
  lemma {:induction false} ChainIsOrbit(env: Env, qname: Name, first: Packet, alias: map<Name, Name>)
    requires EnvAgrees(env, first, alias)
    ensures var chain := UncloakName(env, qname, first).progress.chain;
      |chain| >= 1 && chain[0] == qname && IsOrbit(alias, chain)
  {
    hide Uncloak, ParseFull, DecodeNameAt, CrossingRecorded, Received, EnvAgrees;
    UncloakIsSound(env, qname, first);
    var chain, asked := UncloakName(env, qname, first).progress.chain, UncloakName(env, qname, first).asked;
    forall i | 0 <= i < |chain| - 1 ensures chain[i] in alias && alias[chain[i]] == chain[i + 1] {
      assert LinkReceived(env, first, chain, i, asked);
      var names := chain[..i + 1];
      var packet :| Received(env, first, asked, names, packet) && Links(packet, chain[i], chain[i + 1]);
      SeenAgrees(env, first, alias, asked, names, packet);
      var k :| 0 <= k < |Parse(packet).value.answers|
        && IsAlias(Parse(packet).value.answers[k], packet, chain[i], chain[i + 1]);
      assert Parse(packet).value.answers[k] in Parse(packet).value.answers;
    }
  }

  /** Where a walk that found an address, or nothing at all, stopped. */
  lemma {:induction false} WalkStops(packet: Packet, current: Name, turns: nat, asked: Name, alias: map<Name, Name>)
    requires Parse(packet).Some? && Complete(packet, asked, alias)
    requires var w := Walk(Parse(packet).value.answers, packet, current, turns);
      w.Walked? && (w.terminated || (turns > 0 && current == asked && w.hops == []))
    ensures var hops := Walk(Parse(packet).value.answers, packet, current, turns).hops;
      ([current] + hops)[|hops|] !in alias
    decreases turns
  {
    hide ParseFull, Scan, DecodeNameAt;
    var answers := Parse(packet).value.answers;
    ScanSays(answers, packet, current);
    var f := Scan(answers, packet, current);
    if f.Alias? {
      WalkStops(packet, f.target, turns - 1, asked, alias);
      var rest := Walk(answers, packet, f.target, turns - 1).hops;
      assert ([current] + ([f.target] + rest))[1 + |rest|] == ([f.target] + rest)[|rest|];
    }
  }

  lemma {:induction false} TakenChain(env: Env, p: Progress, hops: seq<Name>, asked: seq<Name>)
    requires p.chain != []
    ensures var t := TakeHops(env, p, hops, asked); t.Going? ==> t.progress.chain == p.chain + hops
    decreases |hops|
  {
    hide Match, EtldPlusOne;
    if hops == [] {
      assert p.chain + hops == p.chain;
    } else if hops[0] !in p.chain && |p.chain| < env.maxDepth && !Match(env.rules, hops[0]).blocked {
      TakenChain(env, Push(env, p, hops[0]), hops[1..], asked);
      assert p.chain + [hops[0]] + hops[1..] == p.chain + hops;
    }
  }

  lemma {:induction false} TakeHopsNeverClean(env: Env, p: Progress, hops: seq<Name>, asked: seq<Name>)
    requires p.chain != [] && TakeHops(env, p, hops, asked).Ended?
    ensures TakeHops(env, p, hops, asked).outcome.status != Clean
    decreases |hops|
  {
    hide Match, EtldPlusOne;
    if hops != [] && hops[0] !in p.chain && |p.chain| < env.maxDepth && !Match(env.rules, hops[0]).blocked {
      TakeHopsNeverClean(env, Push(env, p, hops[0]), hops[1..], asked);
    }
  }

  /** A run can only be clean if its first response was read, and every alias in it is unblocked. */
  lemma {:induction false} CleanFirstResponse(env: Env, qname: Name, first: Packet)
    requires UncloakName(env, qname, first).status == Clean
    ensures Parse(first).Some?
    ensures var w := WalkAnswers(Parse(first).value.answers, first, qname);
      w.Walked? && forall i :: 0 <= i < |w.hops| ==> !Match(env.rules, w.hops[i]).blocked
  {
    hide ParseFull, WalkAnswers, TakeHops, Match, SoundChain, Split, AllLabels;
    var p := Start(qname);
    var w := WalkAnswers(Parse(first).value.answers, first, qname);
    var taken := TakeHops(env, p, w.hops, []);
    if taken.Ended? {
      TakeHopsNeverClean(env, p, w.hops, []);
    } else {
      StartSound(env, qname, first);
      ResponseSound(env, qname, first, p, first, []);
      TakenChain(env, p, w.hops, []);
      assert forall i :: 0 <= i < |w.hops| ==> taken.progress.chain[i + 1] == w.hops[i];
    }
  }

  lemma {:induction false} StartSound(env: Env, qname: Name, first: Packet)
    ensures SoundChain(env, qname, first, Start(qname), []) && Unblocked(env, [qname], 1)
  {
  }

  /** If every response is complete, a clean run followed the chain to its end. */
  lemma {:induction false} CleanReachesEndFrom(env: Env, p: Progress, packet: Packet, asked: seq<Name>,
                                               alias: map<Name, Name>)
    requires p.chain != [] && Complete(packet, Last(p), alias)
    requires forall k, n ::
      Encodable(n) && env.upstream(k, AQuery(n, 0)).Some? ==> Complete(env.upstream(k, AQuery(n, 0)).value, n, alias)
    requires Uncloak(env, p, packet, asked).status == Clean
    ensures var q := Uncloak(env, p, packet, asked).progress; q.chain != [] && Last(q) !in alias
    decreases env.maxDepth - |p.chain|
  {
    hide ParseFull, TakeHops, Walk, Split, AllLabels, Complete;
    var answers := Parse(packet).value.answers;
    var w := WalkAnswers(answers, packet, Last(p));
    var taken := TakeHops(env, p, w.hops, asked);
    if taken.Ended? {
      TakeHopsNeverClean(env, p, w.hops, asked);
    } else {
      TakenChain(env, p, w.hops, asked);
      var q := taken.progress;
      if w.terminated || w.hops == [] {
        WalkStops(packet, Last(p), |answers| + 1, Last(p), alias);
        assert Last(q) == ([Last(p)] + w.hops)[|w.hops|];
      } else {
        CleanReachesEndFrom(env, q, env.upstream(|asked|, AQuery(Last(q), 0)).value, asked + [Last(q)], alias);
      }
    }
  }

  lemma {:induction false} CleanReachesEnd(env: Env, qname: Name, first: Packet, alias: map<Name, Name>)
    requires EnvComplete(env, qname, first, alias) && UncloakName(env, qname, first).status == Clean
    ensures var p := UncloakName(env, qname, first).progress; p.chain != [] && Last(p) !in alias
  {
    hide Uncloak, Complete;
    CleanReachesEndFrom(env, Start(qname), first, [], alias);
  }

  /** Two stretches of one orbit agree as far as both go. */
  lemma {:induction false} OrbitsAgree(alias: map<Name, Name>, c: seq<Name>, d: seq<Name>, i: nat)
    requires IsOrbit(alias, c) && IsOrbit(alias, d) && i < |c| && i < |d| && c[0] == d[0]
    ensures c[i] == d[i]
  {
    if i > 0 { OrbitsAgree(alias, c, d, i - 1); }
  }

  /** A run that did not abort is at least as long as any run over the same orbit. */
  lemma {:induction false} FinishedIsLongest(env: Env, other: Env, qname: Name, first: Packet, first': Packet,
                                             alias: map<Name, Name>)
    requires env.rules == other.rules
    requires EnvAgrees(env, first, alias) && EnvAgrees(other, first', alias) && EnvComplete(env, qname, first, alias)
    requires UncloakName(env, qname, first).status != Aborted
    ensures |UncloakName(other, qname, first').progress.chain| <= |UncloakName(env, qname, first).progress.chain|
  {
    hide Uncloak, EnvAgrees, EnvComplete, Match, CrossingRecorded, LinkReceived;
    var o, o' := UncloakName(env, qname, first), UncloakName(other, qname, first');
    var c, d := o.progress.chain, o'.progress.chain;
    ChainIsOrbit(env, qname, first, alias);
    ChainIsOrbit(other, qname, first', alias);
    UncloakIsSound(env, qname, first);
    UncloakIsSound(other, qname, first');
    var n := |c| - 1;
    if |c| < |d| {
      OrbitsAgree(alias, c, d, n);
      assert d[n] in alias;
      if o.status == Clean { CleanReachesEnd(env, qname, first, alias); }
    }
  }

  /** Two runs that finish: upstreams that describe the same aliases, each complete for the names it is asked
      about but perhaps unresponsive to others, lead to the same verdict, chain and crossing however many hops each
      response carries. */
  lemma {:induction false} FinishedRunsAgree(env: Env, other: Env, qname: Name, first: Packet, first': Packet,
                                             alias: map<Name, Name>)
    requires env.rules == other.rules && env.table == other.table
    requires EnvAgrees(env, first, alias) && EnvAgrees(other, first', alias)
    requires EnvComplete(env, qname, first, alias) && EnvComplete(other, qname, first', alias)
    requires UncloakName(env, qname, first).status != Aborted && UncloakName(other, qname, first').status != Aborted
    ensures var o, o' := UncloakName(env, qname, first), UncloakName(other, qname, first');
      o.status == o'.status && o.hit == o'.hit && o.progress == o'.progress
  {
    hide Uncloak, EnvAgrees, EnvComplete, Match, LinkReceived, EtldPlusOne;
    var o, o' := UncloakName(env, qname, first), UncloakName(other, qname, first');
    var c, d := o.progress.chain, o'.progress.chain;
    FinishedIsLongest(env, other, qname, first, first', alias);
    FinishedIsLongest(other, env, qname, first', first, alias);
    ChainIsOrbit(env, qname, first, alias);
    ChainIsOrbit(other, qname, first', alias);
    assert c == d by {
      forall i | 0 <= i < |c| ensures c[i] == d[i] { OrbitsAgree(alias, c, d, i); }
    }
    UncloakIsSound(env, qname, first);
    UncloakIsSound(other, qname, first');
    SameCrossing(env, other, o.progress, o'.progress);
  }

  /** The crossing record is a function of the chain. */
  lemma {:induction false} SameCrossing(env: Env, other: Env, p: Progress, q: Progress)
    requires env.table == other.table && p.chain == q.chain && p.chain != []
    requires CrossingRecorded(env, p) && CrossingRecorded(other, q)
    ensures p == q
  {
    hide EtldPlusOne;
    assert forall i ::
      1 <= i < |p.chain| ==> Crosses(env, p.chain[0], p.chain[i]) == Crosses(other, q.chain[0], q.chain[i]);
    if p.crossed {
      var i :| 1 <= i < |p.chain| && Crosses(env, p.chain[0], p.chain[i])
        && p.crossedTo == EtldPlusOne(env.table, p.chain[i])
        && forall j :: 1 <= j < i ==> !Crosses(env, p.chain[0], p.chain[j]);
      assert Crosses(other, q.chain[0], q.chain[i]);
      var k :| 1 <= k < |q.chain| && Crosses(other, q.chain[0], q.chain[k])
        && q.crossedTo == EtldPlusOne(other.table, q.chain[k])
        && forall j :: 1 <= j < k ==> !Crosses(other, q.chain[0], q.chain[j]);
      assert i == k;
    }
  }

  // ----- and the verdict is reached -----

  /** The response parses and every alias target in it decodes. */
  ghost predicate Readable(packet: Packet) {
    && Parse(packet).Some?
    && forall rr ::
      rr in Parse(packet).value.answers && rr.rtype == TYPE_CNAME ==> DecodeNameAt(packet, rr.rdataOff).Some?
  }

  /** Every question about these names is answered readably. */
  ghost predicate Responsive(env: Env, first: Packet, names: seq<Name>) {
    && Readable(first)
    && forall k, n ::
      n in names && Encodable(n) ==>
        env.upstream(k, AQuery(n, 0)).Some? && Readable(env.upstream(k, AQuery(n, 0)).value)
  }

  /** The aliases lead from the name through these names, and then nowhere or back among them. */
  ghost predicate IsWholeOrbit(qname: Name, alias: map<Name, Name>, orbit: seq<Name>) {
    && orbit != [] && orbit[0] == qname && Distinct(orbit) && IsOrbit(alias, orbit)
    && (!Ends(alias, orbit) ==> alias[orbit[|orbit| - 1]] in orbit)
  }

  predicate Ends(alias: map<Name, Name>, orbit: seq<Name>)
    requires orbit != []
  {
    orbit[|orbit| - 1] !in alias
  }

  /** Every name has such an orbit under every alias map. */
  lemma {:induction false} WholeOrbitExists(qname: Name, alias: map<Name, Name>) returns (orbit: seq<Name>)
    ensures IsWholeOrbit(qname, alias, orbit)
  {
    orbit := GrowOrbit(qname, alias, [qname]);
  }

  lemma {:induction false} GrowOrbit(qname: Name, alias: map<Name, Name>, sofar: seq<Name>) returns (orbit: seq<Name>)
    requires sofar != [] && sofar[0] == qname && Distinct(sofar) && IsOrbit(alias, sofar)
    ensures IsWholeOrbit(qname, alias, orbit)
    decreases |alias.Keys - Elements(sofar[..|sofar| - 1])|
  {
    var last := sofar[|sofar| - 1];
    orbit := sofar;
    if last in alias && alias[last] !in sofar {
      var more := sofar + [alias[last]];
      assert more[..|more| - 1] == sofar;
      FewerLeft(alias.Keys, sofar);
      GrownOrbit(alias, sofar);
      hide Distinct, IsOrbit, Elements;
      orbit := GrowOrbit(qname, alias, more);
    }
  }

  lemma {:induction false} GrownOrbit(alias: map<Name, Name>, sofar: seq<Name>)
    requires sofar != [] && Distinct(sofar) && IsOrbit(alias, sofar) && sofar[|sofar| - 1] in alias
    requires alias[sofar[|sofar| - 1]] !in sofar
    ensures Distinct(sofar + [alias[sofar[|sofar| - 1]]]) && IsOrbit(alias, sofar + [alias[sofar[|sofar| - 1]]])
  {
  }

  lemma {:induction false} FewerLeft(keys: set<Name>, s: seq<Name>)
    requires s != [] && Distinct(s) && s[|s| - 1] in keys
    ensures |keys - Elements(s)| < |keys - Elements(s[..|s| - 1])|
  {
    var last, before := s[|s| - 1], keys - Elements(s[..|s| - 1]);
    assert s == s[..|s| - 1] + [last];
    assert last !in s[..|s| - 1];
    assert keys - Elements(s) == before - {last};
  }

  /** Every name but the first can be put in a re-query. */
  ghost predicate CanBeAsked(orbit: seq<Name>) { forall i :: 1 <= i < |orbit| ==> Encodable(orbit[i]) }

  /** Upstream describes these aliases and is as helpful as it can be: every answer is readable, says nothing else,
      and has the alias of the name asked for. */
  ghost predicate Cooperates(env: Env, qname: Name, first: Packet, alias: map<Name, Name>, orbit: seq<Name>) {
    && IsWholeOrbit(qname, alias, orbit) && CanBeAsked(orbit) && Responsive(env, first, orbit)
    && EnvAgrees(env, first, alias) && EnvComplete(env, qname, first, alias)
  }

  /** Walking a readable response that agrees with the aliases follows them. */
  lemma {:induction false} WalkFollows(packet: Packet, current: Name, turns: nat, alias: map<Name, Name>)
    requires Readable(packet) && Agrees(packet, alias)
    ensures var w := Walk(Parse(packet).value.answers, packet, current, turns);
      w.Walked? && IsOrbit(alias, [current] + w.hops)
    decreases turns
  {
    hide ParseFull, Scan, DecodeNameAt;
    var answers := Parse(packet).value.answers;
    var f := Scan(answers, packet, current);
    ScanSays(answers, packet, current);
    if turns > 0 && f.Alias? {
      var k := AliasRecord(answers, packet, current);
      assert answers[k] in answers;
      WalkFollows(packet, f.target, turns - 1, alias);
      var rest := Walk(answers, packet, f.target, turns - 1).hops;
      assert forall i :: 1 <= i < 2 + |rest| ==> ([current] + ([f.target] + rest))[i] == ([f.target] + rest)[i - 1];
    }
  }

  /** The chain can go no further: it is as long as the depth limit allows and more follows or has been added, or
      it has all of an orbit that comes back to itself. */
  ghost predicate Spent(env: Env, alias: map<Name, Name>, orbit: seq<Name>, chain: seq<Name>) {
    && chain != []
    && (|| (|chain| >= env.maxDepth && (|chain| >= 2 || chain[|chain| - 1] in alias))
        || (chain == orbit && chain[|chain| - 1] in alias))
  }

  /** The hops of an orbit are taken in order; only the blocklist stops them before the chain is spent. */
  lemma {:induction false} OrbitIsTaken(env: Env, p: Progress, hops: seq<Name>, asked: seq<Name>,
                                        alias: map<Name, Name>, orbit: seq<Name>)
    requires orbit != [] && IsWholeOrbit(orbit[0], alias, orbit) && p.chain != [] && p.chain <= orbit
    requires IsOrbit(alias, [Last(p)] + hops)
    ensures match TakeHops(env, p, hops, asked)
      case Ended(o) => o.status == Blocked || (o.status == Aborted && Spent(env, alias, orbit, o.progress.chain))
      case Going(q) => q.chain <= orbit
    decreases |hops|
  {
    hide Match, EtldPlusOne;
    if hops != [] {
      var n := |p.chain|;
      assert ([Last(p)] + hops)[0] == orbit[n - 1] && ([Last(p)] + hops)[1] == hops[0];
      assert hops[0] == alias[orbit[n - 1]];
      if n < |orbit| {
        assert hops[0] == orbit[n] && hops[0] !in p.chain;
        var next := Push(env, p, hops[0]);
        assert next.chain == orbit[..n + 1];
        assert forall i :: 0 <= i < |hops| ==> ([Last(next)] + hops[1..])[i] == ([Last(p)] + hops)[i + 1];
        OrbitIsTaken(env, next, hops[1..], asked, alias, orbit);
      } else {
        assert p.chain == orbit;
      }
    }
  }

  /** A run against a cooperative upstream aborts only when its chain is spent. */
  lemma {:induction false} AbortedIsSpent(env: Env, p: Progress, packet: Packet, asked: seq<Name>,
                                          alias: map<Name, Name>, orbit: seq<Name>)
    requires orbit != [] && IsWholeOrbit(orbit[0], alias, orbit) && CanBeAsked(orbit)
    requires Readable(packet) && Agrees(packet, alias) && p.chain != [] && p.chain <= orbit
    requires forall k, n ::
      n in orbit && Encodable(n) ==>
        env.upstream(k, AQuery(n, 0)).Some? && Readable(env.upstream(k, AQuery(n, 0)).value)
    requires forall k, n ::
      Encodable(n) && env.upstream(k, AQuery(n, 0)).Some? ==> Agrees(env.upstream(k, AQuery(n, 0)).value, alias)
    ensures var o := Uncloak(env, p, packet, asked);
      o.status == Aborted ==> Spent(env, alias, orbit, o.progress.chain)
    decreases env.maxDepth - |p.chain|
  {
    hide ParseFull, Walk, TakeHops, Split, AllLabels, Readable, Agrees, IsWholeOrbit;
    ReadableParses(packet);
    var answers := Parse(packet).value.answers;
    WalkFollows(packet, Last(p), |answers| + 1, alias);
    var w := WalkAnswers(answers, packet, Last(p));
    OrbitIsTaken(env, p, w.hops, asked, alias, orbit);
    var taken := TakeHops(env, p, w.hops, asked);
    if taken.Going? && !w.terminated && w.hops != [] {
      var q := taken.progress;
      TakenChain(env, p, w.hops, asked);
      assert Last(q) == orbit[|q.chain| - 1] && |q.chain| >= 2;
      if |q.chain| < env.maxDepth {
        var answer := env.upstream(|asked|, AQuery(Last(q), 0));
        AbortedIsSpent(env, q, answer.value, asked + [Last(q)], alias, orbit);
      }
    }
  }

  lemma {:induction false} ReadableParses(packet: Packet)
    requires Readable(packet)
    ensures Parse(packet).Some?
  {
  }

  /** What follows the whole orbit has been there before. */
  lemma {:induction false} LongerRepeats(qname: Name, alias: map<Name, Name>, chain: seq<Name>, orbit: seq<Name>)
    requires IsWholeOrbit(qname, alias, orbit) && |chain| > |orbit| && chain[0] == qname && IsOrbit(alias, chain)
    ensures !Distinct(chain)
  {
    var n := |orbit|;
    OrbitsAgree(alias, chain, orbit, n - 1);
    assert chain[n] == alias[orbit[n - 1]];
    var j :| 0 <= j < n && orbit[j] == chain[n];
    OrbitsAgree(alias, chain, orbit, j);
  }

  /** A stretch of distinct names of an orbit is a prefix of the whole of it. */
  lemma {:induction false} OrbitPrefix(qname: Name, alias: map<Name, Name>, chain: seq<Name>, orbit: seq<Name>)
    requires IsWholeOrbit(qname, alias, orbit)
    requires chain != [] && chain[0] == qname && Distinct(chain) && IsOrbit(alias, chain)
    ensures chain <= orbit && (chain[|chain| - 1] !in alias ==> chain == orbit)
  {
    var n := |orbit|;
    forall i | 0 <= i < |chain| && i < n ensures chain[i] == orbit[i] { OrbitsAgree(alias, chain, orbit, i); }
    if |chain| > n {
      LongerRepeats(qname, alias, chain, orbit);
    } else if |chain| < n {
      assert chain[|chain| - 1] == orbit[|chain| - 1];
    }
  }

  /** How many names of the orbit a run looks at, if none is blocked. */
  function Reach(env: Env, orbit: seq<Name>): (n: nat)
    requires orbit != []
    ensures 1 <= n <= |orbit|
  {
    if env.maxDepth <= 1 then 1 else if |orbit| < env.maxDepth then |orbit| else env.maxDepth
  }

  /** One of the names looked at, beyond the first, is blocked. */
  ghost predicate MeetsBlocked(env: Env, orbit: seq<Name>)
    requires orbit != []
  {
    exists i :: 1 <= i < Reach(env, orbit) && Match(env.rules, orbit[i]).blocked
  }

  /** The orbit has an end, and it is the last name the depth limit lets in. */
  predicate AtLimit(env: Env, alias: map<Name, Name>, orbit: seq<Name>)
    requires orbit != []
  {
    Ends(alias, orbit) && |orbit| == env.maxDepth && env.maxDepth > 1
  }

  /** The chain of a run against a cooperative upstream. */
  lemma {:induction false} CooperativeChain(env: Env, qname: Name, first: Packet, alias: map<Name, Name>,
                                            orbit: seq<Name>)
    requires Cooperates(env, qname, first, alias, orbit)
    ensures var o := UncloakName(env, qname, first); var chain := o.progress.chain;
      && chain != [] && chain <= orbit && |chain| <= Reach(env, orbit)
      && (o.status != Blocked ==> |chain| == Reach(env, orbit))
      && (o.status == Clean ==> Ends(alias, orbit) && chain == orbit)
      && (o.status == Aborted ==> Spent(env, alias, orbit, chain))
  {
    hide Uncloak, Match, Readable, Agrees, EnvComplete, CrossingRecorded, LinkReceived, Split, AllLabels;
    var o := UncloakName(env, qname, first);
    var chain := o.progress.chain;
    UncloakIsSound(env, qname, first);
    ChainIsOrbit(env, qname, first, alias);
    OrbitPrefix(qname, alias, chain, orbit);
    AbortedIsSpent(env, Start(qname), first, [], alias, orbit);
    if o.status == Clean { CleanReachesEnd(env, qname, first, alias); }
  }

  /** Against an upstream that answers readably, completely and in agreement with one alias map, the verdict is
      determined by the orbit of the name and the depth limit, except for an orbit that ends just at the limit.
      The run is blocked exactly if a name within reach is, at the first such name. Otherwise the chain is the
      part within reach, and the run is clean if the orbit ends before the limit and aborted if it goes past it or
      comes back to itself. */
  lemma {:induction false} VerdictIsRight(env: Env, qname: Name, first: Packet, alias: map<Name, Name>,
                                          orbit: seq<Name>)
    requires Cooperates(env, qname, first, alias, orbit)
    ensures var o := UncloakName(env, qname, first); var chain := o.progress.chain;
      && chain != [] && chain <= orbit
      && (o.status == Blocked <==> MeetsBlocked(env, orbit))
      && (o.status == Blocked ==> Match(env.rules, chain[|chain| - 1]).blocked)
      && (o.status == Blocked ==> forall i :: 1 <= i < |chain| - 1 ==> !Match(env.rules, orbit[i]).blocked)
      && (!MeetsBlocked(env, orbit) ==> chain == orbit[..Reach(env, orbit)])
      && (!MeetsBlocked(env, orbit) && !AtLimit(env, alias, orbit) ==>
            (o.status == Clean <==> Ends(alias, orbit) && (|orbit| == 1 || |orbit| < env.maxDepth)))
  {
    hide Uncloak, Match, Cooperates, CrossingRecorded, LinkReceived;
    UncloakIsSound(env, qname, first);
    CooperativeChain(env, qname, first, alias, orbit);
    var o := UncloakName(env, qname, first);
    var chain := o.progress.chain;
    assert forall i :: 0 <= i < |chain| ==> chain[i] == orbit[i];
    if o.status == Blocked { assert Match(env.rules, orbit[|chain| - 1]).blocked; }
  }

  // ----- a chain that ends at the depth limit -----

  /** The response has an address of the name. */
  ghost predicate ShowsAddress(packet: Packet, name: Name) {
    Parse(packet).Some? && exists rr :: rr in Parse(packet).value.answers && rr.name == name && IsAddressRecord(rr)
  }

  predicate IsAddressRecord(rr: Record) { rr.rtype == TYPE_A || rr.rtype == TYPE_AAAA }

  /** The last response a run looked at, if it began with this packet after `before` re-queries. */
  function LastSeen(env: Env, packet: Packet, before: nat, asked: seq<Name>): Option<Packet> {
    if |asked| <= before then Some(packet)
    else if !Encodable(asked[|asked| - 1]) then None
    else env.upstream(|asked| - 1, AQuery(asked[|asked| - 1], 0))
  }

  /** That response has an address of the name. */
  ghost predicate EndsWithAddress(env: Env, first: Packet, asked: seq<Name>, name: Name) {
    LastSeen(env, first, 0, asked).Some? && ShowsAddress(LastSeen(env, first, 0, asked).value, name)
  }

  /** An orbit with an end that is within the limit is taken whole, unless it is blocked. */
  lemma {:induction false} EndedOrbitIsTaken(env: Env, p: Progress, hops: seq<Name>, asked: seq<Name>,
                                             alias: map<Name, Name>, orbit: seq<Name>)
    requires orbit != [] && Distinct(orbit) && IsOrbit(alias, orbit) && Ends(alias, orbit) && |orbit| <= env.maxDepth
    requires p.chain != [] && p.chain <= orbit && IsOrbit(alias, [Last(p)] + hops)
    ensures var t := TakeHops(env, p, hops, asked); t.Going? || t.outcome.status == Blocked
    decreases |hops|
  {
    hide Match, EtldPlusOne;
    if hops != [] {
      var n := |p.chain|;
      assert ([Last(p)] + hops)[0] == orbit[n - 1] && ([Last(p)] + hops)[1] == hops[0];
      assert n < |orbit| && hops[0] == alias[orbit[n - 1]] == orbit[n];
      var next := Push(env, p, hops[0]);
      assert next.chain == orbit[..n + 1];
      assert forall i :: 0 <= i < |hops| ==> ([Last(next)] + hops[1..])[i] == ([Last(p)] + hops)[i + 1];
      EndedOrbitIsTaken(env, next, hops[1..], asked, alias, orbit);
    }
  }

  /** A walk that stops before its turns are used up is at an address exactly if the scan finds one there. */
  lemma {:induction false} WalkTerminates(answers: seq<Record>, packet: Packet, current: Name, turns: nat)
    requires Walk(answers, packet, current, turns).Walked? && |Walk(answers, packet, current, turns).hops| < turns
    ensures var w := Walk(answers, packet, current, turns);
      w.terminated <==> Scan(answers, packet, ([current] + w.hops)[|w.hops|]) == Address
    decreases turns
  {
    hide Scan;
    var f := Scan(answers, packet, current);
    if f.Alias? {
      WalkTerminates(answers, packet, f.target, turns - 1);
      var rest := Walk(answers, packet, f.target, turns - 1).hops;
      assert ([current] + ([f.target] + rest))[1 + |rest|] == ([f.target] + rest)[|rest|];
    }
  }

  /** Where the aliases end, a readable response scans as an address exactly if it shows one. */
  lemma {:induction false} EndScan(packet: Packet, name: Name, alias: map<Name, Name>)
    requires Readable(packet) && Agrees(packet, alias) && name !in alias
    ensures Parse(packet).Some?
      && (Scan(Parse(packet).value.answers, packet, name) == Address <==> ShowsAddress(packet, name))
  {
    hide ParseFull, DecodeNameAt, Scan;
    ScanSays(Parse(packet).value.answers, packet, name);
  }

  /** One response against a cooperative upstream, seen from a chain that is short of the limit, if the orbit ends
      just there: when it completes the chain, the verdict is whether it shows the address. */
  lemma {:induction false} LastStretch(packet: Packet, p: Progress, alias: map<Name, Name>, orbit: seq<Name>)
    requires orbit != [] && Distinct(orbit) && IsOrbit(alias, orbit) && Ends(alias, orbit)
    requires Readable(packet) && Agrees(packet, alias) && Parse(packet).Some? && p.chain != []
    requires var w := WalkAnswers(Parse(packet).value.answers, packet, Last(p)); w.Walked? && p.chain + w.hops == orbit
    ensures var w := WalkAnswers(Parse(packet).value.answers, packet, Last(p));
      w.terminated <==> ShowsAddress(packet, orbit[|orbit| - 1])
  {
    hide ParseFull, Walk, Scan, Readable, Agrees, ShowsAddress;
    var answers := Parse(packet).value.answers;
    var hops := WalkAnswers(answers, packet, Last(p)).hops;
    var all, n := [Last(p)] + hops, |p.chain|;
    assert forall i :: 0 <= i < |all| ==> all[i] == orbit[n - 1 + i];
    WalkLength(answers, packet, Last(p), |answers| + 1);
    if |hops| == |answers| + 1 { CappedWalkRepeats(answers, packet, Last(p)); }
    WalkTerminates(answers, packet, Last(p), |answers| + 1);
    EndScan(packet, orbit[|orbit| - 1], alias);
  }

  lemma {:induction false} WalkLength(answers: seq<Record>, packet: Packet, current: Name, turns: nat)
    ensures var w := Walk(answers, packet, current, turns); w.Walked? ==> |w.hops| <= turns
    decreases turns
  {
    hide Scan;
    if turns > 0 && Scan(answers, packet, current).Alias? {
      WalkLength(answers, packet, Scan(answers, packet, current).target, turns - 1);
    }
  }

  lemma {:induction false} AtLimitFrom(env: Env, p: Progress, packet: Packet, asked: seq<Name>,
                                       alias: map<Name, Name>, orbit: seq<Name>)
    requires orbit != [] && Distinct(orbit) && IsOrbit(alias, orbit) && Ends(alias, orbit) && CanBeAsked(orbit)
    requires |orbit| == env.maxDepth && p.chain != [] && p.chain <= orbit && |p.chain| < env.maxDepth
    requires Readable(packet) && Agrees(packet, alias) && Complete(packet, Last(p), alias)
    requires forall k, n ::
      n in orbit && Encodable(n) ==>
        env.upstream(k, AQuery(n, 0)).Some? && Readable(env.upstream(k, AQuery(n, 0)).value)
    requires forall k, n ::
      Encodable(n) && env.upstream(k, AQuery(n, 0)).Some? ==>
        Agrees(env.upstream(k, AQuery(n, 0)).value, alias) && Complete(env.upstream(k, AQuery(n, 0)).value, n, alias)
    requires Uncloak(env, p, packet, asked).status != Blocked
    ensures var o := Uncloak(env, p, packet, asked);
      && asked <= o.asked
      && LastSeen(env, packet, |asked|, o.asked).Some?
      && (o.status == Clean <==>
            ShowsAddress(LastSeen(env, packet, |asked|, o.asked).value, orbit[|orbit| - 1]))
    decreases env.maxDepth - |p.chain|
  {
    hide ParseFull, Walk, TakeHops, Split, AllLabels, Readable, Agrees, Complete, ShowsAddress;
    ReadableParses(packet);
    var answers := Parse(packet).value.answers;
    WalkFollows(packet, Last(p), |answers| + 1, alias);
    var w := WalkAnswers(answers, packet, Last(p));
    EndedOrbitIsTaken(env, p, w.hops, asked, alias, orbit);
    TakenChain(env, p, w.hops, asked);
    var q := TakeHops(env, p, w.hops, asked).progress;
    OrbitGrown(p, w.hops, alias, orbit);
    if w.terminated || w.hops == [] {
      WalkStops(packet, Last(p), |answers| + 1, Last(p), alias);
      assert ([Last(p)] + w.hops)[|w.hops|] == q.chain[|q.chain| - 1] == orbit[|q.chain| - 1];
      assert q.chain == orbit;
      LastStretch(packet, p, alias, orbit);
    } else if |q.chain| >= env.maxDepth {
      assert q.chain == orbit;
      LastStretch(packet, p, alias, orbit);
    } else {
      var answer := env.upstream(|asked|, AQuery(Last(q), 0));
      AtLimitFrom(env, q, answer.value, asked + [Last(q)], alias, orbit);
    }
  }

  /** Following the aliases from a stretch of the orbit gives a longer one. */
  lemma {:induction false} OrbitGrown(p: Progress, hops: seq<Name>, alias: map<Name, Name>, orbit: seq<Name>)
    requires orbit != [] && Distinct(orbit) && IsOrbit(alias, orbit) && Ends(alias, orbit)
    requires p.chain != [] && p.chain <= orbit && IsOrbit(alias, [Last(p)] + hops)
    ensures p.chain + hops <= orbit
    decreases |hops|
  {
    if hops == [] {
      assert p.chain + hops == p.chain;
    } else {
      var n := |p.chain|;
      assert ([Last(p)] + hops)[0] == orbit[n - 1] && ([Last(p)] + hops)[1] == hops[0];
      assert n < |orbit| && hops[0] == orbit[n];
      var next := p.(chain := p.chain + [hops[0]]);
      assert next.chain == orbit[..n + 1];
      assert forall i :: 0 <= i < |hops| ==> ([Last(next)] + hops[1..])[i] == ([Last(p)] + hops)[i + 1];
      OrbitGrown(next, hops[1..], alias, orbit);
      assert p.chain + [hops[0]] + hops[1..] == p.chain + hops;
    }
  }

  /** An unblocked orbit that ends just at the depth limit: the run is clean exactly if the last response it looked
      at shows an address of the last name. */
  lemma {:induction false} VerdictAtLimit(env: Env, qname: Name, first: Packet, alias: map<Name, Name>,
                                          orbit: seq<Name>)
    requires Cooperates(env, qname, first, alias, orbit) && AtLimit(env, alias, orbit) && !MeetsBlocked(env, orbit)
    ensures var o := UncloakName(env, qname, first);
      o.status != Blocked && (o.status == Clean <==> EndsWithAddress(env, first, o.asked, orbit[|orbit| - 1]))
  {
    hide Uncloak, Match, Readable, Agrees, Complete, ShowsAddress, Split, AllLabels, MeetsBlocked;
    VerdictIsRight(env, qname, first, alias, orbit);
    AtLimitFrom(env, Start(qname), first, [], alias, orbit);
  }

  /** Batching independence: two upstreams that describe the same aliases cooperatively lead to the same chain,
      crossing and blocking rule in every case, and to the same verdict in every case but one. How the hops are
      spread over responses matters only for an unblocked orbit that ends just at the depth limit, and then only
      through whether the last response looked at shows an address of the last name. */
  lemma {:induction false} BatchingIndependence(env: Env, other: Env, qname: Name, first: Packet, first': Packet,
                                                alias: map<Name, Name>, orbit: seq<Name>)
    requires env.rules == other.rules && env.table == other.table && env.maxDepth == other.maxDepth
    requires Cooperates(env, qname, first, alias, orbit) && Cooperates(other, qname, first', alias, orbit)
    ensures var o, o' := UncloakName(env, qname, first), UncloakName(other, qname, first');
      && o.progress == o'.progress && o.hit == o'.hit
      && (o.status == o'.status <==>
            (AtLimit(env, alias, orbit) && !MeetsBlocked(env, orbit) ==>
               (EndsWithAddress(env, first, o.asked, orbit[|orbit| - 1]) <==>
                EndsWithAddress(other, first', o'.asked, orbit[|orbit| - 1]))))
  {
    hide Uncloak, Match, Cooperates, LinkReceived, EtldPlusOne, CrossingRecorded, EndsWithAddress;
    var o, o' := UncloakName(env, qname, first), UncloakName(other, qname, first');
    UncloakIsSound(env, qname, first);
    UncloakIsSound(other, qname, first');
    VerdictIsRight(env, qname, first, alias, orbit);
    VerdictIsRight(other, qname, first', alias, orbit);
    if AtLimit(env, alias, orbit) && !MeetsBlocked(env, orbit) {
      VerdictAtLimit(env, qname, first, alias, orbit);
      VerdictAtLimit(other, qname, first', alias, orbit);
    }
    var c, d := o.progress.chain, o'.progress.chain;
    if o.status == Blocked {
      assert c[|c| - 1] == orbit[|c| - 1] && d[|d| - 1] == orbit[|d| - 1];
      assert |c| == |d|;
    }
    assert c == d;
    SameCrossing(env, other, o.progress, o'.progress);
  }

  // ----- why a run stops -----

  /** What the reason given for aborting means, of the chain and the last response looked at. */
  ghost predicate Because(env: Env, packet: Packet, before: nat, o: Outcome) {
    var last, c := LastSeen(env, packet, before, o.asked), o.progress.chain;
    && c != []
    && match o.reason
       case NoReason => true
       case BadPacket => last.Some? && Parse(last.value).None?
       case BadTarget => last.Some? && !Readable(last.value) && Parse(last.value).Some?
       case Loop => last.Some? && exists n :: n in c && Links(last.value, c[|c| - 1], n)
       case DepthLimit => |c| >= env.maxDepth
       case CannotEncode => !Encodable(c[|c| - 1])
       case RequeryFailed => last.None? && |o.asked| > before && o.asked[|o.asked| - 1] == c[|c| - 1]
  }

  /** The hops follow the aliases of the packet. */
  ghost predicate Linked(packet: Packet, current: Name, hops: seq<Name>) {
    forall i :: 0 <= i < |hops| ==> Links(packet, ([current] + hops)[i], hops[i])
  }

  lemma {:induction false} HopsStopBecause(env: Env, p: Progress, hops: seq<Name>, asked: seq<Name>, packet: Packet)
    requires p.chain != [] && Linked(packet, Last(p), hops)
    ensures var t := TakeHops(env, p, hops, asked);
      t.Ended? ==> t.outcome.asked == asked && Because(env, packet, |asked|, t.outcome)
    decreases |hops|
  {
    hide Match, EtldPlusOne, Links, Readable;
    if hops != [] {
      assert Links(packet, ([Last(p)] + hops)[0], hops[0]);
      if hops[0] !in p.chain && |p.chain| < env.maxDepth {
        var next := Push(env, p, hops[0]);
        forall i | 0 <= i < |hops| - 1 ensures Links(packet, ([Last(next)] + hops[1..])[i], hops[1..][i]) {
          assert Links(packet, ([Last(p)] + hops)[i + 1], hops[i + 1]);
        }
        HopsStopBecause(env, next, hops[1..], asked, packet);
      }
    }
  }

  lemma {:induction false} UnreadableWalk(answers: seq<Record>, packet: Packet, current: Name, turns: nat)
    requires Walk(answers, packet, current, turns).Unreadable?
    ensures exists rr :: rr in answers && rr.rtype == TYPE_CNAME && DecodeNameAt(packet, rr.rdataOff).None?
    decreases turns
  {
    hide DecodeNameAt, Scan;
    ScanSays(answers, packet, current);
    var f := Scan(answers, packet, current);
    if f.Alias? { UnreadableWalk(answers, packet, f.target, turns - 1); }
  }

  lemma {:induction false} UnreadablePacket(packet: Packet, current: Name)
    requires Parse(packet).Some? && WalkAnswers(Parse(packet).value.answers, packet, current).Unreadable?
    ensures !Readable(packet)
  {
    hide ParseFull, Walk, DecodeNameAt;
    var answers := Parse(packet).value.answers;
    UnreadableWalk(answers, packet, current, |answers| + 1);
  }

  lemma {:induction false} WalkIsLinked(packet: Packet, current: Name)
    requires Parse(packet).Some? && WalkAnswers(Parse(packet).value.answers, packet, current).Walked?
    ensures Linked(packet, current, WalkAnswers(Parse(packet).value.answers, packet, current).hops)
  {
    hide ParseFull, WalkAnswers, Links;
    var hops := WalkAnswers(Parse(packet).value.answers, packet, current).hops;
    forall i: nat | i < |hops| ensures Links(packet, ([current] + hops)[i], hops[i]) {
      WalkAnswersLinks(packet, current, i);
    }
  }

  lemma {:induction false} StopsBecause(env: Env, p: Progress, packet: Packet, asked: seq<Name>)
    requires p.chain != []
    ensures var o := Uncloak(env, p, packet, asked); asked <= o.asked && Because(env, packet, |asked|, o)
    decreases env.maxDepth - |p.chain|
  {
    hide ParseFull, WalkAnswers, TakeHops, Split, AllLabels, Links, Readable;
    if Parse(packet).Some? {
      var answers := Parse(packet).value.answers;
      var w := WalkAnswers(answers, packet, Last(p));
      if w.Unreadable? {
        UnreadablePacket(packet, Last(p));
      } else {
        WalkIsLinked(packet, Last(p));
        HopsStopBecause(env, p, w.hops, asked, packet);
        TakenChain(env, p, w.hops, asked);
        var t := TakeHops(env, p, w.hops, asked);
        if t.Going? && !w.terminated && w.hops != [] && |t.progress.chain| < env.maxDepth
          && Encodable(Last(t.progress)) {
          var q := t.progress;
          var answer := env.upstream(|asked|, AQuery(Last(q), 0));
          if answer.Some? {
            StopsBecause(env, q, answer.value, asked + [Last(q)]);
            LaterSeen(env, packet, answer.value, asked, q, Uncloak(env, q, answer.value, asked + [Last(q)]));
          }
        }
      }
    }
  }

  /** The answer to the re-query is what the rest of the run begins with. */
  lemma {:induction false} LaterSeen(env: Env, packet: Packet, answer: Packet, asked: seq<Name>, q: Progress,
                                     o: Outcome)
    requires q.chain != [] && Encodable(Last(q)) && env.upstream(|asked|, AQuery(Last(q), 0)) == Some(answer)
    requires asked + [Last(q)] <= o.asked && Because(env, answer, |asked| + 1, o)
    ensures asked <= o.asked && Because(env, packet, |asked|, o)
  {
    hide ParseFull, Links, Readable, Encodable;
    assert o.asked[|asked|] == (asked + [Last(q)])[|asked|] == Last(q);
    assert LastSeen(env, packet, |asked|, o.asked) == LastSeen(env, answer, |asked| + 1, o.asked);
  }

  /** Every run against every upstream: the reason it gives for aborting is true. */
  lemma {:induction false} ReasonIsTrue(env: Env, qname: Name, first: Packet)
    ensures Because(env, first, 0, UncloakName(env, qname, first))
  {
    hide Uncloak, Because;
    StopsBecause(env, Start(qname), first, []);
  }

  // ----- at the limit it does matter -----

  const TARGET: Name := [98]

  /** q is an alias of b. */
  const ALIAS := Record(SAMPLE_NAME, TYPE_CNAME, 1, 60, 31, [1, 98, 0])

  function AliasBytes(): Packet { Answer(12, 5, 60, [1, 98, 0]) }

  function AddressBytes(): Packet { Answer(31, 1, 60, [127, 0, 0, 1]) }

  /** The response that shows the alias alone, and the one that also shows the address of b. */
  function AliasAlone(): Packet { Head(true, 1) + AliasBytes() }

  function AliasAndAddress(): Packet { Head(true, 2) + (AliasBytes() + AddressBytes()) }

  lemma {:induction false} AliasIsRead(answers: Byte, tail: Packet)
    ensures var p := Head(true, answers) + (AliasBytes() + tail);
      && |p| == 34 + |tail| && ParseRecord(p, SAMPLE_END) == Some(ALIAS)
      && DecodeNameAt(p, 31) == Some(TARGET) && DecodeNameVia(p, 31) == Some(TARGET)
  {
    hide Head, Answer, ParseRecord, Labels, Join;
    var p := Head(true, answers) + (AliasBytes() + tail);
    AnswerBytes(12, 5, 60, [1, 98, 0]);
    assert p[31..34] == AliasBytes()[12..] == [1, 98, 0];
    assert p[31] == p[31..34][0] && p[32] == p[31..34][1] && p[33] == p[31..34][2];
    HeadBytes(true, answers, AliasBytes() + tail);
    LetterName(p, 12, 113, MAX_HOPS - 1);
    LetterName(p, 31, 98, MAX_HOPS - 1);
    LetterName(p, 31, 98, MAX_HOPS);
    AnswerParses(Head(true, answers), 12, 5, 60, [1, 98, 0], tail);
    assert Head(true, answers) + AliasBytes() + tail == p;
  }

  lemma {:induction false} AliasAloneParses()
    ensures ParseFull(AliasAlone()).Some? && ParseFull(AliasAlone()).value.msg.answers == [ALIAS]
    ensures DecodeNameAt(AliasAlone(), 31) == Some(TARGET)
  {
    hide Head, Answer, ParseRecord, DecodeNameAt, ParseFull;
    var p := AliasAlone();
    AliasIsRead(1, []);
    assert AliasBytes() + [] == AliasBytes();
    NoRecords(p, 34);
    assert [ALIAS] + [] == [ALIAS];
    SampleParses(true, 1, AliasBytes(), [ALIAS], 34);
  }

  const ADDRESS := Record(TARGET, TYPE_A, 1, 60, 46, [127, 0, 0, 1])

  lemma {:induction false} AliasAndAddressParses()
    ensures ParseFull(AliasAndAddress()).Some?
    ensures ParseFull(AliasAndAddress()).value.msg.answers == [ALIAS, ADDRESS]
    ensures DecodeNameAt(AliasAndAddress(), 31) == Some(TARGET)
  {
    hide Head, Answer, ParseRecord, DecodeNameAt, ParseFull, DecodeNameVia;
    var p := AliasAndAddress();
    AliasIsRead(2, AddressBytes());
    AnswerParses(Head(true, 2) + AliasBytes(), 31, 1, 60, [127, 0, 0, 1], []);
    assert Head(true, 2) + AliasBytes() + AddressBytes() + [] == p;
    NoRecords(p, 50);
    assert [ADDRESS] + [] == [ADDRESS];
    assert ParseRecords(p, 34, 1) == Some(Run([ADDRESS], 50));
    assert [ALIAS] + [ADDRESS] == [ALIAS, ADDRESS];
    SampleParses(true, 2, AliasBytes() + AddressBytes(), [ALIAS, ADDRESS], 50);
  }

  /** Every re-query is answered with the alias and the address. */
  function Helpful(): Env { Env(NO_RULES, [], 2, (_, _) => Some(AliasAndAddress())) }

  /** The exception is real: with a depth limit of two and no rules, q -> b is clean if the response that shows the
      alias also shows the address of b, and aborted if it shows the alias alone, though upstream cooperates
      in both cases. */
  lemma {:induction false} SpreadMattersAtLimit()
    ensures var alias := map[SAMPLE_NAME := TARGET]; var orbit := [SAMPLE_NAME, TARGET]; var env := Helpful();
      && Cooperates(env, SAMPLE_NAME, AliasAlone(), alias, orbit)
      && Cooperates(env, SAMPLE_NAME, AliasAndAddress(), alias, orbit)
      && UncloakName(env, SAMPLE_NAME, AliasAlone()).status == Aborted
      && UncloakName(env, SAMPLE_NAME, AliasAndAddress()).status == Clean
  {
    AtLimitCooperates();
    AtLimitDiffers();
  }

  lemma {:induction false} AtLimitCooperates()
    ensures var alias := map[SAMPLE_NAME := TARGET]; var orbit := [SAMPLE_NAME, TARGET];
      && Cooperates(Helpful(), SAMPLE_NAME, AliasAlone(), alias, orbit)
      && Cooperates(Helpful(), SAMPLE_NAME, AliasAndAddress(), alias, orbit)
  {
    hide AliasAlone, AliasAndAddress, DecodeNameAt, ParseFull, AQuery, Encodable;
    AliasAloneParses();
    AliasAndAddressParses();
    assert ALIAS in [ALIAS] && ALIAS in [ALIAS, ADDRESS];
    assert Encodable(TARGET) by { TargetEncodes(); }
  }

  lemma {:induction false} TargetEncodes()
    ensures Encodable(TARGET)
  {
  }

  lemma {:induction false} AtLimitDiffers()
    ensures UncloakName(Helpful(), SAMPLE_NAME, AliasAlone()).status == Aborted
    ensures UncloakName(Helpful(), SAMPLE_NAME, AliasAndAddress()).status == Clean
  {
    hide AliasAlone, AliasAndAddress, DecodeNameAt, ParseFull, AQuery, Encodable, EtldPlusOne;
    AliasAloneParses();
    AliasAndAddressParses();
    var p, answers := AliasAndAddress(), [ALIAS, ADDRESS];
    assert answers[1..] == [ADDRESS];
    assert Scan(answers, p, TARGET) == Address;
    assert Walk(answers, p, TARGET, 2) == Walked([], true);
    assert [TARGET] + [] == [TARGET];
    assert Walk(answers, p, SAMPLE_NAME, 3) == Walked([TARGET], true);
  }
}
