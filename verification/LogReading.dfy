/** What a JSON reader finds in a line of src/query_log.cpp (sections 4, 5 and 7 of RFC 8259). */
module LogReading {
  import opened Wire
  import opened QueryLog

  // ----- a reader for what the lines use of JSON -----

  /** A string, an array of strings, or a number or name as it is spelled. */
  datatype Value = Text(text: string) | List(items: seq<string>) | Bare(word: string)

  datatype Member = Member(key: string, value: Value)

  /** Something that was read, and what comes after it. */
  datatype Step<T> = Stuck | Got(what: T, rest: string)

  function ReadText(s: string): (r: Step<string>)
    ensures r.Got? ==> |r.rest| < |s|
  {
    if s == [] || s[0] != '\"' then Stuck
    else match ReadString(s[1..]) case Malformed => Stuck case String(content, rest) => Got(content, rest)
  }

  /** The items of an array, after the opening bracket or the item before. */
  function ReadList(s: string, first: bool): (r: Step<seq<string>>)
    ensures r.Got? ==> |r.rest| < |s|
    decreases |s|
  {
    if s == [] then Stuck
    else if s[0] == ']' then Got([], s[1..])
    else if !first && s[0] != ',' then Stuck
    else
      match ReadText(if first then s else s[1..])
      case Stuck => Stuck
      case Got(item, rest) =>
        match ReadList(rest, false) case Stuck => Stuck case Got(items, end) => Got([item] + items, end)
  }

  predicate EndsWord(c: char) { c == ',' || c == '}' }

  function WordLength(s: string): (n: nat)
    ensures n <= |s|
  {
    if s == [] || EndsWord(s[0]) then 0 else 1 + WordLength(s[1..])
  }

  function ReadValue(s: string): (r: Step<Value>)
    ensures r.Got? ==> |r.rest| < |s|
  {
    if s == [] then Stuck
    else if s[0] == '\"' then match ReadText(s) case Stuck => Stuck case Got(t, rest) => Got(Text(t), rest)
    else if s[0] == '[' then match ReadList(s[1..], true) case Stuck => Stuck case Got(l, rest) => Got(List(l), rest)
    else if WordLength(s) == 0 then Stuck
    else Got(Bare(s[..WordLength(s)]), s[WordLength(s)..])
  }

  /** The members of an object, up to its closing brace, which ends the text. */
  function ReadMembers(s: string): Option<seq<Member>>
    decreases |s|
  {
    match ReadText(s)
    case Stuck => None
    case Got(key, after) =>
      if after == [] || after[0] != ':' then None
      else
        match ReadValue(after[1..])
        case Stuck => None
        case Got(v, rest) =>
          if rest == "}" then Some([Member(key, v)])
          else if rest == [] || rest[0] != ',' then None
          else match ReadMembers(rest[1..]) case None => None case Some(more) => Some([Member(key, v)] + more)
  }

  function ReadObject(s: string): Option<seq<Member>> {
    if s == [] || s[0] != '{' then None else ReadMembers(s[1..])
  }

  // ----- reading what is written -----

  /** Characters that stand for themselves in a string. */
  predicate Simple(s: string) { forall i :: 0 <= i < |s| ==> s[i] >= ' ' && s[i] != '\"' && s[i] != '\\' }

  lemma {:induction false} SimpleIsRead(s: string, tail: string)
    requires Simple(s)
    ensures ReadString(s + "\"" + tail) == String(s, tail)
  {
    hide ReadString;
    if s == [] {
      assert s + "\"" + tail == [QUOTE] + tail;
      Closing(tail);
    } else {
      var rest := s[1..] + "\"" + tail;
      assert s + "\"" + tail == [s[0]] + rest;
      ReadPlain(s[0], rest);
      SimpleIsRead(s[1..], tail);
      assert [s[0]] + s[1..] == s;
    }
  }

  lemma {:induction false} SimpleTextIsRead(s: string, tail: string)
    requires Simple(s)
    ensures ReadText("\"" + s + "\"" + tail) == Got(s, tail)
  {
    hide ReadString;
    SimpleIsRead(s, tail);
    assert ("\"" + s + "\"" + tail)[1..] == s + "\"" + tail;
  }

  lemma {:induction false} TextIsRead(t: string, tail: string)
    ensures ReadText(Quoted(t) + tail) == Got(t, tail)
  {
    hide ReadString, Escape;
    EscapeRoundTrip(t, tail);
    assert (Quoted(t) + tail)[1..] == Escape(t) + [QUOTE] + tail;
    QuotedStarts(t, tail);
  }

  lemma {:induction false} ListIsRead(chain: seq<string>, i: nat, tail: string)
    requires i <= |chain|
    ensures ReadList(Items(chain, i) + ("]" + tail), i == 0) == Got(chain[i..], tail)
    decreases |chain| - i
  {
    hide Quoted, Items, ReadText, ReadList;
    var end := "]" + tail;
    ItemsStart(chain, i, end);
    if i == |chain| {
      NoItems(chain, end);
      assert end[1..] == tail && chain[i..] == [];
      ListEnds(end, i == 0);
    } else {
      var rest := Items(chain, i + 1) + end;
      ItemsStep(chain, i, end);
      TextIsRead(chain[i], rest);
      ListIsRead(chain, i + 1, tail);
      ListGoesOn(Items(chain, i) + end, i == 0, Quoted(chain[i]) + rest, chain[i], rest, chain[i + 1..], tail);
      assert [chain[i]] + chain[i + 1..] == chain[i..];
    }
  }

  lemma {:induction false} ListEnds(s: string, first: bool)
    requires s != [] && s[0] == ']'
    ensures ReadList(s, first) == Got([], s[1..])
  {
  }

  lemma {:induction false} ListGoesOn(s: string, first: bool, text: string, item: string, rest: string,
                                      items: seq<string>, tail: string)
    requires s != [] && s[0] != ']' && s == (if first then [] else ",") + text
    requires ReadText(text) == Got(item, rest) && ReadList(rest, false) == Got(items, tail)
    ensures ReadList(s, first) == Got([item] + items, tail)
  {
    hide ReadText;
    if first { assert s == text; } else { assert s[1..] == text; }
  }

  lemma {:induction false} WordIsRead(w: string, tail: string)
    requires (forall i :: 0 <= i < |w| ==> !EndsWord(w[i])) && tail != [] && EndsWord(tail[0])
    ensures WordLength(w + tail) == |w|
  {
    if w == [] {
      assert w + tail == tail;
    } else {
      assert (w + tail)[1..] == w[1..] + tail;
      WordIsRead(w[1..], tail);
    }
  }

  lemma {:induction false} BareIsRead(w: string, tail: string)
    requires w != [] && w[0] != '\"' && w[0] != '[' && (forall i :: 0 <= i < |w| ==> !EndsWord(w[i]))
    requires tail != [] && EndsWord(tail[0])
    ensures ReadValue(w + tail) == Got(Bare(w), tail)
  {
    hide ReadText, ReadList;
    WordIsRead(w, tail);
    assert (w + tail)[..|w|] == w && (w + tail)[|w|..] == tail;
  }

  /** What follows a member: the end, or a comma and more of them. */
  ghost predicate Follows(next: string, more: seq<Member>) {
    (next == "}" && more == []) || (next != [] && next[0] == ',' && ReadMembers(next[1..]) == Some(more))
  }

  lemma {:induction false} MemberIsRead(key: string, text: string, v: Value, next: string, more: seq<Member>)
    requires Simple(key) && ReadValue(text + next) == Got(v, next) && Follows(next, more)
    ensures Follows(",\"" + key + "\":" + text + next, [Member(key, v)] + more)
  {
    hide ReadText, ReadValue;
    var s := "\"" + key + "\"" + (":" + (text + next));
    assert (",\"" + key + "\":" + text + next)[1..] == s;
    SimpleTextIsRead(key, ":" + (text + next));
    assert (":" + (text + next))[1..] == text + next;
    if more == [] { assert [Member(key, v)] + more == [Member(key, v)]; }
  }

  // ----- the line -----

  /** What the printf formats of timestamp and latency can give. */
  predicate Printed(s: string) {
    && s != []
    && forall i :: 0 <= i < |s| ==>
      '0' <= s[i] <= '9' || 'a' <= s[i] <= 'z' || 'A' <= s[i] <= 'Z' || s[i] == '-' || s[i] == ':' || s[i] == '.'
  }

  function TextOrNull(s: Option<string>): Value { match s case None => Bare("null") case Some(t) => Text(t) }

  function TypeValue(qt: U16): Value { if TypeName(qt) == "" then Bare(Decimal(qt)) else Text(TypeName(qt)) }

  /** The members of a line, in order. */
  function MembersOf(r: LogRecord): seq<Member> {
    [Member("v", Bare("3")), Member("ts", Text(r.ts)), Member("qname", Text(r.qname)),
     Member("qtype", TypeValue(r.qtype)), Member("action", Text(ActionName(r.action))),
     Member("rule", if r.rule == "" then Bare("null") else Text(r.rule)), Member("cname_chain", List(r.chain)),
     Member("upstream", TextOrNull(r.upstream)), Member("latency_ms", Bare(r.latency)),
     Member("client", Text(r.client))]
      + match r.ech case None => [] case Some(e) => [Member("tls_ech_status", Text(e))]
  }

  lemma {:induction false} QuotedValue(t: string, next: string)
    ensures ReadValue(Quoted(t) + next) == Got(Text(t), next)
  {
    hide ReadText, ReadList, Quoted;
    TextIsRead(t, next);
    QuotedStarts(t, next);
  }

  lemma {:induction false} NullableValue(t: Option<string>, next: string)
    requires next != [] && EndsWord(next[0])
    ensures ReadValue(Nullable(t) + next) == Got(TextOrNull(t), next)
  {
    hide ReadValue, Quoted;
    if t.Some? { QuotedValue(t.value, next); } else { BareIsRead("null", next); }
  }

  lemma {:induction false} TypeIsRead(qt: U16, next: string)
    requires next != [] && EndsWord(next[0])
    ensures ReadValue(TypeText(qt) + next) == Got(TypeValue(qt), next)
  {
    hide ReadValue, Quoted, TypeName, Decimal;
    if TypeName(qt) != "" {
      QuotedValue(TypeName(qt), next);
    } else {
      DecimalRoundTrip(qt);
      BareIsRead(Decimal(qt), next);
    }
  }

  lemma {:induction false} EchFollows(r: LogRecord)
    ensures Follows(EchPart(r), match r.ech case None => [] case Some(e) => [Member("tls_ech_status", Text(e))])
  {
    hide Quoted, ReadMembers, ReadValue;
    if r.ech.Some? {
      QuotedValue(r.ech.value, "}");
      MemberIsRead("tls_ech_status", Quoted(r.ech.value), Text(r.ech.value), "}", []);
      assert ECH_KEY == ",\"" + "tls_ech_status" + "\":";
      assert [Member("tls_ech_status", Text(r.ech.value))] + [] == [Member("tls_ech_status", Text(r.ech.value))];
    }
  }

  lemma {:induction false} ClientFollows(r: LogRecord) returns (more: seq<Member>)
    requires Printed(r.latency)
    ensures Follows(LatencyPart(r), more)
    ensures more == [Member("latency_ms", Bare(r.latency)), Member("client", Text(r.client))]
      + match r.ech case None => [] case Some(e) => [Member("tls_ech_status", Text(e))]
  {
    hide Quoted, ReadMembers, ReadValue, EchPart, Follows;
    var ech := match r.ech case None => [] case Some(e) => [Member("tls_ech_status", Text(e))];
    EchFollows(r);
    QuotedValue(r.client, EchPart(r));
    MemberIsRead("client", Quoted(r.client), Text(r.client), EchPart(r), ech);
    assert CLIENT_KEY == ",\"" + "client" + "\":" && LATENCY_KEY == ",\"" + "latency_ms" + "\":";
    BareIsRead(r.latency, ClientPart(r));
    more := [Member("client", Text(r.client))] + ech;
    MemberIsRead("latency_ms", r.latency, Bare(r.latency), ClientPart(r), more);
    more := [Member("latency_ms", Bare(r.latency))] + more;
  }

  /** Brackets and quotes that stand around a value, taken to belong to it. */
  lemma {:induction false} Regroup(key: string, open: string, v: string, close: string, key': string, v': string,
                                   tail: string)
    ensures (key + open) + v + ((close + key') + v' + tail) == key + (open + v + close) + (key' + v' + tail)
  {
  }

  lemma {:induction false} KeysAre()
    ensures CHAIN_KEY == (",\"" + "cname_chain" + "\":") + "[" && UPSTREAM_KEY == "]" + (",\"" + "upstream" + "\":")
    ensures ACTION_KEY == (",\"" + "action" + "\":") + "\"" && RULE_KEY == "\"" + (",\"" + "rule" + "\":")
    ensures QNAME_KEY == "\"" + (",\"" + "qname" + "\":") && QTYPE_KEY == ",\"" + "qtype" + "\":"
    ensures OPENING == ("{\"" + "v" + "\":" + "3" + (",\"" + "ts" + "\":")) + "\""
    ensures LATENCY_KEY == ",\"" + "latency_ms" + "\":" && CLIENT_KEY == ",\"" + "client" + "\":"
    ensures ECH_KEY == ",\"" + "tls_ech_status" + "\":"
  {
  }

  lemma {:induction false} ChainFollows(r: LogRecord, later: seq<Member>)
    requires Follows(LatencyPart(r), later)
    ensures Follows(ChainPart(r),
                    [Member("cname_chain", List(r.chain)), Member("upstream", TextOrNull(r.upstream))] + later)
  {
    hide Nullable, ReadMembers, ReadValue, Follows, Items, ReadList, ReadText, LatencyPart, CHAIN_KEY, UPSTREAM_KEY;
    KeysAre();
    var key, list := ",\"" + "upstream" + "\":", "[" + Items(r.chain, 0) + "]";
    var up := key + Nullable(r.upstream) + LatencyPart(r);
    LatencyStarts(r);
    NullableValue(r.upstream, LatencyPart(r));
    MemberIsRead("upstream", Nullable(r.upstream), TextOrNull(r.upstream), LatencyPart(r), later);
    ArrayOfItems(r.chain, up);
    var more := [Member("upstream", TextOrNull(r.upstream))] + later;
    MemberIsRead("cname_chain", list, List(r.chain), up, more);
    Regroup(",\"" + "cname_chain" + "\":", "[", Items(r.chain, 0), "]", key, Nullable(r.upstream), LatencyPart(r));
    assert [Member("cname_chain", List(r.chain))] + more ==
      [Member("cname_chain", List(r.chain)), Member("upstream", TextOrNull(r.upstream))] + later;
  }

  lemma {:induction false} LatencyStarts(r: LogRecord)
    ensures LatencyPart(r) != [] && LatencyPart(r)[0] == ','
  {
  }

  lemma {:induction false} ChainStarts(r: LogRecord)
    ensures ChainPart(r) != [] && ChainPart(r)[0] == ','
  {
  }

  lemma {:induction false} ArrayOfItems(chain: seq<string>, next: string)
    ensures ReadValue("[" + Items(chain, 0) + "]" + next) == Got(List(chain), next)
  {
    hide Items, ReadList, ReadText, ReadValue;
    var s := "[" + Items(chain, 0) + "]" + next;
    ListIsRead(chain, 0, next);
    assert s[1..] == Items(chain, 0) + ("]" + next);
    assert chain[0..] == chain;
    ArrayIsRead(s, chain, next);
  }

  lemma {:induction false} ArrayIsRead(s: string, items: seq<string>, rest: string)
    requires s != [] && s[0] == '[' && ReadList(s[1..], true) == Got(items, rest)
    ensures ReadValue(s) == Got(List(items), rest)
  {
    hide ReadList, ReadText;
  }

  lemma {:induction false} ActionFollows(r: LogRecord, later: seq<Member>)
    requires Follows(ChainPart(r), later)
    ensures Follows(ActionPart(r), [Member("action", Text(ActionName(r.action))),
                                    Member("rule", if r.rule == "" then Bare("null") else Text(r.rule))] + later)
  {
    hide RuleText, ReadMembers, ReadValue, Follows, ActionName, ReadText, Nullable, ChainPart, ACTION_KEY, RULE_KEY;
    KeysAre();
    var key, rule := ",\"" + "rule" + "\":", if r.rule == "" then Bare("null") else Text(r.rule);
    var next := key + RuleText(r.rule) + ChainPart(r);
    ChainStarts(r);
    RuleIsNullable(r.rule);
    NullableValue(if r.rule == "" then None else Some(r.rule), ChainPart(r));
    MemberIsRead("rule", RuleText(r.rule), rule, ChainPart(r), later);
    ActionIsSimple(r.action);
    var name := "\"" + ActionName(r.action) + "\"";
    SimpleValue(ActionName(r.action), next);
    var more := [Member("rule", rule)] + later;
    MemberIsRead("action", name, Text(ActionName(r.action)), next, more);
    Regroup(",\"" + "action" + "\":", "\"", ActionName(r.action), "\"", key, RuleText(r.rule), ChainPart(r));
    assert [Member("action", Text(ActionName(r.action)))] + more ==
      [Member("action", Text(ActionName(r.action))), Member("rule", rule)] + later;
  }

  lemma {:induction false} ActionIsSimple(a: Action)
    ensures Simple(ActionName(a))
  {
  }

  lemma {:induction false} SimpleValue(t: string, next: string)
    requires Simple(t)
    ensures ReadValue("\"" + t + "\"" + next) == Got(Text(t), next)
  {
    hide ReadText, ReadList;
    SimpleTextIsRead(t, next);
  }

  lemma {:induction false} NameFollows(r: LogRecord, later: seq<Member>)
    requires Follows(ActionPart(r), later)
    ensures Follows(",\"" + "qname" + "\":" + Quoted(r.qname) + TypePart(r),
                    [Member("qname", Text(r.qname)), Member("qtype", TypeValue(r.qtype))] + later)
  {
    hide TypeText, ReadMembers, ReadValue, Follows, Quoted, ActionPart, TypeValue;
    assert ActionPart(r) != [] && ActionPart(r)[0] == ',' by { ActionStarts(r); }
    TypeIsRead(r.qtype, ActionPart(r));
    MemberIsRead("qtype", TypeText(r.qtype), TypeValue(r.qtype), ActionPart(r), later);
    assert QTYPE_KEY == ",\"" + "qtype" + "\":";
    var more := [Member("qtype", TypeValue(r.qtype))] + later;
    QuotedValue(r.qname, TypePart(r));
    MemberIsRead("qname", Quoted(r.qname), Text(r.qname), TypePart(r), more);
    assert [Member("qname", Text(r.qname))] + more ==
      [Member("qname", Text(r.qname)), Member("qtype", TypeValue(r.qtype))] + later;
  }

  lemma {:induction false} ActionStarts(r: LogRecord)
    ensures ActionPart(r) != [] && ActionPart(r)[0] == ','
  {
  }

  /** A JSON reader finds in a line, under their names and in this order, exactly the fields of its record. */
  lemma {:induction false} LineIsRead(r: LogRecord)
    requires Printed(r.ts) && Printed(r.latency)
    ensures ReadObject(JsonLine(r)) == Some(MembersOf(r))
  {
    hide ReadMembers, ReadValue, Quoted, TypePart, ActionPart, ChainPart, LatencyPart, TypeValue, ActionName;
    var end := ClientFollows(r);
    ChainFollows(r, end);
    var fromChain := [Member("cname_chain", List(r.chain)), Member("upstream", TextOrNull(r.upstream))] + end;
    ActionFollows(r, fromChain);
    var fromAction := [Member("action", Text(ActionName(r.action))),
                       Member("rule", if r.rule == "" then Bare("null") else Text(r.rule))] + fromChain;
    NameFollows(r, fromAction);
    var fromName := [Member("qname", Text(r.qname)), Member("qtype", TypeValue(r.qtype))] + fromAction;
    LineBegins(r, fromName);
    assert [Member("v", Bare("3")), Member("ts", Text(r.ts))] + fromName == MembersOf(r);
  }

  lemma {:induction false} LineBegins(r: LogRecord, later: seq<Member>)
    requires Printed(r.ts) && Follows(",\"" + "qname" + "\":" + Quoted(r.qname) + TypePart(r), later)
    ensures ReadObject(JsonLine(r)) == Some([Member("v", Bare("3")), Member("ts", Text(r.ts))] + later)
  {
    hide ReadMembers, ReadValue, Quoted, TypePart, Follows, ReadText, OPENING, QNAME_KEY, Printed;
    KeysAre();
    var key, ts := ",\"" + "qname" + "\":", "\"" + r.ts + "\"";
    var next := key + Quoted(r.qname) + TypePart(r);
    PrintedIsSimple(r.ts);
    SimpleValue(r.ts, next);
    MemberIsRead("ts", ts, Text(r.ts), next, later);
    var rest := ",\"" + "ts" + "\":" + ts + next;
    BareIsRead("3", rest);
    var more := [Member("ts", Text(r.ts))] + later;
    MemberIsRead("v", "3", Bare("3"), rest, more);
    Regroup("{\"" + "v" + "\":" + "3" + (",\"" + "ts" + "\":"), "\"", r.ts, "\"", key, Quoted(r.qname), TypePart(r));
    Opened("\"" + "v" + "\":" + "3", ",\"" + "ts" + "\":", ts, next, JsonLine(r));
    assert ",\"" + "v" + "\":" + "3" + rest == "," + ("\"" + "v" + "\":" + "3") + rest;
    Begins(",\"" + "v" + "\":" + "3" + rest, [Member("v", Bare("3"))] + more);
    assert [Member("v", Bare("3"))] + more == [Member("v", Bare("3")), Member("ts", Text(r.ts))] + later;
  }

  lemma {:induction false} PrintedIsSimple(s: string)
    requires Printed(s)
    ensures Simple(s)
  {
  }

  lemma {:induction false} Opened(first: string, key: string, v: string, next: string, line: string)
    requires line == ("{" + first + key) + v + next
    ensures line != [] && line[0] == '{' && line[1..] == ("," + first + (key + v + next))[1..]
  {
  }

  lemma {:induction false} Begins(s: string, more: seq<Member>)
    requires Follows(s, more) && s != [] && s[0] == ','
    ensures ReadMembers(s[1..]) == Some(more)
  {
    hide ReadMembers;
  }

  /** How actions and record types are spelled. */
  lemma {:induction false} NamesAre(qt: U16)
    ensures ActionName(Allow) == "allow" && ActionName(Block) == "block" && ActionName(Uncloak) == "uncloak"
    ensures ActionName(Cached) == "cached" && ActionName(ServFail) == "servfail"
    ensures ActionName(Refuse) == "refuse" && ActionName(Suspicious) == "suspicious"
    ensures TypeValue(1) == Text("A") && TypeValue(28) == Text("AAAA") && TypeValue(5) == Text("CNAME")
    ensures TypeValue(2) == Text("NS") && TypeValue(6) == Text("SOA") && TypeValue(12) == Text("PTR")
    ensures TypeValue(15) == Text("MX") && TypeValue(16) == Text("TXT") && TypeValue(33) == Text("SRV")
    ensures TypeValue(41) == Text("OPT") && TypeValue(257) == Text("CAA")
    ensures qt !in {1, 2, 5, 6, 12, 15, 16, 28, 33, 41, 257} ==>
      TypeValue(qt).Bare? && AllDigits(TypeValue(qt).word) && DecimalValue(TypeValue(qt).word) == qt
  {
    hide Decimal, DecimalValue;
    DecimalRoundTrip(qt);
  }
}
