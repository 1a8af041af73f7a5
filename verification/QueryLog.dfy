/** The JSON line written for each query: src/query_log.cpp. A `char` stands for a byte. */
module QueryLog {
  import opened Wire

  // ----- escaping -----

  const QUOTE: char := '\"'
  const BACKSLASH: char := '\\'
  const HEX: string := "0123456789abcdef"

  function Escape1(c: char): (e: string)
    ensures e != []
  {
    if c == QUOTE || c == BACKSLASH then [BACKSLASH, c]
    else if c == 8 as char then [BACKSLASH, 'b']
    else if c == 12 as char then [BACKSLASH, 'f']
    else if c == '\n' then [BACKSLASH, 'n']
    else if c == '\r' then [BACKSLASH, 'r']
    else if c == '\t' then [BACKSLASH, 't']
    else if c < ' ' then [BACKSLASH, 'u', '0', '0', HEX[c as int / 16], HEX[c as int % 16]]
    else [c]
  }

  function Escape(s: string): string {
    if s == [] then [] else Escape1(s[0]) + Escape(s[1..])
  }

  /** How characters are escaped: only quotes, backslashes and control characters are, and some of those by name. */
  lemma {:induction false} EscapesAre(c: char)
    ensures c >= ' ' && c != '\"' && c != '\\' ==> Escape1(c) == [c]
    ensures Escape1('\"') == "\\\"" && Escape1('\\') == "\\\\" && Escape1('\n') == "\\n" && Escape1('\r') == "\\r"
    ensures Escape1('\t') == "\\t" && Escape1(8 as char) == "\\b" && Escape1(12 as char) == "\\f"
    ensures Escape1(0 as char) == "\\u0000" && Escape1(27 as char) == "\\u001b" && Escape1(31 as char) == "\\u001f"
  {
  }

  method AppendEscaped(before: string, s: string) returns (out: string)
    ensures out == before + Escape(s)
  {
    hide Escape1;
    out := before;
    for i := 0 to |s|
      invariant before + Escape(s) == out + Escape(s[i..])
    {
      ghost var rest := s[i..];
      assert rest[0] == s[i] && rest[1..] == s[i + 1..];
      assert out + (Escape1(s[i]) + Escape(rest[1..])) == out + Escape1(s[i]) + Escape(rest[1..]);
      out := out + Escape1(s[i]);
    }
    assert out + [] == out;
  }

  function Quoted(s: string): string { [QUOTE] + Escape(s) + [QUOTE] }

  // ----- reading a string back (section 7 of RFC 8259) -----

  function HexValue(c: char): Option<nat> {
    if '0' <= c <= '9' then Some(c as int - '0' as int)
    else if 'a' <= c <= 'f' then Some(c as int - 'a' as int + 10)
    else if 'A' <= c <= 'F' then Some(c as int - 'A' as int + 10)
    else None
  }

  /** The character of a four-digit escape below 256. */
  function Hex4(s: string): Option<char>
    requires |s| == 4
  {
    var x, y := HexValue(s[2]), HexValue(s[3]);
    if s[0] != '0' || s[1] != '0' || x.None? || y.None? then None else Some((x.value * 16 + y.value) as char)
  }

  /** The character a backslash and `c` stand for. */
  function Unescape1(c: char): Option<char> {
    if c == QUOTE || c == BACKSLASH || c == '/' then Some(c)
    else if c == 'b' then Some(8 as char)
    else if c == 'f' then Some(12 as char)
    else if c == 'n' then Some('\n')
    else if c == 'r' then Some('\r')
    else if c == 't' then Some('\t')
    else None
  }

  datatype Read = Malformed | String(content: string, rest: string)

  function Cons(c: char, r: Read): Read {
    match r case Malformed => Malformed case String(content, rest) => String([c] + content, rest)
  }

  /** What a JSON reader makes of the text after an opening quote: the string up to the first quote that is
      not escaped, and what follows it. Raw control characters are not allowed. */
  function ReadString(s: string): (r: Read)
    ensures r.String? ==> |r.rest| < |s|
    decreases |s|
  {
    if s == [] || s[0] < ' ' then Malformed
    else if s[0] == QUOTE then String([], s[1..])
    else if s[0] != BACKSLASH then Cons(s[0], ReadString(s[1..]))
    else if |s| < 2 then Malformed
    else if s[1] == 'u' then
      if |s| < 6 || Hex4(s[2..6]).None? then Malformed else Cons(Hex4(s[2..6]).value, ReadString(s[6..]))
    else if Unescape1(s[1]).None? then Malformed
    else Cons(Unescape1(s[1]).value, ReadString(s[2..]))
  }

  lemma {:induction false} HexRoundTrip(n: nat)
    requires n < 16
    ensures HexValue(HEX[n]) == Some(n)
  {
  }

  lemma {:induction false} ReadPlain(c: char, tail: string)
    requires c >= ' ' && c != QUOTE && c != BACKSLASH
    ensures ReadString([c] + tail) == Cons(c, ReadString(tail))
  {
    assert ([c] + tail)[1..] == tail;
  }

  lemma {:induction false} ReadPair(d: char, tail: string)
    requires Unescape1(d).Some?
    ensures ReadString([BACKSLASH, d] + tail) == Cons(Unescape1(d).value, ReadString(tail))
  {
    hide Hex4;
    assert ([BACKSLASH, d] + tail)[2..] == tail;
  }

  lemma {:induction false} ReadHex(h: string, tail: string)
    requires |h| == 4 && Hex4(h).Some?
    ensures ReadString([BACKSLASH, 'u'] + h + tail) == Cons(Hex4(h).value, ReadString(tail))
  {
    hide Hex4;
    var s := [BACKSLASH, 'u'] + h + tail;
    assert s[2..6] == h && s[6..] == tail;
  }

  /** One escaped character is read back, whatever follows. */
  lemma {:induction false} ReadEscaped(c: char, tail: string)
    ensures ReadString(Escape1(c) + tail) == Cons(c, ReadString(tail))
  {
    hide ReadString, HexValue, HEX;
    var e := Escape1(c);
    if |e| == 1 {
      ReadPlain(c, tail);
    } else if |e| == 2 {
      ReadPair(e[1], tail);
    } else {
      HexRoundTrip(c as int / 16);
      HexRoundTrip(c as int % 16);
      assert e == [BACKSLASH, 'u'] + e[2..6];
      ReadHex(e[2..6], tail);
    }
  }

  /** Escaping has a left inverse and a quoted string ends itself: a reader gets back exactly the string and
      exactly what follows its closing quote. */
  lemma {:induction false} EscapeRoundTrip(s: string, tail: string)
    ensures ReadString(Escape(s) + [QUOTE] + tail) == String(s, tail)
  {
    hide Escape1;
    var text := Escape(s) + [QUOTE] + tail;
    if s == [] {
      assert text == [QUOTE] + tail;
      Closing(tail);
    } else {
      EscapeRoundTrip(s[1..], tail);
      assert text == Escape1(s[0]) + (Escape(s[1..]) + [QUOTE] + tail);
      ReadEscaped(s[0], Escape(s[1..]) + [QUOTE] + tail);
      assert [s[0]] + s[1..] == s;
    }
  }

  lemma {:induction false} Closing(tail: string)
    ensures ReadString([QUOTE] + tail) == String([], tail)
  {
    assert ([QUOTE] + tail)[1..] == tail;
  }

  predicate NoControl(s: string) { forall i :: 0 <= i < |s| ==> s[i] >= ' ' }

  lemma {:induction false} EscapedHasNoControl(s: string)
    ensures NoControl(Escape(s))
  {
    if s != [] {
      Escape1HasNoControl(s[0]);
      EscapedHasNoControl(s[1..]);
    }
  }

  lemma {:induction false} Escape1HasNoControl(c: char)
    ensures NoControl(Escape1(c))
  {
    if c < ' ' {
      HexDigit(c as int / 16);
      HexDigit(c as int % 16);
    }
  }

  lemma {:induction false} HexDigit(n: nat)
    requires n < 16
    ensures HEX[n] >= ' '
  {
  }

  lemma {:induction false} QuotedHasNoControl(s: string)
    ensures NoControl(Quoted(s))
  {
    EscapedHasNoControl(s);
  }

  // ----- the line -----

  datatype Action = Allow | Block | Uncloak | Cached | ServFail | Refuse | Suspicious

  /** `ts` and `latency` are the formatted timestamp and latency. */
  datatype LogRecord = LogRecord(ts: string, qname: string, qtype: U16, action: Action, rule: string,
                                 chain: seq<string>,
                                 upstream: Option<string>, latency: string, client: string, ech: Option<string>)

  function ActionName(a: Action): string {
    match a
    case Allow => "allow"
    case Block => "block"
    case Uncloak => "uncloak"
    case Cached => "cached"
    case ServFail => "servfail"
    case Refuse => "refuse"
    case Suspicious => "suspicious"
  }

  function TypeName(qt: U16): string {
    if qt == 1 then "A"
    else if qt == 5 then "CNAME"
    else if qt == 28 then "AAAA"
    else if qt == 41 then "OPT"
    else if qt == 2 then "NS"
    else if qt == 6 then "SOA"
    else if qt == 12 then "PTR"
    else if qt == 15 then "MX"
    else if qt == 16 then "TXT"
    else if qt == 33 then "SRV"
    else if qt == 257 then "CAA"
    else ""
  }

  function Digit(n: nat): char
    requires n < 10
  {
    (n + '0' as int) as char
  }

  function Decimal(n: nat): (d: string)
    ensures d != []
  {
    if n < 10 then [Digit(n)] else Decimal(n / 10) + [Digit(n % 10)]
  }

  function TypeText(qt: U16): string {
    if TypeName(qt) != "" then Quoted(TypeName(qt)) else Decimal(qt)
  }

  function Nullable(s: Option<string>): string {
    match s case None => "null" case Some(v) => Quoted(v)
  }

  function RuleText(rule: string): string { if rule == "" then "null" else Quoted(rule) }

  /** The strings of an array, separated by commas, from the i-th on. */
  function Items(chain: seq<string>, i: nat): string
    requires i <= |chain|
    decreases |chain| - i
  {
    if i == |chain| then []
    else (if i > 0 then "," else []) + Quoted(chain[i]) + Items(chain, i + 1)
  }

  const OPENING: string := "{\"v\":3,\"ts\":\""
  const QNAME_KEY: string := "\",\"qname\":"
  const QTYPE_KEY: string := ",\"qtype\":"
  const ACTION_KEY: string := ",\"action\":\""
  const RULE_KEY: string := "\",\"rule\":"
  const CHAIN_KEY: string := ",\"cname_chain\":["
  const UPSTREAM_KEY: string := "],\"upstream\":"
  const LATENCY_KEY: string := ",\"latency_ms\":"
  const CLIENT_KEY: string := ",\"client\":"
  const ECH_KEY: string := ",\"tls_ech_status\":"

  // The line, from its end to its beginning: each part is a key, its value, and the part after it.
  function EchPart(r: LogRecord): string {
    (match r.ech case None => [] case Some(s) => ECH_KEY + Quoted(s)) + "}"
  }

  function ClientPart(r: LogRecord): string { CLIENT_KEY + Quoted(r.client) + EchPart(r) }

  function LatencyPart(r: LogRecord): string { LATENCY_KEY + r.latency + ClientPart(r) }

  function UpstreamPart(r: LogRecord): string { UPSTREAM_KEY + Nullable(r.upstream) + LatencyPart(r) }

  function ChainPart(r: LogRecord): string { CHAIN_KEY + Items(r.chain, 0) + UpstreamPart(r) }

  function RulePart(r: LogRecord): string { RULE_KEY + RuleText(r.rule) + ChainPart(r) }

  function ActionPart(r: LogRecord): string { ACTION_KEY + ActionName(r.action) + RulePart(r) }

  function TypePart(r: LogRecord): string { QTYPE_KEY + TypeText(r.qtype) + ActionPart(r) }

  function NamePart(r: LogRecord): string { QNAME_KEY + Quoted(r.qname) + TypePart(r) }

  function JsonLine(r: LogRecord): string { OPENING + r.ts + NamePart(r) }

  /** The line as the source builds it, by appending. */
  method ToJsonLine(r: LogRecord) returns (out: string)
    ensures out == JsonLine(r)
  {
    hide Quoted, TypeText, RuleText, Nullable, ActionName, Items, OPENING, QNAME_KEY, QTYPE_KEY, ACTION_KEY, RULE_KEY,
      CHAIN_KEY, UPSTREAM_KEY, LATENCY_KEY, CLIENT_KEY, ECH_KEY;
    out := OPENING + r.ts + QNAME_KEY + Quoted(r.qname);
    Shift(OPENING + r.ts, QNAME_KEY, Quoted(r.qname), TypePart(r));
    Shift(out, QTYPE_KEY, TypeText(r.qtype), ActionPart(r));
    out := out + QTYPE_KEY + TypeText(r.qtype);
    Shift(out, ACTION_KEY, ActionName(r.action), RulePart(r));
    out := out + ACTION_KEY + ActionName(r.action);
    Shift(out, RULE_KEY, RuleText(r.rule), ChainPart(r));
    out := out + RULE_KEY + RuleText(r.rule);
    Shift(out, CHAIN_KEY, Items(r.chain, 0), UpstreamPart(r));
    out := AppendItems(out + CHAIN_KEY, r.chain);
    Shift(out, UPSTREAM_KEY, Nullable(r.upstream), LatencyPart(r));
    out := out + UPSTREAM_KEY + Nullable(r.upstream);
    Shift(out, LATENCY_KEY, r.latency, ClientPart(r));
    out := out + LATENCY_KEY + r.latency;
    Shift(out, CLIENT_KEY, Quoted(r.client), EchPart(r));
    out := out + CLIENT_KEY + Quoted(r.client);
    assert out + EchPart(r) == JsonLine(r);
    ghost var before := out;
    if r.ech.Some? {
      Shift(before, ECH_KEY, Quoted(r.ech.value), "}");
      out := out + ECH_KEY + Quoted(r.ech.value);
    }
    out := out + "}";
    assert out == before + EchPart(r);
  }

  lemma {:induction false} Shift(out: string, k: string, v: string, next: string)
    ensures out + (k + v + next) == out + k + v + next
  {
  }

  method AppendItems(before: string, chain: seq<string>) returns (out: string)
    ensures out == before + Items(chain, 0)
  {
    hide Quoted;
    out := before;
    for i := 0 to |chain|
      invariant before + Items(chain, 0) == out + Items(chain, i)
    {
      var item := (if i > 0 then "," else []) + Quoted(chain[i]);
      assert out + (item + Items(chain, i + 1)) == out + item + Items(chain, i + 1);
      out := out + item;
    }
    assert out + [] == out;
  }

  // ----- a line says which record it is -----

  lemma {:induction false} Cancel(k: string, x: string, y: string)
    requires k + x == k + y
    ensures x == y
  {
    assert (k + x)[|k|..] == x && (k + y)[|k|..] == y;
  }

  /** Two texts up to the first occurrence of a character. */
  lemma {:induction false} StopsAt(a: string, b: string, stop: char, x: string, y: string)
    requires stop !in a && stop !in b && |x| > 0 && x[0] == stop && |y| > 0 && y[0] == stop
    requires a + x == b + y
    ensures a == b && x == y
  {
    assert (a + x)[|a|] == stop && (b + y)[|b|] == stop;
    assert forall i :: 0 <= i < |a| ==> (a + x)[i] in a;
    assert forall i :: 0 <= i < |b| ==> (b + y)[i] in b;
    assert (a + x)[..|a|] == a && (b + y)[..|b|] == b;
    Cancel(a, x, y);
  }

  lemma {:induction false} QuotedEnds(a: string, b: string, x: string, y: string)
    requires Quoted(a) + x == Quoted(b) + y
    ensures a == b && x == y
  {
    hide ReadString, Escape;
    EscapeRoundTrip(a, x);
    EscapeRoundTrip(b, y);
    assert Quoted(a) + x == [QUOTE] + (Escape(a) + [QUOTE] + x);
    assert Quoted(b) + y == [QUOTE] + (Escape(b) + [QUOTE] + y);
    Cancel([QUOTE], Escape(a) + [QUOTE] + x, Escape(b) + [QUOTE] + y);
  }

  lemma {:induction false} QuotedStarts(a: string, x: string)
    ensures |Quoted(a)| > 0 && (Quoted(a) + x)[0] == QUOTE
  {
  }

  lemma {:induction false} NullableEnds(a: Option<string>, b: Option<string>, x: string, y: string)
    requires Nullable(a) + x == Nullable(b) + y
    ensures a == b && x == y
  {
    hide Quoted;
    if a.Some? { QuotedStarts(a.value, x); }
    if b.Some? { QuotedStarts(b.value, y); }
    if a.Some? && b.Some? { QuotedEnds(a.value, b.value, x, y); }
    if a.None? && b.None? { Cancel("null", x, y); }
    assert a.None? ==> (Nullable(a) + x)[0] == 'n';
    assert b.None? ==> (Nullable(b) + y)[0] == 'n';
  }

  lemma {:induction false} RuleEnds(a: string, b: string, x: string, y: string)
    requires RuleText(a) + x == RuleText(b) + y
    ensures a == b && x == y
  {
    hide Nullable;
    RuleIsNullable(a);
    RuleIsNullable(b);
    NullableEnds(if a == "" then None else Some(a), if b == "" then None else Some(b), x, y);
  }

  lemma {:induction false} RuleIsNullable(a: string)
    ensures RuleText(a) == Nullable(if a == "" then None else Some(a))
  {
    hide Quoted;
  }

  /** An item starts with a comma or a quote, so the end of the array cannot be taken for one. */
  lemma {:induction false} ItemsStart(a: seq<string>, i: nat, x: string)
    requires i <= |a| && |x| > 0 && x[0] == ']'
    ensures (Items(a, i) + x)[0] == if i == |a| then ']' else if i > 0 then ',' else QUOTE
  {
    hide Quoted;
    if i < |a| { QuotedStarts(a[i], []); }
  }

  lemma {:induction false} NoItems(a: seq<string>, x: string)
    ensures Items(a, |a|) + x == x
  {
  }

  lemma {:induction false} ItemsStep(a: seq<string>, i: nat, x: string)
    requires i < |a|
    ensures Items(a, i) + x == (if i > 0 then "," else []) + (Quoted(a[i]) + (Items(a, i + 1) + x))
  {
    hide Quoted;
  }

  lemma {:induction false} ItemsEnd(a: seq<string>, b: seq<string>, i: nat, x: string, y: string)
    requires i <= |a| && i <= |b| && |x| > 0 && x[0] == ']' && |y| > 0 && y[0] == ']'
    requires Items(a, i) + x == Items(b, i) + y
    ensures a[i..] == b[i..] && x == y
    decreases |a| - i
  {
    hide Quoted, Items;
    ItemsStart(a, i, x);
    ItemsStart(b, i, y);
    if i < |a| {
      var comma := if i > 0 then "," else [];
      ItemsStep(a, i, x);
      ItemsStep(b, i, y);
      Cancel(comma, Quoted(a[i]) + (Items(a, i + 1) + x), Quoted(b[i]) + (Items(b, i + 1) + y));
      QuotedEnds(a[i], b[i], Items(a, i + 1) + x, Items(b, i + 1) + y);
      ItemsEnd(a, b, i + 1, x, y);
      assert a[i..] == [a[i]] + a[i + 1..] && b[i..] == [b[i]] + b[i + 1..];
    } else {
      NoItems(a, x);
      NoItems(b, y);
    }
  }

  // ----- types and actions -----

  function DecimalValue(d: string): int {
    if d == [] then 0 else DecimalValue(d[..|d| - 1]) * 10 + (d[|d| - 1] as int - '0' as int)
  }

  predicate AllDigits(d: string) { forall i :: 0 <= i < |d| ==> '0' <= d[i] <= '9' }

  lemma {:induction false} DecimalRoundTrip(n: nat)
    ensures DecimalValue(Decimal(n)) == n && AllDigits(Decimal(n))
  {
    var d := Decimal(n);
    if n >= 10 {
      DecimalRoundTrip(n / 10);
      assert d[..|d| - 1] == Decimal(n / 10);
    }
  }

  function TypeNamed(name: string): int {
    if name == "A" then 1
    else if name == "CNAME" then 5
    else if name == "AAAA" then 28
    else if name == "OPT" then 41
    else if name == "NS" then 2
    else if name == "SOA" then 6
    else if name == "PTR" then 12
    else if name == "MX" then 15
    else if name == "TXT" then 16
    else if name == "SRV" then 33
    else if name == "CAA" then 257
    else -1
  }

  lemma {:induction false} TypeNameRoundTrip(qt: U16)
    requires TypeName(qt) != ""
    ensures TypeNamed(TypeName(qt)) == qt
  {
  }

  lemma {:induction false} TypeEnds(a: U16, b: U16, x: string, y: string)
    requires |x| > 0 && x[0] == ',' && |y| > 0 && y[0] == ','
    requires TypeText(a) + x == TypeText(b) + y
    ensures a == b && x == y
  {
    hide Quoted, TypeName, TypeNamed, Decimal, DecimalValue;
    DecimalRoundTrip(a);
    DecimalRoundTrip(b);
    QuotedStarts(TypeName(a), x);
    QuotedStarts(TypeName(b), y);
    if TypeName(a) != "" { TypeNameRoundTrip(a); } else { assert (TypeText(a) + x)[0] == Decimal(a)[0]; }
    if TypeName(b) != "" { TypeNameRoundTrip(b); } else { assert (TypeText(b) + y)[0] == Decimal(b)[0]; }
    if TypeName(a) != "" && TypeName(b) != "" { QuotedEnds(TypeName(a), TypeName(b), x, y); }
    if TypeName(a) == "" && TypeName(b) == "" { StopsAt(Decimal(a), Decimal(b), ',', x, y); }
  }

  function ActionNamed(name: string): Action {
    if name == "allow" then Allow
    else if name == "block" then Block
    else if name == "uncloak" then Uncloak
    else if name == "cached" then Cached
    else if name == "servfail" then ServFail
    else if name == "refuse" then Refuse
    else Suspicious
  }

  lemma {:induction false} ActionNameRoundTrip(a: Action)
    ensures ActionNamed(ActionName(a)) == a && QUOTE !in ActionName(a) && NoControl(ActionName(a))
  {
  }

  // ----- the whole line -----

  /** What the printf formats of timestamp and latency give: no quote, no comma, no control character. */
  predicate Plain(s: string) { QUOTE !in s && ',' !in s && NoControl(s) }

  predicate Formatted(r: LogRecord) { Plain(r.ts) && Plain(r.latency) }

  lemma {:induction false} EchDetermined(r: LogRecord, q: LogRecord)
    requires EchPart(r) == EchPart(q)
    ensures r.ech == q.ech
  {
    hide Quoted;
    assert r.ech.None? ==> EchPart(r)[0] == '}';
    assert r.ech.Some? ==> EchPart(r)[0] == ',';
    assert q.ech.None? ==> EchPart(q)[0] == '}';
    assert q.ech.Some? ==> EchPart(q)[0] == ',';
    if r.ech.Some? && q.ech.Some? {
      assert EchPart(r) == ECH_KEY + (Quoted(r.ech.value) + "}") && EchPart(q) == ECH_KEY + (Quoted(q.ech.value) + "}");
      Cancel(ECH_KEY, Quoted(r.ech.value) + "}", Quoted(q.ech.value) + "}");
      QuotedEnds(r.ech.value, q.ech.value, "}", "}");
    }
  }

  lemma {:induction false} EndDetermined(r: LogRecord, q: LogRecord)
    requires Formatted(r) && Formatted(q) && LatencyPart(r) == LatencyPart(q)
    ensures r.latency == q.latency && r.client == q.client && r.ech == q.ech
  {
    hide Quoted, EchPart;
    assert LatencyPart(r) == LATENCY_KEY + (r.latency + ClientPart(r))
      && LatencyPart(q) == LATENCY_KEY + (q.latency + ClientPart(q));
    Cancel(LATENCY_KEY, r.latency + ClientPart(r), q.latency + ClientPart(q));
    StopsAt(r.latency, q.latency, ',', ClientPart(r), ClientPart(q));
    assert ClientPart(r) == CLIENT_KEY + (Quoted(r.client) + EchPart(r))
      && ClientPart(q) == CLIENT_KEY + (Quoted(q.client) + EchPart(q));
    Cancel(CLIENT_KEY, Quoted(r.client) + EchPart(r), Quoted(q.client) + EchPart(q));
    QuotedEnds(r.client, q.client, EchPart(r), EchPart(q));
    EchDetermined(r, q);
  }

  lemma {:induction false} ChainDetermined(r: LogRecord, q: LogRecord)
    requires ChainPart(r) == ChainPart(q)
    ensures r.chain == q.chain && r.upstream == q.upstream && LatencyPart(r) == LatencyPart(q)
  {
    hide Nullable, LatencyPart, Items;
    assert ChainPart(r) == CHAIN_KEY + (Items(r.chain, 0) + UpstreamPart(r))
      && ChainPart(q) == CHAIN_KEY + (Items(q.chain, 0) + UpstreamPart(q));
    Cancel(CHAIN_KEY, Items(r.chain, 0) + UpstreamPart(r), Items(q.chain, 0) + UpstreamPart(q));
    ItemsEnd(r.chain, q.chain, 0, UpstreamPart(r), UpstreamPart(q));
    assert r.chain[0..] == r.chain && q.chain[0..] == q.chain;
    assert UpstreamPart(r) == UPSTREAM_KEY + (Nullable(r.upstream) + LatencyPart(r))
      && UpstreamPart(q) == UPSTREAM_KEY + (Nullable(q.upstream) + LatencyPart(q));
    Cancel(UPSTREAM_KEY, Nullable(r.upstream) + LatencyPart(r), Nullable(q.upstream) + LatencyPart(q));
    NullableEnds(r.upstream, q.upstream, LatencyPart(r), LatencyPart(q));
  }

  lemma {:induction false} ActionDetermined(r: LogRecord, q: LogRecord)
    requires ActionPart(r) == ActionPart(q)
    ensures r.action == q.action && r.rule == q.rule && ChainPart(r) == ChainPart(q)
  {
    hide ActionName, ActionNamed, RuleText, ChainPart;
    assert ActionPart(r) == ACTION_KEY + (ActionName(r.action) + RulePart(r))
      && ActionPart(q) == ACTION_KEY + (ActionName(q.action) + RulePart(q));
    Cancel(ACTION_KEY, ActionName(r.action) + RulePart(r), ActionName(q.action) + RulePart(q));
    ActionNameRoundTrip(r.action);
    ActionNameRoundTrip(q.action);
    StopsAt(ActionName(r.action), ActionName(q.action), QUOTE, RulePart(r), RulePart(q));
    assert RulePart(r) == RULE_KEY + (RuleText(r.rule) + ChainPart(r))
      && RulePart(q) == RULE_KEY + (RuleText(q.rule) + ChainPart(q));
    Cancel(RULE_KEY, RuleText(r.rule) + ChainPart(r), RuleText(q.rule) + ChainPart(q));
    RuleEnds(r.rule, q.rule, ChainPart(r), ChainPart(q));
  }

  lemma {:induction false} TypeDetermined(r: LogRecord, q: LogRecord)
    requires TypePart(r) == TypePart(q)
    ensures r.qtype == q.qtype && ActionPart(r) == ActionPart(q)
  {
    hide TypeText, RulePart, ActionName;
    assert TypePart(r) == QTYPE_KEY + (TypeText(r.qtype) + ActionPart(r))
      && TypePart(q) == QTYPE_KEY + (TypeText(q.qtype) + ActionPart(q));
    Cancel(QTYPE_KEY, TypeText(r.qtype) + ActionPart(r), TypeText(q.qtype) + ActionPart(q));
    TypeEnds(r.qtype, q.qtype, ActionPart(r), ActionPart(q));
  }

  lemma {:induction false} NameDetermined(r: LogRecord, q: LogRecord)
    requires NamePart(r) == NamePart(q)
    ensures r.qname == q.qname && r.qtype == q.qtype && ActionPart(r) == ActionPart(q)
  {
    hide Quoted, TypePart, ActionPart;
    assert NamePart(r) == QNAME_KEY + (Quoted(r.qname) + TypePart(r))
      && NamePart(q) == QNAME_KEY + (Quoted(q.qname) + TypePart(q));
    Cancel(QNAME_KEY, Quoted(r.qname) + TypePart(r), Quoted(q.qname) + TypePart(q));
    QuotedEnds(r.qname, q.qname, TypePart(r), TypePart(q));
    TypeDetermined(r, q);
  }

  /** Whatever bytes its strings hold, a line determines the record it was made from. */
  lemma {:induction false} LineDeterminesRecord(r: LogRecord, q: LogRecord)
    requires Formatted(r) && Formatted(q) && JsonLine(r) == JsonLine(q)
    ensures r == q
  {
    hide NoControl, TypePart, Quoted, ActionPart, ChainPart, LatencyPart;
    assert JsonLine(r) == OPENING + (r.ts + NamePart(r)) && JsonLine(q) == OPENING + (q.ts + NamePart(q));
    Cancel(OPENING, r.ts + NamePart(r), q.ts + NamePart(q));
    StopsAt(r.ts, q.ts, QUOTE, NamePart(r), NamePart(q));
    NameDetermined(r, q);
    ActionDetermined(r, q);
    ChainDetermined(r, q);
    EndDetermined(r, q);
  }

  // ----- lines in a file -----

  lemma {:induction false} PartHasNoControl(key: string, value: string, next: string)
    requires NoControl(key) && NoControl(value) && NoControl(next)
    ensures NoControl(key + value + next)
  {
  }

  lemma {:induction false} ItemsHaveNoControl(chain: seq<string>, i: nat)
    requires i <= |chain|
    ensures NoControl(Items(chain, i))
    decreases |chain| - i
  {
    hide Quoted;
    if i < |chain| {
      ItemsHaveNoControl(chain, i + 1);
      QuotedHasNoControl(chain[i]);
    }
  }

  lemma {:induction false} ValuesHaveNoControl(r: LogRecord)
    ensures NoControl(Quoted(r.qname)) && NoControl(TypeText(r.qtype)) && NoControl(ActionName(r.action))
      && NoControl(RuleText(r.rule))
    ensures NoControl(Items(r.chain, 0)) && NoControl(Nullable(r.upstream)) && NoControl(Quoted(r.client))
      && NoControl(EchPart(r))
  {
    hide Quoted, Decimal, ActionName, Items;
    QuotedHasNoControl(r.qname);
    QuotedHasNoControl(TypeName(r.qtype));
    DecimalRoundTrip(r.qtype);
    ActionNameRoundTrip(r.action);
    QuotedHasNoControl(r.rule);
    ItemsHaveNoControl(r.chain, 0);
    if r.upstream.Some? { QuotedHasNoControl(r.upstream.value); }
    QuotedHasNoControl(r.client);
    if r.ech.Some? { QuotedHasNoControl(r.ech.value); PartHasNoControl(ECH_KEY, Quoted(r.ech.value), "}"); }
  }

  lemma {:induction false} KeysHaveNoControl()
    ensures NoControl(OPENING) && NoControl(QNAME_KEY) && NoControl(QTYPE_KEY) && NoControl(ACTION_KEY)
  {
  }

  lemma {:induction false} LaterKeysHaveNoControl()
    ensures NoControl(RULE_KEY) && NoControl(CHAIN_KEY) && NoControl(UPSTREAM_KEY) && NoControl(LATENCY_KEY)
      && NoControl(CLIENT_KEY)
  {
  }

  /** A line holds no raw control character, so no newline, whatever its strings hold. */
  lemma {:induction false} LineHasNoControl(r: LogRecord)
    requires Formatted(r)
    ensures NoControl(JsonLine(r)) && '\n' !in JsonLine(r)
  {
    hide Quoted, TypeText, ActionName, RuleText, Items, Nullable, EchPart, NoControl, OPENING, QNAME_KEY, QTYPE_KEY,
      ACTION_KEY, RULE_KEY, CHAIN_KEY, UPSTREAM_KEY, LATENCY_KEY, CLIENT_KEY;
    KeysHaveNoControl();
    LaterKeysHaveNoControl();
    ValuesHaveNoControl(r);
    PartHasNoControl(CLIENT_KEY, Quoted(r.client), EchPart(r));
    PartHasNoControl(LATENCY_KEY, r.latency, ClientPart(r));
    PartHasNoControl(UPSTREAM_KEY, Nullable(r.upstream), LatencyPart(r));
    PartHasNoControl(CHAIN_KEY, Items(r.chain, 0), UpstreamPart(r));
    PartHasNoControl(RULE_KEY, RuleText(r.rule), ChainPart(r));
    PartHasNoControl(ACTION_KEY, ActionName(r.action), RulePart(r));
    PartHasNoControl(QTYPE_KEY, TypeText(r.qtype), ActionPart(r));
    PartHasNoControl(QNAME_KEY, Quoted(r.qname), TypePart(r));
    PartHasNoControl(OPENING, r.ts, NamePart(r));
    NoNewline(JsonLine(r));
  }

  lemma {:induction false} NoNewline(s: string)
    requires NoControl(s)
    ensures '\n' !in s
  {
  }

  /** The file after these lines were written to it. */
  function Contents(lines: seq<string>): string {
    if lines == [] then [] else lines[0] + "\n" + Contents(lines[1..])
  }

  lemma {:induction false} ContentsSnoc(lines: seq<string>, line: string)
    ensures Contents(lines + [line]) == Contents(lines) + line + "\n"
  {
    var all := lines + [line];
    if lines == [] {
      assert all[1..] == [];
    } else {
      ContentsSnoc(lines[1..], line);
      assert all[0] == lines[0] && all[1..] == lines[1..] + [line];
      Regroup(lines[0] + "\n", Contents(lines[1..]), line, "\n");
    }
  }

  lemma {:induction false} Regroup(a: string, b: string, c: string, d: string)
    ensures a + (b + c + d) == a + b + c + d
  {
  }

  /** What a line reader makes of a file: the pieces between newlines, the last one only if it is not empty. */
  function SplitLines(s: string): seq<string> {
    if s == [] then []
    else if s[0] == '\n' then [[]] + SplitLines(s[1..])
    else
      var rest := SplitLines(s[1..]);
      if rest == [] then [[s[0]]] else [[s[0]] + rest[0]] + rest[1..]
  }

  lemma {:induction false} FirstLine(line: string, tail: string)
    requires '\n' !in line
    ensures SplitLines(line + "\n" + tail) == [line] + SplitLines(tail)
  {
    var s := line + "\n" + tail;
    if line == [] {
      assert s == "\n" + tail && s[1..] == tail;
    } else {
      assert s[0] == line[0] && s[1..] == line[1..] + "\n" + tail;
      FirstLine(line[1..], tail);
      assert [line[0]] + line[1..] == line;
    }
  }

  /** Splitting a log file on newlines gives back the lines that were written to it. */
  lemma {:induction false} SplitLinesRoundTrip(lines: seq<string>)
    requires forall i :: 0 <= i < |lines| ==> '\n' !in lines[i]
    ensures SplitLines(Contents(lines)) == lines
  {
    hide SplitLines;
    if lines == [] {
      NoLines();
    } else {
      SplitLinesRoundTrip(lines[1..]);
      FirstLine(lines[0], Contents(lines[1..]));
      assert lines == [lines[0]] + lines[1..];
    }
  }

  lemma {:induction false} NoLines()
    ensures SplitLines([]) == []
  {
  }
}
