/** Registrable domains: src/etld.cpp. */
module Etld {
  import opened Wire

  /** A label as it stands in the table. */
  type Plain = s: string | PlainLabel(s) witness "uk"

  predicate PlainLabel(s: string) { s != [] && forall i :: 0 <= i < |s| ==> s[i] != '.' && s[i] < 128 as char }

  datatype Listed = Listed(second: Plain, tld: Plain)

  /** Listed public suffixes of two labels. */
  const TABLE: seq<Listed> := WEST + EAST

  const WEST: seq<Listed> := [
    Listed("in-addr", "arpa"), Listed("ip6", "arpa"),
    Listed("co", "uk"), Listed("org", "uk"), Listed("ac", "uk"), Listed("gov", "uk"), Listed("ltd", "uk"),
    Listed("me", "uk"), Listed("net", "uk"), Listed("plc", "uk"),
    Listed("co", "in"), Listed("ac", "in"), Listed("gov", "in"), Listed("edu", "in"), Listed("net", "in"),
    Listed("org", "in"), Listed("res", "in"),
    Listed("com", "au"), Listed("net", "au"), Listed("org", "au"), Listed("edu", "au"), Listed("gov", "au"),
    Listed("id", "au"),
    Listed("com", "br"), Listed("net", "br"), Listed("gov", "br"), Listed("edu", "br"), Listed("org", "br")
  ]

  const EAST: seq<Listed> := [
    Listed("co", "jp"), Listed("ne", "jp"), Listed("or", "jp"), Listed("ac", "jp"), Listed("go", "jp"),
    Listed("lg", "jp"),
    Listed("co", "kr"), Listed("ne", "kr"), Listed("or", "kr"),
    Listed("com", "cn"), Listed("net", "cn"), Listed("gov", "cn"), Listed("edu", "cn"), Listed("org", "cn"),
    Listed("ac", "cn"),
    Listed("com", "hk"), Listed("edu", "hk"), Listed("gov", "hk"), Listed("org", "hk"),
    Listed("com", "tw"), Listed("net", "tw"), Listed("org", "tw"), Listed("edu", "tw"), Listed("gov", "tw"),
    Listed("com", "sg"), Listed("edu", "sg"), Listed("gov", "sg"),
    Listed("com", "mx"), Listed("gob", "mx"), Listed("edu", "mx"),
    Listed("com", "tr"), Listed("net", "tr"), Listed("edu", "tr"), Listed("gov", "tr"), Listed("org", "tr"),
    Listed("co", "za"), Listed("org", "za"), Listed("ac", "za")
  ]

  function Ascii(s: string): (r: Name)
    ensures |r| == |s|
  {
    seq(|s|, i requires 0 <= i < |s| => s[i] as int % 0x100)
  }

  function Entry(e: Listed): Name { Ascii(e.second) + [DOT] + Ascii(e.tld) }

  function Suffixes(t: seq<Listed>): (r: seq<Name>)
    ensures |r| == |t| && forall i :: 0 <= i < |t| ==> r[i] == Entry(t[i])
  {
    seq(|t|, i requires 0 <= i < |t| => Entry(t[i]))
  }

  const SUFFIXES: seq<Name> := Suffixes(TABLE)

  predicate OnlyDotAt(s: Name, d: nat) { forall i :: 0 <= i < |s| ==> (s[i] == DOT <==> i == d) }

  /** Two non-empty labels: exactly one dot, not at an end. */
  ghost predicate TwoLabels(s: Name) {
    exists d :: 0 < d < |s| - 1 && OnlyDotAt(s, d)
  }

  function Trim(host: Name): Name {
    if host != [] && host[|host| - 1] == DOT then Trim(host[..|host| - 1]) else host
  }

  /** The host is a label or more below the suffix. */
  predicate EndsWithDotSuffix(host: Name, suffix: Name) {
    && |host| > |suffix|
    && host[|host| - |suffix| - 1] == DOT
    && host[|host| - |suffix|..] == suffix
  }

  /** The last dot before `end`, or -1. */
  function LastDot(s: Name, end: nat): (i: int)
    requires end <= |s|
    ensures -1 <= i < end
  {
    if end == 0 then -1 else if s[end - 1] == DOT then end - 1 else LastDot(s, end - 1)
  }

  predicate NoDotIn(s: Name, lo: int, hi: int)
    requires 0 <= lo && hi <= |s|
  {
    forall k :: lo <= k < hi ==> s[k] != DOT
  }

  lemma {:induction false} LastDotIsLast(s: Name, end: nat)
    requires end <= |s|
    ensures LastDot(s, end) >= 0 ==> s[LastDot(s, end)] == DOT
    ensures NoDotIn(s, LastDot(s, end) + 1, end)
  {
    if end > 0 && s[end - 1] != DOT { LastDotIsLast(s, end - 1); }
  }

  /** The last dot is the one with no dot after it. */
  lemma {:induction false} LastDotUnique(s: Name, end: nat, i: int)
    requires end <= |s| && -1 <= i < end && (i >= 0 ==> s[i] == DOT) && NoDotIn(s, i + 1, end)
    ensures LastDot(s, end) == i
  {
    if end > 0 && s[end - 1] != DOT { LastDotUnique(s, end - 1, i); }
  }

  /** The longest listed suffix the host is below, or nothing. */
  function Best(table: seq<Name>, host: Name, best: Name): Name
    decreases |table|
  {
    if table == [] then best
    else Best(table[1..], host, if EndsWithDotSuffix(host, table[0]) && |table[0]| > |best| then table[0] else best)
  }

  /** Where the label to the left of the dot at `dot` starts. */
  function CutPoint(host: Name, dot: nat): (p: nat)
    requires dot <= |host|
    ensures p <= dot
  {
    if dot == 0 then 0 else LastDot(host, dot) + 1
  }

  /** The tail of the host with one label more than what follows `dot`. */
  function OneLabelMore(host: Name, dot: nat): Name
    requires dot <= |host|
  {
    host[CutPoint(host, dot)..]
  }

  function OfTrimmed(table: seq<Name>, host: Name): Name {
    if host == [] then []
    else
      var best := Best(table, host, []);
      if best != [] then
        BestIsBest(table, host, []);
        OneLabelMore(host, |host| - |best| - 1)
      else if LastDot(host, |host|) == -1 then host
      else OneLabelMore(host, LastDot(host, |host|))
  }

  function EtldPlusOne(table: seq<Name>, host: Name): Name { OfTrimmed(table, Trim(host)) }

  method TrimLoop(hostname: Name) returns (host: Name)
    ensures host == Trim(hostname)
  {
    host := hostname;
    while host != [] && host[|host| - 1] == DOT
      invariant Trim(host) == Trim(hostname)
      decreases |host|
    {
      host := host[..|host| - 1];
    }
  }

  method BestLoop(table: seq<Name>, host: Name) returns (best: Name)
    ensures best == Best(table, host, [])
  {
    best := [];
    for i := 0 to |table|
      invariant Best(table[i..], host, best) == Best(table, host, [])
    {
      assert table[i..][1..] == table[i + 1..];
      if EndsWithDotSuffix(host, table[i]) && |table[i]| > |best| { best := table[i]; }
    }
  }

  method EtldPlusOneSteps(table: seq<Name>, hostname: Name) returns (r: Name)
    ensures r == EtldPlusOne(table, hostname)
  {
    hide Trim, Best, LastDot;
    var host := TrimLoop(hostname);
    if host == [] { return []; }
    var best := BestLoop(table, host);
    if best != [] {
      BestIsBest(table, host, []);
      var dot := |host| - |best| - 1;
      if dot == 0 { return host; }
      var prev := LastDot(host, dot);
      if prev == -1 { return host; }
      return host[prev + 1..];
    }
    var last := LastDot(host, |host|);
    if last == -1 { return host; }
    if last == 0 { return host; }
    var prev := LastDot(host, last);
    if prev == -1 { return host; }
    return host[prev + 1..];
  }

  lemma {:induction false} BestIsBest(table: seq<Name>, host: Name, start: Name)
    requires start == [] || EndsWithDotSuffix(host, start)
    ensures var b := Best(table, host, start);
      && (b == [] || EndsWithDotSuffix(host, b)) && |start| <= |b|
      && (b == start || b in table)
      && forall s :: s in table && EndsWithDotSuffix(host, s) ==> |s| <= |b|
    decreases |table|
  {
    if table != [] {
      var better := EndsWithDotSuffix(host, table[0]) && |table[0]| > |start|;
      BestIsBest(table[1..], host, if better then table[0] else start);
      assert forall s :: s in table ==> s == table[0] || s in table[1..];
    }
  }

  lemma {:induction false} TrimIsTrimmed(host: Name)
    ensures var t := Trim(host);
      t <= host && (t == [] || t[|t| - 1] != DOT) && Trim(t) == t
  {
    if host != [] && host[|host| - 1] == DOT {
      TrimIsTrimmed(host[..|host| - 1]);
    }
  }

  ghost predicate IsTrimmed(t: Name) { t == [] || t[|t| - 1] != DOT }

  /** The tail of a name that starts at a label. */
  ghost predicate IsTail(s: Name, t: Name) {
    exists p :: 0 <= p <= |t| && (p == 0 || t[p - 1] == DOT) && s == t[p..]
  }

  lemma {:induction false} CutIsTail(t: Name, dot: nat)
    requires dot <= |t|
    ensures IsTail(OneLabelMore(t, dot), t)
  {
    hide LastDot;
    LastDotIsLast(t, dot);
  }

  /** The result is a tail of the host that starts at a label. */
  lemma {:induction false} ResultIsTail(table: seq<Name>, t: Name)
    requires IsTrimmed(t)
    ensures IsTail(OfTrimmed(table, t), t) && IsTrimmed(OfTrimmed(table, t))
    ensures t != [] ==> OfTrimmed(table, t) != []
  {
    hide LastDot, Best, OneLabelMore;
    BestIsBest(table, t, []);
    assert t == t[0..];
    if t != [] {
      var b := Best(table, t, []);
      if b != [] {
        CutIsTail(t, |t| - |b| - 1);
        CutIsNotEmpty(t, |t| - |b| - 1);
      } else if LastDot(t, |t|) != -1 {
        CutIsTail(t, LastDot(t, |t|));
        CutIsNotEmpty(t, LastDot(t, |t|));
      }
    }
  }

  lemma {:induction false} CutIsNotEmpty(t: Name, dot: nat)
    requires dot < |t| && IsTrimmed(t)
    ensures OneLabelMore(t, dot) != [] && IsTrimmed(OneLabelMore(t, dot))
  {
    hide LastDot;
  }

  /** Cutting a host down to one label above `dot` once more changes nothing. */
  lemma {:induction false} CutTwice(host: Name, dot: nat)
    requires dot < |host| && host[dot] == DOT
    ensures var p := CutPoint(host, dot);
      host[p..][dot - p] == DOT && CutPoint(host[p..], dot - p) == 0 && OneLabelMore(host[p..], dot - p) == host[p..]
  {
    hide LastDot;
    var p := CutPoint(host, dot);
    var r := host[p..];
    var d := dot - p;
    LastDotIsLast(host, dot);
    if d > 0 {
      assert NoDotIn(r, 0, d) by {
        forall k | 0 <= k < d ensures r[k] != DOT { assert r[k] == host[p + k]; }
      }
      LastDotUnique(r, d, -1);
    }
    assert r[0..] == r;
  }

  /** Taking the registrable domain twice is taking it once, whatever the table. */
  lemma {:induction false} EtldPlusOneIdempotent(table: seq<Name>, host: Name)
    ensures EtldPlusOne(table, EtldPlusOne(table, host)) == EtldPlusOne(table, host)
  {
    hide Trim, OfTrimmed;
    TrimIsTrimmed(host);
    var t := Trim(host);
    ResultIsTail(table, t);
    var r := OfTrimmed(table, t);
    TrimmedStays(r);
    IdempotentTrimmed(table, t);
  }

  lemma {:induction false} TrimmedStays(t: Name)
    requires IsTrimmed(t)
    ensures Trim(t) == t
  {
  }

  lemma {:induction false} TailOfTail(t: Name, p: nat, k: nat)
    requires p + k <= |t|
    ensures t[p..][k..] == t[p + k..]
  {
  }

  /** A tail of the host is below a suffix only if the host is; and if it is long enough, it is. */
  lemma {:induction false} TailEndsWith(t: Name, p: nat, s: Name)
    requires p <= |t| && |s| + p <= |t|
    ensures EndsWithDotSuffix(t[p..], s) <==> EndsWithDotSuffix(t, s) && |s| + p < |t|
  {
    TailOfTail(t, p, |t| - p - |s|);
  }

  lemma {:induction false} IdempotentTrimmed(table: seq<Name>, t: Name)
    requires IsTrimmed(t)
    ensures OfTrimmed(table, OfTrimmed(table, t)) == OfTrimmed(table, t)
  {
    hide Best, LastDot, OneLabelMore, CutPoint;
    ResultIsTail(table, t);
    var r := OfTrimmed(table, t);
    BestIsBest(table, t, []);
    BestIsBest(table, r, []);
    var b, c := Best(table, t, []), Best(table, r, []);
    if t != [] && r != t {
      if c != [] { TailEndsWith(t, |t| - |r|, c); }
      if b != [] {
        IdempotentBelow(t, b);
        assert |c| == |b|;
      } else {
        IdempotentPlain(t);
      }
    }
  }

  /** Below a listed suffix: the result is still below it, by one label. */
  lemma {:induction false} IdempotentBelow(t: Name, b: Name)
    requires EndsWithDotSuffix(t, b)
    ensures var r := OneLabelMore(t, |t| - |b| - 1);
      EndsWithDotSuffix(r, b) && OneLabelMore(r, |r| - |b| - 1) == r
  {
    hide CutPoint, EndsWithDotSuffix;
    BelowHasDot(t, b);
    var dot := |t| - |b| - 1;
    CutTwice(t, dot);
    TailEndsWith(t, CutPoint(t, dot), b);
  }

  lemma {:induction false} BelowHasDot(t: Name, b: Name)
    requires EndsWithDotSuffix(t, b)
    ensures |t| > |b| && t[|t| - |b| - 1] == DOT
  {
  }

  /** Below no listed suffix: the result is the last two labels. */
  lemma {:induction false} IdempotentPlain(t: Name)
    requires 0 <= LastDot(t, |t|)
    ensures var r := OneLabelMore(t, LastDot(t, |t|));
      LastDot(r, |r|) >= 0 && OneLabelMore(r, LastDot(r, |r|)) == r
  {
    hide LastDot, CutPoint;
    var dot := LastDot(t, |t|);
    LastDotIsLast(t, |t|);
    CutTwice(t, dot);
    LastDotOfTail(t, CutPoint(t, dot));
  }

  /** The last dot of a tail that holds a dot is the last dot of the host. */
  lemma {:induction false} LastDotOfTail(t: Name, p: nat)
    requires p <= LastDot(t, |t|)
    ensures LastDot(t[p..], |t| - p) == LastDot(t, |t|) - p
  {
    hide LastDot;
    LastDotIsLast(t, |t|);
    var r := t[p..];
    var d := LastDot(t, |t|) - p;
    assert r[d] == t[p + d] == DOT;
    assert NoDotIn(r, d + 1, |r|) by {
      forall k | d + 1 <= k < |r| ensures r[k] != DOT { assert r[k] == t[p + k]; }
    }
    LastDotUnique(r, |r|, d);
  }

  // ----- prefixing labels -----

  function Prefixed(l: Name, t: Name): Name { l + [DOT] + t }

  /** A name of two labels has no second dot. */
  lemma {:induction false} TwoLabelsOneDot(s: Name, i: nat, j: nat)
    requires TwoLabels(s) && i < j < |s| && s[i] == DOT
    ensures s[j] != DOT
  {
  }

  lemma {:induction false} PrefixedBytes(l: Name, t: Name, k: nat)
    requires k < |t|
    ensures Prefixed(l, t)[|l| + 1 + k] == t[k]
  {
  }

  lemma {:induction false} PrefixedTail(l: Name, t: Name, k: nat)
    requires k <= |t|
    ensures Prefixed(l, t)[|l| + 1 + k..] == t[k..]
  {
  }

  /** A suffix of two labels that the longer host is below is the shorter host, or it is below it too. */
  lemma {:induction false} SameCandidates(l: Name, t: Name, s: Name)
    requires TwoLabels(s) && 0 <= LastDot(t, |t|)
    ensures EndsWithDotSuffix(Prefixed(l, t), s) <==> EndsWithDotSuffix(t, s) || s == t
  {
    hide LastDot, TwoLabels;
    var u := Prefixed(l, t);
    LastDotIsLast(t, |t|);
    if |s| < |t| {
      PrefixedBytes(l, t, |t| - |s| - 1);
      PrefixedTail(l, t, |t| - |s|);
    } else if |s| == |t| {
      PrefixedTail(l, t, 0);
      assert t[0..] == t;
    } else if EndsWithDotSuffix(u, s) {
      var j := |s| - |t|;
      var k := LastDot(t, |t|);
      assert s[j - 1] == u[|u| - |s| + j - 1] == DOT;
      assert s[j + k] == u[|u| - |s| + j + k] == t[k];
      TwoLabelsOneDot(s, j - 1, j + k);
    }
  }

  /** Before any position of the host the last dot is the same dot, the one put in front if there is no other. */
  lemma {:induction false} LastDotPrefixed(l: Name, t: Name, end: nat)
    requires end <= |t|
    ensures |Prefixed(l, t)| == |l| + 1 + |t| && LastDot(Prefixed(l, t), |l| + 1 + end) == |l| + 1 + LastDot(t, end)
    decreases end
  {
    if end == 0 {
      assert Prefixed(l, t)[|l|] == DOT;
    } else {
      PrefixedBytes(l, t, end - 1);
      if t[end - 1] != DOT { LastDotPrefixed(l, t, end - 1); }
    }
  }

  /** One label more above the same dot is the same tail, with or without the prefix. */
  lemma {:induction false} SameCut(l: Name, t: Name, dot: nat)
    requires dot <= |t|
    ensures |Prefixed(l, t)| == |l| + 1 + |t| && OneLabelMore(Prefixed(l, t), |l| + 1 + dot) == OneLabelMore(t, dot)
  {
    hide LastDot, Prefixed;
    LastDotPrefixed(l, t, dot);
    PrefixedTail(l, t, CutPoint(t, dot));
  }

  ghost predicate AllTwoLabels(table: seq<Name>) { forall s :: s in table ==> TwoLabels(s) }

  lemma {:induction false} SameBest(table: seq<Name>, l: Name, t: Name)
    requires AllTwoLabels(table) && 0 <= LastDot(t, |t|) && t !in table
    ensures Best(table, Prefixed(l, t), []) == Best(table, t, [])
  {
    hide Best, LastDot, TwoLabels;
    var u := Prefixed(l, t);
    BestIsBest(table, t, []);
    BestIsBest(table, u, []);
    var b, c := Best(table, t, []), Best(table, u, []);
    if b != [] { SameCandidates(l, t, b); }
    if c != [] { SameCandidates(l, t, c); }
    if b != [] && c != [] {
      assert u[|u| - |c|..] == c && t[|t| - |b|..] == b;
      PrefixedTail(l, t, |t| - |b|);
    }
  }

  /** What is below a suffix of two labels has three. */
  lemma {:induction false} BelowHasMore(t: Name, b: Name)
    requires TwoLabels(b) && EndsWithDotSuffix(t, b)
    ensures !TwoLabels(t)
  {
    var at := |t| - |b|;
    var e :| 0 < e < |b| - 1 && OnlyDotAt(b, e);
    assert t[at + e] == t[at..][e] == DOT;
    if TwoLabels(t) { TwoLabelsOneDot(t, at - 1, at + e); }
  }

  lemma {:induction false} ListedStays(table: seq<Name>, t: Name)
    requires AllTwoLabels(table) && t in table
    ensures OfTrimmed(table, t) == t && 0 <= LastDot(t, |t|)
  {
    hide Best, LastDot;
    BestIsBest(table, t, []);
    var d :| 0 < d < |t| - 1 && OnlyDotAt(t, d);
    LastDotUnique(t, |t|, d);
    LastDotUnique(t, d, -1);
    if Best(table, t, []) != [] { BelowHasMore(t, Best(table, t, [])); }
    assert t[0..] == t;
  }

  lemma {:induction false} ListedMoves(table: seq<Name>, l: Name, t: Name)
    requires AllTwoLabels(table) && t in table && 0 <= LastDot(t, |t|)
    ensures |OfTrimmed(table, Prefixed(l, t))| > |t|
  {
    hide Best, LastDot, TwoLabels;
    var u := Prefixed(l, t);
    BestIsBest(table, u, []);
    SameCandidates(l, t, t);
    var b := Best(table, u, []);
    SameCandidates(l, t, b);
  }

  lemma {:induction false} PrefixKeepsTrimmed(table: seq<Name>, l: Name, t: Name)
    requires AllTwoLabels(table) && IsTrimmed(t) && 0 <= LastDot(t, |t|)
    ensures EtldPlusOne(table, Prefixed(l, t)) == EtldPlusOne(table, t) <==> t !in table
  {
    hide Best, LastDot, TwoLabels, OneLabelMore, Trim;
    var u := Prefixed(l, t);
    TrimmedStays(t);
    TrimmedStays(u);
    if t in table {
      ListedStays(table, t);
      ListedMoves(table, l, t);
    } else {
      SameBest(table, l, t);
      BestIsBest(table, t, []);
      var b := Best(table, t, []);
      if b != [] {
        SameCut(l, t, |t| - |b| - 1);
      } else {
        var d := LastDot(t, |t|);
        SameCut(l, t, d);
        LastDotPrefixed(l, t, |t|);
      }
    }
  }

  lemma {:induction false} TrimPrefixed(l: Name, t: Name)
    requires Trim(t) != []
    ensures Trim(Prefixed(l, t)) == Prefixed(l, Trim(t))
    decreases |t|
  {
    var u := Prefixed(l, t);
    if t != [] && t[|t| - 1] == DOT {
      assert u[..|u| - 1] == Prefixed(l, t[..|t| - 1]);
      TrimPrefixed(l, t[..|t| - 1]);
    }
  }

  /** A suffix of two labels reaches back over the only dot. */
  lemma {:induction false} ReachesDot(l: Name, t: Name, b: Name)
    requires TwoLabels(b) && EndsWithDotSuffix(Prefixed(l, t), b) && LastDot(t, |t|) == -1
    ensures |b| > |t|
  {
    LastDotIsLast(t, |t|);
    var u := Prefixed(l, t);
    var k :| 0 < k < |b| - 1 && OnlyDotAt(b, k);
    assert u[|u| - |b|..][k] == b[k];
  }

  lemma {:induction false} UndottedMoves(table: seq<Name>, l: Name, t: Name)
    requires AllTwoLabels(table) && LastDot(t, |t|) == -1
    ensures |OfTrimmed(table, Prefixed(l, t))| > |t|
  {
    hide Best, LastDot, TwoLabels;
    var u := Prefixed(l, t);
    BestIsBest(table, u, []);
    LastDotPrefixed(l, t, |t|);
    if Best(table, u, []) != [] { ReachesDot(l, t, Best(table, u, [])); }
  }

  /** Putting labels in front of a host that is not made of dots alone leaves its registrable domain alone exactly
      when the host, less its trailing dots, has a dot and is not itself a listed suffix. */
  lemma {:induction false} PrefixKeepsExactly(table: seq<Name>, l: Name, t: Name)
    requires AllTwoLabels(table) && Trim(t) != []
    ensures EtldPlusOne(table, Prefixed(l, t)) == EtldPlusOne(table, t) <==> DOT in Trim(t) && Trim(t) !in table
  {
    hide LastDot, Trim, Prefixed, OneLabelMore;
    TrimIsTrimmed(t);
    TrimPrefixed(l, t);
    TrimmedStays(Trim(t));
    PrefixedTrimmed(l, Trim(t));
    TrimmedStays(Prefixed(l, Trim(t)));
    LastDotIsLast(Trim(t), |Trim(t)|);
    if DOT in Trim(t) {
      PrefixKeepsTrimmed(table, l, Trim(t));
    } else {
      UndottedMoves(table, l, Trim(t));
      UndottedStays(table, Trim(t));
    }
  }

  lemma {:induction false} UndottedStays(table: seq<Name>, t: Name)
    requires DOT !in t
    ensures OfTrimmed(table, t) == t
  {
    hide Best, LastDot;
    BestIsBest(table, t, []);
    LastDotIsLast(t, |t|);
  }

  lemma {:induction false} PrefixedTrimmed(l: Name, t: Name)
    requires IsTrimmed(t) && t != []
    ensures IsTrimmed(Prefixed(l, t))
  {
  }

  // ----- the table -----

  lemma {:induction false} EntryTwoLabels(e: Listed)
    ensures TwoLabels(Entry(e))
  {
    var s := Entry(e);
    var d := |e.second|;
    forall i | 0 <= i < |s| ensures s[i] == DOT <==> i == d {
      assert i < d ==> e.second[i] != '.';
      assert i > d ==> e.tld[i - d - 1] != '.';
    }
    assert OnlyDotAt(s, d);
  }

  /** Every listed suffix has two labels, so the statements above hold of the real table. */
  lemma {:induction false} TableIsTwoLabels()
    ensures AllTwoLabels(SUFFIXES)
  {
    hide TwoLabels;
    forall s | s in SUFFIXES ensures TwoLabels(s) {
      var i :| 0 <= i < |SUFFIXES| && SUFFIXES[i] == s;
      EntryTwoLabels(TABLE[i]);
    }
  }

  /** Listed hosts exist: whatever is put in front of co.uk changes its registrable domain. */
  lemma {:induction false} PrefixMovesCoUk(l: Name)
    ensures var t: Name := [99, 111, DOT, 117, 107];
      EtldPlusOne(SUFFIXES, Prefixed(l, t)) != EtldPlusOne(SUFFIXES, t)
  {
    hide EtldPlusOne, Prefixed;
    var t: Name := [99, 111, DOT, 117, 107];
    assert TABLE[2] == Listed("co", "uk");
    assert Entry(TABLE[2]) == t && SUFFIXES[2] == t;
    LastDotUnique(t, 5, 2);
    TableIsTwoLabels();
    TrimmedStays(t);
    PrefixKeepsExactly(SUFFIXES, l, t);
  }
}
