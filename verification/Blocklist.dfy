/** Rule matching: src/blocklist.cpp. */
module Blocklist {
  import opened Wire
  import opened Names

  /** A compiled pattern is an abstract predicate; only its text is known. */
  datatype Regex = Regex(pattern: Name, matches: Name -> bool)

  datatype MatchKind = NoMatch | Exact | Suffix | ByRegex

  datatype MatchResult = MatchResult(blocked: bool, rule: Name, kind: MatchKind)

  const CLEAR := MatchResult(false, [], NoMatch)

  datatype Rules = Rules(exact: set<Name>, suffix: set<Name>, regex: seq<Regex>, allowExact: set<Name>,
                         allowSuffix: set<Name>)

  const NO_RULES := Rules({}, {}, [], {}, {})

  predicate IsDomainChar(c: Byte) {
    97 <= c <= 122 || 48 <= c <= 57 || c == 45 || c == DOT || c == 95
  }

  predicate IsAlnum(c: Byte) { 97 <= c <= 122 || 48 <= c <= 57 }

  predicate IsDomain(s: Name) {
    && 0 < |s| <= 255 && s[0] != DOT && s[|s| - 1] != DOT
    && (forall i :: 0 <= i < |s| ==> IsDomainChar(s[i]))
    && (exists i :: 0 <= i < |s| && IsAlnum(s[i]))
  }

  /** `is_valid_domain`, byte by byte. */
  method CheckDomain(s: Name) returns (ok: bool)
    ensures ok == IsDomain(s)
  {
    if |s| == 0 || |s| > 255 { return false; }
    if s[0] == DOT || s[|s| - 1] == DOT { return false; }
    ok := false;
    for i := 0 to |s|
      invariant forall k :: 0 <= k < i ==> IsDomainChar(s[k])
      invariant ok <==> exists k :: 0 <= k < i && IsAlnum(s[k])
    {
      if !IsDomainChar(s[i]) { return false; }
      if IsAlnum(s[i]) { ok := true; }
    }
  }

  predicate LetterOrDigit(c: char) { 'a' <= c <= 'z' || '0' <= c <= '9' }

  /** A label of a host name: letters, digits, hyphens and underscores. */
  predicate IsHostLabel(l: Name) {
    l != [] && forall i :: 0 <= i < |l| ==> LetterOrDigit(l[i] as char) || l[i] as char == '-' || l[i] as char == '_'
  }

  /** Host names are made of letters, digits, hyphens and underscores, in labels between single dots. */
  lemma {:induction false} JoinedChars(ls: seq<Name>)
    requires ls != [] && forall k :: 0 <= k < |ls| ==> IsHostLabel(ls[k])
    ensures var s := Join(ls);
      s != [] && s[0] != DOT && s[|s| - 1] != DOT && forall i :: 0 <= i < |s| ==> IsDomainChar(s[i])
  {
    LabelChars(ls[0]);
    if |ls| > 1 {
      JoinedChars(ls[1..]);
      assert Join(ls) == ls[0] + [DOT] + Join(ls[1..]);
    }
  }

  lemma {:induction false} LabelChars(l: Name)
    requires IsHostLabel(l)
    ensures forall i :: 0 <= i < |l| ==> IsDomainChar(l[i]) && l[i] != DOT
  {
  }

  /** Every host name of at most 255 bytes with a letter or digit in it is taken into a list. */
  lemma {:induction false} HostNamesAreDomains(ls: seq<Name>, k: nat)
    requires (forall j :: 0 <= j < |ls| ==> IsHostLabel(ls[j])) && k < |Join(ls)| <= 255
    requires LetterOrDigit(Join(ls)[k] as char)
    ensures IsDomain(Join(ls))
  {
    JoinedChars(ls);
    assert IsAlnum(Join(ls)[k]);
  }

  /** ... and nothing is taken that is empty or longer, begins or ends with a dot, has another byte in it, or no letter
      or digit. */
  lemma {:induction false} DomainsAre(s: Name)
    ensures IsDomain(s) <==>
      && 1 <= |s| <= 255 && s[0] as char != '.' && s[|s| - 1] as char != '.'
      && (forall i :: 0 <= i < |s| ==>
            LetterOrDigit(s[i] as char) || s[i] as char == '-' || s[i] as char == '_' || s[i] as char == '.')
      && (exists i :: 0 <= i < |s| && LetterOrDigit(s[i] as char))
  {
    assert forall c: Byte :: IsAlnum(c) <==> LetterOrDigit(c as char);
  }

  /** What every list holds: only names that passed the check, so no rule is empty. */
  ghost predicate Sound(r: Rules) {
    forall s :: s in r.exact + r.suffix + r.allowExact + r.allowSuffix ==> IsDomain(s)
  }

  // ----- suffix search -----

  /** A tail of the name that starts at a label. */
  predicate Aligned(qname: Name, pos: nat) {
    pos <= |qname| && (pos == 0 || qname[pos - 1] == DOT)
  }

  /** The rule is the name itself or a parent of it. */
  ghost predicate Covers(rule: Name, qname: Name) {
    exists pos: nat :: Aligned(qname, pos) && rule == qname[pos..]
  }

  /** The longest label-aligned tail from `pos` on that is in the set. */
  function LongestFrom(rules: set<Name>, qname: Name, pos: nat): Option<Name>
    decreases |qname| - pos
  {
    if pos > |qname| then None
    else if Aligned(qname, pos) && qname[pos..] in rules then Some(qname[pos..])
    else if pos == |qname| then None
    else LongestFrom(rules, qname, pos + 1)
  }

  method FindSuffixMatch(rules: set<Name>, qname: Name) returns (r: Option<Name>)
    ensures r == LongestFrom(rules, qname, 0)
  {
    var pos: nat := 0;
    while pos <= |qname|
      invariant pos <= |qname| && Aligned(qname, pos)
      invariant LongestFrom(rules, qname, 0) == LongestFrom(rules, qname, pos)
      decreases |qname| - pos
    {
      if qname[pos..] in rules { return Some(qname[pos..]); }
      var dot := pos;
      while dot < |qname| && qname[dot] != DOT
        invariant pos <= dot <= |qname|
        invariant forall k :: pos <= k < dot ==> qname[k] != DOT
        invariant LongestFrom(rules, qname, pos) == LongestFrom(rules, qname, if dot == pos then pos else dot)
      {
        dot := dot + 1;
      }
      if dot == |qname| {
        assert LongestFrom(rules, qname, dot) == None;
        break;
      }
      pos := dot + 1;
    }
    return None;
  }

  /** The search finds the longest rule that covers the name, and misses none. */
  lemma {:induction false} LongestIsLongest(rules: set<Name>, qname: Name, pos: nat)
    requires pos <= |qname|
    ensures match LongestFrom(rules, qname, pos)
      case None => forall p: nat :: pos <= p && Aligned(qname, p) ==> qname[p..] !in rules
      case Some(s) => (
        && s in rules && Covers(s, qname) && |s| <= |qname| - pos
        && forall p: nat :: pos <= p && Aligned(qname, p) && qname[p..] in rules ==> |qname[p..]| <= |s|)
    decreases |qname| - pos
  {
    if Aligned(qname, pos) && qname[pos..] in rules {
    } else if pos < |qname| {
      LongestIsLongest(rules, qname, pos + 1);
    }
  }

  // ----- match -----

  /** Length of the strongest rule; 0 means none. */
  function AllowLen(r: Rules, qname: Name): nat {
    var direct := if qname in r.allowExact then |qname| else 0;
    match LongestFrom(r.allowSuffix, qname, 0)
    case None => direct
    case Some(s) => if |s| > direct then |s| else direct
  }

  /** The strongest deny rule among names, and its length. */
  function NameDeny(r: Rules, qname: Name): (MatchResult, nat) {
    var direct := if qname in r.exact then (MatchResult(true, qname, Exact), |qname|) else (CLEAR, 0);
    match LongestFrom(r.suffix, qname, 0)
    case None => direct
    case Some(s) =>
      if |s| > direct.1 || (|s| == direct.1 && direct.0.kind != Exact) then (MatchResult(true, s, Suffix), |s|)
      else direct
  }

  function FirstRegex(rs: seq<Regex>, qname: Name): Option<Name> {
    if rs == [] then None
    else if rs[0].matches(qname) then Some(rs[0].pattern)
    else FirstRegex(rs[1..], qname)
  }

  /** The pattern that counts is the first in the list that matches. */
  lemma {:induction false} FirstRegexIsFirst(rs: seq<Regex>, qname: Name)
    ensures match FirstRegex(rs, qname)
      case None => forall i :: 0 <= i < |rs| ==> !rs[i].matches(qname)
      case Some(p) =>
        exists i :: 0 <= i < |rs| && rs[i].matches(qname) && rs[i].pattern == p
                    && forall j :: 0 <= j < i ==> !rs[j].matches(qname)
  {
    if rs != [] && !rs[0].matches(qname) {
      FirstRegexIsFirst(rs[1..], qname);
      assert forall i :: 1 <= i < |rs| ==> rs[i] == rs[1..][i - 1];
      if i :| 0 <= i < |rs| - 1 && rs[1..][i].matches(qname) && Some(rs[1..][i].pattern) == FirstRegex(rs, qname)
              && forall j :: 0 <= j < i ==> !rs[1..][j].matches(qname) {
        assert rs[i + 1].matches(qname);
      }
    }
  }

  function Deny(r: Rules, qname: Name): (MatchResult, nat) {
    var byName := NameDeny(r, qname);
    if byName.1 != 0 then byName
    else
      match FirstRegex(r.regex, qname)
      case None => byName
      case Some(p) => (MatchResult(true, p, ByRegex), |p|)
  }

  function Match(r: Rules, qname: Name): MatchResult {
    if qname == [] then CLEAR
    else
      var (hit, denyLen) := Deny(r, qname);
      var allowLen := AllowLen(r, qname);
      if allowLen == 0 && denyLen == 0 then CLEAR
      else if allowLen > 0 && allowLen >= denyLen then CLEAR
      else hit
  }

  class Blocklist {
    var exact: set<Name>
    var suffix: set<Name>
    var regex: seq<Regex>
    var allowExact: set<Name>
    var allowSuffix: set<Name>

    function Value(): Rules
      reads this
    {
      Rules(exact, suffix, regex, allowExact, allowSuffix)
    }

    /** Only names that passed the check are in the sets. */
    ghost predicate Valid()
      reads this
    {
      Sound(Value())
    }

    constructor ()
      ensures Valid() && Value() == NO_RULES
    {
      exact, suffix, regex, allowExact, allowSuffix := {}, {}, [], {}, {};
    }

    method AddExact(name: Name)
      requires Valid()
      modifies this
      ensures Valid() && Value() == AddedExact(old(Value()), name)
    {
      var s := LowerAll(name);
      var ok := CheckDomain(s);
      if !ok { return; }
      exact := exact + {s};
    }

    method AddSuffix(name: Name)
      requires Valid()
      modifies this
      ensures Valid() && Value() == AddedSuffix(old(Value()), name)
    {
      var s := LowerAll(name);
      var ok := CheckDomain(s);
      if !ok { return; }
      suffix := suffix + {s};
    }

    method AddRegex(rx: Regex)
      requires Valid()
      modifies this
      ensures Valid() && Value() == old(Value()).(regex := old(regex) + [rx])
    {
      regex := regex + [rx];
    }

    method AddAllowExact(name: Name)
      requires Valid()
      modifies this
      ensures Valid() && Value() == AddedAllowExact(old(Value()), name)
    {
      var s := LowerAll(name);
      var ok := CheckDomain(s);
      if !ok { return; }
      allowExact := allowExact + {s};
    }

    method AddAllowSuffix(name: Name)
      requires Valid()
      modifies this
      ensures Valid() && Value() == AddedAllowSuffix(old(Value()), name)
    {
      var s := LowerAll(name);
      var ok := CheckDomain(s);
      if !ok { return; }
      allowSuffix := allowSuffix + {s};
    }

    method Allowed(qname: Name) returns (r: bool)
      ensures r <==> qname != [] && (qname in allowExact || exists rule :: rule in allowSuffix && Covers(rule, qname))
    {
      if qname == [] { return false; }
      if qname in allowExact { return true; }
      var hit := FindSuffixMatch(allowSuffix, qname);
      LongestIsLongest(allowSuffix, qname, 0);
      return hit.Some?;
    }

    method MatchName(qname: Name) returns (r: MatchResult)
      requires Valid()
      ensures r == Match(Value(), qname) && (r.blocked <==> ShouldBlock(Value(), qname))
    {
      hide ShouldBlock, Sound;
      MatchIsLongestMatch(Value(), qname);
      if qname == [] { return CLEAR; }
      var allowLen := 0;
      if qname in allowExact { allowLen := |qname|; }
      var a := FindSuffixMatch(allowSuffix, qname);
      if a.Some? && |a.value| > allowLen { allowLen := |a.value|; }
      var deny, denyLen := CLEAR, 0;
      if qname in exact { deny, denyLen := MatchResult(true, qname, Exact), |qname|; }
      var d := FindSuffixMatch(suffix, qname);
      if d.Some? && (|d.value| > denyLen || (|d.value| == denyLen && deny.kind != Exact)) {
        deny, denyLen := MatchResult(true, d.value, Suffix), |d.value|;
      }
      if denyLen == 0 {
        for i := 0 to |regex|
          invariant FirstRegex(regex, qname) == FirstRegex(regex[i..], qname)
          invariant deny == NameDeny(Value(), qname).0 && denyLen == 0
        {
          assert regex[i..][1..] == regex[i + 1..];
          if regex[i].matches(qname) {
            deny, denyLen := MatchResult(true, regex[i].pattern, ByRegex), |regex[i].pattern|;
            break;
          }
        }
      }
      if allowLen == 0 && denyLen == 0 { return CLEAR; }
      if allowLen > 0 && allowLen >= denyLen { return CLEAR; }
      return deny;
    }
  }

  function AddedExact(r: Rules, name: Name): Rules {
    if IsDomain(LowerAll(name)) then r.(exact := r.exact + {LowerAll(name)}) else r
  }

  function AddedSuffix(r: Rules, name: Name): Rules {
    if IsDomain(LowerAll(name)) then r.(suffix := r.suffix + {LowerAll(name)}) else r
  }

  function AddedAllowExact(r: Rules, name: Name): Rules {
    if IsDomain(LowerAll(name)) then r.(allowExact := r.allowExact + {LowerAll(name)}) else r
  }

  function AddedAllowSuffix(r: Rules, name: Name): Rules {
    if IsDomain(LowerAll(name)) then r.(allowSuffix := r.allowSuffix + {LowerAll(name)}) else r
  }

  // ----- what a match means -----

  /** The rule applies to the name: an exact rule is the name, a suffix rule covers it. */
  ghost predicate Applies(exact: set<Name>, suffix: set<Name>, rule: Name, qname: Name) {
    (rule in exact && rule == qname) || (rule in suffix && Covers(rule, qname))
  }

  ghost predicate Denies(r: Rules, rule: Name, qname: Name) { Applies(r.exact, r.suffix, rule, qname) }

  ghost predicate Allows(r: Rules, rule: Name, qname: Name) { Applies(r.allowExact, r.allowSuffix, rule, qname) }

  /** A rule of this length is strictly longer than every allow rule that applies. */
  ghost predicate OutranksAllow(r: Rules, len: nat, qname: Name) {
    forall a :: Allows(r, a, qname) ==> |a| < len
  }

  /** The longest-match rule. A pattern counts only where no deny rule applies by name. */
  ghost predicate ShouldBlock(r: Rules, qname: Name) {
    && qname != []
    && if exists d :: Denies(r, d, qname) then exists d :: Denies(r, d, qname) && OutranksAllow(r, |d|, qname)
       else FirstRegex(r.regex, qname).Some? && |FirstRegex(r.regex, qname).value| > 0
            && OutranksAllow(r, |FirstRegex(r.regex, qname).value|, qname)
  }

  /** The longest applicable rule of a pair of sets. */
  lemma {:induction false} LongestApplies(exact: set<Name>, suffix: set<Name>, qname: Name)
    ensures match LongestFrom(suffix, qname, 0)
      case None => forall s :: Applies(exact, suffix, s, qname) ==> s == qname && s in exact
      case Some(l) =>
        Applies(exact, suffix, l, qname)
        && forall s :: Applies(exact, suffix, s, qname) ==> |s| <= |l| || (s == qname && s in exact)
  {
    LongestIsLongest(suffix, qname, 0);
    forall s | s in suffix && Covers(s, qname)
      ensures LongestFrom(suffix, qname, 0).Some? && |s| <= |LongestFrom(suffix, qname, 0).value|
    {
      var pos: nat :| Aligned(qname, pos) && s == qname[pos..];
    }
  }

  lemma {:induction false} AllowLenIsLongest(r: Rules, qname: Name)
    requires Sound(r) && qname != []
    ensures forall a :: Allows(r, a, qname) ==> |a| <= AllowLen(r, qname)
    ensures AllowLen(r, qname) > 0 ==> exists a :: Allows(r, a, qname) && |a| == AllowLen(r, qname)
    ensures AllowLen(r, qname) == 0 <==> forall a :: !Allows(r, a, qname)
  {
    hide LongestFrom;
    LongestApplies(r.allowExact, r.allowSuffix, qname);
    assert forall a :: Allows(r, a, qname) ==> IsDomain(a);
    if qname in r.allowExact { assert Allows(r, qname, qname); }
    var l := LongestFrom(r.allowSuffix, qname, 0);
    if l.Some? { assert Allows(r, l.value, qname); }
  }

  lemma {:induction false} NameDenyIsLongest(r: Rules, qname: Name)
    requires Sound(r) && qname != []
    ensures var (hit, len) := NameDeny(r, qname);
      && (len == 0 <==> forall d :: !Denies(r, d, qname))
      && (len == 0 ==> hit == CLEAR)
      && (len > 0 ==> hit.blocked && Denies(r, hit.rule, qname) && |hit.rule| == len)
      && (len > 0 ==> forall d :: Denies(r, d, qname) ==> |d| <= len)
      && (len > 0 ==> hit.kind == if qname in r.exact then Exact else Suffix)
  {
    hide LongestFrom;
    LongestApplies(r.exact, r.suffix, qname);
    LongestIsLongest(r.suffix, qname, 0);
    assert forall d :: Denies(r, d, qname) ==> IsDomain(d);
    if qname in r.exact { assert Denies(r, qname, qname); }
    var l := LongestFrom(r.suffix, qname, 0);
    if l.Some? { assert Denies(r, l.value, qname); }
  }

  /** `match` is the longest-match rule: a name is blocked exactly when its longest deny rule is strictly
      longer than every allow rule that applies, and the reported rule is that one. */
  lemma {:induction false} MatchIsLongestMatch(r: Rules, qname: Name)
    requires Sound(r)
    ensures Match(r, qname).blocked <==> ShouldBlock(r, qname)
    ensures !Match(r, qname).blocked ==> Match(r, qname) == CLEAR
    ensures Match(r, qname).blocked && Match(r, qname).kind != ByRegex ==>
      Denies(r, Match(r, qname).rule, qname) && forall d :: Denies(r, d, qname) ==> |d| <= |Match(r, qname).rule|
    ensures Match(r, qname).kind == ByRegex ==>
      (forall d :: !Denies(r, d, qname)) && Some(Match(r, qname).rule) == FirstRegex(r.regex, qname)
  {
    hide AllowLen, NameDeny, Applies, FirstRegex;
    if qname != [] {
      AllowLenIsLongest(r, qname);
      NameDenyIsLongest(r, qname);
      var (hit, len) := NameDeny(r, qname);
      if len > 0 { assert Denies(r, hit.rule, qname); }
    }
  }

  // ----- adding rules -----

  /** The name itself and every name below it. */
  ghost predicate AtOrBelow(qname: Name, name: Name) { qname == name || exists l :: qname == l + [DOT] + name }

  lemma {:induction false} BelowIsCovered(qname: Name, name: Name)
    requires AtOrBelow(qname, name)
    ensures Covers(name, qname)
  {
    if qname == name {
      assert Aligned(qname, 0) && name == qname[0..];
    } else {
      var l :| qname == l + [DOT] + name;
      assert Aligned(qname, |l| + 1) && name == qname[|l| + 1..];
    }
  }

  /** What a deny rule is for: once a domain has been added, in whatever case, it is blocked, and as a suffix rule
      every name below it too, unless an allow rule applies. */
  lemma {:induction false} DenyBlocks(r: Rules, name: Name, qname: Name)
    requires Sound(r) && IsDomain(LowerAll(name)) && forall a :: !Allows(r, a, qname)
    ensures qname == LowerAll(name) ==> Match(AddedExact(r, name), qname).blocked
    ensures AtOrBelow(qname, LowerAll(name)) ==> Match(AddedSuffix(r, name), qname).blocked
  {
    hide Match, IsDomain, LowerAll, Covers, FirstRegex;
    var d := LowerAll(name);
    AddingKeepsSound(r, name);
    NotEmpty(d);
    if qname == d { DenyApplies(r, AddedExact(r, name), d, qname); }
    if AtOrBelow(qname, d) {
      BelowIsCovered(qname, d);
      DenyApplies(r, AddedSuffix(r, name), d, qname);
    }
  }

  lemma {:induction false} DenyApplies(r: Rules, s: Rules, d: Name, qname: Name)
    requires Sound(s) && Denies(s, d, qname) && qname != []
    requires s.allowExact == r.allowExact && s.allowSuffix == r.allowSuffix && forall a :: !Allows(r, a, qname)
    ensures Match(s, qname).blocked
  {
    hide Match, IsDomain, Covers, FirstRegex;
    MatchIsLongestMatch(s, qname);
    assert forall a :: Allows(s, a, qname) ==> Allows(r, a, qname);
    assert OutranksAllow(s, |d|, qname);
  }

  lemma {:induction false} NotEmpty(d: Name)
    requires IsDomain(d)
    ensures d != []
  {
  }

  /** What an allow rule is for: a name it applies to is blocked only by a longer deny rule, or by a longer pattern. */
  lemma {:induction false} AllowProtects(r: Rules, name: Name, qname: Name)
    requires Sound(r) && IsDomain(LowerAll(name)) && AtOrBelow(qname, LowerAll(name))
    ensures var m := Match(AddedAllowSuffix(r, name), qname); m.blocked ==> |m.rule| > |name|
  {
    hide Match, FirstRegex, IsDomain, LowerAll, Covers;
    var d, s := LowerAll(name), AddedAllowSuffix(r, name);
    AddingKeepsSound(r, name);
    MatchIsLongestMatch(s, qname);
    BelowIsCovered(qname, d);
    assert Allows(s, d, qname);
  }

  lemma {:induction false} AddingKeepsSound(r: Rules, name: Name)
    requires Sound(r)
    ensures Sound(AddedExact(r, name)) && Sound(AddedSuffix(r, name))
    ensures Sound(AddedAllowExact(r, name)) && Sound(AddedAllowSuffix(r, name))
  {
  }

  /** Adding an allow rule never blocks a name, with or without patterns. */
  lemma {:induction false} AllowNeverBlocks(r: Rules, name: Name, qname: Name)
    requires Sound(r) && !Match(r, qname).blocked
    ensures !Match(AddedAllowExact(r, name), qname).blocked && !Match(AddedAllowSuffix(r, name), qname).blocked
  {
    hide Match, FirstRegex;
    AddingKeepsSound(r, name);
    MatchIsLongestMatch(r, qname);
    MoreAllowStillClear(r, AddedAllowExact(r, name), qname);
    MoreAllowStillClear(r, AddedAllowSuffix(r, name), qname);
  }

  lemma {:induction false} MoreAllowStillClear(r: Rules, s: Rules, qname: Name)
    requires Sound(r) && Sound(s) && !ShouldBlock(r, qname)
    requires s.exact == r.exact && s.suffix == r.suffix && s.regex == r.regex
    requires r.allowExact <= s.allowExact && r.allowSuffix <= s.allowSuffix
    ensures !Match(s, qname).blocked
  {
    hide Match, FirstRegex, Covers;
    MatchIsLongestMatch(s, qname);
    assert forall a :: Allows(r, a, qname) ==> Allows(s, a, qname);
    assert forall d :: Denies(s, d, qname) <==> Denies(r, d, qname);
    forall len: nat | OutranksAllow(s, len, qname) ensures OutranksAllow(r, len, qname) {
      forall a | Allows(r, a, qname) ensures |a| < len { assert Allows(s, a, qname); }
    }
  }

  /** One more deny rule. */
  ghost predicate AddsDeny(r: Rules, s: Rules, rule: Name) {
    s == r.(exact := r.exact + {rule}) || s == r.(suffix := r.suffix + {rule})
  }

  /** Exactly when a new deny rule unblocks a name: the name was blocked by a pattern alone, the new rule
      applies to it, and some allow rule that applies is at least as long as the new rule. The shorter
      name rule then takes the place of the longer pattern. */
  lemma {:induction false} DenyUnblocksExactly(r: Rules, s: Rules, rule: Name, qname: Name)
    requires Sound(r) && Sound(s) && AddsDeny(r, s, rule)
    ensures Match(r, qname).blocked && !Match(s, qname).blocked <==>
      && Match(r, qname).kind == ByRegex
      && Denies(s, rule, qname)
      && exists a :: Allows(r, a, qname) && |a| >= |rule|
  {
    hide Match, FirstRegex, Covers;
    MatchIsLongestMatch(r, qname);
    MatchIsLongestMatch(s, qname);
    assert forall d :: Denies(s, d, qname) <==> Denies(r, d, qname) || (d == rule && Denies(s, rule, qname));
    assert forall a :: Allows(s, a, qname) <==> Allows(r, a, qname);
    assert forall len: nat :: OutranksAllow(s, len, qname) <==> OutranksAllow(r, len, qname);
  }

  /** So a list of names only, such as the daemon loads, never lets more through by growing. */
  lemma {:induction false} DenyNeverUnblocks(r: Rules, name: Name, qname: Name)
    requires Sound(r) && r.regex == [] && Match(r, qname).blocked
    ensures Match(AddedExact(r, name), qname).blocked && Match(AddedSuffix(r, name), qname).blocked
  {
    hide Match;
    AddingKeepsSound(r, name);
    MatchIsLongestMatch(r, qname);
    var rule := LowerAll(name);
    if IsDomain(rule) {
      DenyUnblocksExactly(r, AddedExact(r, name), rule, qname);
      DenyUnblocksExactly(r, AddedSuffix(r, name), rule, qname);
    }
  }

  /** Such lists exist: a pattern blocks a.b although b is allowed, until b is denied by name. */
  lemma {:induction false} DenyCanUnblock()
    ensures var q: Name := [97, DOT, 98]; var r := Rules({}, {}, [Regex([97, 42], _ => true)], {}, {[98]});
      Sound(r) && Match(r, q).blocked && !Match(AddedSuffix(r, [98]), q).blocked
  {
    var q: Name := [97, DOT, 98];
    var r := Rules({}, {}, [Regex([97, 42], _ => true)], {}, {[98]});
    assert IsAlnum([98][0]) && IsDomain([98]);
    assert LowerAll([98]) == [98];
    var s := AddedSuffix(r, [98]);
    assert q[2..] == [98] && Aligned(q, 2) && !Aligned(q, 1);
    assert q[0..] == q;
    assert |q| != |[98 as Byte]|;
    assert LongestFrom({[98]}, q, 1) == LongestFrom({[98]}, q, 2) == Some([98]);
    assert LongestFrom({[98]}, q, 0) == Some([98]);
    EmptyHasNone(q, 0);
    assert s.suffix == {[98]};
  }

  lemma {:induction false} EmptyHasNone(qname: Name, pos: nat)
    ensures LongestFrom({}, qname, pos) == None
    decreases |qname| - pos
  {
    if pos < |qname| { EmptyHasNone(qname, pos + 1); }
  }
}
