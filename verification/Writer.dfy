/** Building queries: `build_a_query` of src/dns_writer.cpp and the query builder of
    src/ech_bootstrap.cpp. */
module Writer {
  import opened Wire
  import opened Names
  import opened Parser

  const CLASS_IN: U16 := 1
  const TYPE_HTTPS: U16 := 65
  const MAX_LABEL := 63

  // ----- dotted names -----

  function FirstDot(s: Name): (i: nat)
    ensures i <= |s|
    ensures i < |s| ==> s[i] == DOT
  {
    if s == [] || s[0] == DOT then 0 else 1 + FirstDot(s[1..])
  }

  /** The parts of a dotted name; there is always at least one, and some may be empty. */
  function Split(s: Name): seq<Name>
    decreases |s|
  {
    var i := FirstDot(s);
    if i == |s| then [s] else [s[..i]] + Split(s[i + 1..])
  }

  lemma {:induction false} SplitNotEmpty(s: Name)
    ensures |Split(s)| >= 1
  {
  }

  lemma {:induction false} JoinSplit(s: Name)
    ensures Join(Split(s)) == s
    decreases |s|
  {
    hide Split, Join;
    var i := FirstDot(s);
    SplitUnfold(s);
    if i < |s| {
      var rest := Split(s[i + 1..]);
      JoinSplit(s[i + 1..]);
      SplitNotEmpty(s[i + 1..]);
      JoinCons(s[..i], rest);
      assert s == s[..i] + [DOT] + s[i + 1..];
    } else {
      JoinOne(s);
    }
  }

  lemma {:induction false} JoinCons(l: Name, ls: seq<Name>)
    requires ls != []
    ensures Join([l] + ls) == l + [DOT] + Join(ls)
  {
    assert ([l] + ls)[1..] == ls;
  }

  lemma {:induction false} JoinOne(l: Name)
    ensures Join([l]) == l
  {
  }

  /** The parts are the only ones between which dots can be put to give the name back. */
  lemma {:induction false} SplitIs(ls: seq<Name>)
    requires ls != [] && forall i :: 0 <= i < |ls| ==> DOT !in ls[i]
    ensures Split(Join(ls)) == ls
    decreases |ls|
  {
    hide Split;
    var j := Join(ls);
    if |ls| == 1 {
      SplitAt(j, |j|);
    } else {
      assert j == ls[0] + [DOT] + Join(ls[1..]);
      SplitAt(j, |ls[0]|);
      SplitIs(ls[1..]);
      assert j[..|ls[0]|] == ls[0] && j[|ls[0]| + 1..] == Join(ls[1..]);
      assert ls == [ls[0]] + ls[1..];
    }
  }

  lemma {:induction false} PartsHaveNoDot(s: Name)
    ensures forall i :: 0 <= i < |Split(s)| ==> DOT !in Split(s)[i]
    decreases |s|
  {
    var i := FirstDot(s);
    FirstDotIsFirst(s);
    if i < |s| { PartsHaveNoDot(s[i + 1..]); }
  }

  lemma {:induction false} FirstDotIsFirst(s: Name)
    ensures DOT !in s[..FirstDot(s)]
  {
    if s != [] && s[0] != DOT {
      FirstDotIsFirst(s[1..]);
      assert s[..FirstDot(s)] == [s[0]] + s[1..][..FirstDot(s[1..])];
    }
  }

  predicate IsLabel(l: Name) { 1 <= |l| <= MAX_LABEL }

  predicate AllLabels(ls: seq<Name>) { forall i :: 0 <= i < |ls| ==> IsLabel(ls[i]) }

  /** Labels as they go on the wire, without the root label. */
  function EncodeLabels(ls: seq<Name>): Packet
    requires AllLabels(ls)
  {
    if ls == [] then [] else [|ls[0]|] + ls[0] + EncodeLabels(ls[1..])
  }

  lemma {:induction false} EncodeNothing()
    ensures EncodeLabels([]) == []
  {
  }

  lemma {:induction false} EncodeSnoc(ls: seq<Name>, l: Name)
    requires AllLabels(ls) && IsLabel(l)
    ensures EncodeLabels(ls + [l]) == EncodeLabels(ls) + [|l|] + l
  {
    if ls == [] {
      assert EncodeLabels([l]) == [|l|] + l + EncodeLabels([]);
    } else {
      assert (ls + [l])[1..] == ls[1..] + [l];
      EncodeSnoc(ls[1..], l);
    }
  }

  /** On the wire a name of dotted length n takes n + 2 bytes, root included. */
  lemma {:induction false} EncodedLength(ls: seq<Name>)
    requires AllLabels(ls) && ls != []
    ensures |EncodeLabels(ls)| == |Join(ls)| + 1
  {
    if |ls| == 1 {
      assert EncodeLabels(ls[1..]) == [];
    } else {
      EncodedLength(ls[1..]);
    }
  }

  function LowerLabels(ls: seq<Name>): (r: seq<Name>)
    ensures |r| == |ls| && forall i :: 0 <= i < |ls| ==> r[i] == LowerAll(ls[i])
  {
    seq(|ls|, i requires 0 <= i < |ls| => LowerAll(ls[i]))
  }

  lemma {:induction false} JoinLower(ls: seq<Name>)
    ensures Join(LowerLabels(ls)) == LowerAll(Join(ls))
  {
    if |ls| > 1 {
      JoinLower(ls[1..]);
      assert LowerLabels(ls)[1..] == LowerLabels(ls[1..]);
    } else if |ls| == 1 {
      assert LowerLabels(ls) == [LowerAll(ls[0])];
    }
  }

  lemma {:induction false} SliceOfSlice(p: Packet, at: nat, n: nat, i: nat, j: nat)
    requires at + n <= |p| && i <= j <= n
    ensures p[at..at + n][i..j] == p[at + i..at + j]
  {
    var whole := p[at..at + n];
    forall k | 0 <= k < j - i ensures whole[i..j][k] == p[at + i..at + j][k] {
      assert whole[i + k] == p[at + i + k];
    }
    assert whole[i..j] == p[at + i..at + j];
  }

  /** The decoder undoes the encoder, wherever the name is in the packet and whatever follows. */
  lemma {:induction false} EncodedNameDecodes(pkt: Packet, cursor: nat, ls: seq<Name>, hops: nat)
    requires AllLabels(ls)
    requires cursor + |EncodeLabels(ls)| < |pkt|
    requires pkt[cursor..cursor + |EncodeLabels(ls)|] == EncodeLabels(ls) && pkt[cursor + |EncodeLabels(ls)|] == 0
    ensures Labels(pkt, cursor, hops) == Some(LowerLabels(ls))
    ensures NameEnd(pkt, cursor) == cursor + |EncodeLabels(ls)| + 1
    decreases |ls|
  {
    hide Labels, NameEnd, LowerAll;
    var code := EncodeLabels(ls);
    if ls == [] {
      OtherStep(pkt, cursor, hops);
    } else {
      var rest := EncodeLabels(ls[1..]);
      var next := cursor + 1 + |ls[0]|;
      assert IsLabel(ls[0]);
      assert code == [|ls[0]|] + ls[0] + rest;
      hide EncodeLabels;
      SliceOfSlice(pkt, cursor, |code|, 1, 1 + |ls[0]|);
      SliceOfSlice(pkt, cursor, |code|, 1 + |ls[0]|, |code|);
      assert pkt[cursor] == pkt[cursor..cursor + |code|][0] == code[0];
      assert code[1..1 + |ls[0]|] == ls[0] && code[1 + |ls[0]|..|code|] == rest;
      EncodedNameDecodes(pkt, next, ls[1..], hops);
      LabelStep(pkt, cursor, hops, []);
      assert LowerLabels(ls) == [LowerAll(ls[0])] + LowerLabels(ls[1..]);
    }
  }

  // ----- queries -----

  function QueryHeader(id: U16): (h: Packet)
    ensures |h| == HEADER_SIZE
  {
    U16Bytes(id) + [1, 0] + [0, 1] + [0, 0] + [0, 0] + [0, 0]
  }

  /** A query with one question, recursion desired. */
  function Query(ls: seq<Name>, qtype: U16, id: U16): Packet
    requires AllLabels(ls)
  {
    QueryHeader(id) + EncodeLabels(ls) + [0] + U16Bytes(qtype) + U16Bytes(CLASS_IN)
  }

  /** The names `build_a_query` accepts. */
  predicate Encodable(qname: Name) {
    qname != [] && |qname| + 2 <= MAX_NAME && AllLabels(Split(qname))
  }

  function AQuery(qname: Name, id: U16): Packet
    requires AllLabels(Split(qname))
  {
    Query(Split(qname), TYPE_A, id)
  }

  lemma {:induction false} SplitAt(s: Name, d: nat)
    requires d <= |s| && (d < |s| ==> s[d] == DOT) && forall k :: 0 <= k < d ==> s[k] != DOT
    ensures Split(s) == if d == |s| then [s] else [s[..d]] + Split(s[d + 1..])
  {
    hide Split;
    FirstDotIs(s, d);
    SplitUnfold(s);
  }

  lemma {:induction false} SplitUnfold(s: Name)
    ensures var i := FirstDot(s); Split(s) == if i == |s| then [s] else [s[..i]] + Split(s[i + 1..])
  {
  }

  lemma {:induction false} FirstDotIs(s: Name, d: nat)
    requires d <= |s| && (d < |s| ==> s[d] == DOT) && forall k :: 0 <= k < d ==> s[k] != DOT
    ensures FirstDot(s) == d
  {
    if d > 0 { FirstDotIs(s[1..], d - 1); }
  }

  /** Splitting off the next label of a name while scanning it. */
  lemma {:induction false} SplitStep(qname: Name, start: nat, i: nat, done: seq<Name>)
    requires start <= i <= |qname| && (i == |qname| || qname[i] == DOT)
    requires forall k :: start <= k < i ==> qname[k] != DOT
    requires Split(qname) == done + Split(qname[start..])
    ensures i < |qname| ==> Split(qname) == done + [qname[start..i]] + Split(qname[i + 1..])
    ensures i == |qname| ==> Split(qname) == done + [qname[start..i]]
  {
    hide Split;
    var tail := qname[start..];
    var d := i - start;
    SplitAt(tail, d);
    assert tail[..d] == qname[start..i];
    if i == |qname| {
      assert tail == qname[start..i];
    } else {
      assert tail[d + 1..] == qname[i + 1..];
      assert done + ([qname[start..i]] + Split(qname[i + 1..])) == done + [qname[start..i]] + Split(qname[i + 1..]);
    }
  }

  /** The first pass of `build_a_query`: every part must be a label; the encoded length is added up. */
  method MeasureLabels(qname: Name) returns (ok: bool, wireLen: nat)
    ensures ok == AllLabels(Split(qname))
    ensures ok ==> wireLen == |EncodeLabels(Split(qname))|
  {
    hide Split, EncodeLabels;
    wireLen := 0;
    var start := 0;
    var i := 0;
    ghost var done: seq<Name> := [];
    assert qname[0..] == qname && done + Split(qname) == Split(qname);
    assert EncodeLabels(done) == [] by { EncodeNothing(); }
    while i <= |qname|
      invariant 0 <= start <= i <= |qname| + 1 && AllLabels(done) && wireLen == |EncodeLabels(done)|
      invariant start <= |qname| ==> (i <= |qname| && Split(qname) == done + Split(qname[start..])
                                      && forall k :: start <= k < i ==> qname[k] != DOT)
      invariant start > |qname| ==> Split(qname) == done
    {
      if i == |qname| || qname[i] == DOT {
        SplitStep(qname, start, i, done);
        var l := qname[start..i];
        if |l| == 0 || |l| > MAX_LABEL {
          assert Split(qname)[|done|] == l;
          return false, 0;
        }
        EncodeSnoc(done, l);
        wireLen := wireLen + 1 + |l|;
        done := done + [l];
        start := i + 1;
      }
      i := i + 1;
    }
    return true, wireLen;
  }

  /** The second pass: labels are appended behind their lengths. */
  method AppendLabels(before: Packet, qname: Name) returns (out: Packet)
    requires AllLabels(Split(qname))
    ensures out == before + EncodeLabels(Split(qname))
  {
    hide Split, EncodeLabels;
    out := before;
    var start := 0;
    var i := 0;
    ghost var done: seq<Name> := [];
    assert qname[0..] == qname && done + Split(qname) == Split(qname);
    assert EncodeLabels(done) == [] by { EncodeNothing(); }
    while i <= |qname|
      invariant 0 <= start <= i <= |qname| + 1 && AllLabels(done) && out == before + EncodeLabels(done)
      invariant start <= |qname| ==> (i <= |qname| && Split(qname) == done + Split(qname[start..])
                                      && forall k :: start <= k < i ==> qname[k] != DOT)
      invariant start > |qname| ==> Split(qname) == done
    {
      if i == |qname| || qname[i] == DOT {
        SplitStep(qname, start, i, done);
        assert Split(qname)[|done|] == qname[start..i];
        EncodeSnoc(done, qname[start..i]);
        out := out + [i - start];
        out := out + qname[start..i];
        done := done + [qname[start..i]];
        start := i + 1;
      }
      i := i + 1;
    }
  }

  method BuildAQuery(qname: Name, id: U16) returns (r: Option<Packet>)
    ensures r == if Encodable(qname) then Some(AQuery(qname, id)) else None
    ensures r.Some? <==>
      |qname| <= 253 && forall i :: 0 <= i < |Split(qname)| ==> 1 <= |Split(qname)[i]| <= 63
  {
    assert Split([]) == [[]] && Split([])[0] == [];
    if |qname| == 0 || |qname| > MAX_NAME { return None; }
    if qname[0] == DOT || qname[|qname| - 1] == DOT {
      EdgeDot(qname);
      return None;
    }
    var ok, wireLen := MeasureLabels(qname);
    if !ok { return None; }
    SplitNotEmpty(qname);
    EncodedLength(Split(qname));
    JoinSplit(qname);
    wireLen := wireLen + 1;
    if wireLen > MAX_NAME { return None; }
    var out := QueryHeader(id);
    out := AppendLabels(out, qname);
    out := out + [0];
    out := out + [0, 1];
    out := out + [0, 1];
    return Some(out);
  }

  lemma {:induction false} FirstDotBy(s: Name, k: nat)
    requires k < |s| && s[k] == DOT
    ensures FirstDot(s) <= k
  {
    if s[0] != DOT { FirstDotBy(s[1..], k - 1); }
  }

  /** A dot at either end makes an empty part. */
  lemma {:induction false} EdgeDot(s: Name)
    requires s != [] && (s[0] == DOT || s[|s| - 1] == DOT)
    ensures !AllLabels(Split(s))
    decreases |s|
  {
    var i := FirstDot(s);
    FirstDotBy(s, if s[0] == DOT then 0 else |s| - 1);
    if i == 0 {
      assert Split(s)[0] == [];
    } else if i + 1 == |s| {
      assert Split(s[i + 1..]) == [[]];
      assert Split(s)[1] == [];
    } else {
      EdgeDot(s[i + 1..]);
      var k :| 0 <= k < |Split(s[i + 1..])| && !IsLabel(Split(s[i + 1..])[k]);
      assert Split(s)[k + 1] == Split(s[i + 1..])[k];
    }
  }

  /** The header of a plain query. */
  function PlainHeader(id: U16): Header {
    Header(id, false, 0, false, false, true, false, 0, 1, 0, 0, 0)
  }

  lemma {:induction false} QueryHeaderParses(id: U16, rest: Packet)
    ensures ParseHeader(QueryHeader(id) + rest) == PlainHeader(id)
  {
    var p := QueryHeader(id) + rest;
    assert p[..12] == QueryHeader(id);
    assert p[0] == U16Bytes(id)[0] && p[1] == U16Bytes(id)[1] && p[2] == 1 && p[3] == 0;
    assert p[4] == 0 && p[5] == 1 && p[6] == 0 && p[7] == 0 && p[8] == 0 && p[9] == 0 && p[10] == 0 && p[11] == 0;
  }

  /** Parsing undoes building: a query for labels that fit in 255 bytes parses, to its last byte, as that
      one question with the name in lower case. */
  lemma {:induction false} QueryParses(ls: seq<Name>, qtype: U16, id: U16)
    requires AllLabels(ls) && |Join(ls)| <= MAX_NAME
    ensures var q := Query(ls, qtype, id);
      ParseFull(q) ==
        Some(Parsed(Message(PlainHeader(id), [Question(LowerAll(Join(ls)), qtype, CLASS_IN)], [], [], [], |q|), |q|))
  {
    hide EncodeLabels, QueryHeader, U16Bytes, LowerAll, ParseHeader, Join, U16At;
    var code := EncodeLabels(ls);
    var q := Query(ls, qtype, id);
    var at := HEADER_SIZE + |code| + 1;
    QueryHeaderParses(id, code + [0] + U16Bytes(qtype) + U16Bytes(CLASS_IN));
    assert q == QueryHeader(id) + (code + [0] + U16Bytes(qtype) + U16Bytes(CLASS_IN));
    assert q[HEADER_SIZE..HEADER_SIZE + |code|] == code;
    assert DecodeName(q, HEADER_SIZE) == Some(Decoded(LowerAll(Join(ls)), at)) by {
      EncodedNameDecodes(q, HEADER_SIZE, ls, MAX_HOPS);
      JoinLower(ls);
    }
    assert U16At(q, at) == qtype && U16At(q, at + 2) == CLASS_IN by { TailFields(q, at, qtype); }
    var question := Question(LowerAll(Join(ls)), qtype, CLASS_IN);
    assert ParseQuestion(q, HEADER_SIZE) == Some(question);
    OneQuestion(q, question);
  }

  lemma {:induction false} TailFields(q: Packet, at: nat, qtype: U16)
    requires at + 4 == |q| && q[at..] == U16Bytes(qtype) + U16Bytes(CLASS_IN)
    ensures U16At(q, at) == qtype && U16At(q, at + 2) == CLASS_IN
  {
    assert q[at] == q[at..][0] && q[at + 1] == q[at..][1] && q[at + 2] == q[at..][2] && q[at + 3] == q[at..][3];
  }

  /** A packet that is a header and one question. */
  lemma {:induction false} OneQuestion(q: Packet, question: Question)
    requires |q| >= HEADER_SIZE && ParseQuestion(q, HEADER_SIZE) == Some(question)
    requires var h := ParseHeader(q); h.qdcount == 1 && h.ancount == 0 && h.nscount == 0 && h.arcount == 0
    ensures var end := NameEnd(q, HEADER_SIZE) + 4;
      ParseFull(q) == Some(Parsed(Message(ParseHeader(q), [question], [], [], [], end), end))
  {
    hide ParseHeader, ParseQuestion, NameEnd;
    var end := NameEnd(q, HEADER_SIZE) + 4;
    assert ParseQuestions(q, end, 0) == Some(Run([], end));
    assert [question] + [] == [question];
  }

  /** Every accepted name survives the round trip; `build_a_query` rejects exactly the others. */
  lemma {:induction false} AQueryRoundTrip(qname: Name, id: U16)
    requires Encodable(qname)
    ensures var q := AQuery(qname, id);
      ParseFull(q) == Some(Parsed(
        Message(Header(id, false, 0, false, false, true, false, 0, 1, 0, 0, 0), [Question(LowerAll(qname), 1, 1)],
                [], [], [], |q|), |q|))
  {
    JoinSplit(qname);
    QueryParses(Split(qname), TYPE_A, id);
  }

  /** A name too long for the decoder: the built query does not parse. */
  lemma {:induction false} QueryTooLong(ls: seq<Name>, qtype: U16, id: U16)
    requires AllLabels(ls) && |Join(ls)| > MAX_NAME
    ensures ParseFull(Query(ls, qtype, id)).None?
  {
    hide EncodeLabels, QueryHeader, U16Bytes, ParseHeader, Join;
    var code := EncodeLabels(ls);
    var q := Query(ls, qtype, id);
    QueryHeaderParses(id, code + [0] + U16Bytes(qtype) + U16Bytes(CLASS_IN));
    assert q == QueryHeader(id) + (code + [0] + U16Bytes(qtype) + U16Bytes(CLASS_IN));
    assert q[HEADER_SIZE..HEADER_SIZE + |code|] == code;
    EncodedNameDecodes(q, HEADER_SIZE, ls, MAX_HOPS);
    JoinLower(ls);
    assert DecodeName(q, HEADER_SIZE).None?;
  }

  // ----- the bootstrap query -----

  /** The parts before the first empty one: where `build_https_query` stops. */
  function Leading(ls: seq<Name>): seq<Name> {
    if ls == [] || ls[0] == [] then [] else [ls[0]] + Leading(ls[1..])
  }

  /** The parts that are left out begin with an empty one. */
  lemma {:induction false} LeadingIs(ls: seq<Name>)
    ensures var k := |Leading(ls)|;
      k <= |ls| && Leading(ls) == ls[..k] && [] !in Leading(ls) && (k < |ls| ==> ls[k] == [])
  {
    if ls != [] && ls[0] != [] { LeadingIs(ls[1..]); }
  }

  method BuildHttpsQuery(qname: Name, id: U16) returns (r: Option<Packet>)
    ensures r == if AllLabels(Leading(Split(qname))) then Some(Query(Leading(Split(qname)), TYPE_HTTPS, id)) else None
  {
    hide Split, EncodeLabels, Leading;
    var out := QueryHeader(id);
    var start := 0;
    var i := 0;
    ghost var done: seq<Name> := [];
    ghost var whole := Leading(Split(qname));
    assert qname[0..] == qname && done + Split(qname) == Split(qname) && done + whole == whole;
    assert EncodeLabels(done) == [] by { EncodeNothing(); }
    while i <= |qname|
      invariant 0 <= start <= i <= |qname| + 1 && AllLabels(done) && out == QueryHeader(id) + EncodeLabels(done)
      invariant start <= |qname| ==> (i <= |qname| && Split(qname) == done + Split(qname[start..])
                                      && whole == done + Leading(Split(qname[start..]))
                                      && forall k :: start <= k < i ==> qname[k] != DOT)
      invariant start > |qname| ==> whole == done
    {
      if i == |qname| || qname[i] == DOT {
        ghost var part := qname[start..i];
        SplitStep(qname, start, i, done);
        LeadingStep(qname, start, i, done);
        if i - start == 0 { break; }
        if i - start > MAX_LABEL {
          assert whole[|done|] == part;
          return None;
        }
        EncodeSnoc(done, part);
        out := out + [i - start];
        out := out + qname[start..i];
        done := done + [part];
        start := i + 1;
      }
      i := i + 1;
    }
    assert whole == done;
    out := out + [0];
    out := out + U16Bytes(TYPE_HTTPS);
    out := out + U16Bytes(CLASS_IN);
    return Some(out);
  }

  lemma {:induction false} LeadingStep(qname: Name, start: nat, i: nat, done: seq<Name>)
    requires start <= i <= |qname| && (i == |qname| || qname[i] == DOT)
    requires forall k :: start <= k < i ==> qname[k] != DOT
    ensures var ahead := done + Leading(Split(qname[start..]));
      && (start == i ==> ahead == done)
      && (start < i < |qname| ==> ahead == done + [qname[start..i]] + Leading(Split(qname[i + 1..])))
      && (start < i == |qname| ==> ahead == done + [qname[start..i]])
  {
    hide Split;
    var tail := qname[start..];
    var d := i - start;
    SplitAt(tail, d);
    assert tail[..d] == qname[start..i];
    if i == |qname| {
      assert tail == qname[start..i];
      assert Leading([tail]) == if tail == [] then [] else [tail] + Leading([]);
    } else {
      assert tail[d + 1..] == qname[i + 1..];
      var rest := Split(qname[i + 1..]);
      assert ([tail[..d]] + rest)[1..] == rest;
      assert done + ([qname[start..i]] + Leading(rest)) == done + [qname[start..i]] + Leading(rest);
    }
  }

  lemma {:induction false} LeadingOfLabels(ls: seq<Name>)
    requires AllLabels(ls)
    ensures Leading(ls) == ls
  {
    if ls != [] {
      assert IsLabel(ls[0]);
      LeadingOfLabels(ls[1..]);
    }
  }

  /** The bootstrap query names the parts of the host before its first empty part: it parses back to
      that name in lower case, one question of type HTTPS, exactly when the name fits in 255 bytes. */
  lemma {:induction false} HttpsQueryRoundTrip(qname: Name, id: U16)
    requires AllLabels(Leading(Split(qname)))
    ensures var host := Join(Leading(Split(qname))); var q := Query(Leading(Split(qname)), TYPE_HTTPS, id);
      && (ParseFull(q).Some? <==> |host| <= 255)
      && (ParseFull(q).Some? ==> ParseFull(q).value == Parsed(
            Message(Header(id, false, 0, false, false, true, false, 0, 1, 0, 0, 0), [Question(LowerAll(host), 65, 1)],
                    [], [], [], |q|), |q|))
    ensures AllLabels(Split(qname)) ==> Join(Leading(Split(qname))) == qname
  {
    hide ParseFull, Query, Split, Join, Leading;
    var ls := Leading(Split(qname));
    if |Join(ls)| <= MAX_NAME { QueryParses(ls, TYPE_HTTPS, id); } else { QueryTooLong(ls, TYPE_HTTPS, id); }
    if AllLabels(Split(qname)) {
      LeadingOfLabels(Split(qname));
      JoinSplit(qname);
    }
  }
}
