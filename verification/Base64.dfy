/** Base64 as src/tls.cpp reads and writes it (section 4 of RFC 4648). */
module Base64 {
  import opened Wire

  const PAD: Byte := 61

  function Consecutive(first: Byte, n: nat): (s: seq<Byte>)
    requires first + n <= 0x100
    ensures |s| == n && forall i :: 0 <= i < n ==> s[i] == first + i
  {
    seq(n, i requires 0 <= i < n => first + i)
  }

  /** A-Z, a-z, 0-9, '+', '/'. */
  function Alphabet(): (s: seq<Byte>)
    ensures |s| == 64
  {
    Consecutive(65, 26) + Consecutive(97, 26) + Consecutive(48, 10) + [43, 47]
  }

  type Sextet = v: int | 0 <= v < 64
  type Triple = v: int | 0 <= v < 0x100_0000

  function Symbol(v: Sextet): Byte { Alphabet()[v] }

  /** The decoder's table: None for a byte outside the alphabet. */
  function Value(c: Byte): Option<Sextet> {
    if 65 <= c <= 90 then Some(c - 65)
    else if 97 <= c <= 122 then Some(c - 97 + 26)
    else if 48 <= c <= 57 then Some(c - 48 + 52)
    else if c == 43 then Some(62)
    else if c == 47 then Some(63)
    else None
  }

  predicate IsSpace(c: Byte) { c == 32 || c == 9 || c == 10 || c == 13 }

  /** The table inverts the alphabet, and nothing else has a value. */
  lemma {:induction false} ValueOfSymbol(v: Sextet)
    ensures Value(Symbol(v)) == Some(v) && Symbol(v) != PAD && !IsSpace(Symbol(v))
  {
  }

  lemma {:induction false} SymbolOfValue(c: Byte)
    requires Value(c).Some?
    ensures Symbol(Value(c).value) == c && c != PAD
  {
  }

  // ----- groups -----

  function TripleOf(g: seq<Byte>): Triple
    requires 1 <= |g| <= 3
  {
    (g[0] as int) * 0x1_0000 + (if |g| > 1 then g[1] as int else 0) * 0x100 + (if |g| > 2 then g[2] as int else 0)
  }

  function Bytes(t: Triple): seq<Byte> { [t / 0x1_0000, t / 0x100 % 0x100, t % 0x100] }

  function Sextets(t: Triple): seq<Sextet> { [t / 0x4_0000, t / 0x1000 % 64, t / 64 % 64, t % 64] }

  function FromSextets(a: Sextet, b: Sextet, c: Sextet, d: Sextet): Triple { a * 0x4_0000 + b * 0x1000 + c * 64 + d }

  /** One to three bytes become four symbols, the missing ones padding. */
  function EncodeGroup(g: seq<Byte>): seq<Byte>
    requires 1 <= |g| <= 3
  {
    var s := Sextets(TripleOf(g));
    [Symbol(s[0]), Symbol(s[1]), if |g| > 1 then Symbol(s[2]) else PAD, if |g| > 2 then Symbol(s[3]) else PAD]
  }

  /** Padding counts as zero in the last two places of any group. */
  function ValueOrPad(c: Byte): Option<Sextet> { if c == PAD then Some(0) else Value(c) }

  function DecodeGroup(g: seq<Byte>): Option<Triple>
    requires |g| == 4
  {
    var a, b, c, d := Value(g[0]), Value(g[1]), ValueOrPad(g[2]), ValueOrPad(g[3]);
    if a.None? || b.None? || c.None? || d.None? then None else Some(FromSextets(a.value, b.value, c.value, d.value))
  }

  // ----- the bits of a group -----

  lemma {:induction false} Quotient(t: int, k: int, q: int, r: int)
    requires k > 0 && 0 <= r < k && t == q * k + r
    ensures t / k == q && t % k == r
  {
    var d := q - t / k;
    assert d * k == t % k - r;
    Multiple(d, k);
  }

  lemma {:induction false} Multiple(d: int, k: int)
    requires k > 0
    ensures d == 0 || d * k >= k || d * k <= -k
  {
  }

  /** Two, four and six bits at a time: what the sextets of three bytes are. */
  lemma {:induction false} SextetsOfBytes(x: Byte, y: Byte, z: Byte)
    ensures Sextets((x as int) * 0x1_0000 + (y as int) * 0x100 + z) ==
      [x / 4, x % 4 * 16 + y / 16, y % 16 * 4 + z / 64, z % 64]
  {
    var t := (x as int) * 0x1_0000 + (y as int) * 0x100 + z;
    Quotient(t, 0x4_0000, x / 4, x % 4 * 0x1_0000 + (y as int) * 0x100 + z);
    Quotient(t, 0x1000, (x as int) * 16 + y / 16, y % 16 * 0x100 + z);
    Quotient((x as int) * 16 + y / 16, 64, x / 4, x % 4 * 16 + y / 16);
    Quotient(t, 64, (x as int) * 0x400 + (y as int) * 4 + z / 64, z % 64);
    Quotient((x as int) * 0x400 + (y as int) * 4 + z / 64, 64, (x as int) * 16 + y / 16, y % 16 * 4 + z / 64);
  }

  /** And what the bytes of four sextets are. */
  lemma {:induction false} BytesOfSextets(a: Sextet, b: Sextet, c: Sextet, d: Sextet)
    ensures Bytes(FromSextets(a, b, c, d)) == [a * 4 + b / 16, b % 16 * 16 + c / 4, c % 4 * 64 + d]
  {
    var t := FromSextets(a, b, c, d);
    Quotient(t, 0x1_0000, a * 4 + b / 16, b % 16 * 0x1000 + c * 64 + d);
    Quotient(t, 0x100, a * 0x400 + b * 16 + c / 4, c % 4 * 64 + d);
    Quotient(a * 0x400 + b * 16 + c / 4, 0x100, a * 4 + b / 16, b % 16 * 16 + c / 4);
  }

  lemma {:induction false} BytesOfTriple(g: seq<Byte>)
    requires 1 <= |g| <= 3
    ensures |Bytes(TripleOf(g))| == 3 && Bytes(TripleOf(g))[..|g|] == g
  {
    var x, y, z := g[0], if |g| > 1 then g[1] else 0, if |g| > 2 then g[2] else 0;
    var t := TripleOf(g);
    Quotient(t, 0x1_0000, x, (y as int) * 0x100 + z);
    Quotient(t, 0x100, (x as int) * 0x100 + y, z);
    Quotient((x as int) * 0x100 + y, 0x100, x, y);
    assert Bytes(t) == [x, y, z];
  }

  /** The sextets hold the whole group, and zeros where the group is short. */
  lemma {:induction false} SextetsOfGroup(g: seq<Byte>)
    requires 1 <= |g| <= 3
    ensures var s := Sextets(TripleOf(g));
      && |s| == 4 && FromSextets(s[0], s[1], s[2], s[3]) == TripleOf(g)
      && (|g| == 1 ==> s[2] == 0) && (|g| <= 2 ==> s[3] == 0)
  {
    hide Sextets;
    var x, y, z := g[0], if |g| > 1 then g[1] else 0, if |g| > 2 then g[2] else 0;
    SextetsOfBytes(x, y, z);
  }

  lemma {:induction false} SextetsFour(t: Triple)
    ensures |Sextets(t)| == 4
  {
  }

  /** Decoding an encoded group gives back its triple. */
  lemma {:induction false} GroupRoundTrip(g: seq<Byte>)
    requires 1 <= |g| <= 3
    ensures DecodeGroup(EncodeGroup(g)) == Some(TripleOf(g))
  {
    hide Symbol, Value, Sextets, TripleOf, FromSextets;
    var s := Sextets(TripleOf(g));
    SextetsOfGroup(g);
    ValueOfSymbol(s[0]);
    ValueOfSymbol(s[1]);
    ValueOfSymbol(s[2]);
    ValueOfSymbol(s[3]);
  }

  // ----- whole texts -----

  function Encode(data: seq<Byte>): seq<Byte> {
    if data == [] then []
    else if |data| <= 3 then EncodeGroup(data)
    else EncodeGroup(data[..3]) + Encode(data[3..])
  }

  function Strip(text: seq<Byte>): seq<Byte> {
    if text == [] then []
    else (if IsSpace(text[0]) then [] else [text[0]]) + Strip(text[1..])
  }

  /** How many of the last two symbols are padding; padding before a symbol does not count. */
  function PadOf(packed: seq<Byte>): (n: nat)
    ensures n <= 2
  {
    var k := |packed|;
    if k >= 1 && packed[k - 1] == PAD then (if k >= 2 && packed[k - 2] == PAD then 2 else 1) else 0
  }

  function Prefixed(done: seq<Byte>, rest: Option<seq<Byte>>): Option<seq<Byte>> {
    match rest case None => None case Some(r) => Some(done + r)
  }

  /** The groups in order; the last one gives up as many bytes as there is padding. */
  function DecodeGroups(packed: seq<Byte>, pad: nat): Option<seq<Byte>>
    requires pad <= 2
  {
    if |packed| < 4 then Some([])
    else
      match DecodeGroup(packed[..4])
      case None => None
      case Some(t) => Prefixed(Bytes(t)[..if |packed| == 4 then 3 - pad else 3], DecodeGroups(packed[4..], pad))
  }

  function Decode(text: seq<Byte>): Option<seq<Byte>> {
    var packed := Strip(text);
    if packed == [] then Some([])
    else if |packed| % 4 != 0 then None
    else DecodeGroups(packed, PadOf(packed))
  }

  // ----- the loops -----

  method EncodeLoop(data: seq<Byte>) returns (out: seq<Byte>)
    ensures out == Encode(data)
  {
    hide Symbol, Sextets, Encode, TripleOf;
    out := [];
    var i: nat := 0;
    assert data[0..] == data;
    while i < |data|
      invariant Encode(data) == out + Encode(data[if i < |data| then i else |data|..])
    {
      var b0 := data[i];
      var b1: Byte := if i + 1 < |data| then data[i + 1] else 0;
      var b2: Byte := if i + 2 < |data| then data[i + 2] else 0;
      var triple: Triple := (b0 as int) * 0x1_0000 + (b1 as int) * 0x100 + b2;
      SextetsFour(triple);
      var s := Sextets(triple);
      ghost var end := if i + 3 <= |data| then i + 3 else |data|;
      TripleAt(data, i, end);
      EncodeStep(data, i, end);
      out := out + [Symbol(s[0]), Symbol(s[1]),
                    if i + 1 < |data| then Symbol(s[2]) else PAD, if i + 2 < |data| then Symbol(s[3]) else PAD];
      i := i + 3;
    }
    EncodeNothing();
    assert data[|data|..] == [] && out + [] == out;
  }

  lemma {:induction false} TripleAt(data: seq<Byte>, i: nat, end: nat)
    requires i < |data| && end == if i + 3 <= |data| then i + 3 else |data|
    ensures TripleOf(data[i..end])
         == (data[i] as int) * 0x1_0000 + (if i + 1 < |data| then data[i + 1] as int else 0) * 0x100
           + (if i + 2 < |data| then data[i + 2] as int else 0)
  {
  }

  lemma {:induction false} EncodeStep(data: seq<Byte>, i: nat, end: nat)
    requires i < |data| && end == if i + 3 <= |data| then i + 3 else |data|
    ensures Encode(data[i..]) == EncodeGroup(data[i..end]) + Encode(data[end..])
  {
    hide EncodeGroup;
    var rest := data[i..];
    if |rest| <= 3 {
      assert data[i..end] == rest && data[end..] == [];
    } else {
      assert rest[..3] == data[i..end] && rest[3..] == data[end..];
    }
  }

  method StripLoop(text: seq<Byte>) returns (packed: seq<Byte>)
    ensures packed == Strip(text)
  {
    packed := [];
    for i := 0 to |text|
      invariant Strip(text) == packed + Strip(text[i..])
    {
      assert text[i..][1..] == text[i + 1..];
      if IsSpace(text[i]) { continue; }
      packed := packed + [text[i]];
    }
  }

  method DecodeLoop(text: seq<Byte>) returns (r: Option<seq<Byte>>)
    ensures r == Decode(text)
  {
    hide Strip, DecodeGroup, DecodeGroups, Bytes;
    var packed := StripLoop(text);
    if packed == [] { return Some([]); }
    if |packed| % 4 != 0 { return None; }
    var pad := PadOf(packed);
    var out: seq<Byte> := [];
    var i: nat := 0;
    ghost var whole := DecodeGroups(packed, pad);
    assert packed[0..] == packed;
    assert whole.Some? ==> out + whole.value == whole.value;
    while i + 4 <= |packed|
      invariant i <= |packed| && whole == Prefixed(out, DecodeGroups(packed[i..], pad))
    {
      var t := DecodeGroup(packed[i..i + 4]);
      DecodeStep(packed, i, pad, out);
      if t.None? { return None; }
      BytesThree(t.value);
      var b := Bytes(t.value);
      ghost var kept := b[..if i + 4 == |packed| then 3 - pad else 3];
      ghost var before := out;
      out := out + [b[0]];
      if i + 4 != |packed| || pad < 2 { out := out + [b[1]]; }
      if i + 4 != |packed| || pad < 1 { out := out + [b[2]]; }
      assert out == before + kept;
      i := i + 4;
    }
    NothingLeft(packed[i..], pad);
    assert out + [] == out;
    return Some(out);
  }

  lemma {:induction false} NothingLeft(rest: seq<Byte>, pad: nat)
    requires |rest| < 4 && pad <= 2
    ensures DecodeGroups(rest, pad) == Some([])
  {
  }

  lemma {:induction false} DecodeStep(packed: seq<Byte>, i: nat, pad: nat, done: seq<Byte>)
    requires i + 4 <= |packed| && pad <= 2
    ensures match DecodeGroup(packed[i..i + 4])
      case None => DecodeGroups(packed[i..], pad) == None
      case Some(t) =>
        && |Bytes(t)| == 3
        && var kept := Bytes(t)[..if i + 4 == |packed| then 3 - pad else 3];
           Prefixed(done, DecodeGroups(packed[i..], pad)) == Prefixed(done + kept, DecodeGroups(packed[i + 4..], pad))
  {
    hide DecodeGroup, Bytes;
    var g := DecodeGroup(packed[i..i + 4]);
    assert packed[i..][..4] == packed[i..i + 4] && packed[i..][4..] == packed[i + 4..];
    if g.Some? {
      BytesThree(g.value);
      var kept := Bytes(g.value)[..if i + 4 == |packed| then 3 - pad else 3];
      var rest := DecodeGroups(packed[i + 4..], pad);
      if rest.Some? { assert done + (kept + rest.value) == done + kept + rest.value; }
    }
  }

  // ----- the round trip -----

  /** `text` is `core` with white space put in anywhere. */
  ghost predicate Spaced(text: seq<Byte>, core: seq<Byte>) {
    if text == [] then core == []
    else
      || (IsWhite(text[0] as char) && Spaced(text[1..], core))
      || (core != [] && text[0] == core[0] && Spaced(text[1..], core[1..]))
  }

  predicate IsWhite(c: char) { c == ' ' || c == '\t' || c == '\n' || c == '\r' }

  predicate NoSpace(s: seq<Byte>) { forall i :: 0 <= i < |s| ==> !IsSpace(s[i]) }

  /** Stripping takes out the white space and nothing else. */
  lemma {:induction false} StripIs(text: seq<Byte>)
    ensures Spaced(text, Strip(text)) && forall i :: 0 <= i < |Strip(text)| ==> !IsWhite(Strip(text)[i] as char)
  {
    if text != [] {
      StripIs(text[1..]);
      var rest := Strip(text[1..]);
      assert IsSpace(text[0]) <==> IsWhite(text[0] as char);
      if IsSpace(text[0]) {
        assert Strip(text) == [] + rest == rest;
      } else {
        assert Strip(text) == [text[0]] + rest;
        assert Strip(text)[1..] == rest;
      }
    }
  }

  lemma {:induction false} StripSpaced(text: seq<Byte>, core: seq<Byte>)
    requires Spaced(text, core) && NoSpace(core)
    ensures Strip(text) == core
  {
    if text != [] {
      if IsSpace(text[0]) {
        StripSpaced(text[1..], core);
      } else {
        StripSpaced(text[1..], core[1..]);
        assert core == [core[0]] + core[1..];
      }
    }
  }

  /** How many groups n bytes take, and how many bytes the last group is short of. */
  function Groups(n: nat): nat { if n == 0 then 0 else if n <= 3 then 1 else 1 + Groups(n - 3) }

  function Missing(n: nat): (m: nat)
    ensures m <= 2
  {
    if n == 0 then 0 else if n <= 3 then 3 - n else Missing(n - 3)
  }

  lemma {:induction false} GroupShape(g: seq<Byte>)
    requires 1 <= |g| <= 3
    ensures var e := EncodeGroup(g); |e| == 4 && NoSpace(e) && PadOf(e) == 3 - |g| && e[1] != PAD
  {
    hide Symbol, Sextets, TripleOf;
    SextetsFour(TripleOf(g));
    var s := Sextets(TripleOf(g));
    ValueOfSymbol(s[0]);
    ValueOfSymbol(s[1]);
    ValueOfSymbol(s[2]);
    ValueOfSymbol(s[3]);
  }

  /** An encoding has whole groups, no white space, and padding for what is missing of the last group. */
  lemma {:induction false} EncodingShape(data: seq<Byte>)
    requires data != []
    ensures var e := Encode(data); |e| == 4 * Groups(|data|) && NoSpace(e) && PadOf(e) == Missing(|data|)
  {
    hide EncodeGroup;
    if |data| <= 3 {
      GroupShape(data);
    } else {
      GroupShape(data[..3]);
      EncodingShape(data[3..]);
    }
  }

  lemma {:induction false} EncodedGroupsDecode(data: seq<Byte>)
    requires data != []
    ensures DecodeGroups(Encode(data), Missing(|data|)) == Some(data)
  {
    hide EncodeGroup, DecodeGroup, Bytes;
    EncodingShape(data);
    var g := if |data| <= 3 then data else data[..3];
    GroupShape(g);
    GroupRoundTrip(g);
    BytesOfTriple(g);
    var e := Encode(data);
    if |data| <= 3 {
      assert e[..4] == EncodeGroup(g) && e[4..] == [];
      assert data + [] == data;
    } else {
      EncodedGroupsDecode(data[3..]);
      assert e[..4] == EncodeGroup(g) && e[4..] == Encode(data[3..]);
      assert data == g + data[3..];
    }
  }

  /** Decoding undoes encoding for every byte string, wherever white space has been put into the text. */
  lemma {:induction false} RoundTrip(data: seq<Byte>, text: seq<Byte>)
    requires Spaced(text, Encode(data))
    ensures Decode(text) == Some(data)
  {
    hide DecodeGroups, EncodeGroup;
    if data == [] {
      StripSpaced(text, []);
    } else {
      EncodingShape(data);
      StripSpaced(text, Encode(data));
      EncodedGroupsDecode(data);
    }
  }

  // ----- the other direction -----

  /** The four symbols of a group are just what the encoder would write for the bytes kept of it. */
  predicate CanonicalGroup(g: seq<Byte>, pad: nat)
    requires |g| == 4
  {
    && (g[3] == PAD <==> pad >= 1) && (g[2] == PAD <==> pad >= 2)
    && (pad == 1 ==> Value(g[2]).Some? && Value(g[2]).value % 4 == 0)
    && (pad == 2 ==> Value(g[1]).Some? && Value(g[1]).value % 16 == 0)
  }

  /** Padding only at the end, and no stray bits before it. */
  predicate Canonical(packed: seq<Byte>, pad: nat)
  {
    |packed| < 4 || (CanonicalGroup(packed[..4], if |packed| == 4 then pad else 0) && Canonical(packed[4..], pad))
  }

  /** The sextets of what is kept of a group: those after the cut become zero. */
  lemma {:induction false} KeptSextets(a: Sextet, b: Sextet, c: Sextet, d: Sextet, pad: nat)
    requires pad <= 2
    ensures Sextets(TripleOf(Bytes(FromSextets(a, b, c, d))[..3 - pad]))
         == [a, if pad == 2 then b / 16 * 16 else b,
             if pad == 2 then 0 else if pad == 1 then c / 4 * 4 else c, if pad >= 1 then 0 else d]
  {
    hide Sextets, Bytes, FromSextets;
    var bytes := Bytes(FromSextets(a, b, c, d));
    BytesOfSextets(a, b, c, d);
    var x, y, z := bytes[0], if pad < 2 then bytes[1] else 0, if pad < 1 then bytes[2] else 0;
    SextetsOfBytes(x, y, z);
    Quotient(x, 4, a, b / 16);
    Quotient(bytes[1], 16, b % 16, c / 4);
    Quotient(bytes[2], 64, c % 4, d);
  }

  /** A group that decodes re-encodes to itself exactly if it is canonical. */
  lemma {:induction false} GroupReencodes(g: seq<Byte>, pad: nat)
    requires |g| == 4 && pad <= 2 && DecodeGroup(g).Some?
    ensures EncodeGroup(Bytes(DecodeGroup(g).value)[..3 - pad]) == g <==> CanonicalGroup(g, pad)
  {
    hide Symbol, Value, Sextets, TripleOf, FromSextets, Bytes;
    var a, b, c, d := Value(g[0]).value, Value(g[1]).value, ValueOrPad(g[2]).value, ValueOrPad(g[3]).value;
    BytesThree(FromSextets(a, b, c, d));
    var kept := Bytes(FromSextets(a, b, c, d))[..3 - pad];
    KeptSextets(a, b, c, d, pad);
    var s := Sextets(TripleOf(kept));
    SymbolOfValue(g[0]);
    SymbolOfValue(g[1]);
    ValueOfSymbol(s[1]);
    ValueOfSymbol(s[2]);
    ValueOfSymbol(s[3]);
    if g[2] != PAD { SymbolOfValue(g[2]); }
    if g[3] != PAD { SymbolOfValue(g[3]); }
    var e := EncodeGroup(kept);
    assert e == g <==> e[0] == g[0] && e[1] == g[1] && e[2] == g[2] && e[3] == g[3];
  }

  lemma {:induction false} BytesThree(t: Triple)
    ensures |Bytes(t)| == 3
  {
  }

  lemma {:induction false} DecodedNotEmpty(packed: seq<Byte>, pad: nat)
    requires |packed| >= 4 && pad <= 2 && DecodeGroups(packed, pad).Some?
    ensures DecodeGroups(packed, pad).value != []
  {
  }

  lemma {:induction false} GroupsReencode(packed: seq<Byte>, n: nat, pad: nat)
    requires |packed| == 4 * n && pad <= 2 && DecodeGroups(packed, pad).Some?
    ensures Encode(DecodeGroups(packed, pad).value) == packed <==> Canonical(packed, pad)
  {
    hide EncodeGroup, DecodeGroup, CanonicalGroup, Bytes;
    if n > 0 {
      var g, rest := packed[..4], packed[4..];
      var cut := if rest == [] then pad else 0;
      GroupReencodes(g, cut);
      GroupsReencode(rest, n - 1, pad);
      BytesThree(DecodeGroup(g).value);
      var kept := Bytes(DecodeGroup(g).value)[..3 - cut];
      var data := DecodeGroups(packed, pad).value;
      assert packed == g + rest;
      GroupShape(kept);
      if rest == [] {
        assert data == kept;
      } else {
        DecodedNotEmpty(rest, pad);
        assert data[..3] == kept && data[3..] == DecodeGroups(rest, pad).value;
        SplitAtFour(EncodeGroup(kept), Encode(data[3..]), g, rest);
      }
    }
  }

  lemma {:induction false} SplitAtFour(a: seq<Byte>, b: seq<Byte>, c: seq<Byte>, d: seq<Byte>)
    requires |a| == 4 && |c| == 4
    ensures a + b == c + d <==> a == c && b == d
  {
    assert (a + b)[..4] == a && (a + b)[4..] == b && (c + d)[..4] == c && (c + d)[4..] == d;
  }

  /** A text that decodes is the spaced-out encoding of what it decodes to exactly if it is canonical. */
  lemma {:induction false} DecodedIsEncodingExactly(text: seq<Byte>)
    requires Decode(text).Some?
    ensures Encode(Decode(text).value) == Strip(text) <==> Canonical(Strip(text), PadOf(Strip(text)))
  {
    hide Strip, DecodeGroups, Encode;
    var packed := Strip(text);
    if packed == [] { EncodeNothing(); } else { GroupsReencode(packed, |packed| / 4, PadOf(packed)); }
  }

  lemma {:induction false} EncodeNothing()
    ensures Encode([]) == []
  {
  }

  /** "QQ==" and "QR==" both decode to the single byte 'A', so the decoder is not canonical. */
  lemma {:induction false} DecodeNotCanonical()
    ensures Decode([81, 81, 61, 61]) == Some([65]) && Decode([81, 82, 61, 61]) == Some([65])
  {
    TwoCharacters(81);
    TwoCharacters(82);
  }

  /** One byte spelt with 'Q' and any second symbol. */
  lemma {:induction false} TwoCharacters(second: Byte)
    requires second == 81 || second == 82
    ensures Decode([81, second, 61, 61]) == Some([65])
  {
    hide Bytes, Strip, DecodeGroups, FromSextets;
    var p: seq<Byte> := [81, second, 61, 61];
    SpacedSelf(p);
    StripSpaced(p, p);
    assert p[0..] == p && p[0..4] == p && p[4..] == [];
    BytesOfSextets(16, second - 65, 0, 0);
    var one := Bytes(FromSextets(16, second - 65, 0, 0))[..1];
    DecodeStep(p, 0, 2, []);
    NothingLeft([], 2);
    assert one == [65] && [] + one + [] == [65];
    var d := DecodeGroups(p, 2);
    assert d.Some? ==> [] + d.value == d.value;
  }

  lemma {:induction false} SpacedSelf(s: seq<Byte>)
    ensures Spaced(s, s)
  {
    if s != [] { SpacedSelf(s[1..]); }
  }

  // ----- symbol by symbol -----

  /** The alphabet of section 4 of RFC 4648. */
  ghost predicate Spells(c: char, v: int) {
    || (0 <= v < 26 && c as int == 'A' as int + v)
    || (26 <= v < 52 && c as int == 'a' as int + v - 26)
    || (52 <= v < 62 && c as int == '0' as int + v - 52)
    || (v == 62 && c == '+') || (v == 63 && c == '/')
  }

  lemma {:induction false} SymbolSpells(v: Sextet)
    ensures Spells(Symbol(v) as char, v)
  {
  }

  predicate IsSymbol(c: char) { 'A' <= c <= 'Z' || 'a' <= c <= 'z' || '0' <= c <= '9' || c == '+' || c == '/' }

  lemma {:induction false} ValueSpells(c: Byte)
    ensures Value(c).Some? <==> IsSymbol(c as char)
    ensures Value(c).Some? ==> Spells(c as char, Value(c).value)
  {
  }

  /** The four symbols for one to three bytes: six bits each, from the highest on, and an equals sign where there is no
      byte to take them from. */
  ghost predicate SymbolsFor(e: seq<Byte>, g: seq<Byte>)
    requires 1 <= |g| <= 3
  {
    var x, y, z := g[0], if |g| > 1 then g[1] else 0, if |g| > 2 then g[2] else 0;
    && |e| == 4 && Spells(e[0] as char, x / 4) && Spells(e[1] as char, x % 4 * 16 + y / 16)
    && (if |g| > 1 then Spells(e[2] as char, y % 16 * 4 + z / 64) else e[2] as char == '=')
    && (if |g| > 2 then Spells(e[3] as char, z % 64) else e[3] as char == '=')
  }

  lemma {:induction false} GroupSymbols(g: seq<Byte>)
    requires 1 <= |g| <= 3
    ensures SymbolsFor(EncodeGroup(g), g)
  {
    hide Symbol, Spells, Sextets;
    var x, y, z := g[0], if |g| > 1 then g[1] else 0, if |g| > 2 then g[2] else 0;
    SextetsOfBytes(x, y, z);
    var s := Sextets(TripleOf(g));
    SymbolSpells(s[0]);
    SymbolSpells(s[1]);
    SymbolSpells(s[2]);
    SymbolSpells(s[3]);
  }

  /** The i-th four symbols are for the i-th three bytes, and the last bytes end the text. */
  lemma {:induction false} EncodedSymbols(data: seq<Byte>, i: nat)
    requires 3 * i < |data|
    ensures var e, end := Encode(data), if 3 * i + 3 <= |data| then 3 * i + 3 else |data|;
      && 4 * i + 4 <= |e| && (end == |data| ==> |e| == 4 * i + 4)
      && SymbolsFor(e[4 * i..4 * i + 4], data[3 * i..end])
    decreases i
  {
    hide EncodeGroup, SymbolsFor;
    var e := Encode(data);
    if i == 0 {
      var g := if |data| <= 3 then data else data[..3];
      GroupSymbols(g);
      GroupShape(g);
      assert e[0..4] == EncodeGroup(g) && data[0..|g|] == g;
      if |data| == 3 { assert Encode([]) == []; }
      EncodeEnds(data);
    } else {
      EncodedSymbols(data[3..], i - 1);
      GroupShape(data[..3]);
      var rest, end := Encode(data[3..]), if 3 * i + 3 <= |data| then 3 * i + 3 else |data|;
      assert e == EncodeGroup(data[..3]) + rest;
      var k := 4 * (i - 1);
      SliceAfter(EncodeGroup(data[..3]), rest, k, k + 4);
      SliceAfter(data[..3], data[3..], 3 * (i - 1), end - 3);
      assert data[..3] + data[3..] == data;
    }
  }

  lemma {:induction false} EncodeEnds(data: seq<Byte>)
    requires data != []
    ensures |Encode(data)| >= 4 && (|data| <= 3 ==> |Encode(data)| == 4)
  {
    hide EncodeGroup;
    GroupShape(if |data| <= 3 then data else data[..3]);
  }

  /** A symbol, or an equals sign in one of the last two places of a group. */
  ghost predicate MayStand(c: Byte, i: nat) { IsSymbol(c as char) || (c as char == '=' && i % 4 >= 2) }

  ghost predicate AllMayStand(p: seq<Byte>) { forall i :: 0 <= i < |p| ==> MayStand(p[i], i) }

  /** Exactly which texts decode: without their white space they are whole groups of such symbols. */
  lemma {:induction false} DecodesExactly(text: seq<Byte>)
    ensures Decode(text).Some? <==> |Strip(text)| % 4 == 0 && AllMayStand(Strip(text))
  {
    hide Strip, DecodeGroups, MayStand;
    var p := Strip(text);
    if p != [] && |p| % 4 == 0 { GroupsDecode(p, PadOf(p)); }
  }

  lemma {:induction false} GroupsDecode(p: seq<Byte>, pad: nat)
    requires |p| % 4 == 0 && pad <= 2
    ensures DecodeGroups(p, pad).Some? <==> AllMayStand(p)
  {
    hide DecodeGroup, AllMayStand, Bytes;
    if p == [] {
      NothingStands(p);
    } else {
      GroupDecodes(p[..4]);
      GroupsDecode(p[4..], pad);
      StandsInTwo(p);
    }
  }

  lemma {:induction false} NothingStands(p: seq<Byte>)
    requires p == []
    ensures AllMayStand(p)
  {
  }

  lemma {:induction false} StandsInTwo(p: seq<Byte>)
    requires |p| >= 4
    ensures AllMayStand(p) <==> AllMayStand(p[..4]) && AllMayStand(p[4..])
  {
    if AllMayStand(p) {
      forall i | 0 <= i < |p| - 4 ensures MayStand(p[4..][i], i) { assert MayStand(p[i + 4], i + 4); }
    }
    if AllMayStand(p[..4]) && AllMayStand(p[4..]) {
      forall i | 0 <= i < |p| ensures MayStand(p[i], i) {
        if i < 4 { assert MayStand(p[..4][i], i); } else { assert MayStand(p[4..][i - 4], i - 4); }
      }
    }
  }

  lemma {:induction false} GroupDecodes(g: seq<Byte>)
    requires |g| == 4
    ensures DecodeGroup(g).Some? <==> AllMayStand(g)
  {
    hide Spells, Value, FromSextets, IsSymbol;
    ValueSpells(g[0]);
    ValueSpells(g[1]);
    ValueSpells(g[2]);
    ValueSpells(g[3]);
    assert AllMayStand(g) <==> MayStand(g[0], 0) && MayStand(g[1], 1) && MayStand(g[2], 2) && MayStand(g[3], 3);
  }
}
