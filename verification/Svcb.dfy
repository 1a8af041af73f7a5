/** Finding the ECH configuration in the data of an HTTPS record: src/ech_bootstrap.cpp, after section 2.2
    of RFC 9460. */
module Svcb {
  import opened Wire
  import opened Writer

  const ECH_KEY: U16 := 5

  /** Past an uncompressed name. */
  function SkipName(rdata: Packet, off: nat): Option<nat>
    decreases |rdata| - off
  {
    if off >= |rdata| then None
    else if rdata[off] == 0 then Some(off + 1)
    else if rdata[off] >= 64 || off + 1 + rdata[off] > |rdata| then None
    else SkipName(rdata, off + 1 + rdata[off])
  }

  /** The value of the first parameter with the ECH key, from `cursor` on. */
  function FindEch(rdata: Packet, cursor: nat): Option<Packet>
    decreases |rdata| - cursor
  {
    if cursor + 4 > |rdata| then None
    else
      var next := cursor + 4 + U16At(rdata, cursor + 2);
      if next > |rdata| then None
      else if U16At(rdata, cursor) == ECH_KEY then Some(rdata[cursor + 4..next])
      else FindEch(rdata, next)
  }

  function ExtractEch(rdata: Packet): Option<Packet> {
    if |rdata| < 3 || U16At(rdata, 0) == 0 then None
    else match SkipName(rdata, 2) case None => None case Some(cursor) => FindEch(rdata, cursor)
  }

  method SkipNameLoop(rdata: Packet, start: nat) returns (r: Option<nat>)
    ensures r == SkipName(rdata, start)
  {
    var off: nat := start;
    while off < |rdata|
      invariant SkipName(rdata, start) == SkipName(rdata, off)
      decreases |rdata| - off
    {
      var b := rdata[off];
      if b == 0 { return Some(off + 1); }
      if b >= 64 { return None; }
      if off + 1 + b > |rdata| { return None; }
      off := off + 1 + b;
    }
    return None;
  }

  method ExtractEchLoop(rdata: Packet) returns (r: Option<Packet>)
    ensures r == ExtractEch(rdata)
  {
    hide SkipName, U16At;
    if |rdata| < 3 { return None; }
    if U16At(rdata, 0) == 0 { return None; }
    var afterName := SkipNameLoop(rdata, 2);
    if afterName.None? { return None; }
    var cursor: nat := afterName.value;
    while cursor + 4 <= |rdata|
      invariant FindEch(rdata, afterName.value) == FindEch(rdata, cursor)
      decreases |rdata| - cursor
    {
      var key, vlen: nat := U16At(rdata, cursor), U16At(rdata, cursor + 2);
      cursor := cursor + 4;
      if cursor + vlen > |rdata| { return None; }
      if key == ECH_KEY { return Some(rdata[cursor..cursor + vlen]); }
      cursor := cursor + vlen;
    }
    return None;
  }

  // ----- against the encoding -----

  datatype Param = Param(key: U16, value: Packet)

  predicate Fits(ps: seq<Param>) { forall i :: 0 <= i < |ps| ==> |ps[i].value| < 0x1_0000 }

  function EncodeParam(p: Param): Packet
    requires |p.value| < 0x1_0000
  {
    U16Bytes(p.key) + U16Bytes(|p.value|) + p.value
  }

  function EncodeParams(ps: seq<Param>): Packet
    requires Fits(ps)
  {
    if ps == [] then [] else EncodeParam(ps[0]) + EncodeParams(ps[1..])
  }

  function FirstEch(ps: seq<Param>): Option<Packet> {
    if ps == [] then None else if ps[0].key == 5 then Some(ps[0].value) else FirstEch(ps[1..])
  }

  /** The data of a service-mode record as the standard lays it out. */
  function EncodeRdata(priority: U16, target: seq<Name>, ps: seq<Param>): Packet
    requires AllLabels(target) && Fits(ps)
  {
    U16Bytes(priority) + EncodeLabels(target) + [0] + EncodeParams(ps)
  }

  lemma {:induction false} SkipsName(rdata: Packet, off: nat, target: seq<Name>)
    requires AllLabels(target)
    requires off + |EncodeLabels(target)| < |rdata|
    requires rdata[off..off + |EncodeLabels(target)|] == EncodeLabels(target)
      && rdata[off + |EncodeLabels(target)|] == 0
    ensures SkipName(rdata, off) == Some(off + |EncodeLabels(target)| + 1)
    decreases |target|
  {
    var code := EncodeLabels(target);
    if target != [] {
      var n := 1 + |target[0]|;
      var rest := EncodeLabels(target[1..]);
      assert IsLabel(target[0]);
      assert code == [|target[0]|] + target[0] + rest;
      assert rdata[off] == code[0];
      assert rdata[off + n..off + n + |rest|] == code[n..] == rest;
      SkipsName(rdata, off + n, target[1..]);
    }
  }

  lemma {:induction false} ParamAt(rdata: Packet, cursor: nat, p: Param)
    requires |p.value| < 0x1_0000 && cursor + 4 + |p.value| <= |rdata|
    requires rdata[cursor..cursor + 4 + |p.value|] == EncodeParam(p)
    ensures U16At(rdata, cursor) == p.key && U16At(rdata, cursor + 2) == |p.value|
      && rdata[cursor + 4..cursor + 4 + |p.value|] == p.value
  {
    var code := EncodeParam(p);
    assert forall i :: 0 <= i < |code| ==> rdata[cursor + i] == code[i];
    assert code[0..2] == U16Bytes(p.key) && code[2..4] == U16Bytes(|p.value|) && code[4..] == p.value;
    Field(rdata, cursor, p.key);
    Field(rdata, cursor + 2, |p.value|);
    assert rdata[cursor + 4..cursor + 4 + |p.value|] == code[4..];
  }

  lemma {:induction false} Field(rdata: Packet, at: nat, v: U16)
    requires at + 2 <= |rdata| && rdata[at] == U16Bytes(v)[0] && rdata[at + 1] == U16Bytes(v)[1]
    ensures U16At(rdata, at) == v
  {
  }

  lemma {:induction false} FindsFirst(rdata: Packet, cursor: nat, ps: seq<Param>)
    requires Fits(ps) && cursor <= |rdata| && rdata[cursor..] == EncodeParams(ps)
    ensures FindEch(rdata, cursor) == FirstEch(ps)
    decreases |ps|
  {
    hide U16At, EncodeParam;
    if ps != [] {
      var p := ps[0];
      ParamLength(p);
      var next := cursor + 4 + |p.value|;
      var code := EncodeParam(p);
      assert rdata[cursor..] == code + EncodeParams(ps[1..]);
      assert rdata[cursor..next] == rdata[cursor..][..|code|] == code;
      assert rdata[next..] == rdata[cursor..][|code|..] == EncodeParams(ps[1..]);
      ParamAt(rdata, cursor, p);
      FindsFirst(rdata, next, ps[1..]);
    }
  }

  lemma {:induction false} ParamLength(p: Param)
    requires |p.value| < 0x1_0000
    ensures |EncodeParam(p)| == 4 + |p.value|
  {
  }

  /** For every well-formed record data, extraction gives the first ECH parameter, and nothing for a record
      in alias mode. */
  lemma {:induction false} ExtractsEncoded(priority: U16, target: seq<Name>, ps: seq<Param>)
    requires AllLabels(target) && Fits(ps)
    ensures ExtractEch(EncodeRdata(priority, target, ps)) == if priority == 0 then None else FirstEch(ps)
  {
    hide SkipName, FindEch, FirstEch, EncodeLabels, EncodeParams;
    var rdata := EncodeRdata(priority, target, ps);
    var name := EncodeLabels(target);
    assert rdata[0..2] == U16Bytes(priority);
    Field(rdata, 0, priority);
    assert rdata[2..2 + |name|] == name && rdata[2 + |name|] == 0 && rdata[3 + |name|..] == EncodeParams(ps);
    SkipsName(rdata, 2, target);
    FindsFirst(rdata, 3 + |name|, ps);
  }

  /** And whatever is extracted from any data at all is there: the parameters before it are whole, none of
      them has the ECH key, and the value follows its own key and length. */
  lemma {:induction false} ExtractedIsThere(rdata: Packet, cursor: nat) returns (ps: seq<Param>, tail: Packet)
    requires FindEch(rdata, cursor).Some? && cursor <= |rdata|
    ensures Fits(ps) && FirstEch(ps) == None && |FindEch(rdata, cursor).value| < 0x1_0000
    ensures rdata[cursor..] == EncodeParams(ps) + EncodeParam(Param(5, FindEch(rdata, cursor).value)) + tail
    decreases |rdata| - cursor
  {
    hide U16At, EncodeParam;
    var next := cursor + 4 + U16At(rdata, cursor + 2);
    var p := Param(U16At(rdata, cursor), rdata[cursor + 4..next]);
    ParamOf(rdata, cursor);
    assert rdata[cursor..] == rdata[cursor..next] + rdata[next..];
    if p.key == ECH_KEY {
      ps, tail := [], rdata[next..];
      assert EncodeParams(ps) + EncodeParam(p) == EncodeParam(p);
    } else {
      var rest;
      rest, tail := ExtractedIsThere(rdata, next);
      ps := [p] + rest;
      assert ps[1..] == rest;
    }
  }

  lemma {:induction false} ParamOf(rdata: Packet, cursor: nat)
    requires cursor + 4 <= |rdata| && cursor + 4 + U16At(rdata, cursor + 2) <= |rdata|
    ensures var next := cursor + 4 + U16At(rdata, cursor + 2);
      |rdata[cursor + 4..next]| < 0x1_0000
        && EncodeParam(Param(U16At(rdata, cursor), rdata[cursor + 4..next])) == rdata[cursor..next]
  {
    var next := cursor + 4 + U16At(rdata, cursor + 2);
    assert U16Bytes(U16At(rdata, cursor)) == rdata[cursor..cursor + 2];
    assert U16Bytes(U16At(rdata, cursor + 2)) == rdata[cursor + 2..cursor + 4];
  }
}
