/** Compressed domain names (section 4.1.4 of RFC 1035): `decode_name` of src/dns_parser.cpp. */
module Names {
  import opened Wire

  const MAX_NAME := 255
  const MAX_HOPS := 16

  /** Where a name starts being followed, and how many pointers may still be taken. */
  function PointerTarget(pkt: Packet, cursor: nat): nat
    requires cursor + 1 < |pkt| && pkt[cursor] >= 192
  {
    (pkt[cursor] as int - 192) * 256 + pkt[cursor + 1]
  }

  /** The labels of the name at `cursor`, lower-cased, allowing `hops` more pointers. There is no
      length limit here: the limit is a property of the whole name, see `DecodeName`. */
  function Labels(pkt: Packet, cursor: nat, hops: nat): Option<seq<Name>>
    decreases hops, |pkt| - cursor
  {
    if cursor >= |pkt| then None
    else if pkt[cursor] >= 192 then
      if hops == 0 || cursor + 1 >= |pkt| || PointerTarget(pkt, cursor) >= |pkt| then None
      else Labels(pkt, PointerTarget(pkt, cursor), hops - 1)
    else if pkt[cursor] >= 64 then None
    else if pkt[cursor] == 0 then Some([])
    else
      var next := cursor + 1 + pkt[cursor];
      if next > |pkt| then None
      else
        match Labels(pkt, next, hops)
        case None => None
        case Some(rest) => Some([LowerAll(pkt[cursor + 1..next])] + rest)
  }

  /** Where the bytes of the name that sit in place end: after the root label or the first pointer. */
  function NameEnd(pkt: Packet, cursor: nat): nat
    decreases |pkt| - cursor
  {
    if cursor >= |pkt| || pkt[cursor] == 0 then cursor + 1
    else if pkt[cursor] >= 64 then cursor + 2
    else NameEnd(pkt, cursor + 1 + pkt[cursor])
  }

  /** The read footprint: does decoding the name at `cursor` look at byte `i`? */
  predicate Reads(pkt: Packet, cursor: nat, hops: nat, i: nat)
    decreases hops, |pkt| - cursor
  {
    if cursor >= |pkt| then false
    else if pkt[cursor] >= 192 then
      || cursor <= i < cursor + 2
      || (hops > 0 && cursor + 1 < |pkt| && Reads(pkt, PointerTarget(pkt, cursor), hops - 1, i))
    else if pkt[cursor] >= 64 || pkt[cursor] == 0 then i == cursor
    else
      || cursor <= i < cursor + 1 + pkt[cursor]
      || Reads(pkt, cursor + 1 + pkt[cursor], hops, i)
  }

  /** Labels joined by dots. */
  function Join(labels: seq<Name>): Name {
    if labels == [] then []
    else if |labels| == 1 then labels[0]
    else labels[0] + [DOT] + Join(labels[1..])
  }

  datatype Decoded = Decoded(name: Name, next: nat)

  /** The meaning of a name on the wire: its labels, joined, if they fit in 255 bytes. */
  function DecodeName(pkt: Packet, cursor: nat): (r: Option<Decoded>)
    ensures r.Some? ==> r.value.next == NameEnd(pkt, cursor)
  {
    match Labels(pkt, cursor, MAX_HOPS)
    case None => None
    case Some(labels) =>
      if |Join(labels)| > MAX_NAME then None else Some(Decoded(Join(labels), NameEnd(pkt, cursor)))
  }

  function DecodeNameAt(pkt: Packet, offset: nat): Option<Name> {
    match DecodeName(pkt, offset)
    case None => None
    case Some(d) => Some(d.name)
  }

  // ----- joining -----

  lemma {:induction false} JoinSnoc(labels: seq<Name>, l: Name)
    ensures Join(labels + [l]) == if labels == [] then l else Join(labels) + [DOT] + l
  {
    if |labels| >= 1 {
      assert (labels + [l])[1..] == labels[1..] + [l];
      JoinSnoc(labels[1..], l);
    }
  }

  lemma {:induction false} JoinGrows(labels: seq<Name>, more: seq<Name>)
    ensures |Join(labels + more)| >= |Join(labels)|
    decreases |more|
  {
    if more == [] {
      assert labels + more == labels;
    } else {
      JoinSnoc(labels, more[0]);
      JoinGrows(labels + [more[0]], more[1..]);
      assert labels + more == labels + [more[0]] + more[1..];
    }
  }

  lemma {:induction false} JoinNoUpper(labels: seq<Name>)
    requires forall l :: l in labels ==> NoUpper(l)
    ensures NoUpper(Join(labels))
  {
    if labels != [] {
      assert NoUpper(labels[0]);
      JoinNoUpper(labels[1..]);
    }
  }

  // ----- the loop -----

  /** Prepending labels already read to what is still to come. */
  function Prepend(done: seq<Name>, rest: Option<seq<Name>>): Option<seq<Name>> {
    match rest case None => None case Some(r) => Some(done + r)
  }

  /** One turn of the loop on an ordinary label. */
  lemma {:induction false} LabelStep(pkt: Packet, cursor: nat, hops: nat, done: seq<Name>)
    requires cursor < |pkt| && 0 < pkt[cursor] < 64 && cursor + 1 + pkt[cursor] <= |pkt|
    ensures var next := cursor + 1 + pkt[cursor]; var lab := LowerAll(pkt[cursor + 1..next]);
      && Labels(pkt, cursor, hops) == Prepend([lab], Labels(pkt, next, hops))
      && Prepend(done, Labels(pkt, cursor, hops)) == Prepend(done + [lab], Labels(pkt, next, hops))
      && NameEnd(pkt, cursor) == NameEnd(pkt, next)
  {
    hide LowerAll, Join;
    var next := cursor + 1 + pkt[cursor];
    var lab := LowerAll(pkt[cursor + 1..next]);
    var rest := Labels(pkt, next, hops);
    if rest.Some? {
      assert done + ([lab] + rest.value) == done + [lab] + rest.value;
    }
  }

  /** One turn of the loop anywhere else: a pointer, the root, reserved bits, or the end of the packet. */
  lemma {:induction false} OtherStep(pkt: Packet, cursor: nat, hops: nat)
    requires cursor >= |pkt| || pkt[cursor] >= 64 || pkt[cursor] == 0 || cursor + 1 + pkt[cursor] > |pkt|
    ensures cursor < |pkt| && pkt[cursor] == 0 ==>
      Labels(pkt, cursor, hops) == Some([]) && NameEnd(pkt, cursor) == cursor + 1
    ensures cursor < |pkt| && pkt[cursor] >= 192 ==> NameEnd(pkt, cursor) == cursor + 2
    ensures cursor + 1 < |pkt| && pkt[cursor] >= 192 && hops > 0 && PointerTarget(pkt, cursor) < |pkt| ==>
      Labels(pkt, cursor, hops) == Labels(pkt, PointerTarget(pkt, cursor), hops - 1)
    ensures (|| cursor >= |pkt| || 64 <= pkt[cursor] < 192 || (0 < pkt[cursor] < 64 && cursor + 1 + pkt[cursor] > |pkt|)
      || (pkt[cursor] >= 192 && (hops == 0 || cursor + 1 >= |pkt| || PointerTarget(pkt, cursor) >= |pkt|)))
      ==> Labels(pkt, cursor, hops) == None
  {
  }

  /** Appending one label to the name so far, lower-casing byte by byte. */
  method AppendLabel(before: Name, pkt: Packet, from: nat, len: nat) returns (out: Name)
    requires from + len <= |pkt|
    ensures out == (if before == [] then [] else before + [DOT]) + LowerAll(pkt[from..from + len])
  {
    out := if before == [] then before else before + [DOT];
    ghost var head := out;
    for i := 0 to len
      invariant out == head + LowerAll(pkt[from..from + i])
    {
      assert LowerAll(pkt[from..from + i + 1]) == LowerAll(pkt[from..from + i]) + [Lower(pkt[from + i])];
      out := out + [Lower(pkt[from + i])];
    }
  }

  /** `decode_name`: the loop fails as soon as the accumulated name passes 255 bytes and moves the
      caller's cursor at the first pointer; it computes `DecodeName`, which says neither. */
  method DecodeNameLoop(pkt: Packet, start: nat) returns (r: Option<Decoded>)
    ensures r == DecodeName(pkt, start)
  {
    hide Labels, NameEnd, Join, PointerTarget, LowerAll;
    var out: Name := [];
    var hops: nat := 0;
    var cursor: nat := start;
    var afterPointer := false;
    var resume: nat := start;
    ghost var done: seq<Name> := [];
    ghost var whole := Labels(pkt, start, MAX_HOPS);
    assert whole.Some? ==> done + whole.value == whole.value;
    assert Join(done) == [] by { JoinNothing(); }
    while true
      invariant hops <= MAX_HOPS
      invariant whole == Prepend(done, Labels(pkt, cursor, MAX_HOPS - hops))
      invariant out == Join(done) && |out| <= MAX_NAME
      invariant done != [] ==> out != []
      invariant NameEnd(pkt, start) == if afterPointer then resume else NameEnd(pkt, cursor)
      decreases MAX_HOPS - hops, |pkt| - cursor
    {
      if cursor >= |pkt| { OtherStep(pkt, cursor, MAX_HOPS - hops); return None; }
      var len: int := pkt[cursor];
      if len >= 192 {
        OtherStep(pkt, cursor, MAX_HOPS - hops);
        hops := hops + 1;
        if hops > MAX_HOPS { return None; }
        if cursor + 1 >= |pkt| { return None; }
        var target := PointerTarget(pkt, cursor);
        if target >= |pkt| { return None; }
        if !afterPointer {
          resume := cursor + 2;
          afterPointer := true;
        }
        cursor := target;
        continue;
      }
      if len >= 64 { OtherStep(pkt, cursor, MAX_HOPS - hops); return None; }
      if len == 0 {
        OtherStep(pkt, cursor, MAX_HOPS - hops);
        if !afterPointer { resume := cursor + 1; }
        assert done + [] == done;
        return Some(Decoded(out, resume));
      }
      if cursor + 1 + len > |pkt| { OtherStep(pkt, cursor, MAX_HOPS - hops); return None; }
      out := AppendLabel(out, pkt, cursor + 1, len);
      ghost var lab := LowerAll(pkt[cursor + 1..cursor + 1 + len]);
      LabelStep(pkt, cursor, MAX_HOPS - hops, done);
      JoinSnoc(done, lab);
      done := done + [lab];
      cursor := cursor + 1 + len;
      assert whole == Prepend(done, Labels(pkt, cursor, MAX_HOPS - hops));
      if |out| > MAX_NAME {
        ghost var rest := Labels(pkt, cursor, MAX_HOPS - hops);
        if rest.Some? { JoinGrows(done, rest.value); }
        return None;
      }
    }
  }

  lemma {:induction false} JoinNothing()
    ensures Join([]) == []
  {
  }

  // ----- what a decoded name is -----

  lemma {:induction false} LabelsAreLabels(pkt: Packet, cursor: nat, hops: nat)
    requires Labels(pkt, cursor, hops).Some?
    ensures forall l :: l in Labels(pkt, cursor, hops).value ==> 1 <= |l| <= 63 && NoUpper(l)
    decreases hops, |pkt| - cursor
  {
    if pkt[cursor] >= 192 {
      LabelsAreLabels(pkt, PointerTarget(pkt, cursor), hops - 1);
    } else if pkt[cursor] > 0 {
      LabelsAreLabels(pkt, cursor + 1 + pkt[cursor], hops);
    }
  }

  /** A name that decodes is at most 255 bytes, has no upper-case ASCII letter, and leaves the cursor
      strictly further on but inside the packet. */
  lemma {:induction false} DecodedNameIsCanonical(pkt: Packet, cursor: nat)
    requires DecodeName(pkt, cursor).Some?
    ensures var d := DecodeName(pkt, cursor).value;
      |d.name| <= MAX_NAME && NoUpper(d.name) && cursor < d.next <= |pkt|
  {
    LabelsAreLabels(pkt, cursor, MAX_HOPS);
    JoinNoUpper(Labels(pkt, cursor, MAX_HOPS).value);
    NameEndInside(pkt, cursor, MAX_HOPS);
  }

  lemma {:induction false} NameEndInside(pkt: Packet, cursor: nat, hops: nat)
    requires Labels(pkt, cursor, hops).Some?
    ensures cursor < NameEnd(pkt, cursor) <= |pkt|
    decreases |pkt| - cursor
  {
    if 0 < pkt[cursor] < 64 {
      NameEndInside(pkt, cursor + 1 + pkt[cursor], hops);
    }
  }

  // ----- the frame -----

  /** `to` holds the same byte as `pkt` wherever decoding the name at `cursor` looks. */
  ghost predicate AgreesOnName(pkt: Packet, to: Packet, cursor: nat, hops: nat) {
    forall i: nat :: Reads(pkt, cursor, hops, i) ==> i < |pkt| && i < |to| && to[i] == pkt[i]
  }

  /** The footprint of what follows is part of the footprint of the whole name. */
  lemma {:induction false} AgreesOnRest(pkt: Packet, to: Packet, cursor: nat, hops: nat, next: nat, left: nat)
    requires Labels(pkt, cursor, hops).Some?
    requires AgreesOnName(pkt, to, cursor, hops)
    requires pkt[cursor] != 0
    requires if pkt[cursor] >= 192 then left == hops - 1 && next == PointerTarget(pkt, cursor)
             else left == hops && next == cursor + 1 + pkt[cursor]
    ensures AgreesOnName(pkt, to, next, left)
    ensures next < |to|
  {
    forall i: nat | Reads(pkt, next, left, i)
      ensures i < |pkt| && i < |to| && to[i] == pkt[i]
    {
      assert Reads(pkt, cursor, hops, i);
    }
    assert Reads(pkt, next, left, next);
  }

  /** The bytes of a name that sit before the next label or pointer target. */
  lemma {:induction false} AgreesHere(pkt: Packet, to: Packet, cursor: nat, hops: nat)
    requires Labels(pkt, cursor, hops).Some?
    requires AgreesOnName(pkt, to, cursor, hops)
    ensures SameRange(pkt, to, cursor, cursor + 1)
    ensures pkt[cursor] >= 192 ==> SameRange(pkt, to, cursor, cursor + 2)
    ensures 0 < pkt[cursor] < 64 ==> SameRange(pkt, to, cursor, cursor + 1 + pkt[cursor])
  {
    var end := if pkt[cursor] >= 192 then cursor + 2 else cursor + 1 + pkt[cursor];
    forall i | cursor <= i < end ensures i < |to| && to[i] == pkt[i] {
      assert Reads(pkt, cursor, hops, i);
    }
    assert Reads(pkt, cursor, hops, end - 1);
  }

  /** A name depends only on its footprint: editing, cutting or appending bytes that the decoder does
      not read changes neither the labels nor the cursor. */
  lemma {:induction false} LabelsFrame(pkt: Packet, to: Packet, cursor: nat, hops: nat)
    requires Labels(pkt, cursor, hops).Some?
    requires AgreesOnName(pkt, to, cursor, hops)
    ensures Labels(to, cursor, hops) == Labels(pkt, cursor, hops)
    ensures NameEnd(to, cursor) == NameEnd(pkt, cursor)
    decreases hops, |pkt| - cursor
  {
    hide Labels, NameEnd, LowerAll, AgreesOnName;
    if cursor < |pkt| && 0 < pkt[cursor] < 64 && cursor + 1 + pkt[cursor] <= |pkt| {
      var next := cursor + 1 + pkt[cursor];
      AgreesHere(pkt, to, cursor, hops);
      LabelStep(pkt, cursor, hops, []);
      LabelStep(to, cursor, hops, []);
      AgreesOnRest(pkt, to, cursor, hops, next, hops);
      LabelsFrame(pkt, to, next, hops);
      assert to[cursor + 1..next] == pkt[cursor + 1..next];
    } else {
      OtherStep(pkt, cursor, hops);
      AgreesHere(pkt, to, cursor, hops);
      OtherStep(to, cursor, hops);
      if pkt[cursor] >= 192 {
        AgreesOnRest(pkt, to, cursor, hops, PointerTarget(pkt, cursor), hops - 1);
        LabelsFrame(pkt, to, PointerTarget(pkt, cursor), hops - 1);
      }
    }
  }

  /** ... and it does not change the footprint either. */
  lemma {:induction false} ReadsFrame(pkt: Packet, to: Packet, cursor: nat, hops: nat, i: nat)
    requires Labels(pkt, cursor, hops).Some?
    requires AgreesOnName(pkt, to, cursor, hops)
    ensures Reads(to, cursor, hops, i) == Reads(pkt, cursor, hops, i)
    decreases hops, |pkt| - cursor
  {
    hide LowerAll, AgreesOnName, NameEnd;
    AgreesHere(pkt, to, cursor, hops);
    if pkt[cursor] >= 192 {
      var target := PointerTarget(pkt, cursor);
      AgreesOnRest(pkt, to, cursor, hops, target, hops - 1);
      ReadsFrame(pkt, to, target, hops - 1, i);
    } else if pkt[cursor] > 0 {
      var next := cursor + 1 + pkt[cursor];
      AgreesOnRest(pkt, to, cursor, hops, next, hops);
      ReadsFrame(pkt, to, next, hops, i);
    }
  }

  lemma {:induction false} DecodeNameFrame(pkt: Packet, to: Packet, cursor: nat)
    requires DecodeName(pkt, cursor).Some?
    requires AgreesOnName(pkt, to, cursor, MAX_HOPS)
    ensures DecodeName(to, cursor) == DecodeName(pkt, cursor)
  {
    LabelsFrame(pkt, to, cursor, MAX_HOPS);
  }

  /** Every byte a successful decode reads is inside the packet. */
  lemma {:induction false} ReadsInside(pkt: Packet, cursor: nat, hops: nat, i: nat)
    requires Labels(pkt, cursor, hops).Some?
    requires Reads(pkt, cursor, hops, i)
    ensures i < |pkt|
    decreases hops, |pkt| - cursor
  {
    if pkt[cursor] >= 192 {
      if !(cursor <= i < cursor + 2) { ReadsInside(pkt, PointerTarget(pkt, cursor), hops - 1, i); }
    } else if pkt[cursor] > 0 {
      if !(cursor <= i < cursor + 1 + pkt[cursor]) { ReadsInside(pkt, cursor + 1 + pkt[cursor], hops, i); }
    }
  }

  /** A name that decodes still decodes to the same thing when bytes are appended to the packet. */
  lemma {:induction false} DecodeNameSurvivesAppend(pkt: Packet, tail: Packet, cursor: nat)
    requires DecodeName(pkt, cursor).Some?
    ensures DecodeName(pkt + tail, cursor) == DecodeName(pkt, cursor)
  {
    forall i: nat | Reads(pkt, cursor, MAX_HOPS, i)
      ensures i < |pkt| && (pkt + tail)[i] == pkt[i]
    {
      ReadsInside(pkt, cursor, MAX_HOPS, i);
    }
    DecodeNameFrame(pkt, pkt + tail, cursor);
  }

  /** A name that decodes decodes to the same labels with more pointers allowed. */
  lemma {:induction false} SpareHops(pkt: Packet, cursor: nat, hops: nat, more: nat)
    requires Labels(pkt, cursor, hops).Some? && hops <= more
    ensures Labels(pkt, cursor, more) == Labels(pkt, cursor, hops)
    decreases hops, |pkt| - cursor
  {
    hide LowerAll;
    if pkt[cursor] >= 192 {
      SpareHops(pkt, PointerTarget(pkt, cursor), hops - 1, more - 1);
    } else if pkt[cursor] > 0 {
      SpareHops(pkt, cursor + 1 + pkt[cursor], hops, more);
    }
  }

  /** The frame also holds for a decode that is allowed fewer pointers, whether or not it succeeds. */
  lemma {:induction false} FewerHopsFrame(pkt: Packet, to: Packet, cursor: nat, hops: nat, fewer: nat)
    requires Labels(pkt, cursor, hops).Some? && fewer <= hops
    requires AgreesOnName(pkt, to, cursor, hops)
    ensures Labels(to, cursor, fewer) == Labels(pkt, cursor, fewer)
    decreases hops, |pkt| - cursor
  {
    hide Labels, LowerAll, AgreesOnName;
    if cursor < |pkt| && 0 < pkt[cursor] < 64 && cursor + 1 + pkt[cursor] <= |pkt| {
      var next := cursor + 1 + pkt[cursor];
      AgreesHere(pkt, to, cursor, hops);
      LabelStep(pkt, cursor, hops, []);
      LabelStep(pkt, cursor, fewer, []);
      LabelStep(to, cursor, fewer, []);
      AgreesOnRest(pkt, to, cursor, hops, next, hops);
      FewerHopsFrame(pkt, to, next, hops, fewer);
      assert to[cursor + 1..next] == pkt[cursor + 1..next];
    } else {
      OtherStep(pkt, cursor, hops);
      AgreesHere(pkt, to, cursor, hops);
      OtherStep(pkt, cursor, fewer);
      OtherStep(to, cursor, fewer);
      if pkt[cursor] >= 192 {
        AgreesOnRest(pkt, to, cursor, hops, PointerTarget(pkt, cursor), hops - 1);
        if fewer > 0 { FewerHopsFrame(pkt, to, PointerTarget(pkt, cursor), hops - 1, fewer - 1); }
      }
    }
  }

  /** The packets have the same size and the same byte wherever decoding the name at `cursor` looks. */
  ghost predicate AgreesInPlace(pkt: Packet, to: Packet, cursor: nat, hops: nat) {
    |to| == |pkt| && forall i: nat :: i < |pkt| && Reads(pkt, cursor, hops, i) ==> to[i] == pkt[i]
  }

  /** Between packets of one size the frame holds whether or not the name decodes. */
  lemma {:induction false} InPlaceFrame(pkt: Packet, to: Packet, cursor: nat, hops: nat)
    requires AgreesInPlace(pkt, to, cursor, hops)
    ensures Labels(to, cursor, hops) == Labels(pkt, cursor, hops)
    decreases hops, |pkt| - cursor
  {
    hide Labels, LowerAll;
    if cursor < |pkt| {
      assert Reads(pkt, cursor, hops, cursor);
      if 0 < pkt[cursor] < 64 && cursor + 1 + pkt[cursor] <= |pkt| {
        var next := cursor + 1 + pkt[cursor];
        assert forall i: nat :: cursor <= i < next || Reads(pkt, next, hops, i) ==> Reads(pkt, cursor, hops, i);
        InPlaceFrame(pkt, to, next, hops);
        LabelStep(pkt, cursor, hops, []);
        LabelStep(to, cursor, hops, []);
        assert to[cursor + 1..next] == pkt[cursor + 1..next];
      } else {
        if pkt[cursor] >= 192 && cursor + 1 < |pkt| {
          assert Reads(pkt, cursor, hops, cursor + 1);
          if hops > 0 && PointerTarget(pkt, cursor) < |pkt| {
            var target := PointerTarget(pkt, cursor);
            assert forall i: nat :: Reads(pkt, target, hops - 1, i) ==> Reads(pkt, cursor, hops, i);
            InPlaceFrame(pkt, to, target, hops - 1);
          }
        }
        OtherStep(pkt, cursor, hops);
        OtherStep(to, cursor, hops);
      }
    } else {
      OtherStep(pkt, cursor, hops);
      OtherStep(to, cursor, hops);
    }
  }

  /** A name written out in full, without a pointer. */
  predicate Uncompressed(pkt: Packet, cursor: nat)
    decreases |pkt| - cursor
  {
    cursor < |pkt| && (pkt[cursor] == 0 || (0 < pkt[cursor] < 64 && Uncompressed(pkt, cursor + 1 + pkt[cursor])))
  }

  /** An uncompressed name decodes without spending a pointer and reads only its own bytes. */
  lemma {:induction false} UncompressedName(pkt: Packet, cursor: nat, hops: nat)
    requires Uncompressed(pkt, cursor)
    ensures Labels(pkt, cursor, hops).Some?
    ensures forall i: nat :: Reads(pkt, cursor, hops, i) ==> cursor <= i < NameEnd(pkt, cursor)
    decreases |pkt| - cursor
  {
    hide LowerAll;
    if pkt[cursor] > 0 {
      UncompressedName(pkt, cursor + 1 + pkt[cursor], hops);
      NameEndInside(pkt, cursor + 1 + pkt[cursor], hops);
    }
  }
}
