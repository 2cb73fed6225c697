/** What the normalizer of src/lib-imap/imap-bodystructure.c accepts and
    what it writes: it accepts exactly the argument lists that encode a
    well-formed body structure, and for those it writes that structure's
    basic form. Decode reads the structure back from an argument list;
    Encode and Decode are inverse on well-formed structures. */
module NormalizerProofs {
  import opened Text
  import opened BodystructureParser

  // ---------------------------------------------------------------------
  // The normalizer is Render after Decode

  /** The pairs of a parameter list are what DecodePairs reads, joined by
      single spaces. */
  lemma {:induction false} PairsDecode(xs: seq<ImapArg>)
    ensures DecodePairs(xs).Some? <==> PairsText(xs).Some?
    ensures DecodePairs(xs).Some? ==> 2 * |DecodePairs(xs).value| == |xs|
    ensures DecodePairs(xs).Some? ==> PairsText(xs).value == Join(PairTexts(DecodePairs(xs).value), " ")
    decreases |xs|
  {
    if |xs| >= 2 {
      var init := xs[..|xs| - 2];
      PairsDecode(init);
      if DecodePairs(init).Some? && xs[|xs| - 2].Str? && xs[|xs| - 1].Str? {
        var ps := DecodePairs(init).value;
        var p := Param(xs[|xs| - 2].text, xs[|xs| - 1].text);
        assert PairTexts(ps + [p]) == PairTexts(ps) + [PairText(p.name, p.value)];
        JoinSnoc(PairTexts(ps), PairText(p.name, p.value), " ");
      }
    }
  }

  lemma {:induction false} NormalizeDecodes(args: seq<ImapArg>, wrapNested: bool)
    ensures Decode(args).Some? ==> ValidShape(Decode(args).value)
    ensures Normalize(args, wrapNested)
      == if Decode(args).Some? then Some(Render(Decode(args).value, wrapNested)) else None
    decreases args, 1
  {
    var n := LeadingLists(args);
    if n > 0 {
      ChildrenDecode(args, n, wrapNested);
    } else {
      SinglepartDecodes(args, wrapNested);
    }
  }

  lemma {:induction false} ChildrenDecode(args: seq<ImapArg>, n: nat, wrapNested: bool)
    requires n <= |args|
    requires forall i :: 0 <= i < n ==> args[i].List?
    ensures DecodeChildren(args, n).Some? ==> AllValid(DecodeChildren(args, n).value)
    ensures ChildrenText(args, n, wrapNested)
      == if DecodeChildren(args, n).Some? then Some(RenderParts(DecodeChildren(args, n).value, wrapNested)) else None
    decreases args, 0, n
  {
    if n > 0 {
      ChildrenDecode(args, n - 1, wrapNested);
      NormalizeDecodes(args[n - 1].items, wrapNested);
      var ct := ChildrenText(args, n - 1, wrapNested);
      var nt := Normalize(args[n - 1].items, wrapNested);
      var dc := DecodeChildren(args, n - 1);
      var d := Decode(args[n - 1].items);
      assert ChildrenText(args, n, wrapNested)
        == if ct.None? || nt.None? then None else Some(ct.value + "(" + nt.value + ")");
      assert DecodeChildren(args, n) == if dc.None? || d.None? then None else Some(dc.value + [d.value]);
      ChildrenStep(ct, nt, dc, d, wrapNested);
    }
  }

  /** One step of ChildrenDecode, on the values of the first n - 1 parts and
      of part n. */
  lemma ChildrenStep(ct: Option<string>, nt: Option<string>, dc: Option<seq<Shape>>, d: Option<Shape>,
                     wrapNested: bool)
    requires dc.Some? ==> AllValid(dc.value)
    requires ct == if dc.Some? then Some(RenderParts(dc.value, wrapNested)) else None
    requires d.Some? ==> ValidShape(d.value)
    requires nt == if d.Some? then Some(Render(d.value, wrapNested)) else None
    ensures (ct.Some? && nt.Some?) <==> (dc.Some? && d.Some?)
    ensures dc.Some? && d.Some? ==>
      AllValid(dc.value + [d.value]) &&
      RenderParts(dc.value + [d.value], wrapNested) == ct.value + "(" + nt.value + ")"
  {
    if dc.Some? && d.Some? {
      RenderPartsSnoc(dc.value, d.value, wrapNested);
    }
  }

  /** One more part renders as one more parenthesised body. */
  lemma RenderPartsSnoc(ps: seq<Shape>, p: Shape, wrapNested: bool)
    requires AllValid(ps) && ValidShape(p)
    ensures AllValid(ps + [p])
    ensures RenderParts(ps + [p], wrapNested) == RenderParts(ps, wrapNested) + "(" + Render(p, wrapNested) + ")"
  {
    var parts := ps + [p];
    assert parts[..|parts| - 1] == ps;
    assert parts[|parts| - 1] == p;
  }

  lemma {:induction false} SinglepartDecodes(args: seq<ImapArg>, wrapNested: bool)
    ensures DecodeSinglepart(args).Some? ==> ValidShape(DecodeSinglepart(args).value)
    ensures SinglepartText(args, wrapNested)
      == if DecodeSinglepart(args).Some? then Some(Render(DecodeSinglepart(args).value, wrapNested)) else None
    decreases args, 0
  {
    if |args| >= 7 && args[0].Str? && args[1].Str? {
      var t := args[0].text;
      var st := args[1].text;
      if args[2].List? {
        PairsDecode(args[2].items);
      }
      TailDecodes(args[7..], IsTextType(t), IsMessageRfc822Type(t, st), wrapNested);
      if AllFields(args[3..7]) {
        FieldsTextRendersFields(args[3..7]);
      }
    }
  }

  lemma {:induction false} TailDecodes(rest: seq<ImapArg>, text: bool, rfc822: bool, wrapNested: bool)
    ensures DecodeTail(rest, text, rfc822).Some? ==>
      ValidTail(DecodeTail(rest, text, rfc822).value.0) && TailMatchesKind(text, rfc822, DecodeTail(rest, text, rfc822).value.0)
    ensures TailText(rest, text, rfc822, wrapNested)
      == if DecodeTail(rest, text, rfc822).Some? then Some(RenderTail(DecodeTail(rest, text, rfc822).value.0, wrapNested)) else None
    decreases rest, 0
  {
    if !text && rfc822 && |rest| >= 3 && rest[0].List? && rest[1].List? && rest[2].Atom? {
      NormalizeDecodes(rest[1].items, wrapNested);
    }
  }

  // ---------------------------------------------------------------------
  // Decode reads back what Encode writes

  lemma {:induction false} PairArgsDecode(ps: seq<Param>)
    ensures DecodePairs(PairArgs(ps)) == Some(ps)
    decreases |ps|
  {
    if ps != [] {
      var init := ps[..|ps| - 1];
      var xs := PairArgs(ps);
      PairArgsDecode(init);
      assert xs[..|xs| - 2] == PairArgs(init);
      assert init + [ps[|ps| - 1]] == ps;
    }
  }

  lemma {:induction false} EncodePartsAt(parts: seq<Shape>)
    ensures forall i :: 0 <= i < |parts| ==> EncodeParts(parts)[i] == List(Encode(parts[i]))
    decreases |parts|
  {
    if parts != [] {
      EncodePartsAt(parts[..|parts| - 1]);
    }
  }

  lemma {:induction false} EncodeDecodes(s: Shape)
    requires ValidShape(s)
    ensures Decode(Encode(s)) == Some(s)
    decreases s, 2
  {
    if s.MultipartShape? {
      MultipartEncodeDecodes(s);
    } else {
      SinglepartEncodeDecodes(s);
    }
  }

  lemma {:induction false} MultipartEncodeDecodes(s: Shape)
    requires s.MultipartShape? && ValidShape(s)
    ensures Decode(Encode(s)) == Some(s)
    decreases s, 1
  {
    var parts := s.parts;
    var args := Encode(s);
    EncodePartsAt(parts);
    assert forall i :: 0 <= i < |parts| ==> args[i] == List(Encode(parts[i]));
    assert args[|parts|] == Str(s.subtype);
    assert LeadingLists(args) == |parts|;
    EncodedChildren(parts, args, |parts|);
    assert parts[..|parts|] == parts;
    assert args[|parts| + 1..] == s.extension;
  }

  lemma {:induction false} SinglepartEncodeDecodes(s: Shape)
    requires s.SinglepartShape? && ValidShape(s)
    ensures Decode(Encode(s)) == Some(s)
    decreases s, 1
  {
    var args := Encode(s);
    assert args[3..7] == s.fields;
    assert args[7..] == TailArgs(s.tail) + s.extension;
    if s.params.Some? {
      PairArgsDecode(s.params.value);
    }
    TailEncodeDecodes(s.tail, IsTextType(s.mediaType), IsMessageRfc822Type(s.mediaType, s.subtype), s.extension);
    assert args[7 + |TailArgs(s.tail)|..] == s.extension;
  }

  lemma {:induction false} EncodedChildren(parts: seq<Shape>, args: seq<ImapArg>, k: nat)
    requires AllValid(parts)
    requires k <= |parts| <= |args|
    requires forall i :: 0 <= i < |parts| ==> args[i] == List(Encode(parts[i]))
    ensures DecodeChildren(args, k) == Some(parts[..k])
    decreases parts, 0, k
  {
    if k > 0 {
      EncodedChildren(parts, args, k - 1);
      EncodeDecodes(parts[k - 1]);
      assert parts[..k - 1] + [parts[k - 1]] == parts[..k];
    }
  }

  lemma {:induction false} TailEncodeDecodes(tail: Tail, text: bool, rfc822: bool, ext: seq<ImapArg>)
    requires ValidTail(tail) && TailMatchesKind(text, rfc822, tail)
    ensures DecodeTail(TailArgs(tail) + ext, text, rfc822) == Some((tail, |TailArgs(tail)|))
    decreases tail, 0
  {
    if tail.MessageTail? {
      EncodeDecodes(tail.body);
    }
  }

  // ---------------------------------------------------------------------
  // Encode writes back what Decode reads

  lemma {:induction false} PairsEncode(xs: seq<ImapArg>)
    ensures DecodePairs(xs).Some? ==> PairArgs(DecodePairs(xs).value) == xs
    decreases |xs|
  {
    if |xs| >= 2 {
      var init := xs[..|xs| - 2];
      PairsEncode(init);
      if DecodePairs(xs).Some? {
        var ps := DecodePairs(xs).value;
        assert ps[..|ps| - 1] == DecodePairs(init).value;
        assert xs == init + [xs[|xs| - 2], xs[|xs| - 1]];
      }
    }
  }

  lemma {:induction false} DecodeEncodes(args: seq<ImapArg>)
    ensures Decode(args).Some? ==> Encode(Decode(args).value) == args
    decreases args, 1
  {
    if LeadingLists(args) > 0 {
      MultipartEncodes(args);
    } else {
      SinglepartEncodes(args);
    }
  }

  lemma {:induction false} MultipartEncodes(args: seq<ImapArg>)
    requires LeadingLists(args) > 0
    ensures Decode(args).Some? ==> Encode(Decode(args).value) == args
    decreases args, 0, |args| + 1
  {
    var n := LeadingLists(args);
    ChildrenEncode(args, n);
    if Decode(args).Some? {
      var parts := DecodeChildren(args, n).value;
      var s := MultipartShape(parts, args[n].text, args[n + 1..]);
      assert Decode(args) == Some(s);
      assert Encode(s) == EncodeParts(parts) + [Str(args[n].text)] + args[n + 1..];
      MultipartArgs(args, n, EncodeParts(parts));
    }
  }

  /** The children, the subtype string and the rest make up the arguments. */
  lemma MultipartArgs(args: seq<ImapArg>, n: nat, kids: seq<ImapArg>)
    requires n < |args| && args[n].Str? && kids == args[..n]
    ensures kids + [Str(args[n].text)] + args[n + 1..] == args
  {
    assert args == args[..n] + [args[n]] + args[n + 1..];
  }

  lemma {:induction false} SinglepartEncodes(args: seq<ImapArg>)
    ensures DecodeSinglepart(args).Some? ==> Encode(DecodeSinglepart(args).value) == args
    decreases args, 0
  {
    if DecodeSinglepart(args).Some? {
      var t := args[0].text;
      var st := args[1].text;
      if args[2].List? {
        PairsEncode(args[2].items);
      }
      TailEncodes(args[7..], IsTextType(t), IsMessageRfc822Type(t, st));
      var k := DecodeTail(args[7..], IsTextType(t), IsMessageRfc822Type(t, st)).value.1;
      assert args == [args[0], args[1], args[2]] + args[3..7] + args[7..][..k] + args[7 + k..];
    }
  }

  lemma {:induction false} ChildrenEncode(args: seq<ImapArg>, n: nat)
    requires n <= |args|
    requires forall i :: 0 <= i < n ==> args[i].List?
    ensures DecodeChildren(args, n).Some? ==> EncodeParts(DecodeChildren(args, n).value) == args[..n]
    decreases args, 0, n
  {
    if n > 0 {
      ChildrenEncode(args, n - 1);
      DecodeEncodes(args[n - 1].items);
      if DecodeChildren(args, n).Some? {
        var parts := DecodeChildren(args, n).value;
        assert parts[..|parts| - 1] == DecodeChildren(args, n - 1).value;
        assert args[..n] == args[..n - 1] + [args[n - 1]];
      }
    }
  }

  lemma {:induction false} TailEncodes(rest: seq<ImapArg>, text: bool, rfc822: bool)
    ensures DecodeTail(rest, text, rfc822).Some? ==>
      TailArgs(DecodeTail(rest, text, rfc822).value.0) == rest[..DecodeTail(rest, text, rfc822).value.1]
    decreases rest, 0
  {
    if !text && rfc822 && |rest| >= 3 && rest[0].List? && rest[1].List? && rest[2].Atom? {
      DecodeEncodes(rest[1].items);
    }
  }

  // ---------------------------------------------------------------------
  // What the normalizer does

  /** The normalizer writes the basic form of every well-formed structure,
      whatever extension data follows. */
  lemma NormalizeEncoded(s: Shape, wrapNested: bool)
    requires ValidShape(s)
    ensures Normalize(Encode(s), wrapNested) == Some(Render(s, wrapNested))
  {
    EncodeDecodes(s);
    NormalizeDecodes(Encode(s), wrapNested);
  }

  /** The normalizer accepts an argument list exactly when it encodes a
      well-formed structure; any other shape is rejected. */
  lemma AcceptedIffEncoded(args: seq<ImapArg>, wrapNested: bool)
    ensures Normalize(args, wrapNested).Some? <==> exists s :: ValidShape(s) && Encode(s) == args
  {
    NormalizeDecodes(args, wrapNested);
    if Normalize(args, wrapNested).Some? {
      DecodeEncodes(args);
      var s := Decode(args).value;
      assert ValidShape(s) && Encode(s) == args;
    }
    if exists s :: ValidShape(s) && Encode(s) == args {
      var s :| ValidShape(s) && Encode(s) == args;
      EncodeDecodes(s);
    }
  }
}
