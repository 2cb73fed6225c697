/** The writer and the normalizer of src/lib-imap/imap-bodystructure.c
    together. A stored BODYSTRUCTURE is the writer's extended output; the
    normalizer turns it back into the writer's basic output (FETCH BODY).

    ToPart gives, for a body structure, a part tree whose rendering by the
    writer is that structure. The corrected normalizer then writes from the
    structure's argument form exactly what the writer writes for the part in
    basic form. The normalizer as written does not: it drops the parentheses
    that the writer puts around the body of a message/rfc822 part. */
module BodystructureRoundTrip {
  import opened Text
  import opened BodyParts
  import opened BodystructureWriter
  import opened BodystructureParser
  import opened NormalizerProofs

  /** A string in double quotes, as the quoting helpers store values. */
  function Quoted(s: string): string
  {
    "\"" + s + "\""
  }

  /** The number a string of digits denotes. */
  function DigitsValue(t: string): nat
  {
    if t == [] then 0
    else
      var c := t[|t| - 1];
      DigitsValue(t[..|t| - 1]) * 10 + (if '0' <= c <= '9' then (c as int - '0' as int) else 0)
  }

  /** t is the %u rendering of a number. */
  predicate IsNumeral(t: string)
  {
    Decimal(DigitsValue(t)) == t
  }

  /** What the record stores for one of the fields id, description and
      encoding: nothing for NIL, the atom itself, or the string quoted. */
  function FieldData(a: ImapArg): Option<string>
  {
    if a.Str? then Some(Quoted(a.text)) else if a.Atom? then Some(a.text) else None
  }

  /** What the record stores for a parameter list. */
  function ParamsData(ps: Option<seq<Param>>): Option<string>
  {
    if ps.None? then None else Some(Join(PairTexts(ps.value), " "))
  }

  /** The structures the writer can produce: the encoding is never NIL (the
      writer's default is "8bit"), and the size and line counts are numerals. */
  predicate Writable(s: Shape)
    decreases s
  {
    match s
    case MultipartShape(parts, _, _) => forall i :: 0 <= i < |parts| ==> Writable(parts[i])
    case SinglepartShape(_, _, _, fs, tail, _) =>
      |fs| == 4 && !fs[2].Nil? && fs[3].Atom? && IsNumeral(fs[3].text) && WritableTail(tail)
  }

  predicate WritableTail(tail: Tail)
    decreases tail
  {
    match tail
    case NoTail => true
    case TextTail(l) => IsNumeral(l)
    case MessageTail(_, body, l) => IsNumeral(l) && Writable(body)
  }

  /** The envelope writer renders the envelope recorded for each
      message/rfc822 part as the stored envelope list. */
  predicate EnvelopesAgree(s: Shape, envOf: seq<ImapArg> -> Envelope, we: Envelope -> string)
    decreases s
  {
    match s
    case MultipartShape(parts, _, _) => forall i :: 0 <= i < |parts| ==> EnvelopesAgree(parts[i], envOf, we)
    case SinglepartShape(_, _, _, _, tail, _) =>
      tail.MessageTail? ==>
        AllSupported(tail.envelope) && Some("(" + we(envOf(tail.envelope)) + ")") == ListText(tail.envelope)
        && EnvelopesAgree(tail.body, envOf, we)
  }

  function Flags(tail: Tail): set<PartFlag>
  {
    match tail
    case NoTail => {}
    case TextTail(_) => {FlagText}
    case MessageTail(_, _, _) => {FlagMessageRfc822}
  }

  function Lines(tail: Tail): nat
  {
    match tail
    case NoTail => 0
    case TextTail(l) => DigitsValue(l)
    case MessageTail(_, _, l) => DigitsValue(l)
  }

  /** The part tree a stored body structure describes. env is the envelope
      record of the part itself: the header block of a message/rfc822 body
      carries the envelope of that message. */
  function ToPart(s: Shape, env: Option<Envelope>, envOf: seq<ImapArg> -> Envelope): MessagePart
    decreases s, 1
  {
    match s
    case MultipartShape(parts, sub, _) =>
      MessagePart({FlagMultipart}, 0, 0,
        Some(EmptyBodyData().(contentSubtype := Some(Quoted(sub)), envelope := env)),
        ToParts(parts, envOf))
    case SinglepartShape(t, st, ps, fs, tail, _) =>
      var size := if |fs| == 4 && fs[3].Atom? then DigitsValue(fs[3].text) else 0;
      var d := BodyData(Some(Quoted(t)), Some(Quoted(st)), ParamsData(ps),
        if |fs| == 4 then FieldData(fs[2]) else None,
        if |fs| == 4 then FieldData(fs[0]) else None,
        if |fs| == 4 then FieldData(fs[1]) else None,
        None, None, None, None, env);
      MessagePart(Flags(tail), size, Lines(tail), Some(d), TailChildren(tail, envOf))
  }

  function ToParts(parts: seq<Shape>, envOf: seq<ImapArg> -> Envelope): (r: seq<MessagePart>)
    ensures |r| == |parts|
    decreases parts, 0
  {
    if parts == [] then [] else ToParts(parts[..|parts| - 1], envOf) + [ToPart(parts[|parts| - 1], None, envOf)]
  }

  function TailChildren(tail: Tail, envOf: seq<ImapArg> -> Envelope): seq<MessagePart>
    decreases tail, 0
  {
    if tail.MessageTail? then [ToPart(tail.body, Some(envOf(tail.envelope)), envOf)] else []
  }

  // ---------------------------------------------------------------------
  // The writer renders ToPart(s) as Render(s, true)

  lemma {:induction false} FieldsOfFour(fs: seq<ImapArg>)
    requires |fs| == 4 && AllFields(fs)
    ensures FieldsText(fs).value
      == FieldText(fs[0]).value + FieldText(fs[1]).value + FieldText(fs[2]).value + FieldText(fs[3]).value
  {
    var f3 := fs[..3];
    var f2 := f3[..2];
    var f1 := f2[..1];
    assert f1[..0] == [];
    assert FieldsText(f1).value == FieldText(fs[0]).value;
    assert FieldsText(f2).value == FieldText(fs[0]).value + FieldText(fs[1]).value;
    assert FieldsText(f3).value == FieldText(fs[0]).value + FieldText(fs[1]).value + FieldText(fs[2]).value;
  }

  lemma FieldAsWritten(a: ImapArg, dflt: string)
    requires IsField(a)
    requires a.Nil? ==> dflt == "NIL"
    ensures FieldText(a).value == " " + Nvl(FieldData(a), dflt)
  {
  }

  lemma BasicRegroup(t: string, st: string, p: string, f0: string, f1: string, f2: string, f3: string)
    ensures "\"" + t + "\" \"" + st + "\"" + (" " + p) + ((" " + f0) + (" " + f1) + (" " + f2) + (" " + f3))
      == Quoted(t) + " " + Quoted(st) + " " + p + " " + f0 + " " + f1 + " " + f2 + " " + f3
  {
  }

  lemma {:induction false} WriterRendersShape(s: Shape, env: Option<Envelope>, envOf: seq<ImapArg> -> Envelope,
                                              we: Envelope -> string)
    requires ValidShape(s) && Writable(s) && EnvelopesAgree(s, envOf, we)
    ensures WellFormed(ToPart(s, env, envOf))
    ensures PartText(ToPart(s, env, envOf), false, false, we) == Render(s, true)
    decreases s, 2
  {
    if s.MultipartShape? {
      MultipartRendersShape(s, env, envOf, we);
    } else {
      SinglepartRendersShape(s, env, envOf, we);
    }
  }

  lemma {:induction false} MultipartRendersShape(s: Shape, env: Option<Envelope>, envOf: seq<ImapArg> -> Envelope,
                                                 we: Envelope -> string)
    requires s.MultipartShape?
    requires ValidShape(s) && Writable(s) && EnvelopesAgree(s, envOf, we)
    ensures WellFormed(ToPart(s, env, envOf))
    ensures MultipartText(ToPart(s, env, envOf), false, we) == Render(s, true)
    decreases s, 1
  {
    var p := ToPart(s, env, envOf);
    PartsRenderShapes(s.parts, envOf, we);
    assert p.children == ToParts(s.parts, envOf);
    assert p.children != [];
    assert p.context.value.contentSubtype == Some(Quoted(s.subtype));
    assert WellFormed(p);
    var kids := Bodystructure(p.children, true, false, we);
    assert kids == RenderParts(s.parts, true);
    assert MultipartText(p, false, we) == kids + " " + Quoted(s.subtype) + "";
    SubtypeText(kids, s.subtype);
  }

  lemma SubtypeText(kids: string, sub: string)
    ensures kids + " " + Quoted(sub) + "" == kids + " \"" + sub + "\""
  {
  }

  lemma {:induction false} ToPartsAt(parts: seq<Shape>, envOf: seq<ImapArg> -> Envelope)
    ensures forall i :: 0 <= i < |parts| ==> ToParts(parts, envOf)[i] == ToPart(parts[i], None, envOf)
    decreases |parts|
  {
    if parts != [] {
      ToPartsAt(parts[..|parts| - 1], envOf);
    }
  }

  lemma {:induction false} PartsRenderShapes(parts: seq<Shape>, envOf: seq<ImapArg> -> Envelope, we: Envelope -> string)
    requires AllValid(parts)
    requires forall i :: 0 <= i < |parts| ==> Writable(parts[i]) && EnvelopesAgree(parts[i], envOf, we)
    ensures AllWellFormed(ToParts(parts, envOf))
    ensures Bodystructure(ToParts(parts, envOf), true, false, we) == RenderParts(parts, true)
    decreases parts, 0, 1
  {
    ToPartsAt(parts, envOf);
    forall i | 0 <= i < |parts|
      ensures WellFormed(ToParts(parts, envOf)[i])
    {
      WriterRendersShape(parts[i], None, envOf, we);
    }
    if parts != [] {
      PartsRenderStep(parts, envOf, we);
    }
  }

  lemma {:induction false} PartsRenderStep(parts: seq<Shape>, envOf: seq<ImapArg> -> Envelope, we: Envelope -> string)
    requires parts != []
    requires AllValid(parts)
    requires forall i :: 0 <= i < |parts| ==> Writable(parts[i]) && EnvelopesAgree(parts[i], envOf, we)
    requires AllWellFormed(ToParts(parts, envOf))
    ensures Bodystructure(ToParts(parts, envOf), true, false, we) == RenderParts(parts, true)
    decreases parts, 0, 0
  {
    var init := parts[..|parts| - 1];
    var last := parts[|parts| - 1];
    assert forall i :: 0 <= i < |init| ==> init[i] == parts[i];
    PartsRenderShapes(init, envOf, we);
    var ps := ToParts(parts, envOf);
    var plast := ToPart(last, None, envOf);
    WriterRendersShape(last, None, envOf, we);
    ParentWraps(plast, false, we);
    assert ps[..|ps| - 1] == ToParts(init, envOf);
    assert ps[|ps| - 1] == plast;
    var wrapped := PartText(plast, true, false, we);
    assert wrapped == "(" + Render(last, true) + ")";
    assert RenderParts(parts, true) == RenderParts(init, true) + "(" + Render(last, true) + ")";
    assert Bodystructure(ps, true, false, we) == Bodystructure(ToParts(init, envOf), true, false, we) + wrapped;
    Wrapped(RenderParts(init, true), Render(last, true));
  }

  lemma {:induction false} SinglepartRendersShape(s: Shape, env: Option<Envelope>, envOf: seq<ImapArg> -> Envelope,
                                                  we: Envelope -> string)
    requires s.SinglepartShape?
    requires ValidShape(s) && Writable(s) && EnvelopesAgree(s, envOf, we)
    ensures WellFormed(ToPart(s, env, envOf))
    ensures BodyText(ToPart(s, env, envOf), false, we) == Render(s, true)
    decreases s, 1
  {
    var p := ToPart(s, env, envOf);
    TailRendersShape(s.tail, envOf, we);
    assert WellFormed(p);
    SinglepartBasic(s, env, envOf);
    assert TypeTail(p, false, we) == RenderTail(s.tail, true);
  }

  /** The basic fields the writer produces are the rendering's type,
      subtype, parameters and four fields. */
  lemma SinglepartBasic(s: Shape, env: Option<Envelope>, envOf: seq<ImapArg> -> Envelope)
    requires s.SinglepartShape?
    requires ValidShape(s) && Writable(s)
    ensures var p := ToPart(s, env, envOf);
      BasicFields(DataOf(p.context), p.virtualSize)
        == "\"" + s.mediaType + "\" \"" + s.subtype + "\"" + RenderParams(s.params) + RenderFields(s.fields)
  {
    var p := ToPart(s, env, envOf);
    var fs := s.fields;
    var d := DataOf(p.context);
    FieldsOfFour(fs);
    FieldsTextRendersFields(fs);
    FieldAsWritten(fs[0], "NIL");
    FieldAsWritten(fs[1], "NIL");
    FieldAsWritten(fs[2], "\"8bit\"");
    FieldAsWritten(fs[3], "NIL");
    assert RenderParams(s.params) == " " + ListOrNil(d.contentTypeParams);
    BasicRegroup(s.mediaType, s.subtype, ListOrNil(d.contentTypeParams), Nvl(FieldData(fs[0]), "NIL"),
      Nvl(FieldData(fs[1]), "NIL"), Nvl(FieldData(fs[2]), "\"8bit\""), Nvl(FieldData(fs[3]), "NIL"));
  }

  lemma {:induction false} TailRendersShape(tail: Tail, envOf: seq<ImapArg> -> Envelope, we: Envelope -> string)
    requires ValidTail(tail) && WritableTail(tail)
    requires tail.MessageTail? ==>
      Some("(" + we(envOf(tail.envelope)) + ")") == ListText(tail.envelope) && EnvelopesAgree(tail.body, envOf, we)
    ensures forall i :: 0 <= i < |TailChildren(tail, envOf)| ==> WellFormed(TailChildren(tail, envOf)[i])
    ensures tail.MessageTail? ==>
      var child := TailChildren(tail, envOf)[0];
      EnvelopeField(child, we) == ListText(tail.envelope).value
      && Bodystructure(TailChildren(tail, envOf), true, false, we) == "(" + Render(tail.body, true) + ")"
    decreases tail, 0
  {
    if tail.MessageTail? {
      var cs := TailChildren(tail, envOf);
      WriterRendersShape(tail.body, Some(envOf(tail.envelope)), envOf, we);
      assert cs[..0] == [];
    }
  }

  // ---------------------------------------------------------------------
  // The normalizer against the writer

  /** The corrected normalizer, given the stored form of a part tree (its
      argument list, with whatever extension data follows), writes exactly
      what the writer writes for that tree in basic form. */
  lemma CorrectedNormalizerInvertsWriter(s: Shape, envOf: seq<ImapArg> -> Envelope, we: Envelope -> string)
    requires ValidShape(s) && Writable(s) && EnvelopesAgree(s, envOf, we)
    ensures WellFormed(ToPart(s, None, envOf))
    ensures NormalizeCorrected(Encode(s)) == Some(PartText(ToPart(s, None, envOf), false, false, we))
  {
    WriterRendersShape(s, None, envOf, we);
    NormalizeEncoded(s, true);
  }

  /** The structure has a message/rfc822 part somewhere. */
  predicate ContainsMessage(s: Shape)
    decreases s, 1
  {
    match s
    case MultipartShape(parts, _, _) => AnyContainsMessage(parts)
    case SinglepartShape(_, _, _, _, tail, _) => tail.MessageTail?
  }

  predicate AnyContainsMessage(parts: seq<Shape>)
    decreases parts, 0
  {
    parts != [] && (AnyContainsMessage(parts[..|parts| - 1]) || ContainsMessage(parts[|parts| - 1]))
  }

  /** Leaving out the parentheses around nested message bodies changes the
      basic form exactly when there is one, and then shortens it. */
  lemma {:induction false} UnwrappedRendering(s: Shape)
    requires ValidShape(s)
    ensures !ContainsMessage(s) ==> Render(s, false) == Render(s, true)
    ensures ContainsMessage(s) ==> |Render(s, false)| + 2 <= |Render(s, true)|
    decreases s, 1
  {
    match s
    case MultipartShape(parts, _, _) =>
      UnwrappedParts(parts);
    case SinglepartShape(_, _, _, _, tail, _) =>
      if tail.MessageTail? {
        UnwrappedRendering(tail.body);
      }
  }

  lemma {:induction false} UnwrappedParts(parts: seq<Shape>)
    requires AllValid(parts)
    ensures !AnyContainsMessage(parts) ==> RenderParts(parts, false) == RenderParts(parts, true)
    ensures AnyContainsMessage(parts) ==> |RenderParts(parts, false)| + 2 <= |RenderParts(parts, true)|
    decreases parts, 0
  {
    if parts != [] {
      UnwrappedParts(parts[..|parts| - 1]);
      UnwrappedRendering(parts[|parts| - 1]);
    }
  }

  /** The normalizer as written agrees with the writer exactly on the part
      trees without a message/rfc822 part: for any other tree it writes a
      different, shorter text, the nested body without its parentheses. */
  lemma AsWrittenDropsParentheses(s: Shape, envOf: seq<ImapArg> -> Envelope, we: Envelope -> string)
    requires ValidShape(s) && Writable(s) && EnvelopesAgree(s, envOf, we)
    ensures WellFormed(ToPart(s, None, envOf))
    ensures NormalizeAsWritten(Encode(s)) == Some(PartText(ToPart(s, None, envOf), false, false, we))
      <==> !ContainsMessage(s)
  {
    WriterRendersShape(s, None, envOf, we);
    NormalizeEncoded(s, false);
    UnwrappedRendering(s);
  }

  // ---------------------------------------------------------------------
  // The disposition of a non-multipart part

  /** The disposition field as section 7.4.2 of RFC 3501 lays it out
      (body-fld-dsp): NIL, or one list holding the disposition and, when there
      are any, the list of its parameters. The stored texts stand as atoms. */
  function DispositionArg(d: BodyData): ImapArg
  {
    if d.contentDisposition.None? then Nil
    else List([BodystructureParser.Atom(d.contentDisposition.value)]
      + (if d.contentDispositionParams.Some? then [List([BodystructureParser.Atom(d.contentDispositionParams.value)])] else []))
  }

  /** A multipart writes its disposition as that one list, and so does the
      corrected extension of a non-multipart part. */
  lemma DispositionIsOneList(d: BodyData)
    ensures ArgText(DispositionArg(d)) == Some(DispositionField(d))
    ensures SingleExtensionCorrected(d)
      == " " + Nvl(d.contentMd5, "NIL") + " " + ArgText(DispositionArg(d)).value + " " + ListOrNil(d.contentLanguage)
  {
    if d.contentDisposition.Some? {
      var t := d.contentDisposition.value;
      var a := BodystructureParser.Atom(t);
      assert [a][..0] == [];
      assert ItemsText([a]) == Some(t);
      if d.contentDispositionParams.Some? {
        var ps := d.contentDispositionParams.value;
        var q := List([BodystructureParser.Atom(ps)]);
        OneAtomList(ps);
        assert [a, q][..1] == [a];
        assert ItemsText([a, q]) == Some(t + " " + ("(" + ps + ")"));
        assert [a] + [q] == [a, q];
        assert DispositionArg(d) == List([a, q]);
        assert ArgText(DispositionArg(d)) == Some("(" + (t + " " + ("(" + ps + ")")) + ")");
        assert DispositionField(d) == "(" + t + " (" + ps + ")" + ")";
        DispositionText(t, ps);
      } else {
        assert [a] + [] == [a];
        OneAtomList(t);
        assert DispositionField(d) == "(" + t + ")";
      }
    }
  }

  /** A non-multipart part writes the disposition as that list only when it
      has no parameters; with parameters it writes two lists side by side,
      the disposition alone and then its parameters. */
  lemma SingleDispositionSplitsParams(d: BodyData)
    ensures Some(SingleDisposition(d)) == ArgText(DispositionArg(d))
      <==> d.contentDisposition.None? || d.contentDispositionParams.None?
    ensures d.contentDisposition.Some? && d.contentDispositionParams.Some? ==>
      Some(SingleDisposition(d)) == ItemsText([List([BodystructureParser.Atom(d.contentDisposition.value)]),
                                               List([BodystructureParser.Atom(d.contentDispositionParams.value)])])
  {
    DispositionIsOneList(d);
    if d.contentDisposition.Some? && d.contentDispositionParams.Some? {
      TwoLists(d);
    } else if d.contentDisposition.Some? {
      var t := d.contentDisposition.value;
      assert SingleDisposition(d) == "(" + t + ")";
      assert DispositionField(d) == "(" + t + ")";
    }
  }

  lemma TwoLists(d: BodyData)
    requires d.contentDisposition.Some? && d.contentDispositionParams.Some?
    ensures Some(SingleDisposition(d)) == ItemsText([List([BodystructureParser.Atom(d.contentDisposition.value)]),
                                                     List([BodystructureParser.Atom(d.contentDispositionParams.value)])])
    ensures SingleDisposition(d) != DispositionField(d)
  {
    var t := d.contentDisposition.value;
    var ps := d.contentDispositionParams.value;
    var l1 := List([BodystructureParser.Atom(t)]);
    var l2 := List([BodystructureParser.Atom(ps)]);
    OneAtomList(t);
    OneAtomList(ps);
    assert [l1, l2][..1] == [l1];
    assert [l1][..0] == [];
    assert ItemsText([l1]) == Some("(" + t + ")");
    assert ItemsText([l1, l2]) == Some("(" + t + ")" + " " + ("(" + ps + ")"));
    assert SingleDisposition(d) == "(" + t + ")" + " (" + ps + ")";
    SplitText(t, ps);
    assert DispositionField(d) == "(" + t + " (" + ps + ")" + ")";
    assert SingleDisposition(d)[|t| + 1] == ')';
    assert DispositionField(d)[|t| + 1] == ' ';
  }

  lemma OneAtomList(t: string)
    ensures ArgText(List([BodystructureParser.Atom(t)])) == Some("(" + t + ")")
  {
    var xs := [BodystructureParser.Atom(t)];
    assert xs[..0] == [];
    assert ItemsText(xs) == Some(t);
    assert ListText(xs) == Some("(" + t + ")");
  }

  lemma DispositionText(t: string, ps: string)
    ensures "(" + (t + " " + ("(" + ps + ")")) + ")" == "(" + t + " (" + ps + ")" + ")"
  {
  }

  lemma SplitText(t: string, ps: string)
    ensures "(" + t + ")" + " " + ("(" + ps + ")") == "(" + t + ")" + " (" + ps + ")"
  {
  }
}
