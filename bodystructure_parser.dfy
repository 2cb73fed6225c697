/** The normalizer of src/lib-imap/imap-bodystructure.c:
    imap_parse_bodystructure_args and imap_write_list read a stored
    BODYSTRUCTURE, already split into IMAP arguments, and write the basic
    (FETCH BODY) form of it, or fail.

    Normalize is the reference: one function of the argument list, None where
    the C code returns FALSE. The methods walk the arguments and append to the
    output buffer as the C code does and are proved to compute it. The
    argument array's terminating IMAP_ARG_EOL is the end of the sequence. */
module BodystructureParser {
  import opened Text

  /** One argument of the IMAP parser: NIL, an atom, a quoted string (its
      text as stored, escapes kept), a parenthesized list, or a kind the
      normalizer has no case for (a literal, say). */
  datatype ImapArg =
    | Nil
    | Atom(text: string)
    | Str(text: string)
    | List(items: seq<ImapArg>)
    | Other(text: string)

  // ---------------------------------------------------------------------
  // imap_write_list

  /** The kinds imap_write_list can copy, at every depth. */
  predicate Supported(a: ImapArg)
    decreases a
  {
    match a
    case Other(_) => false
    case List(xs) => forall i :: 0 <= i < |xs| ==> Supported(xs[i])
    case _ => true
  }

  predicate AllSupported(xs: seq<ImapArg>)
  {
    forall i :: 0 <= i < |xs| ==> Supported(xs[i])
  }

  /** One argument as imap_write_list copies it. */
  function ArgText(a: ImapArg): (r: Option<string>)
    ensures r.Some? <==> Supported(a)
    decreases a, 1
  {
    match a
    case Nil => Some("NIL")
    case Atom(t) => Some(t)
    case Str(t) => Some("\"" + t + "\"")
    case List(xs) => ListText(xs)
    case Other(_) => None
  }

  /** The arguments of a list, separated by single spaces. */
  function ItemsText(xs: seq<ImapArg>): (r: Option<string>)
    ensures r.Some? <==> AllSupported(xs)
    decreases xs, 0
  {
    if xs == [] then Some("")
    else
      var init := ItemsText(xs[..|xs| - 1]);
      var last := ArgText(xs[|xs| - 1]);
      assert AllSupported(xs) <==> AllSupported(xs[..|xs| - 1]) && Supported(xs[|xs| - 1]) by {
        assert forall i :: 0 <= i < |xs| - 1 ==> xs[..|xs| - 1][i] == xs[i];
      }
      if init.None? || last.None? then None
      else Some(if |xs| == 1 then last.value else init.value + " " + last.value)
  }

  /** imap_write_list: the list copied verbatim in parentheses; it fails
      exactly when some argument, at any depth, is of a kind it does not
      know. */
  function ListText(xs: seq<ImapArg>): (r: Option<string>)
    ensures r.Some? <==> AllSupported(xs)
    decreases xs, 1
  {
    var t := ItemsText(xs);
    if t.Some? then Some("(" + t.value + ")") else None
  }

  // ---------------------------------------------------------------------
  // imap_parse_bodystructure_args

  /** The number of list arguments at the head of args. */
  function LeadingLists(args: seq<ImapArg>): (n: nat)
    ensures n <= |args|
    ensures forall i :: 0 <= i < n ==> args[i].List?
    ensures n < |args| ==> !args[n].List?
    decreases |args|
  {
    if args == [] || !args[0].List? then 0 else 1 + LeadingLists(args[1..])
  }

  /** How a multipart writes its first n arguments, all lists: each part
      normalized in parentheses, with nothing between them. */
  function ChildrenText(args: seq<ImapArg>, n: nat, wrapNested: bool): Option<string>
    requires n <= |args|
    requires forall i :: 0 <= i < n ==> args[i].List?
    decreases args, 0, n
  {
    if n == 0 then Some("")
    else
      var init := ChildrenText(args, n - 1, wrapNested);
      var last := Normalize(args[n - 1].items, wrapNested);
      if init.None? || last.None? then None else Some(init.value + "(" + last.value + ")")
  }

  /** One key/value pair of a parameter list. */
  function PairText(k: string, v: string): string
  {
    "\"" + k + "\" \"" + v + "\""
  }

  /** The inside of a parameter list: string pairs separated by single
      spaces; an odd count or a non-string fails. */
  function PairsText(xs: seq<ImapArg>): (r: Option<string>)
    ensures r.Some? <==> |xs| % 2 == 0 && forall i :: 0 <= i < |xs| ==> xs[i].Str?
    decreases |xs|
  {
    if xs == [] then Some("")
    else if |xs| == 1 then None
    else
      var init := PairsText(xs[..|xs| - 2]);
      var k := xs[|xs| - 2];
      var v := xs[|xs| - 1];
      PairsPrefix(xs, xs[..|xs| - 2]);
      if init.None? || !k.Str? || !v.Str? then None
      else Some(if |xs| == 2 then PairText(k.text, v.text) else init.value + " " + PairText(k.text, v.text))
  }

  /** A pair list is well-formed exactly when it is its last pair after a
      well-formed shorter list. */
  lemma PairsPrefix(xs: seq<ImapArg>, ys: seq<ImapArg>)
    requires |xs| >= 2 && ys == xs[..|xs| - 2]
    ensures (|xs| % 2 == 0 && forall i :: 0 <= i < |xs| ==> xs[i].Str?)
      <==> (|ys| % 2 == 0 && (forall i :: 0 <= i < |ys| ==> ys[i].Str?) && xs[|xs| - 2].Str? && xs[|xs| - 1].Str?)
  {
    assert forall i :: 0 <= i < |ys| ==> ys[i] == xs[i];
  }

  /** The parameter list of a non-multipart: a list of pairs or NIL. */
  function ParamsText(a: ImapArg): (r: Option<string>)
    ensures r.Some? <==> a.Nil? || (a.List? && PairsText(a.items).Some?)
  {
    if a.List? then
      var p := PairsText(a.items);
      if p.Some? then Some(" (" + p.value + ")") else None
    else if a.Nil? then Some(" NIL")
    else None
  }

  /** The kinds the four fields id, description, encoding and size take. */
  predicate IsField(a: ImapArg)
  {
    a.Nil? || a.Atom? || a.Str?
  }

  /** One of those fields, after a space. */
  function FieldText(a: ImapArg): (r: Option<string>)
    ensures r.Some? <==> IsField(a)
  {
    match a
    case Nil => Some(" NIL")
    case Atom(t) => Some(" " + t)
    case Str(t) => Some(" \"" + t + "\"")
    case _ => None
  }

  function FieldsText(fs: seq<ImapArg>): (r: Option<string>)
    ensures r.Some? <==> forall i :: 0 <= i < |fs| ==> IsField(fs[i])
    decreases |fs|
  {
    if fs == [] then Some("")
    else
      var init := FieldsText(fs[..|fs| - 1]);
      var last := FieldText(fs[|fs| - 1]);
      assert forall i :: 0 <= i < |fs| - 1 ==> fs[..|fs| - 1][i] == fs[i];
      if init.None? || last.None? then None else Some(init.value + last.value)
  }

  /** strcasecmp(type, "text") == 0 */
  predicate IsTextType(t: string)
  {
    EqualsIgnoreCase(t, "text")
  }

  /** message/rfc822, compared without case. */
  predicate IsMessageRfc822Type(t: string, st: string)
  {
    EqualsIgnoreCase(t, "message") && EqualsIgnoreCase(st, "rfc822")
  }

  /** What follows the four fields: the line count of a text part; the
      envelope, the nested body and the line count of a message/rfc822 part;
      nothing otherwise (the rest of the arguments is not looked at). The
      code as written copies the nested body without parentheses
      (wrapNested false). */
  function TailText(rest: seq<ImapArg>, text: bool, rfc822: bool, wrapNested: bool): Option<string>
    decreases rest, 0
  {
    if text then
      if |rest| > 0 && rest[0].Atom? then Some(" " + rest[0].text) else None
    else if rfc822 then
      if |rest| < 3 || !rest[0].List? || !rest[1].List? || !rest[2].Atom? then None
      else
        var env := ListText(rest[0].items);
        var body := Normalize(rest[1].items, wrapNested);
        if env.None? || body.None? then None
        else Some(" " + env.value + " " + (if wrapNested then "(" + body.value + ")" else body.value)
                  + " " + rest[2].text)
    else Some("")
  }

  /** A non-multipart: type and subtype strings, parameters, four fields and
      the type-dependent tail. */
  function SinglepartText(args: seq<ImapArg>, wrapNested: bool): Option<string>
    decreases args, 0
  {
    if |args| < 7 || !args[0].Str? || !args[1].Str? then None
    else
      var t := args[0].text;
      var st := args[1].text;
      var params := ParamsText(args[2]);
      var fields := FieldsText(args[3..7]);
      var tail := TailText(args[7..], IsTextType(t), IsMessageRfc822Type(t, st), wrapNested);
      if params.None? || fields.None? || tail.None? then None
      else Some("\"" + t + "\" \"" + st + "\"" + params.value + fields.value + tail.value)
  }

  /** The basic form of a stored body structure, or None where the C code
      returns FALSE. A multipart is recognised by a leading list: its parts,
      then a string subtype, and the rest is not looked at. */
  function Normalize(args: seq<ImapArg>, wrapNested: bool): Option<string>
    decreases args, 1
  {
    var n := LeadingLists(args);
    if n > 0 then
      var kids := ChildrenText(args, n, wrapNested);
      if kids.Some? && n < |args| && args[n].Str? then Some(kids.value + " \"" + args[n].text + "\"")
      else None
    else SinglepartText(args, wrapNested)
  }

  /** imap_body_parse_from_bodystructure as written: the nested body of a
      message/rfc822 part is copied without its parentheses. */
  function NormalizeAsWritten(args: seq<ImapArg>): Option<string>
  {
    Normalize(args, false)
  }

  /** The corrected normalizer: the nested body keeps its parentheses, as
      the writer puts them there. */
  function NormalizeCorrected(args: seq<ImapArg>): Option<string>
  {
    Normalize(args, true)
  }

  // ---------------------------------------------------------------------
  // The structure a stored BODYSTRUCTURE describes, as the normalizer reads
  // it: Encode gives its argument list, Decode reads one back, Render is its
  // basic form.

  datatype Param = Param(name: string, value: string)

  /** A body: a multipart with its parts and subtype, or a non-multipart
      with type, subtype, parameters (None for NIL), the four fields id,
      description, encoding and size, and its type-dependent tail. The
      extension is whatever follows, which the normalizer does not read. */
  datatype Shape =
    | MultipartShape(parts: seq<Shape>, subtype: string, extension: seq<ImapArg>)
    | SinglepartShape(mediaType: string, subtype: string, params: Option<seq<Param>>,
                      fields: seq<ImapArg>, tail: Tail, extension: seq<ImapArg>)

  /** The line count of a text part; the envelope, nested body and line count
      of a message/rfc822 part; nothing for other types. */
  datatype Tail =
    | NoTail
    | TextTail(lines: string)
    | MessageTail(envelope: seq<ImapArg>, body: Shape, lines: string)

  predicate AllFields(fs: seq<ImapArg>)
  {
    forall i :: 0 <= i < |fs| ==> IsField(fs[i])
  }

  /** The tail a part of this kind has. */
  predicate TailMatchesKind(text: bool, rfc822: bool, tail: Tail)
  {
    match tail
    case NoTail => !text && !rfc822
    case TextTail(_) => text
    case MessageTail(_, _, _) => !text && rfc822
  }

  /** What the normalizer accepts: a multipart has at least one part, a
      non-multipart exactly four fields of the right kinds and the tail its
      type calls for, and an envelope only kinds imap_write_list copies. */
  predicate ValidShape(s: Shape)
    decreases s
  {
    match s
    case MultipartShape(parts, _, _) =>
      |parts| > 0 && forall i :: 0 <= i < |parts| ==> ValidShape(parts[i])
    case SinglepartShape(t, st, _, fs, tail, _) =>
      |fs| == 4 && AllFields(fs) && TailMatchesKind(IsTextType(t), IsMessageRfc822Type(t, st), tail)
      && ValidTail(tail)
  }

  predicate ValidTail(tail: Tail)
    decreases tail
  {
    tail.MessageTail? ==> AllSupported(tail.envelope) && ValidShape(tail.body)
  }

  predicate AllValid(parts: seq<Shape>)
  {
    forall i :: 0 <= i < |parts| ==> ValidShape(parts[i])
  }

  function PairArgs(ps: seq<Param>): (r: seq<ImapArg>)
    ensures |r| == 2 * |ps|
  {
    if ps == [] then []
    else PairArgs(ps[..|ps| - 1]) + [Str(ps[|ps| - 1].name), Str(ps[|ps| - 1].value)]
  }

  function ParamsArg(ps: Option<seq<Param>>): ImapArg
  {
    if ps.Some? then List(PairArgs(ps.value)) else Nil
  }

  /** The argument list of a body. */
  function Encode(s: Shape): seq<ImapArg>
    decreases s, 1
  {
    match s
    case MultipartShape(parts, sub, ext) => EncodeParts(parts) + [Str(sub)] + ext
    case SinglepartShape(t, st, ps, fs, tail, ext) =>
      [Str(t), Str(st), ParamsArg(ps)] + fs + TailArgs(tail) + ext
  }

  function EncodeParts(parts: seq<Shape>): (r: seq<ImapArg>)
    ensures |r| == |parts|
    decreases parts, 0
  {
    if parts == [] then []
    else EncodeParts(parts[..|parts| - 1]) + [List(Encode(parts[|parts| - 1]))]
  }

  function TailArgs(tail: Tail): seq<ImapArg>
    decreases tail, 0
  {
    match tail
    case NoTail => []
    case TextTail(l) => [Atom(l)]
    case MessageTail(env, body, l) => [List(env), List(Encode(body)), Atom(l)]
  }

  /** The basic form of a body: what the normalizer is to write for it. A
      nested message body is in parentheses when wrapNested holds. */
  function Render(s: Shape, wrapNested: bool): string
    requires ValidShape(s)
    decreases s, 1
  {
    match s
    case MultipartShape(parts, sub, _) => RenderParts(parts, wrapNested) + " \"" + sub + "\""
    case SinglepartShape(t, st, ps, fs, tail, _) =>
      "\"" + t + "\" \"" + st + "\"" + RenderParams(ps) + RenderFields(fs) + RenderTail(tail, wrapNested)
  }

  /** The parts of a multipart, each in parentheses, with nothing between. */
  function RenderParts(parts: seq<Shape>, wrapNested: bool): string
    requires AllValid(parts)
    decreases parts, 0
  {
    if parts == [] then ""
    else RenderParts(parts[..|parts| - 1], wrapNested) + "(" + Render(parts[|parts| - 1], wrapNested) + ")"
  }

  function PairTexts(ps: seq<Param>): (r: seq<string>)
    ensures |r| == |ps| && forall i :: 0 <= i < |ps| ==> r[i] == PairText(ps[i].name, ps[i].value)
  {
    seq(|ps|, i requires 0 <= i < |ps| => PairText(ps[i].name, ps[i].value))
  }

  function RenderParams(ps: Option<seq<Param>>): string
  {
    if ps.None? then " NIL" else " (" + Join(PairTexts(ps.value), " ") + ")"
  }

  function RenderTail(tail: Tail, wrapNested: bool): string
    requires ValidTail(tail)
    decreases tail, 0
  {
    match tail
    case NoTail => ""
    case TextTail(l) => " " + l
    case MessageTail(env, body, l) =>
      " " + ListText(env).value + " " + (if wrapNested then "(" + Render(body, wrapNested) + ")" else Render(body, wrapNested))
      + " " + l
  }

  /** A field of a decoded body as IMAP writes it: NIL, the atom, or the
      string in quotes. */
  function FieldWord(a: ImapArg): string
    requires IsField(a)
  {
    match a
    case Nil => "NIL"
    case Atom(t) => t
    case Str(t) => "\"" + t + "\""
  }

  /** The fields of a decoded body, each after a space, built from the
      front. */
  function RenderFields(fs: seq<ImapArg>): string
    requires AllFields(fs)
  {
    if fs == [] then "" else " " + FieldWord(fs[0]) + RenderFields(fs[1..])
  }

  lemma {:induction false} RenderFieldsSnoc(fs: seq<ImapArg>)
    requires AllFields(fs) && fs != []
    ensures RenderFields(fs) == RenderFields(fs[..|fs| - 1]) + " " + FieldWord(fs[|fs| - 1])
    decreases |fs|
  {
    if |fs| > 1 {
      assert fs[1..][..|fs[1..]| - 1] == fs[..|fs| - 1][1..];
      RenderFieldsSnoc(fs[1..]);
    }
  }

  lemma FieldTextWord(a: ImapArg)
    requires IsField(a)
    ensures FieldText(a) == Some(" " + FieldWord(a))
  {
    if a.Str? {
      assert " \"" == " " + "\"";
      assert FieldText(a).value == " " + "\"" + a.text + "\"";
      Assoc3(" ", "\"", a.text, "\"");
    } else if a.Nil? {
      assert " NIL" == " " + "NIL";
    }
  }

  /** The field text the normalizer copies is the rendering of the decoded
      fields. */
  lemma {:induction false} FieldsTextRendersFields(fs: seq<ImapArg>)
    requires AllFields(fs)
    ensures FieldsText(fs) == Some(RenderFields(fs))
    decreases |fs|
  {
    if fs != [] {
      var init := fs[..|fs| - 1];
      var last := fs[|fs| - 1];
      FieldsTextRendersFields(init);
      RenderFieldsSnoc(fs);
      FieldTextWord(last);
      assert FieldsText(fs) == Some(RenderFields(init) + (" " + FieldWord(last)));
      Assoc(RenderFields(init), " ", FieldWord(last));
    }
  }

  /** Reads a body from an argument list, as far as the normalizer reads it. */
  function Decode(args: seq<ImapArg>): Option<Shape>
    decreases args, 1
  {
    var n := LeadingLists(args);
    if n > 0 then
      var parts := DecodeChildren(args, n);
      if parts.Some? && n < |args| && args[n].Str? then Some(MultipartShape(parts.value, args[n].text, args[n + 1..]))
      else None
    else DecodeSinglepart(args)
  }

  function DecodeChildren(args: seq<ImapArg>, n: nat): (r: Option<seq<Shape>>)
    requires n <= |args|
    requires forall i :: 0 <= i < n ==> args[i].List?
    ensures r.Some? ==> |r.value| == n
    decreases args, 0, n
  {
    if n == 0 then Some([])
    else
      var init := DecodeChildren(args, n - 1);
      var last := Decode(args[n - 1].items);
      if init.None? || last.None? then None else Some(init.value + [last.value])
  }

  function DecodePairs(xs: seq<ImapArg>): Option<seq<Param>>
    decreases |xs|
  {
    if xs == [] then Some([])
    else if |xs| == 1 then None
    else
      var init := DecodePairs(xs[..|xs| - 2]);
      var k := xs[|xs| - 2];
      var v := xs[|xs| - 1];
      if init.None? || !k.Str? || !v.Str? then None else Some(init.value + [Param(k.text, v.text)])
  }

  function DecodeParams(a: ImapArg): Option<Option<seq<Param>>>
  {
    if a.List? then
      var ps := DecodePairs(a.items);
      if ps.Some? then Some(Some(ps.value)) else None
    else if a.Nil? then Some(None)
    else None
  }

  /** The tail and the number of arguments it takes. */
  function DecodeTail(rest: seq<ImapArg>, text: bool, rfc822: bool): (r: Option<(Tail, nat)>)
    ensures r.Some? ==> r.value.1 <= |rest|
    decreases rest, 0
  {
    if text then
      if |rest| > 0 && rest[0].Atom? then Some((TextTail(rest[0].text), 1)) else None
    else if rfc822 then
      if |rest| < 3 || !rest[0].List? || !rest[1].List? || !rest[2].Atom? then None
      else
        var body := Decode(rest[1].items);
        if !AllSupported(rest[0].items) || body.None? then None
        else Some((MessageTail(rest[0].items, body.value, rest[2].text), 3))
    else Some((NoTail, 0))
  }

  function DecodeSinglepart(args: seq<ImapArg>): Option<Shape>
    decreases args, 0
  {
    if |args| < 7 || !args[0].Str? || !args[1].Str? then None
    else
      var t := args[0].text;
      var st := args[1].text;
      var ps := DecodeParams(args[2]);
      var tail := DecodeTail(args[7..], IsTextType(t), IsMessageRfc822Type(t, st));
      if ps.None? || !AllFields(args[3..7]) || tail.None? then None
      else Some(SinglepartShape(t, st, ps.value, args[3..7], tail.value.0, args[7 + tail.value.1..]))
  }

  // ---------------------------------------------------------------------
  // The methods

  /** imap_write_list */
  method WriteList(items: seq<ImapArg>, str: string) returns (ok: bool, out: string)
    ensures ok == ListText(items).Some?
    ensures ok ==> out == str + ListText(items).value
    decreases items, 0
  {
    out := str + "(";
    var i := 0;
    while i < |items|
      invariant 0 <= i <= |items|
      invariant ItemsText(items[..i]).Some?
      invariant out == str + "(" + ItemsText(items[..i]).value + (if 0 < i < |items| then " " else "")
    {
      ghost var pre := ItemsText(items[..i]).value + (if 0 < i then " " else "");
      assert out == str + "(" + pre;
      var okArg;
      okArg, out := WriteArg(items[i], out);
      if !okArg {
        assert !Supported(items[i]);
        return false, out;
      }
      ItemsStep(items, i);
      Assoc(str + "(", pre, ArgText(items[i]).value);
      assert out == str + "(" + ItemsText(items[..i + 1]).value;
      i := i + 1;
      if i < |items| {
        out := out + " ";
      }
    }
    assert items[..i] == items;
    out := out + ")";
    ok := true;
  }

  /** One argument of imap_write_list's loop. */
  method WriteArg(a: ImapArg, str: string) returns (ok: bool, out: string)
    ensures ok == ArgText(a).Some?
    ensures ok ==> out == str + ArgText(a).value
    decreases a, 1
  {
    ok := true;
    match a {
      case Nil =>
        out := str + "NIL";
      case Atom(t) =>
        out := str + t;
      case Str(t) =>
        out := str + "\"" + t + "\"";
      case List(xs) =>
        ok, out := WriteList(xs, str);
      case Other(_) =>
        return false, str;
    }
  }

  /** imap_parse_bodystructure_args */
  method ParseBodystructureArgs(args: seq<ImapArg>, str: string) returns (ok: bool, out: string)
    ensures ok == NormalizeAsWritten(args).Some?
    ensures ok ==> out == str + NormalizeAsWritten(args).value
    decreases args, 1
  {
    out := str;
    var i := 0;
    var multipart := false;
    while i < |args| && args[i].List?
      invariant 0 <= i <= |args|
      invariant forall j :: 0 <= j < i ==> args[j].List?
      invariant multipart == (i > 0)
      invariant ChildrenText(args, i, false).Some?
      invariant out == str + ChildrenText(args, i, false).value
    {
      out := out + "(";
      var okPart;
      okPart, out := ParseBodystructureArgs(args[i].items, out);
      if !okPart {
        ChildrenPrefixFails(args, LeadingLists(args), i + 1, false);
        return false, out;
      }
      out := out + ")";
      multipart := true;
      i := i + 1;
    }
    assert i == LeadingLists(args);
    if multipart {
      // next is the subtype; the rest is skipped
      if i >= |args| || !args[i].Str? {
        return false, out;
      }
      out := out + " \"" + args[i].text + "\"";
      return true, out;
    }
    ok, out := WriteSinglepart(args, str);
  }

  /** The non-multipart half of imap_parse_bodystructure_args. */
  method WriteSinglepart(args: seq<ImapArg>, str: string) returns (ok: bool, out: string)
    ensures ok == SinglepartText(args, false).Some?
    ensures ok ==> out == str + SinglepartText(args, false).value
    decreases args, 0
  {
    // "content type" "subtype"
    if |args| < 2 || !args[0].Str? || !args[1].Str? {
      return false, str;
    }
    var text := EqualsIgnoreCase(args[0].text, "text");
    var rfc822 := EqualsIgnoreCase(args[0].text, "message") && EqualsIgnoreCase(args[1].text, "rfc822");
    var head := "\"" + args[0].text + "\" \"" + args[1].text + "\"";
    out := str + head;
    // the parameter list, or NIL
    if |args| < 3 {
      return false, out;
    }
    var okParams;
    okParams, out := WriteParams(args[2], out);
    if !okParams {
      return false, out;
    }
    var okFields;
    okFields, out := WriteFields(args, out);
    if !okFields {
      return false, out;
    }
    var okTail;
    okTail, out := WriteTail(args[7..], text, rfc822, out);
    if !okTail {
      return false, out;
    }
    Concat4(str, head, ParamsText(args[2]).value, FieldsText(args[3..7]).value,
      TailText(args[7..], text, rfc822, false).value);
    ok := true;
  }

  /** The four fields id, description, encoding and size (the loop over i). */
  method WriteFields(args: seq<ImapArg>, str: string) returns (ok: bool, out: string)
    ensures ok == (|args| >= 7 && FieldsText(args[3..7]).Some?)
    ensures ok ==> out == str + FieldsText(args[3..7]).value
  {
    out := str;
    if |args| < 7 {
      return false, out;
    }
    var k := 3;
    while k < 7
      invariant 3 <= k <= 7
      invariant FieldsText(args[3..k]).Some?
      invariant out == str + FieldsText(args[3..k]).value
    {
      FieldsStep(args, k);
      var okField;
      okField, out := WriteField(args[k], out);
      if !okField {
        FieldsFail(args, k);
        return false, out;
      }
      Assoc(str, FieldsText(args[3..k]).value, FieldText(args[k]).value);
      k := k + 1;
    }
    ok := true;
  }

  /** A field of another kind fails the four. */
  lemma FieldsFail(args: seq<ImapArg>, k: nat)
    requires 3 <= k < 7 <= |args| && !IsField(args[k])
    ensures FieldsText(args[3..7]).None?
  {
    assert args[3..7][k - 3] == args[k];
  }

  /** One more field: FieldsText of args[3..k + 1] from that of args[3..k]. */
  lemma FieldsStep(args: seq<ImapArg>, k: nat)
    requires 3 <= k < 7 <= |args|
    ensures FieldsText(args[3..k + 1])
      == if FieldsText(args[3..k]).None? || FieldText(args[k]).None? then None
         else Some(FieldsText(args[3..k]).value + FieldText(args[k]).value)
  {
    assert args[3..k + 1][..k - 3] == args[3..k];
    assert args[3..k + 1][k - 3] == args[k];
  }

  /** One field: NIL, an atom, or a string, after a space. */
  method WriteField(a: ImapArg, str: string) returns (ok: bool, out: string)
    ensures ok == FieldText(a).Some?
    ensures ok ==> out == str + FieldText(a).value
  {
    ok := true;
    if a.Nil? {
      out := str + " NIL";
    } else if a.Atom? {
      out := str + " ";
      out := out + a.text;
    } else if a.Str? {
      out := str + " \"" + a.text + "\"";
    } else {
      return false, str;
    }
  }

  /** The type-dependent tail: text lines, or the envelope, body and lines
      of a message/rfc822 part. */
  method WriteTail(rest: seq<ImapArg>, text: bool, rfc822: bool, str: string) returns (ok: bool, out: string)
    ensures ok == TailText(rest, text, rfc822, false).Some?
    ensures ok ==> out == str + TailText(rest, text, rfc822, false).value
    decreases rest, 0
  {
    out := str;
    if text {
      // text/xxx: the line count
      if |rest| == 0 || !rest[0].Atom? {
        return false, out;
      }
      out := out + " ";
      out := out + rest[0].text;
    } else if rfc822 {
      // message/rfc822: envelope, body structure, line count
      if |rest| < 3 || !rest[0].List? || !rest[1].List? || !rest[2].Atom? {
        return false, out;
      }
      out := out + " ";
      var okEnv;
      okEnv, out := WriteList(rest[0].items, out);
      if !okEnv {
        return false, out;
      }
      out := out + " ";
      var okBody;
      okBody, out := ParseBodystructureArgs(rest[1].items, out);
      if !okBody {
        return false, out;
      }
      out := out + " ";
      out := out + rest[2].text;
      TailChain(str, ListText(rest[0].items).value, NormalizeAsWritten(rest[1].items).value, rest[2].text);
    }
    ok := true;
  }

  /** The parameter list of imap_parse_bodystructure_args. */
  method WriteParams(a: ImapArg, str: string) returns (ok: bool, out: string)
    ensures ok == ParamsText(a).Some?
    ensures ok ==> out == str + ParamsText(a).value
  {
    if a.List? {
      var okPairs;
      okPairs, out := WritePairs(a.items, str + " (");
      if !okPairs {
        return false, out;
      }
      Assoc3(str, " (", PairsText(a.items).value, ")");
      out := out + ")";
    } else if a.Nil? {
      out := str + " NIL";
    } else {
      return false, str;
    }
    ok := true;
  }

  /** The loop over the key/value pairs. */
  method WritePairs(xs: seq<ImapArg>, str: string) returns (ok: bool, out: string)
    ensures ok == PairsText(xs).Some?
    ensures ok ==> out == str + PairsText(xs).value
  {
    out := str;
    var j := 0;
    while j < |xs|
      invariant 0 <= j <= |xs| && j % 2 == 0
      invariant PairsText(xs[..j]).Some?
      invariant out == str + PairsText(xs[..j]).value + (if 0 < j < |xs| then " " else "")
    {
      if j + 1 >= |xs| || !xs[j].Str? || !xs[j + 1].Str? {
        PairsFail(xs, j);
        return false, out;
      }
      assert out == str + PairsText(xs[..j]).value + (if 0 < j then " " else "");
      PairsAppend(xs, j, str);
      out := out + PairText(xs[j].text, xs[j + 1].text);
      j := j + 2;
      if j < |xs| {
        out := out + " ";
      }
    }
    assert xs[..j] == xs;
    ok := true;
  }

  // ---------------------------------------------------------------------
  // Lemmas used by the methods

  /** One more argument of a list. */
  lemma ItemsStep(xs: seq<ImapArg>, i: nat)
    requires i < |xs|
    requires ItemsText(xs[..i]).Some? && ArgText(xs[i]).Some?
    ensures ItemsText(xs[..i + 1]).Some?
    ensures ItemsText(xs[..i + 1]).value
      == (if 0 < i then ItemsText(xs[..i]).value + " " else "") + ArgText(xs[i]).value
  {
    assert xs[..i + 1][..i] == xs[..i];
  }

  /** One more pair of a parameter list. */
  lemma PairsStep(xs: seq<ImapArg>, j: nat)
    requires j + 1 < |xs|
    requires PairsText(xs[..j]).Some? && xs[j].Str? && xs[j + 1].Str?
    ensures PairsText(xs[..j + 2]).Some?
    ensures PairsText(xs[..j + 2]).value
      == (if 0 < j then PairsText(xs[..j]).value + " " else "") + PairText(xs[j].text, xs[j + 1].text)
  {
    assert xs[..j + 2][..j] == xs[..j];
    if j == 0 {
      assert |xs[..j + 2]| == 2;
    }
  }

  /** The buffer after one more pair is the text of the longer prefix. */
  lemma PairsAppend(xs: seq<ImapArg>, j: nat, str: string)
    requires j + 1 < |xs|
    requires PairsText(xs[..j]).Some? && xs[j].Str? && xs[j + 1].Str?
    ensures PairsText(xs[..j + 2]).Some?
    ensures str + PairsText(xs[..j]).value + (if 0 < j then " " else "") + PairText(xs[j].text, xs[j + 1].text)
      == str + PairsText(xs[..j + 2]).value
  {
    PairsStep(xs, j);
    Assoc(str, PairsText(xs[..j]).value + (if 0 < j then " " else ""), PairText(xs[j].text, xs[j + 1].text));
  }

  /** A missing value or a non-string at an even position fails the list. */
  lemma PairsFail(xs: seq<ImapArg>, j: nat)
    requires j < |xs| && j % 2 == 0
    requires j + 1 >= |xs| || !xs[j].Str? || !xs[j + 1].Str?
    ensures PairsText(xs).None?
  {
    if j + 1 >= |xs| {
      assert |xs| % 2 == 1;
    } else if !xs[j].Str? {
      assert !xs[j].Str?;
    } else {
      assert !xs[j + 1].Str?;
    }
  }

  /** A part that fails to normalize makes its multipart fail. */
  lemma {:induction false} ChildrenPrefixFails(args: seq<ImapArg>, n: nat, k: nat, wrapNested: bool)
    requires k <= n <= |args|
    requires forall i :: 0 <= i < n ==> args[i].List?
    requires ChildrenText(args, k, wrapNested).None?
    ensures ChildrenText(args, n, wrapNested).None?
    decreases n
  {
    if k < n {
      ChildrenPrefixFails(args, n - 1, k, wrapNested);
    }
  }
}
