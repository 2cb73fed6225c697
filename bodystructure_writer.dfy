/** The writer of src/lib-imap/imap-bodystructure.c: part_write_bodystructure,
    part_write_body_multipart and part_write_body render a part tree and its
    metadata records as the parenthesized text of a FETCH BODY (basic form)
    or BODYSTRUCTURE (extended form) response, as section 7.4.2 of RFC 3501
    describes.

    The functions Bodystructure, PartText, MultipartText and BodyText are the
    reference rendering; the methods append to the shared output buffer step
    by step as the C code does, and each is proved to append exactly its
    reference rendering. The buffer is threaded through as a string value. */
module BodystructureWriter {
  import opened Text
  import opened BodyParts

  /** Written in place of the children of a multipart that has none: a
      0-length text/plain structure. */
  const EmptyBodystructure: string := "(\"text\" \"plain\" (\"charset\" \"us-ascii\") NIL NIL \"7bit\" 0 0)"

  /** NVL(s, dflt) */
  function Nvl(s: Option<string>, dflt: string): string
  {
    if s.Some? then s.value else dflt
  }

  /** A list field: the stored text in parentheses, or NIL when unset. */
  function ListOrNil(s: Option<string>): string
  {
    if s.None? then "NIL" else "(" + s.value + ")"
  }

  /** What the writer's assertions demand of the parts it visits: a multipart
      has a record with a subtype (i_assert(data != NULL), and the subtype is
      appended unchecked), and a message/rfc822 part has exactly one child
      (lines 337-338). Parts the writer does not descend into are
      unconstrained. */
  predicate WellFormed(p: MessagePart)
  {
    (IsMultipart(p) ==>
      p.context.Some? && p.context.value.contentSubtype.Some? &&
      forall i :: 0 <= i < |p.children| ==> WellFormed(p.children[i])) &&
    (IsMessageRfc822(p) ==> |p.children| == 1 && WellFormed(p.children[0]))
  }

  predicate AllWellFormed(parts: seq<MessagePart>)
  {
    forall i :: 0 <= i < |parts| ==> WellFormed(parts[i])
  }

  // ---------------------------------------------------------------------
  // Reference rendering

  /** A sibling list, each part in parentheses when the parts have a parent,
      with nothing between siblings. */
  function Bodystructure(parts: seq<MessagePart>, hasParent: bool, ext: bool, we: Envelope -> string): string
    requires AllWellFormed(parts)
    decreases parts
  {
    if parts == [] then ""
    else Bodystructure(parts[..|parts| - 1], hasParent, ext, we) + PartText(parts[|parts| - 1], hasParent, ext, we)
  }

  function PartText(p: MessagePart, hasParent: bool, ext: bool, we: Envelope -> string): string
    requires WellFormed(p)
    decreases p, 2
  {
    var body := if IsMultipart(p) then MultipartText(p, ext, we) else BodyText(p, ext, we);
    if hasParent then "(" + body + ")" else body
  }

  /** part_write_body_multipart */
  function MultipartText(p: MessagePart, ext: bool, we: Envelope -> string): string
    requires IsMultipart(p) && WellFormed(p)
    decreases p, 1
  {
    var d := p.context.value;
    (if p.children == [] then EmptyBodystructure else Bodystructure(p.children, true, ext, we))
      + " " + d.contentSubtype.value
      + (if ext then MultipartExtension(d) else "")
  }

  /** The disposition as one list, the disposition parameters nested inside
      its parentheses, as a multipart writes it. */
  function DispositionField(d: BodyData): string
  {
    if d.contentDisposition.None? then "NIL" else
      "(" + d.contentDisposition.value
      + (if d.contentDispositionParams.Some? then " (" + d.contentDispositionParams.value + ")" else "")
      + ")"
  }

  /** The extension data of a multipart: parameters, disposition, language. */
  function MultipartExtension(d: BodyData): string
  {
    " " + ListOrNil(d.contentTypeParams) + " " + DispositionField(d) + " " + ListOrNil(d.contentLanguage)
  }

  /** The basic fields of a non-multipart part: type, subtype, parameters,
      id, description, encoding and size, with the defaults of a part without
      the header. */
  function BasicFields(d: BodyData, size: nat): string
  {
    Nvl(d.contentType, "\"text\"") + " " + Nvl(d.contentSubtype, "\"plain\"") + " " + ListOrNil(d.contentTypeParams)
      + " " + Nvl(d.contentId, "NIL") + " " + Nvl(d.contentDescription, "NIL")
      + " " + Nvl(d.contentTransferEncoding, "\"8bit\"") + " " + Decimal(size)
  }

  /** The envelope of a message/rfc822 body, from the record of its only
      child; NIL when the child has no record or the record no envelope. */
  function EnvelopeField(child: MessagePart, we: Envelope -> string): string
  {
    if child.context.Some? && child.context.value.envelope.Some?
    then "(" + we(child.context.value.envelope.value) + ")"
    else "NIL"
  }

  /** What follows the size: the line count of a text part; the envelope, the
      body and the line count of a message/rfc822 part; nothing otherwise. */
  function TypeTail(p: MessagePart, ext: bool, we: Envelope -> string): string
    requires !IsMultipart(p) && WellFormed(p)
    decreases p, 0
  {
    if FlagText in p.flags then " " + Decimal(p.lines)
    else if FlagMessageRfc822 in p.flags then
      " " + EnvelopeField(p.children[0], we) + " " + Bodystructure(p.children, true, ext, we) + " " + Decimal(p.lines)
    else ""
  }

  /** The disposition of a non-multipart part as written: the disposition in
      parentheses, then its parameters in a separate list after it. */
  function SingleDisposition(d: BodyData): string
  {
    if d.contentDisposition.None? then "NIL" else
      "(" + d.contentDisposition.value + ")"
      + (if d.contentDispositionParams.Some? then " (" + d.contentDispositionParams.value + ")" else "")
  }

  /** The extension data of a non-multipart part: MD5, disposition, language. */
  function SingleExtension(d: BodyData): string
  {
    " " + Nvl(d.contentMd5, "NIL") + " " + SingleDisposition(d) + " " + ListOrNil(d.contentLanguage)
  }

  /** The extension data of a non-multipart part with its disposition
      written as one list, the way a multipart writes it and the comment
      above the C code describes it. */
  function SingleExtensionCorrected(d: BodyData): (r: string)
    ensures d.contentDispositionParams.None? ==> r == SingleExtension(d)
  {
    " " + Nvl(d.contentMd5, "NIL") + " " + DispositionField(d) + " " + ListOrNil(d.contentLanguage)
  }

  /** part_write_body */
  function BodyText(p: MessagePart, ext: bool, we: Envelope -> string): string
    requires !IsMultipart(p) && WellFormed(p)
    decreases p, 1
  {
    var d := DataOf(p.context);
    BasicFields(d, p.virtualSize) + TypeTail(p, ext, we) + (if ext then SingleExtension(d) else "")
  }

  // ---------------------------------------------------------------------
  // Properties of the rendering

  /** A part with a parent is its own rendering in parentheses. */
  lemma ParentWraps(p: MessagePart, ext: bool, we: Envelope -> string)
    requires WellFormed(p)
    ensures PartText(p, true, ext, we) == "(" + PartText(p, false, ext, we) + ")"
  {
  }

  /** Siblings are written one after another, in order, with nothing
      between them. */
  lemma {:induction false} SiblingsConcatenate(a: seq<MessagePart>, b: seq<MessagePart>, hasParent: bool, ext: bool,
                                               we: Envelope -> string)
    requires AllWellFormed(a) && AllWellFormed(b)
    ensures AllWellFormed(a + b)
    ensures Bodystructure(a + b, hasParent, ext, we)
      == Bodystructure(a, hasParent, ext, we) + Bodystructure(b, hasParent, ext, we)
    decreases |b|
  {
    assert forall i :: 0 <= i < |a + b| ==> (a + b)[i] == if i < |a| then a[i] else b[i - |a|];
    if b == [] {
      assert a + b == a;
    } else {
      var ab := a + b;
      var init := b[..|b| - 1];
      var last := b[|b| - 1];
      assert ab[..|ab| - 1] == a + init;
      assert ab[|ab| - 1] == last;
      assert AllWellFormed(init);
      SiblingsConcatenate(a, init, hasParent, ext, we);
      var sa := Bodystructure(a, hasParent, ext, we);
      var si := Bodystructure(init, hasParent, ext, we);
      var sl := PartText(last, hasParent, ext, we);
      assert Bodystructure(ab, hasParent, ext, we) == sa + si + sl;
      assert Bodystructure(b, hasParent, ext, we) == si + sl;
      Assoc(sa, si, sl);
    }
  }

  /** A multipart without children is written with a 0-length text/plain
      structure in their place; its basic form ends at the subtype. */
  lemma EmptyMultipartPlaceholder(p: MessagePart, we: Envelope -> string)
    requires IsMultipart(p) && WellFormed(p) && p.children == []
    ensures PartText(p, false, false, we) == EmptyBodystructure + " " + p.context.value.contentSubtype.value
  {
  }

  /** A part without content headers is written as 8bit text/plain with
      no parameters, id or description; with no type flags nothing follows
      the size. */
  lemma DefaultFields(p: MessagePart, we: Envelope -> string)
    requires !IsMultipart(p) && !IsText(p) && !IsMessageRfc822(p) && p.context.None?
    ensures PartText(p, false, false, we) == "\"text\" \"plain\" NIL NIL NIL \"8bit\" " + Decimal(p.virtualSize)
  {
    var n := Decimal(p.virtualSize);
    assert BodyText(p, false, we) == BasicFields(EmptyBodyData(), p.virtualSize) + "" + "";
    DefaultText(n);
  }

  lemma DefaultText(n: string)
    ensures "\"text\"" + " " + "\"plain\"" + " " + "NIL" + " " + "NIL" + " " + "NIL" + " " + "\"8bit\"" + " " + n + "" + ""
      == "\"text\" \"plain\" NIL NIL NIL \"8bit\" " + n
  {
  }

  /** A text part ends its basic form with its line count; the extended
      form adds MD5, disposition and language after that. */
  lemma TextPartLayout(p: MessagePart, we: Envelope -> string)
    requires !IsMultipart(p) && IsText(p)
    ensures WellFormed(p)
    ensures PartText(p, false, false, we) == BasicFields(DataOf(p.context), p.virtualSize) + " " + Decimal(p.lines)
    ensures PartText(p, false, true, we) == PartText(p, false, false, we) + SingleExtension(DataOf(p.context))
  {
    var b := BasicFields(DataOf(p.context), p.virtualSize);
    var l := Decimal(p.lines);
    var e := SingleExtension(DataOf(p.context));
    assert TypeTail(p, false, we) == " " + l && TypeTail(p, true, we) == " " + l;
    assert PartText(p, false, false, we) == b + (" " + l) + "";
    assert PartText(p, false, true, we) == b + (" " + l) + e;
    Assoc(b, " ", l);
  }

  /** A message/rfc822 part writes its envelope, its only child in
      parentheses and its line count after the size. */
  lemma MessagePartLayout(p: MessagePart, ext: bool, we: Envelope -> string)
    requires !IsMultipart(p) && IsMessageRfc822(p) && WellFormed(p)
    ensures TypeTail(p, ext, we)
      == " " + EnvelopeField(p.children[0], we) + " (" + PartText(p.children[0], false, ext, we) + ") " + Decimal(p.lines)
  {
    var c := p.children[0];
    assert p.children[..0] == [];
    ParentWraps(c, ext, we);
    var env := EnvelopeField(c, we);
    var body := PartText(c, false, ext, we);
    var l := Decimal(p.lines);
    assert Bodystructure(p.children, true, ext, we) == "" + ("(" + body + ")");
    assert TypeTail(p, ext, we) == " " + env + " " + ("" + ("(" + body + ")")) + " " + l;
    NestedBody(env, body, l);
  }

  // ---------------------------------------------------------------------
  // The writer

  /** part_write_bodystructure: walks the sibling list. */
  method WriteBodystructure(parts: seq<MessagePart>, hasParent: bool, ext: bool, we: Envelope -> string,
                            str: string) returns (out: string)
    requires hasParent || |parts| <= 1
    requires AllWellFormed(parts)
    ensures out == str + Bodystructure(parts, hasParent, ext, we)
    decreases parts
  {
    out := str;
    var i := 0;
    while i < |parts|
      invariant 0 <= i <= |parts|
      invariant out == str + Bodystructure(parts[..i], hasParent, ext, we)
    {
      assert parts[..i + 1][..i] == parts[..i];
      out := WritePart(parts[i], hasParent, ext, we, out);
      Assoc(str, Bodystructure(parts[..i], hasParent, ext, we), PartText(parts[i], hasParent, ext, we));
      i := i + 1;
    }
    assert parts[..i] == parts;
  }

  /** part_get_bodystructure: the root part written into a fresh buffer. It
      has no parent, so its text carries no enclosing parentheses. */
  method PartGetBodystructure(part: MessagePart, ext: bool, we: Envelope -> string) returns (s: string)
    requires WellFormed(part)
    ensures s == PartText(part, false, ext, we)
  {
    s := WriteBodystructure([part], false, ext, we, "");
    assert [part][..0] == [];
  }

  /** One iteration of part_write_bodystructure's loop: the part, in
      parentheses when it has a parent. */
  method WritePart(part: MessagePart, hasParent: bool, ext: bool, we: Envelope -> string, str: string)
    returns (out: string)
    requires WellFormed(part)
    ensures out == str + PartText(part, hasParent, ext, we)
    decreases part, 2
  {
    out := str;
    if hasParent {
      out := out + "(";
    }
    ghost var afterOpen := out;
    if IsMultipart(part) {
      out := WriteBodyMultipart(part, ext, we, out);
    } else {
      out := WriteBody(part, ext, we, out);
    }
    ghost var body := if IsMultipart(part) then MultipartText(part, ext, we) else BodyText(part, ext, we);
    assert out == afterOpen + body;
    if hasParent {
      out := out + ")";
      Wrapped(str, body);
    }
  }

  /** part_write_body_multipart */
  method WriteBodyMultipart(part: MessagePart, ext: bool, we: Envelope -> string, str: string) returns (out: string)
    requires IsMultipart(part) && WellFormed(part)
    ensures out == str + MultipartText(part, ext, we)
    decreases part, 1
  {
    var data := part.context.value;
    if part.children != [] {
      out := WriteBodystructure(part.children, true, ext, we, str);
    } else {
      // no parts in the multipart: a single 0-length text/plain structure
      out := str + EmptyBodystructure;
    }
    ghost var children := if part.children == [] then EmptyBodystructure else Bodystructure(part.children, true, ext, we);
    out := out + " " + data.contentSubtype.value;
    ghost var extension := if ext then MultipartExtension(data) else "";
    if ext {
      ghost var basic := out;
      out := out + " ";
      ghost var o1 := out;
      if data.contentTypeParams.None? {
        out := out + "NIL";
      } else {
        out := out + "(" + data.contentTypeParams.value + ")";
        Wrapped(o1, data.contentTypeParams.value);
      }
      assert out == o1 + ListOrNil(data.contentTypeParams);
      out := out + " ";
      ghost var o2 := out;
      if data.contentDisposition.None? {
        out := out + "NIL";
      } else {
        out := out + "(" + data.contentDisposition.value;
        ghost var o3 := out;
        ghost var params := if data.contentDispositionParams.Some? then " (" + data.contentDispositionParams.value + ")" else "";
        if data.contentDispositionParams.Some? {
          out := out + " (" + data.contentDispositionParams.value + ")";
          Assoc3(o3, " (", data.contentDispositionParams.value, ")");
        }
        assert out == o3 + params;
        out := out + ")";
        Assoc3(o2, "(", data.contentDisposition.value, params);
        Assoc(o2, "(" + data.contentDisposition.value + params, ")");
      }
      assert out == o2 + DispositionField(data);
      out := out + " ";
      ghost var o4 := out;
      if data.contentLanguage.None? {
        out := out + "NIL";
      } else {
        out := out + "(" + data.contentLanguage.value + ")";
      }
      assert out == o4 + ListOrNil(data.contentLanguage);
      ExtensionChain(basic, ListOrNil(data.contentTypeParams), DispositionField(data), ListOrNil(data.contentLanguage));
    }
    SubtypeChain(str, children, data.contentSubtype.value, extension);
  }

  /** part_write_body */
  method WriteBody(part: MessagePart, ext: bool, we: Envelope -> string, str: string) returns (out: string)
    requires !IsMultipart(part) && WellFormed(part)
    ensures out == str + BodyText(part, ext, we)
    decreases part, 1
  {
    // a part without content headers is written from an empty record
    var data := DataOf(part.context);
    out := WriteBasicFields(data, part.virtualSize, str);
    out := WriteTypeTail(part, ext, we, out);
    if ext {
      out := WriteSingleExtension(data, out);
    }
    Assoc3(str, BasicFields(data, part.virtualSize), TypeTail(part, ext, we), if ext then SingleExtension(data) else "");
  }

  /** The basic fields of part_write_body (lines 309-328). */
  method WriteBasicFields(data: BodyData, size: nat, str: string) returns (out: string)
    ensures out == str + BasicFields(data, size)
  {
    out := str + Nvl(data.contentType, "\"text\"") + " " + Nvl(data.contentSubtype, "\"plain\"");
    out := out + " ";
    ghost var o1 := out;
    if data.contentTypeParams.None? {
      out := out + "NIL";
    } else {
      out := out + "(" + data.contentTypeParams.value + ")";
    }
    assert out == o1 + ListOrNil(data.contentTypeParams);
    out := out + " " + Nvl(data.contentId, "NIL") + " " + Nvl(data.contentDescription, "NIL")
      + " " + Nvl(data.contentTransferEncoding, "\"8bit\"") + " " + Decimal(size);
    BasicChain(str, Nvl(data.contentType, "\"text\""), Nvl(data.contentSubtype, "\"plain\""),
      ListOrNil(data.contentTypeParams), Nvl(data.contentId, "NIL"), Nvl(data.contentDescription, "NIL"),
      Nvl(data.contentTransferEncoding, "\"8bit\""), Decimal(size));
  }

  /** The type-dependent fields of part_write_body (lines 330-355). */
  method WriteTypeTail(part: MessagePart, ext: bool, we: Envelope -> string, str: string) returns (out: string)
    requires !IsMultipart(part) && WellFormed(part)
    ensures out == str + TypeTail(part, ext, we)
    decreases part, 0
  {
    out := str;
    if FlagText in part.flags {
      // text/.. contains the line count
      out := out + " " + Decimal(part.lines);
    } else if FlagMessageRfc822 in part.flags {
      // message/rfc822 contains the envelope, the body and the line count
      var child := part.children[0];
      out := out + " ";
      ghost var o2 := out;
      if child.context.Some? && child.context.value.envelope.Some? {
        out := out + "(" + we(child.context.value.envelope.value) + ")";
      } else {
        // buggy message
        out := out + "NIL";
      }
      assert out == o2 + EnvelopeField(child, we);
      out := out + " ";
      out := WriteBodystructure(part.children, true, ext, we, out);
      out := out + " " + Decimal(part.lines);
      TailChain(str, EnvelopeField(child, we), Bodystructure(part.children, true, ext, we), Decimal(part.lines));
    }
  }

  /** The extension data of part_write_body (lines 360-389). */
  method WriteSingleExtension(data: BodyData, str: string) returns (out: string)
    ensures out == str + SingleExtension(data)
  {
    out := str + " " + Nvl(data.contentMd5, "NIL");
    out := out + " ";
    ghost var o3 := out;
    if data.contentDisposition.None? {
      out := out + "NIL";
    } else {
      out := out + "(" + data.contentDisposition.value + ")";
      ghost var disp := "(" + data.contentDisposition.value + ")";
      Wrapped(o3, data.contentDisposition.value);
      ghost var params := if data.contentDispositionParams.Some? then " (" + data.contentDispositionParams.value + ")" else "";
      if data.contentDispositionParams.Some? {
        out := out + " (" + data.contentDispositionParams.value + ")";
        Assoc(o3 + disp, " (", data.contentDispositionParams.value + ")");
      }
      Assoc(o3, disp, params);
    }
    assert out == o3 + SingleDisposition(data);
    out := out + " ";
    ghost var o4 := out;
    if data.contentLanguage.None? {
      out := out + "NIL";
    } else {
      out := out + "(" + data.contentLanguage.value + ")";
    }
    assert out == o4 + ListOrNil(data.contentLanguage);
    ExtensionChain(str, Nvl(data.contentMd5, "NIL"), SingleDisposition(data), ListOrNil(data.contentLanguage));
  }
}
