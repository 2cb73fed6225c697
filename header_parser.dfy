/** The header extractor of src/lib-imap/imap-bodystructure.c: parse_header
    and the callbacks it hands to message_content_parse_header. Each header
    line of a part passes through parse_header once, in order; the first
    accepted one creates the part's metadata record, and the record's
    optional strings are filled from the Content-* headers.

    The specification functions (ContentTypeValues, SaveParams, LanguageTags,
    ApplyHeader, HeaderStep, ExtractAll) state what each step stores; the
    class PartContext performs the same steps in place, and the lemmas at the
    end state what a whole header block leaves in the record. */
module HeaderParser {
  import opened Text
  import opened BodyParts

  // ---------------------------------------------------------------------
  // parse_content_type

  /** The index of the first '/' separator token, or |ts| when there is none. */
  function TypeSeparator(ts: seq<Rfc822Token>): (i: nat)
    ensures i <= |ts|
    ensures forall j :: 0 <= j < i ==> ts[j] != Special('/')
    ensures i < |ts| ==> ts[i] == Special('/')
  {
    if ts == [] || ts[0] == Special('/') then 0 else 1 + TypeSeparator(ts[1..])
  }

  /** What parse_content_type stores as (content_type, content_subtype): the
      quoted tokens before the first '/' and the quoted tokens after it. */
  function ContentTypeValues(ts: seq<Rfc822Token>, col: Collaborators): (string, string)
  {
    var i := TypeSeparator(ts);
    (col.valueQuoted(ts[..i]),
     if i < |ts| then col.valueQuoted(ts[i + 1..]) else col.subtypeWithoutSlash)
  }

  /** The type is everything before the FIRST '/', the subtype everything
      after it, later '/' tokens included. */
  lemma ContentTypeSplitsAtFirstSlash(a: seq<Rfc822Token>, b: seq<Rfc822Token>, col: Collaborators)
    requires forall j :: 0 <= j < |a| ==> a[j] != Special('/')
    ensures ContentTypeValues(a + [Special('/')] + b, col) == (col.valueQuoted(a), col.valueQuoted(b))
  {
    var ts := a + [Special('/')] + b;
    var i := TypeSeparator(ts);
    assert ts[|a|] == Special('/');
    assert forall j :: 0 <= j < |a| ==> ts[j] == a[j];
    assert i == |a|;
    assert ts[..i] == a;
    assert ts[i + 1..] == b;
  }

  // ---------------------------------------------------------------------
  // parse_save_params_list

  /** One parameter as the callback renders it: the name quoted verbatim, a
      space, and the value as the quoter renders its tokens. */
  function ParamText(p: HeaderParam, col: Collaborators): string
  {
    "\"" + p.name + "\" " + col.valueQuoted(p.value)
  }

  /** parse_save_params_list: a space unless the buffer is still empty, then
      the parameter. */
  function AppendParam(str: string, p: HeaderParam, col: Collaborators): string
  {
    (if |str| != 0 then str + " " else str) + ParamText(p, col)
  }

  /** The buffer after the callback has seen every parameter in order. */
  function SaveParams(str: string, ps: seq<HeaderParam>, col: Collaborators): string
  {
    if ps == [] then str else AppendParam(SaveParams(str, ps[..|ps| - 1], col), ps[|ps| - 1], col)
  }

  function ParamTexts(ps: seq<HeaderParam>, col: Collaborators): (r: seq<string>)
    ensures |r| == |ps| && forall i :: 0 <= i < |ps| ==> r[i] == ParamText(ps[i], col)
  {
    seq(|ps|, i requires 0 <= i < |ps| => ParamText(ps[i], col))
  }

  /** Starting from a fresh buffer, the saved list is the parameters joined by
      single spaces (and the empty string when there are none). */
  lemma {:induction false} SaveParamsJoin(ps: seq<HeaderParam>, col: Collaborators)
    ensures SaveParams("", ps, col) == Join(ParamTexts(ps, col), " ")
  {
    if ps != [] {
      var init := ps[..|ps| - 1];
      SaveParamsJoin(init, col);
      assert ParamTexts(ps, col) == ParamTexts(init, col) + [ParamText(ps[|ps| - 1], col)];
      JoinSnoc(ParamTexts(init, col), ParamText(ps[|ps| - 1], col), " ");
      if init != [] {
        SaveParamsNonEmpty(init, col);
      }
    }
  }

  lemma SaveParamsNonEmpty(ps: seq<HeaderParam>, col: Collaborators)
    requires ps != []
    ensures |SaveParams("", ps, col)| > 0
  {
  }

  // ---------------------------------------------------------------------
  // parse_content_language

  /** The tags read so far, and whether the last one is still open (its
      closing quote not yet written). */
  datatype LangState = LangState(tags: seq<string>, open: bool)

  /** One token of parse_content_language's loop: a comment is ignored, a
      ',' closes the open tag, and any other token extends the open tag or
      starts a new one with its text. */
  function NextLang(st: LangState, t: Rfc822Token): (r: LangState)
    requires st.open ==> |st.tags| > 0
    ensures r.open ==> |r.tags| > 0
  {
    if t.Comment? then st
    else if t == Special(',') then LangState(st.tags, false)
    else if st.open then
      LangState(st.tags[..|st.tags| - 1] + [st.tags[|st.tags| - 1] + TokenText(t)], true)
    else LangState(st.tags + [TokenText(t)], true)
  }

  /** The language tags of a token list, one token at a time. */
  function LanguageTags(ts: seq<Rfc822Token>): (st: LangState)
    ensures st.open ==> |st.tags| > 0
  {
    if ts == [] then LangState([], false) else NextLang(LanguageTags(ts[..|ts| - 1]), ts[|ts| - 1])
  }

  function Quote(s: string): string
  {
    "\"" + s + "\""
  }

  function QuotedTags(tags: seq<string>): (r: seq<string>)
    ensures |r| == |tags| && forall i :: 0 <= i < |tags| ==> r[i] == Quote(tags[i])
  {
    seq(|tags|, i requires 0 <= i < |tags| => Quote(tags[i]))
  }

  /** The finished field: every tag in quotes, separated by single spaces. */
  function LanguageText(ts: seq<Rfc822Token>): string
  {
    Join(QuotedTags(LanguageTags(ts).tags), " ")
  }

  /** What the loop has written for a state: the tags before the open one
      complete, and the open one without its closing quote. */
  function LangRendering(st: LangState): string
    requires st.open ==> |st.tags| > 0
  {
    if !st.open then Join(QuotedTags(st.tags), " ")
    else
      var init := st.tags[..|st.tags| - 1];
      (if init == [] then "" else Join(QuotedTags(init), " ") + " ") + "\"" + st.tags[|st.tags| - 1]
  }

  lemma CloseLangTag(st: LangState)
    requires st.open && |st.tags| > 0
    ensures LangRendering(st) + "\"" == Join(QuotedTags(st.tags), " ")
  {
    var init := st.tags[..|st.tags| - 1];
    var last := st.tags[|st.tags| - 1];
    assert QuotedTags(st.tags) == QuotedTags(init) + [Quote(last)];
    JoinSnoc(QuotedTags(init), Quote(last), " ");
  }

  lemma JoinQuotedNonEmpty(tags: seq<string>)
    ensures |Join(QuotedTags(tags), " ")| > 0 <==> |tags| > 0
  {
    if |tags| > 0 {
      assert QuotedTags(tags)[0] == Quote(tags[0]);
    }
  }

  /** A token that opens a tag writes a separating space (unless nothing
      has been written), the opening quote and its text. */
  lemma OpenRendering(st: LangState, t: Rfc822Token)
    requires !st.open && !t.Comment? && t != Special(',')
    ensures LangRendering(NextLang(st, t))
      == (if |LangRendering(st)| > 0 then LangRendering(st) + " " else LangRendering(st)) + "\"" + TokenText(t)
  {
    JoinQuotedNonEmpty(st.tags);
    assert (st.tags + [TokenText(t)])[..|st.tags|] == st.tags;
  }

  /** A token inside an open tag only appends its text. */
  lemma ExtendRendering(st: LangState, t: Rfc822Token)
    requires st.open && |st.tags| > 0 && !t.Comment? && t != Special(',')
    ensures LangRendering(NextLang(st, t)) == LangRendering(st) + TokenText(t)
  {
    var init := st.tags[..|st.tags| - 1];
    var last := st.tags[|st.tags| - 1];
    var nt := NextLang(st, t);
    assert nt.tags == init + [last + TokenText(t)] && nt.open;
    assert nt.tags[..|nt.tags| - 1] == init;
    assert nt.tags[|nt.tags| - 1] == last + TokenText(t);
    var pre := if init == [] then "" else Join(QuotedTags(init), " ") + " ";
    assert LangRendering(nt) == pre + "\"" + (last + TokenText(t));
    assert LangRendering(st) == pre + "\"" + last;
    Assoc(pre + "\"", last, TokenText(t));
  }

  lemma LanguageTagsPrefix(tokens: seq<Rfc822Token>, k: nat)
    requires k < |tokens|
    ensures LanguageTags(tokens[..k + 1]) == NextLang(LanguageTags(tokens[..k]), tokens[k])
  {
    assert tokens[..k + 1][..k] == tokens[..k];
  }

  /** parse_content_language's loop, for a non-empty token list: the field it
      stores is the quoted tags. */
  method RenderContentLanguage(tokens: seq<Rfc822Token>) returns (s: string)
    ensures s == LanguageText(tokens)
  {
    var str := "";
    var quoted := false;
    var k := 0;
    while k < |tokens|
      invariant 0 <= k <= |tokens|
      invariant quoted == LanguageTags(tokens[..k]).open
      invariant str == LangRendering(LanguageTags(tokens[..k]))
    {
      ghost var st := LanguageTags(tokens[..k]);
      var t := tokens[k];
      LanguageTagsPrefix(tokens, k);
      if t.Comment? {
        // a comment is ignored
      } else if t == Special(',') {
        if quoted {
          CloseLangTag(st);
          str := str + "\"";
          quoted := false;
        }
      } else {
        if !quoted {
          OpenRendering(st, t);
          if |str| > 0 {
            str := str + " ";
          }
          str := str + "\"";
          quoted := true;
        } else {
          ExtendRendering(st, t);
        }
        str := str + TokenText(t);
      }
      k := k + 1;
    }
    assert tokens[..k] == tokens;
    if quoted {
      CloseLangTag(LanguageTags(tokens));
      str := str + "\"";
    }
    s := str;
  }

  /** Dropping a comment anywhere leaves the tags as they were. */
  lemma {:induction false} LanguageIgnoresComment(a: seq<Rfc822Token>, c: string, b: seq<Rfc822Token>)
    ensures LanguageTags(a + [Comment(c)] + b) == LanguageTags(a + b)
    decreases |b|
  {
    if b == [] {
      assert (a + [Comment(c)] + b)[..|a|] == a;
      assert a + b == a;
    } else {
      var b' := b[..|b| - 1];
      LanguageIgnoresComment(a, c, b');
      assert (a + [Comment(c)] + b)[..|a + [Comment(c)] + b| - 1] == a + [Comment(c)] + b';
      assert (a + b)[..|a + b| - 1] == a + b';
    }
  }

  /** A ',' splits the tag list: the tags of the two sides, in order. */
  lemma {:induction false} LanguageCommaSplit(a: seq<Rfc822Token>, b: seq<Rfc822Token>)
    ensures LanguageTags(a + [Special(',')] + b)
      == LangState(LanguageTags(a).tags + LanguageTags(b).tags, LanguageTags(b).open)
    decreases |b|
  {
    var ab := a + [Special(',')] + b;
    if b == [] {
      assert ab[..|ab| - 1] == a;
    } else {
      var b' := b[..|b| - 1];
      var t := b[|b| - 1];
      LanguageCommaSplit(a, b');
      assert ab[..|ab| - 1] == a + [Special(',')] + b';
      assert ab[|ab| - 1] == t;
      NextLangAfter(LanguageTags(a).tags, LanguageTags(b'), t);
    }
  }

  /** Tags already closed before st are untouched by the next token. */
  lemma NextLangAfter(ta: seq<string>, st: LangState, t: Rfc822Token)
    requires st.open ==> |st.tags| > 0
    ensures NextLang(LangState(ta + st.tags, st.open), t)
      == LangState(ta + NextLang(st, t).tags, NextLang(st, t).open)
  {
    if !t.Comment? && t != Special(',') && st.open {
      var tb := st.tags;
      assert (ta + tb)[..|ta + tb| - 1] == ta + tb[..|tb| - 1];
      assert (ta + tb)[|ta + tb| - 1] == tb[|tb| - 1];
    }
  }

  /** The header "Content-Language: en-US, (comment) az-arabic". */
  lemma LanguageExample()
    ensures LanguageText([Atom("en-US"), Special(','), Comment("comment"), Atom("az-arabic")])
      == "\"en-US\" \"az-arabic\""
  {
    var ts := [Atom("en-US"), Special(','), Comment("comment"), Atom("az-arabic")];
    assert ts[..1][..0] == [];
    assert ts[..2][..1] == ts[..1];
    assert ts[..3][..2] == ts[..2];
    assert ts[..4 - 1] == ts[..3];
    assert LanguageTags(ts[..1]) == LangState(["en-US"], true);
    assert LanguageTags(ts[..2]) == LangState(["en-US"], false);
    assert LanguageTags(ts[..3]) == LangState(["en-US"], false);
    assert LanguageTags(ts) == LangState(["en-US", "az-arabic"], true);
    var q := QuotedTags(["en-US", "az-arabic"]);
    assert q[0] == "\"en-US\"" && q[1] == "\"az-arabic\"";
    assert q[1..] == ["\"az-arabic\""];
  }

  // ---------------------------------------------------------------------
  // parse_header

  /** A header reaches the record when the part's parent is message/rfc822,
      or when its name is longer than "Content-" and starts with it, ignoring
      case. */
  predicate Accepts(parentRfc822: bool, name: string)
  {
    parentRfc822 || (|name| > 8 && StartsWithIgnoreCase(name, "Content-"))
  }

  function EnvelopeHeaders(e: Option<Envelope>): seq<HeaderLine>
  {
    if e.Some? then e.value.headers else []
  }

  /** The Content-Type branch (lines 176-184): type and subtype from the
      value, when the content parser reports one, and the parameter list
      from a fresh buffer. */
  function ContentTypeBranch(d: BodyData, h: HeaderLine, col: Collaborators): BodyData
  {
    var ph := col.parseContentHeader(h.value);
    var d1 := if ph.value.Some? then
        var tv := ContentTypeValues(ph.value.value, col);
        d.(contentType := Some(tv.0), contentSubtype := Some(tv.1))
      else d;
    d1.(contentTypeParams := Some(SaveParams("", ph.params, col)))
  }

  /** The Content-Transfer-Encoding branch (lines 185-189). */
  function TransferEncodingBranch(d: BodyData, h: HeaderLine, col: Collaborators): BodyData
  {
    var ph := col.parseContentHeader(h.value);
    if ph.value.Some? then d.(contentTransferEncoding := Some(col.valueQuoted(ph.value.value))) else d
  }

  /** The Content-Disposition branch (lines 198-206). */
  function DispositionBranch(d: BodyData, h: HeaderLine, col: Collaborators): BodyData
  {
    var ph := col.parseContentHeader(h.value);
    var d1 := if ph.value.Some? then d.(contentDisposition := Some(col.valueQuoted(ph.value.value))) else d;
    d1.(contentDispositionParams := Some(SaveParams("", ph.params, col)))
  }

  /** The Content-Language branch (lines 207-210): an empty token list leaves
      the field as it was. */
  function LanguageBranch(d: BodyData, h: HeaderLine, col: Collaborators): BodyData
  {
    var ph := col.parseContentHeader(h.value);
    if ph.value.Some? && |ph.value.value| > 0 then d.(contentLanguage := Some(LanguageText(ph.value.value)))
    else d
  }

  /** The record after one accepted header: the if-else chain of
      parse_header. Only the first branch whose name and guard match runs;
      a header matched by no branch goes to the envelope builder when the
      parent is message/rfc822 and is dropped otherwise. */
  function ApplyHeader(d: BodyData, parentRfc822: bool, h: HeaderLine, col: Collaborators): BodyData
  {
    if EqualsIgnoreCase(h.name, "Content-Type") && d.contentType.None? then
      ContentTypeBranch(d, h, col)
    else if EqualsIgnoreCase(h.name, "Content-Transfer-Encoding") && d.contentTransferEncoding.None? then
      TransferEncodingBranch(d, h, col)
    else if EqualsIgnoreCase(h.name, "Content-ID") && d.contentId.None? then
      d.(contentId := Some(col.quoteValue(h.value)))
    else if EqualsIgnoreCase(h.name, "Content-Description") && d.contentDescription.None? then
      d.(contentDescription := Some(col.quoteValue(h.value)))
    else if EqualsIgnoreCase(h.name, "Content-Disposition") && d.contentDispositionParams.None? then
      DispositionBranch(d, h, col)
    else if EqualsIgnoreCase(h.name, "Content-Language") then
      LanguageBranch(d, h, col)
    else if EqualsIgnoreCase(h.name, "Content-MD5") && d.contentMd5.None? then
      d.(contentMd5 := Some(col.quoteValue(h.value)))
    else if parentRfc822 then
      d.(envelope := Some(Envelope(EnvelopeHeaders(d.envelope) + [h])))
    else d
  }

  /** parse_header on a part whose record is ctx. */
  function HeaderStep(ctx: Option<BodyData>, parentRfc822: bool, h: HeaderLine, col: Collaborators): Option<BodyData>
  {
    if !Accepts(parentRfc822, h.name) then ctx else Some(ApplyHeader(DataOf(ctx), parentRfc822, h, col))
  }

  /** The record after a whole header block, one header at a time. */
  function ExtractAll(ctx: Option<BodyData>, parentRfc822: bool, hs: seq<HeaderLine>, col: Collaborators): Option<BodyData>
  {
    if hs == [] then ctx
    else HeaderStep(ExtractAll(ctx, parentRfc822, hs[..|hs| - 1], col), parentRfc822, hs[|hs| - 1], col)
  }

  /** The record of a part whose parser has a metadata record (is present)
      and its fields, updated in place by parse_header and the callbacks. */
  class PartContext {
    /** part->parent != NULL && (part->parent->flags & MESSAGE_RFC822) */
    const parentRfc822: bool
    /** part->context != NULL */
    var present: bool
    var contentType: Option<string>
    var contentSubtype: Option<string>
    var contentTypeParams: Option<string>
    var contentTransferEncoding: Option<string>
    var contentId: Option<string>
    var contentDescription: Option<string>
    var contentDisposition: Option<string>
    var contentDispositionParams: Option<string>
    var contentMd5: Option<string>
    var contentLanguage: Option<string>
    var envelope: Option<Envelope>

    function Data(): BodyData
      reads this
    {
      BodyData(contentType, contentSubtype, contentTypeParams, contentTransferEncoding,
               contentId, contentDescription, contentDisposition, contentDispositionParams,
               contentMd5, contentLanguage, envelope)
    }

    /** part->context as a value. */
    function Context(): Option<BodyData>
      reads this
    {
      if present then Some(Data()) else None
    }

    /** Until the record exists its fields are all NULL. */
    ghost predicate Valid()
      reads this
    {
      present || Data() == EmptyBodyData()
    }

    /** A part before any header: no record yet. */
    constructor (parentRfc822: bool)
      ensures Valid() && this.parentRfc822 == parentRfc822 && Context() == None
    {
      this.parentRfc822 := parentRfc822;
      present := false;
      contentType, contentSubtype, contentTypeParams := None, None, None;
      contentTransferEncoding, contentId, contentDescription := None, None, None;
      contentDisposition, contentDispositionParams := None, None;
      contentMd5, contentLanguage, envelope := None, None, None;
    }

    /** parse_content_type: finds the first '/' and stores the quoted type and
        subtype. */
    method ParseContentType(tokens: seq<Rfc822Token>, col: Collaborators)
      modifies this`contentType, this`contentSubtype
      ensures (contentType, contentSubtype)
        == (Some(ContentTypeValues(tokens, col).0), Some(ContentTypeValues(tokens, col).1))
    {
      var i := 0;
      while i < |tokens| && tokens[i] != Special('/')
        invariant 0 <= i <= |tokens|
        invariant forall j :: 0 <= j < i ==> tokens[j] != Special('/')
      {
        i := i + 1;
      }
      assert i == TypeSeparator(tokens);
      contentType := Some(col.valueQuoted(tokens[..i]));
      if i < |tokens| {
        contentSubtype := Some(col.valueQuoted(tokens[i + 1..]));
      } else {
        contentSubtype := Some(col.subtypeWithoutSlash);
      }
    }

    /** parse_content_transfer_encoding */
    method ParseContentTransferEncoding(tokens: seq<Rfc822Token>, col: Collaborators)
      modifies this`contentTransferEncoding
      ensures contentTransferEncoding == Some(col.valueQuoted(tokens))
    {
      contentTransferEncoding := Some(col.valueQuoted(tokens));
    }

    /** parse_content_disposition */
    method ParseContentDisposition(tokens: seq<Rfc822Token>, col: Collaborators)
      modifies this`contentDisposition
      ensures contentDisposition == Some(col.valueQuoted(tokens))
    {
      contentDisposition := Some(col.valueQuoted(tokens));
    }

    /** parse_content_language: an empty token list leaves the field alone. */
    method ParseContentLanguage(tokens: seq<Rfc822Token>)
      modifies this`contentLanguage
      ensures contentLanguage == if |tokens| == 0 then old(contentLanguage) else Some(LanguageText(tokens))
    {
      if |tokens| == 0 {
        return;
      }
      var s := RenderContentLanguage(tokens);
      contentLanguage := Some(s);
    }

    /** The Content-Type branch of parse_header. */
    method ParseContentTypeHeader(h: HeaderLine, col: Collaborators)
      modifies this`contentType, this`contentSubtype, this`contentTypeParams
      ensures Data() == ContentTypeBranch(old(Data()), h, col)
    {
      var ph := col.parseContentHeader(h.value);
      if ph.value.Some? {
        ParseContentType(ph.value.value, col);
      }
      var s := SaveParamsList("", ph.params, col);
      contentTypeParams := Some(s);
    }

    /** The Content-Transfer-Encoding branch of parse_header. */
    method ParseTransferEncodingHeader(h: HeaderLine, col: Collaborators)
      modifies this`contentTransferEncoding
      ensures Data() == TransferEncodingBranch(old(Data()), h, col)
    {
      var ph := col.parseContentHeader(h.value);
      if ph.value.Some? {
        ParseContentTransferEncoding(ph.value.value, col);
      }
    }

    /** The Content-Disposition branch of parse_header. */
    method ParseDispositionHeader(h: HeaderLine, col: Collaborators)
      modifies this`contentDisposition, this`contentDispositionParams
      ensures Data() == DispositionBranch(old(Data()), h, col)
    {
      var ph := col.parseContentHeader(h.value);
      if ph.value.Some? {
        ParseContentDisposition(ph.value.value, col);
      }
      var s := SaveParamsList("", ph.params, col);
      contentDispositionParams := Some(s);
    }

    /** The Content-Language branch of parse_header. */
    method ParseLanguageHeader(h: HeaderLine, col: Collaborators)
      modifies this`contentLanguage
      ensures Data() == LanguageBranch(old(Data()), h, col)
    {
      var ph := col.parseContentHeader(h.value);
      if ph.value.Some? {
        ParseContentLanguage(ph.value.value);
      }
    }

    /** parse_header: one header line of this part. */
    method ParseHeader(h: HeaderLine, col: Collaborators)
      requires Valid()
      modifies this
      ensures Valid()
      ensures Context() == HeaderStep(old(Context()), parentRfc822, h, col)
    {
      if !parentRfc822 && (|h.name| <= 8 || !StartsWithIgnoreCase(h.name, "Content-")) {
        return;
      }
      // the first accepted header creates the record
      present := true;
      ghost var d := Data();
      assert d == DataOf(old(Context()));
      if EqualsIgnoreCase(h.name, "Content-Type") && contentType.None? {
        ParseContentTypeHeader(h, col);
      } else if EqualsIgnoreCase(h.name, "Content-Transfer-Encoding") && contentTransferEncoding.None? {
        ParseTransferEncodingHeader(h, col);
      } else if EqualsIgnoreCase(h.name, "Content-ID") && contentId.None? {
        contentId := Some(col.quoteValue(h.value));
      } else if EqualsIgnoreCase(h.name, "Content-Description") && contentDescription.None? {
        contentDescription := Some(col.quoteValue(h.value));
      } else if EqualsIgnoreCase(h.name, "Content-Disposition") && contentDispositionParams.None? {
        ParseDispositionHeader(h, col);
      } else if EqualsIgnoreCase(h.name, "Content-Language") {
        ParseLanguageHeader(h, col);
      } else if EqualsIgnoreCase(h.name, "Content-MD5") && contentMd5.None? {
        contentMd5 := Some(col.quoteValue(h.value));
      } else if parentRfc822 {
        // message/rfc822: the header goes to the envelope builder
        envelope := Some(Envelope(EnvelopeHeaders(envelope) + [h]));
      }
    }

    /** The header lines of this part, in order, each through parse_header. */
    method ParseHeaders(hs: seq<HeaderLine>, col: Collaborators)
      requires Valid()
      modifies this
      ensures Valid()
      ensures Context() == ExtractAll(old(Context()), parentRfc822, hs, col)
    {
      var k := 0;
      while k < |hs|
        invariant 0 <= k <= |hs|
        invariant Valid()
        invariant Context() == ExtractAll(old(Context()), parentRfc822, hs[..k], col)
      {
        assert hs[..k + 1][..k] == hs[..k];
        ParseHeader(hs[k], col);
        k := k + 1;
      }
      assert hs[..k] == hs;
    }
  }

  /** The parameter callback over every parameter: message_content_parse_header
      calls parse_save_params_list once per parameter, in order, on the
      record's scratch buffer. */
  method SaveParamsList(str: string, ps: seq<HeaderParam>, col: Collaborators) returns (out: string)
    ensures out == SaveParams(str, ps, col)
  {
    out := str;
    for k := 0 to |ps|
      invariant out == SaveParams(str, ps[..k], col)
    {
      assert ps[..k + 1][..k] == ps[..k];
      if |out| != 0 {
        out := out + " ";
      }
      out := out + "\"" + ps[k].name + "\" " + col.valueQuoted(ps[k].value);
    }
    assert ps[..|ps|] == ps;
  }

  // ---------------------------------------------------------------------
  // What a header block leaves in the record

  /** The fields whose first occurrence wins: a later header of the same
      name no longer reaches them. */
  datatype FirstWinsField = TypeField | TransferEncodingField | IdField | DescriptionField
    | DispositionParamsField | Md5Field

  function FieldName(f: FirstWinsField): string
  {
    match f
    case TypeField => "Content-Type"
    case TransferEncodingField => "Content-Transfer-Encoding"
    case IdField => "Content-ID"
    case DescriptionField => "Content-Description"
    case DispositionParamsField => "Content-Disposition"
    case Md5Field => "Content-MD5"
  }

  function FieldOf(d: BodyData, f: FirstWinsField): Option<string>
  {
    match f
    case TypeField => d.contentType
    case TransferEncodingField => d.contentTransferEncoding
    case IdField => d.contentId
    case DescriptionField => d.contentDescription
    case DispositionParamsField => d.contentDispositionParams
    case Md5Field => d.contentMd5
  }

  /** What a header of the field's name would store in it, if anything. */
  function Yield(f: FirstWinsField, h: HeaderLine, col: Collaborators): Option<string>
  {
    match f
    case TypeField =>
      var ph := col.parseContentHeader(h.value);
      if ph.value.Some? then Some(ContentTypeValues(ph.value.value, col).0) else None
    case TransferEncodingField =>
      var ph := col.parseContentHeader(h.value);
      if ph.value.Some? then Some(col.valueQuoted(ph.value.value)) else None
    case DispositionParamsField => Some(SaveParams("", col.parseContentHeader(h.value).params, col))
    case _ => Some(col.quoteValue(h.value))
  }

  /** The value from the earliest header of the field's name that yields one. */
  function FirstYield(hs: seq<HeaderLine>, f: FirstWinsField, col: Collaborators): Option<string>
  {
    if hs == [] then None
    else
      var earlier := FirstYield(hs[..|hs| - 1], f, col);
      if earlier.Some? then earlier
      else if EqualsIgnoreCase(hs[|hs| - 1].name, FieldName(f)) then Yield(f, hs[|hs| - 1], col)
      else None
  }

  /** Two of the literal header names that match the same name have the same
      characters up to case. */
  lemma SameNameIgnoringCase(n: string, a: string, b: string, i: nat)
    requires EqualsIgnoreCase(n, a) && EqualsIgnoreCase(n, b) && i < |n|
    ensures |a| == |b| && ToLowerAscii(a[i]) == ToLowerAscii(b[i])
  {
  }

  /** Every literal name of parse_header's chain is longer than "Content-"
      and starts with it, so a header matching one is accepted. */
  lemma ContentNameAccepted(n: string, lit: string, parentRfc822: bool)
    requires EqualsIgnoreCase(n, lit) && |lit| > 8 && lit[..8] == "Content-"
    ensures Accepts(parentRfc822, n)
  {
    assert forall i :: 0 <= i < 8 ==> ToLowerAscii(n[..8][i]) == ToLowerAscii(lit[i]);
  }

  /** No name matches both "Content-Description" and "Content-Disposition"
      (they differ in their tenth character); the other names of the chain
      differ in length. */
  lemma DescriptionIsNotDisposition(n: string)
    ensures !(EqualsIgnoreCase(n, "Content-Description") && EqualsIgnoreCase(n, "Content-Disposition"))
  {
    if EqualsIgnoreCase(n, "Content-Description") && EqualsIgnoreCase(n, "Content-Disposition") {
      SameNameIgnoringCase(n, "Content-Description", "Content-Disposition", 9);
    }
  }

  /** One header: a first-wins field that is set stays as it is, and an unset
      one takes what a header of its name yields. */
  lemma FirstWinsStep(d: BodyData, parentRfc822: bool, h: HeaderLine, f: FirstWinsField, col: Collaborators)
    ensures FieldOf(ApplyHeader(d, parentRfc822, h, col), f)
      == if FieldOf(d, f).None? && EqualsIgnoreCase(h.name, FieldName(f)) then Yield(f, h, col) else FieldOf(d, f)
  {
    match f
    case DescriptionField => DescriptionIsNotDisposition(h.name);
    case DispositionParamsField => DescriptionIsNotDisposition(h.name);
    case _ =>
  }

  /** Type, Transfer-Encoding, ID, Description, MD5 and the disposition
      parameters come from the first header of their name that yields a value
      (for Type and Transfer-Encoding, the first whose value the content
      parser reports). */
  lemma {:induction false} FirstOccurrenceWins(parentRfc822: bool, hs: seq<HeaderLine>, f: FirstWinsField, col: Collaborators)
    ensures FieldOf(DataOf(ExtractAll(None, parentRfc822, hs, col)), f) == FirstYield(hs, f, col)
  {
    if hs != [] {
      var init := hs[..|hs| - 1];
      var h := hs[|hs| - 1];
      FirstOccurrenceWins(parentRfc822, init, f, col);
      var d := DataOf(ExtractAll(None, parentRfc822, init, col));
      FirstWinsStep(d, parentRfc822, h, f, col);
      if EqualsIgnoreCase(h.name, FieldName(f)) {
        ContentNameAccepted(h.name, FieldName(f), parentRfc822);
      }
    }
  }

  /** Does some header of the block have this name, ignoring case? */
  predicate HasHeader(hs: seq<HeaderLine>, name: string)
  {
    hs != [] && (HasHeader(hs[..|hs| - 1], name) || EqualsIgnoreCase(hs[|hs| - 1].name, name))
  }

  /** What the Content-Disposition branch stores as the disposition: the
      quoted value, when the content parser reports one. */
  function DispositionValue(h: HeaderLine, col: Collaborators): Option<string>
  {
    var ph := col.parseContentHeader(h.value);
    if ph.value.Some? then Some(col.valueQuoted(ph.value.value)) else None
  }

  /** The disposition that the first Content-Disposition header of the block
      yields, and None when that header has no value, whatever later ones
      carry. */
  function FirstDisposition(hs: seq<HeaderLine>, col: Collaborators): Option<string>
  {
    if hs == [] then None
    else if HasHeader(hs[..|hs| - 1], "Content-Disposition") then FirstDisposition(hs[..|hs| - 1], col)
    else if EqualsIgnoreCase(hs[|hs| - 1].name, "Content-Disposition") then DispositionValue(hs[|hs| - 1], col)
    else None
  }

  /** One header: the Content-Disposition branch runs only while the
      parameter field is unset, and the other branches leave both fields. */
  lemma DispositionStep(d: BodyData, parentRfc822: bool, h: HeaderLine, col: Collaborators)
    requires d.contentDispositionParams.None? ==> d.contentDisposition.None?
    ensures var r := ApplyHeader(d, parentRfc822, h, col);
      var runs := d.contentDispositionParams.None? && EqualsIgnoreCase(h.name, "Content-Disposition");
      r.contentDisposition == (if runs then DispositionValue(h, col) else d.contentDisposition) &&
      (r.contentDispositionParams.Some? <==> d.contentDispositionParams.Some? || runs)
  {
    DescriptionIsNotDisposition(h.name);
  }

  /** The disposition comes from the first Content-Disposition header alone:
      the branch is guarded by the parameter field, which that header always
      sets, so a later header with a value cannot fill a disposition the
      first one left empty. */
  lemma {:induction false} DispositionFromFirstHeader(parentRfc822: bool, hs: seq<HeaderLine>, col: Collaborators)
    ensures var d := DataOf(ExtractAll(None, parentRfc822, hs, col));
      d.contentDisposition == FirstDisposition(hs, col) &&
      (d.contentDispositionParams.Some? <==> HasHeader(hs, "Content-Disposition")) &&
      (d.contentDispositionParams.None? ==> d.contentDisposition.None?)
  {
    if hs != [] {
      var init := hs[..|hs| - 1];
      var h := hs[|hs| - 1];
      DispositionFromFirstHeader(parentRfc822, init, col);
      var d := DataOf(ExtractAll(None, parentRfc822, init, col));
      DispositionStep(d, parentRfc822, h, col);
      if EqualsIgnoreCase(h.name, "Content-Disposition") {
        ContentNameAccepted(h.name, "Content-Disposition", parentRfc822);
      }
    }
  }

  /** Whatever follows the first Content-Disposition header, the disposition
      is what that header yields: None when it has no value, even if a later
      one carries a value. */
  lemma {:induction false} LaterDispositionIgnored(a: seq<HeaderLine>, h: HeaderLine, b: seq<HeaderLine>, col: Collaborators)
    requires !HasHeader(a, "Content-Disposition") && EqualsIgnoreCase(h.name, "Content-Disposition")
    ensures HasHeader(a + [h] + b, "Content-Disposition")
    ensures FirstDisposition(a + [h] + b, col) == DispositionValue(h, col)
    decreases |b|
  {
    var hs := a + [h] + b;
    if b == [] {
      assert hs[..|hs| - 1] == a;
    } else {
      assert hs[..|hs| - 1] == a + [h] + b[..|b| - 1];
      LaterDispositionIgnored(a, h, b[..|b| - 1], col);
    }
  }

  /** Type and subtype of the first Content-Type header whose value the
      content parser reports. */
  function FirstContentType(hs: seq<HeaderLine>, col: Collaborators): Option<(string, string)>
  {
    if hs == [] then None
    else
      var earlier := FirstContentType(hs[..|hs| - 1], col);
      var ph := col.parseContentHeader(hs[|hs| - 1].value);
      if earlier.Some? then earlier
      else if EqualsIgnoreCase(hs[|hs| - 1].name, "Content-Type") && ph.value.Some? then
        Some(ContentTypeValues(ph.value.value, col))
      else None
  }

  /** One header: the Content-Type branch sets type and subtype together, and
      only while the type is unset; no other branch touches them. */
  lemma TypeStep(d: BodyData, parentRfc822: bool, h: HeaderLine, col: Collaborators)
    ensures var r := ApplyHeader(d, parentRfc822, h, col);
      var ph := col.parseContentHeader(h.value);
      if d.contentType.None? && EqualsIgnoreCase(h.name, "Content-Type") && ph.value.Some? then
        r.contentType == Some(ContentTypeValues(ph.value.value, col).0) &&
        r.contentSubtype == Some(ContentTypeValues(ph.value.value, col).1)
      else r.contentType == d.contentType && r.contentSubtype == d.contentSubtype
  {
  }

  /** The subtype comes from the same Content-Type header as the type, so
      the record never holds a type without its subtype or pairs the type of
      one header with the subtype of another. */
  lemma {:induction false} SubtypeFromFirstType(parentRfc822: bool, hs: seq<HeaderLine>, col: Collaborators)
    ensures var d := DataOf(ExtractAll(None, parentRfc822, hs, col));
      var t := FirstContentType(hs, col);
      if t.Some? then d.contentType == Some(t.value.0) && d.contentSubtype == Some(t.value.1)
      else d.contentType.None? && d.contentSubtype.None?
  {
    if hs != [] {
      var init := hs[..|hs| - 1];
      var h := hs[|hs| - 1];
      SubtypeFromFirstType(parentRfc822, init, col);
      var d := DataOf(ExtractAll(None, parentRfc822, init, col));
      TypeStep(d, parentRfc822, h, col);
      if EqualsIgnoreCase(h.name, "Content-Type") {
        ContentNameAccepted(h.name, "Content-Type", parentRfc822);
      }
    }
  }

  /** The parameter list a Content-Type header stores. */
  function TypeParamsValue(h: HeaderLine, col: Collaborators): string
  {
    SaveParams("", col.parseContentHeader(h.value).params, col)
  }

  /** The stored Content-Type parameters: every Content-Type header
      processed while the type is unset overwrites them, so they come from
      the header that sets the type, or from the last Content-Type header
      when none reports a value. */
  function TypeParams(hs: seq<HeaderLine>, col: Collaborators): Option<string>
  {
    if hs == [] then None
    else if FirstContentType(hs[..|hs| - 1], col).None? && EqualsIgnoreCase(hs[|hs| - 1].name, "Content-Type") then
      Some(TypeParamsValue(hs[|hs| - 1], col))
    else TypeParams(hs[..|hs| - 1], col)
  }

  /** One header: the Content-Type branch replaces the parameters while the
      type is unset; no other branch touches them. */
  lemma TypeParamsStep(d: BodyData, parentRfc822: bool, h: HeaderLine, col: Collaborators)
    ensures ApplyHeader(d, parentRfc822, h, col).contentTypeParams
      == if d.contentType.None? && EqualsIgnoreCase(h.name, "Content-Type") then Some(TypeParamsValue(h, col))
         else d.contentTypeParams
  {
  }

  /** The parameter field of a header block is TypeParams. */
  lemma {:induction false} TypeParamsFromTypeHeader(parentRfc822: bool, hs: seq<HeaderLine>, col: Collaborators)
    ensures DataOf(ExtractAll(None, parentRfc822, hs, col)).contentTypeParams == TypeParams(hs, col)
  {
    if hs != [] {
      var init := hs[..|hs| - 1];
      var h := hs[|hs| - 1];
      TypeParamsFromTypeHeader(parentRfc822, init, col);
      SubtypeFromFirstType(parentRfc822, init, col);
      var d := DataOf(ExtractAll(None, parentRfc822, init, col));
      TypeParamsStep(d, parentRfc822, h, col);
      if EqualsIgnoreCase(h.name, "Content-Type") {
        ContentNameAccepted(h.name, "Content-Type", parentRfc822);
      }
    }
  }

  /** Once a Content-Type header reports a value, type, subtype and
      parameters all stay those of that header, whatever follows. */
  lemma {:induction false} TypeHeaderPairsParams(a: seq<HeaderLine>, h: HeaderLine, b: seq<HeaderLine>, col: Collaborators)
    requires FirstContentType(a, col).None? && EqualsIgnoreCase(h.name, "Content-Type")
    requires col.parseContentHeader(h.value).value.Some?
    ensures FirstContentType(a + [h] + b, col) == Some(ContentTypeValues(col.parseContentHeader(h.value).value.value, col))
    ensures TypeParams(a + [h] + b, col) == Some(TypeParamsValue(h, col))
    decreases |b|
  {
    var hs := a + [h] + b;
    if b == [] {
      assert hs[..|hs| - 1] == a;
    } else {
      assert hs[..|hs| - 1] == a + [h] + b[..|b| - 1];
      TypeHeaderPairsParams(a, h, b[..|b| - 1], col);
    }
  }

  /** The Content-Language value a header would store, if any. */
  function LanguageYield(h: HeaderLine, col: Collaborators): Option<string>
  {
    var ph := col.parseContentHeader(h.value);
    if EqualsIgnoreCase(h.name, "Content-Language") && ph.value.Some? && |ph.value.value| > 0
    then Some(LanguageText(ph.value.value))
    else None
  }

  /** The value from the latest Content-Language header with a non-empty token
      list. */
  function LastLanguage(hs: seq<HeaderLine>, col: Collaborators): Option<string>
  {
    if hs == [] then None
    else if LanguageYield(hs[|hs| - 1], col).Some? then LanguageYield(hs[|hs| - 1], col)
    else LastLanguage(hs[..|hs| - 1], col)
  }

  /** Content-Language is not first-wins: every occurrence with tokens
      overwrites it, so the last one stays. */
  lemma {:induction false} LastLanguageWins(parentRfc822: bool, hs: seq<HeaderLine>, col: Collaborators)
    ensures DataOf(ExtractAll(None, parentRfc822, hs, col)).contentLanguage == LastLanguage(hs, col)
  {
    if hs != [] {
      var init := hs[..|hs| - 1];
      var h := hs[|hs| - 1];
      LastLanguageWins(parentRfc822, init, col);
      LanguageStep(DataOf(ExtractAll(None, parentRfc822, init, col)), parentRfc822, h, col);
      if EqualsIgnoreCase(h.name, "Content-Language") {
        ContentNameAccepted(h.name, "Content-Language", parentRfc822);
      }
    }
  }

  /** One header: only a Content-Language header with tokens changes the
      language, whatever the other fields hold. */
  lemma LanguageStep(d: BodyData, parentRfc822: bool, h: HeaderLine, col: Collaborators)
    ensures ApplyHeader(d, parentRfc822, h, col).contentLanguage
      == if LanguageYield(h, col).Some? then LanguageYield(h, col) else d.contentLanguage
  {
  }

  /** Without a message/rfc822 parent no header reaches the envelope builder. */
  lemma {:induction false} NoEnvelopeOutsideMessage(hs: seq<HeaderLine>, col: Collaborators)
    ensures DataOf(ExtractAll(None, false, hs, col)).envelope == None
  {
    if hs != [] {
      NoEnvelopeOutsideMessage(hs[..|hs| - 1], col);
    }
  }

  /** The names parse_header's chain tests, up to case. */
  predicate ChainName(n: string)
  {
    EqualsIgnoreCase(n, "Content-Type") || EqualsIgnoreCase(n, "Content-Transfer-Encoding") ||
    EqualsIgnoreCase(n, "Content-ID") || EqualsIgnoreCase(n, "Content-Description") ||
    EqualsIgnoreCase(n, "Content-Disposition") || EqualsIgnoreCase(n, "Content-Language") ||
    EqualsIgnoreCase(n, "Content-MD5")
  }

  /** Under a message/rfc822 parent, a header no branch takes goes to the
      envelope builder: one whose name the chain does not test, and also a
      repeated first-wins header whose field is already set. */
  lemma UnmatchedHeaderReachesEnvelope(d: BodyData, h: HeaderLine, col: Collaborators)
    requires !ChainName(h.name) || exists f :: EqualsIgnoreCase(h.name, FieldName(f)) && FieldOf(d, f).Some?
    ensures ApplyHeader(d, true, h, col).envelope == Some(Envelope(EnvelopeHeaders(d.envelope) + [h]))
  {
    DescriptionIsNotDisposition(h.name);
    if ChainName(h.name) {
      var f :| EqualsIgnoreCase(h.name, FieldName(f)) && FieldOf(d, f).Some?;
    }
  }

  /** The record exists exactly when some header of the block was accepted. */
  lemma {:induction false} RecordIffAccepted(parentRfc822: bool, hs: seq<HeaderLine>, col: Collaborators)
    ensures ExtractAll(None, parentRfc822, hs, col).Some?
      <==> exists i :: 0 <= i < |hs| && Accepts(parentRfc822, hs[i].name)
  {
    if hs != [] {
      var init := hs[..|hs| - 1];
      RecordIffAccepted(parentRfc822, init, col);
      if exists i :: 0 <= i < |init| && Accepts(parentRfc822, init[i].name) {
        var i :| 0 <= i < |init| && Accepts(parentRfc822, init[i].name);
        assert hs[i] == init[i];
      }
      if exists i :: 0 <= i < |hs| && Accepts(parentRfc822, hs[i].name) {
        var i :| 0 <= i < |hs| && Accepts(parentRfc822, hs[i].name);
        if i < |init| {
          assert init[i] == hs[i];
        }
      }
    }
  }

  /** One header keeps the parameter field set once it is set, sets it for a
      Content-Type header, and never sets the type without it. */
  lemma ParamsStep(d: BodyData, parentRfc822: bool, h: HeaderLine, col: Collaborators)
    requires d.contentType.Some? ==> d.contentTypeParams.Some?
    ensures var r := ApplyHeader(d, parentRfc822, h, col);
      (r.contentType.Some? ==> r.contentTypeParams.Some?) &&
      (d.contentTypeParams.Some? ==> r.contentTypeParams.Some?) &&
      (EqualsIgnoreCase(h.name, "Content-Type") ==> r.contentTypeParams.Some?)
  {
  }

  /** Once a header block contains a Content-Type header the parameter field
      is set, possibly to the empty list, even when the type itself could not
      be read; and a read type always comes with its parameters. */
  lemma {:induction false} ParamsAfterContentType(parentRfc822: bool, hs: seq<HeaderLine>, col: Collaborators)
    ensures var d := DataOf(ExtractAll(None, parentRfc822, hs, col));
      (d.contentType.Some? ==> d.contentTypeParams.Some?) &&
      ((exists i :: 0 <= i < |hs| && EqualsIgnoreCase(hs[i].name, "Content-Type")) ==> d.contentTypeParams.Some?)
  {
    if hs != [] {
      var init := hs[..|hs| - 1];
      var h := hs[|hs| - 1];
      ParamsAfterContentType(parentRfc822, init, col);
      var d := DataOf(ExtractAll(None, parentRfc822, init, col));
      ParamsStep(d, parentRfc822, h, col);
      if EqualsIgnoreCase(h.name, "Content-Type") {
        ContentNameAccepted(h.name, "Content-Type", parentRfc822);
      }
      if exists i :: 0 <= i < |hs| && EqualsIgnoreCase(hs[i].name, "Content-Type") {
        var i :| 0 <= i < |hs| && EqualsIgnoreCase(hs[i].name, "Content-Type");
        if i < |init| {
          assert init[i] == hs[i];
        }
      }
    }
  }
}
