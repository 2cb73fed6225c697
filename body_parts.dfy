/** The data the IMAP BODY/BODYSTRUCTURE codec (src/lib-imap/imap-bodystructure.c)
    works on: the tokens its collaborators hand it, the per-part metadata
    record it fills from Content-* headers, and the part tree it renders.

    Everything the codec calls but does not define (the RFC 822 tokenizer and
    header-parameter parser, the quoting helpers, the envelope writer) is a
    function-valued field of Collaborators, so the model holds for every
    behaviour of that code. */
module BodyParts {
  import opened Text

  /** One token of the RFC 822 structural tokenizer. In the C code a token is
      a character code ('A' atom, '"' quoted string, '[' domain literal,
      '(' comment, otherwise the separator character itself) with a text
      slice; here each kind is its own variant, and Special carries the
      separator character ('/', ',', ';', ...). The tokenizer reports atoms,
      quoted strings, domain literals and comments only through their own
      variants, so it never hands over Special('A'), Special('"'),
      Special('[') or Special('('); the codes the C switches use for those
      kinds are the variant tests here (a comment is `t.Comment?`). */
  datatype Rfc822Token =
    | Atom(text: string)
    | QuotedString(text: string)
    | DomainLiteral(text: string)
    | Comment(text: string)
    | Special(c: char)

  /** IS_TOKEN_STRING: the kinds that carry text rather than one character. */
  predicate IsTokenString(t: Rfc822Token)
  {
    !t.Special?
  }

  /** What a token contributes to a rendered tag: its text if it has one,
      else its single character. */
  function TokenText(t: Rfc822Token): string
  {
    if IsTokenString(t) then t.text else [t.c]
  }

  /** One `name=value` parameter reported by the header-parameter parser. */
  datatype HeaderParam = HeaderParam(name: string, value: seq<Rfc822Token>)

  /** What message_content_parse_header reports for one header value, in the
      order it calls the callbacks: the tokens of the primary value (None when
      it does not call the value callback) and then each parameter. */
  datatype ParsedHeader = ParsedHeader(value: Option<seq<Rfc822Token>>, params: seq<HeaderParam>)

  /** One header line handed on to the envelope builder. */
  datatype HeaderLine = HeaderLine(name: string, value: string)

  /** The envelope of a message/rfc822 body, abstracted as the header lines
      the envelope builder was given: every state of the builder is a
      function of them. */
  datatype Envelope = Envelope(headers: seq<HeaderLine>)

  /** The codec's collaborators, left uninterpreted. */
  datatype Collaborators = Collaborators(
    /** message_content_parse_header, with the RFC 822 tokenizer inside it. */
    parseContentHeader: string -> ParsedHeader,
    /** rfc822_tokens_get_value_quoted(tokens, count). */
    valueQuoted: seq<Rfc822Token> -> string,
    /** what rfc822_tokens_get_value_quoted returns when parse_content_type
        finds no '/' and passes it a count of -1. */
    subtypeWithoutSlash: string,
    /** imap_quote_value. */
    quoteValue: string -> string,
    /** imap_envelope_write_part_data. */
    writeEnvelope: Envelope -> string)

  /** MessagePartBodyData: the already-quoted strings taken from a part's
      Content-* headers (None is NULL) and, for the header block of a
      message/rfc822 body, its envelope. */
  datatype BodyData = BodyData(
    contentType: Option<string>,
    contentSubtype: Option<string>,
    contentTypeParams: Option<string>,
    contentTransferEncoding: Option<string>,
    contentId: Option<string>,
    contentDescription: Option<string>,
    contentDisposition: Option<string>,
    contentDispositionParams: Option<string>,
    contentMd5: Option<string>,
    contentLanguage: Option<string>,
    envelope: Option<Envelope>)

  /** A freshly allocated record: p_new and t_new zero every field. */
  function EmptyBodyData(): (d: BodyData)
    ensures d.contentType.None? && d.contentSubtype.None? && d.contentTypeParams.None?
    ensures d.contentTransferEncoding.None? && d.contentId.None? && d.contentDescription.None?
    ensures d.contentDisposition.None? && d.contentDispositionParams.None?
    ensures d.contentMd5.None? && d.contentLanguage.None? && d.envelope.None?
  {
    BodyData(None, None, None, None, None, None, None, None, None, None, None)
  }

  /** The record of a part, or the empty record when it has none. */
  function DataOf(ctx: Option<BodyData>): BodyData
  {
    if ctx.Some? then ctx.value else EmptyBodyData()
  }

  /** The MESSAGE_PART_FLAG_* bits the codec tests. */
  datatype PartFlag = FlagMultipart | FlagText | FlagMessageRfc822

  /** A node of the part tree the message parser builds. The parent link is
      implicit: the children of a node are its child list, and the writer is
      told whether the parts it walks have a parent. */
  datatype MessagePart = MessagePart(
    flags: set<PartFlag>,
    /** body_size.virtual_size (uoff_t) */
    virtualSize: nat,
    /** body_size.lines (unsigned int) */
    lines: nat,
    /** part->context: the record parse_header filled, if any */
    context: Option<BodyData>,
    children: seq<MessagePart>)

  /** The kind the writer gives a part: MULTIPART is tested first, then
      TEXT, then MESSAGE_RFC822. */
  predicate IsMultipart(p: MessagePart) { FlagMultipart in p.flags }

  predicate IsText(p: MessagePart) { !IsMultipart(p) && FlagText in p.flags }

  predicate IsMessageRfc822(p: MessagePart)
  {
    !IsMultipart(p) && FlagText !in p.flags && FlagMessageRfc822 in p.flags
  }
}
