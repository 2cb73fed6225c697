# Dovecot IMAP BODYSTRUCTURE codec and ACL rights cache, in Dafny

This project models two pieces of Dovecot and proves properties about them.

**The IMAP BODY/BODYSTRUCTURE codec** (`src/lib-imap/imap-bodystructure.c`).
It has three stages.
- The content-header extractor, `parse_header` and its helpers, fills a per-part
  metadata record from `Content-*` headers. Under a message/rfc822 parent it
  hands every other header to the envelope builder.
- The writer, `part_write_bodystructure`, `part_write_body_multipart` and
  `part_write_body`, renders the part tree as the parenthesised text form of section 7.4.2 of
  RFC 3501. The basic form is BODY; the extended form is BODYSTRUCTURE.
- The normalizer, `imap_parse_bodystructure_args`, takes a stored
  BODYSTRUCTURE that the IMAP argument reader has already split into
  arguments. It checks the value and writes its basic BODY form.

**The ACL rights cache** (`src/plugins/acl/acl-cache.c`).
- It interns right names as bit indices and keeps, per object, one positive
  and one negative rights mask for each identifier type.
- It applies ACL updates in ADD, REMOVE and REPLACE mode.
- It computes and caches the current user's rights mask, and drops that
  cache when an update changes something.

Both files change state step by step, so the model does too.
- `HeaderParser.PartContext` and `AclCache.AclCache` are classes whose
  methods update fields.
- The writer and normalizer methods append to an output string in loops.
- The ACL masks are byte sequences updated one byte at a time.

Each method is proved against a reference function. The lemmas state what
the source promises about those functions:
- the normalizer accepts exactly the encodings of well-formed structures
  and inverts them;
- the writer's layout for each kind of part;
- first-occurrence-wins for the content headers;
- bit-level meaning of the mask operations;
- what the rights recalculation grants.

Files:
- `text.dfy`: `Option`, ASCII case folding, decimal rendering, `Join`, and
  the string regrouping lemmas the writer and the normalizer share.
- `body_parts.dfy`: the tokens, the metadata record and the part tree.
  Every foreign function the codec calls is a field of `Collaborators`, left
  uninterpreted.
- `header_parser.dfy`: the content-header extractor.
- `bodystructure_writer.dfy`: the writer.
- `bodystructure_parser.dfy`: the normalizer, and a structured view of
  stored values (`Shape`, `Encode`, `Decode`, `Render`).
- `normalizer_proofs.dfy`: the normalizer against `Decode` and `Encode`.
- `bodystructure_roundtrip.dfy`: the normalizer against the writer, and the
  disposition layout.
- `acl_cache.dfy`: the ACL cache.

## Model

| member | source | states |
|---|---|---|
| HeaderParser.TypeSeparator | src/lib-imap/imap-bodystructure.c:43-47 | the index is the first '/' token, or the token count when there is none; no earlier token is '/' |
| HeaderParser.ContentTypeSplitsAtFirstSlash | src/lib-imap/imap-bodystructure.c:43-53 | the type is the quoted tokens before the first '/', and the subtype is the quoted tokens after it, later '/' tokens included |
| HeaderParser.PartContext.ParseContentType | src/lib-imap/imap-bodystructure.c:36-54 | the record's type and subtype become the split at the first '/'; without a '/', the subtype is what the quoting helper returns for a count of -1; nothing else changes |
| HeaderParser.SaveParamsList | src/lib-imap/imap-bodystructure.c:56-72 | the buffer gains each parameter as a quoted name, a space and the quoted value, with a space before every parameter except the first in an empty buffer |
| HeaderParser.SaveParamsJoin | src/lib-imap/imap-bodystructure.c:63-71 | from an empty buffer, the saved list is the parameter texts joined by single spaces |
| HeaderParser.SaveParamsNonEmpty | src/lib-imap/imap-bodystructure.c:63-71 | at least one parameter gives a non-empty list |
| HeaderParser.PartContext.ParseContentTransferEncoding | src/lib-imap/imap-bodystructure.c:74-82 | the record's transfer encoding becomes the quoted value tokens; nothing else changes |
| HeaderParser.PartContext.ParseContentDisposition | src/lib-imap/imap-bodystructure.c:84-92 | the record's disposition becomes the quoted value tokens; nothing else changes |
| HeaderParser.RenderContentLanguage | src/lib-imap/imap-bodystructure.c:101-145 | the loop's text is the language tags, each in quotes, separated by single spaces |
| HeaderParser.CloseLangTag | src/lib-imap/imap-bodystructure.c:116-118 | writing the closing quote of the open tag gives the joined quoted tags |
| HeaderParser.OpenRendering | src/lib-imap/imap-bodystructure.c:122-137 | a token outside a tag writes a space (unless nothing is written yet), an opening quote and the token's text |
| HeaderParser.ExtendRendering | src/lib-imap/imap-bodystructure.c:122-137 | a token inside an open tag only appends its text |
| HeaderParser.LanguageTagsPrefix | src/lib-imap/imap-bodystructure.c:109-138 | the tag state after k+1 tokens is one loop step after the state for k tokens |
| HeaderParser.JoinQuotedNonEmpty | src/lib-imap/imap-bodystructure.c:126-127 | the joined quoted tags are non-empty exactly when there is a tag |
| HeaderParser.LanguageIgnoresComment | src/lib-imap/imap-bodystructure.c:111-113 | a comment token anywhere leaves the tags as they were |
| HeaderParser.LanguageCommaSplit | src/lib-imap/imap-bodystructure.c:114-120 | a ',' splits the tags: the tags before it, then the tags after it, in order |
| HeaderParser.NextLangAfter | src/lib-imap/imap-bodystructure.c:109-138 | one token leaves the tags that are already closed untouched |
| HeaderParser.LanguageExample | src/lib-imap/imap-bodystructure.c:101 | `en-US, (comment) az-arabic` is stored as `"en-US" "az-arabic"` |
| HeaderParser.PartContext.ParseContentLanguage | src/lib-imap/imap-bodystructure.c:94-146 | an empty token list leaves the record unchanged; otherwise the language field becomes the quoted tag list |
| HeaderParser.PartContext.constructor | src/lib-imap/imap-bodystructure.c:163-169 | a fresh part has no record yet, and remembers whether its parent is message/rfc822 |
| HeaderParser.PartContext.ParseContentTypeHeader | src/lib-imap/imap-bodystructure.c:176-184 | when the content parser reports a value, type and subtype come from it; the parameter list is always saved from a fresh buffer, possibly empty |
| HeaderParser.PartContext.ParseTransferEncodingHeader | src/lib-imap/imap-bodystructure.c:185-189 | the transfer encoding becomes the quoted value tokens when the content parser reports a value, and is left alone otherwise |
| HeaderParser.PartContext.ParseDispositionHeader | src/lib-imap/imap-bodystructure.c:198-206 | the disposition comes from the reported value, if any; the parameter list is always saved from a fresh buffer |
| HeaderParser.PartContext.ParseLanguageHeader | src/lib-imap/imap-bodystructure.c:207-210 | a reported value with tokens overwrites the language field with its quoted tags; otherwise the field is left alone |
| HeaderParser.PartContext.ParseHeader | src/lib-imap/imap-bodystructure.c:148-221 | the part's new record is one header step of the old one: the header is ignored unless accepted, the record is created on the first accepted header, then the first branch whose name and unset-field guard match runs, or else the envelope builder under a message/rfc822 parent |
| HeaderParser.PartContext.ParseHeaders | src/lib-imap/imap-bodystructure.c:148-221 | after a header block, the record is the fold of the header steps over the block |
| HeaderParser.ContentNameAccepted | src/lib-imap/imap-bodystructure.c:157-161 | a header whose name matches one of the chain's `Content-` names is accepted under any parent |
| HeaderParser.DescriptionIsNotDisposition | src/lib-imap/imap-bodystructure.c:194-199 | no header name matches both Content-Description and Content-Disposition |
| HeaderParser.FirstWinsStep | src/lib-imap/imap-bodystructure.c:176-214 | one header leaves a set first-wins field alone, and sets an unset one to what a header of its name yields |
| HeaderParser.FirstOccurrenceWins | src/lib-imap/imap-bodystructure.c:176-214 | type, transfer encoding, ID, description, disposition parameters and MD5 come from the first header of their name that yields a value |
| HeaderParser.LanguageStep | src/lib-imap/imap-bodystructure.c:207-210 | one header changes the language only when it is a Content-Language header with a non-empty token list, and then to that header's tag list |
| HeaderParser.LastLanguageWins | src/lib-imap/imap-bodystructure.c:207-210 | the language field comes from the last Content-Language header with a non-empty token list |
| HeaderParser.NoEnvelopeOutsideMessage | src/lib-imap/imap-bodystructure.c:215-219 | without a message/rfc822 parent, no header reaches the envelope |
| HeaderParser.UnmatchedHeaderReachesEnvelope | src/lib-imap/imap-bodystructure.c:215-219 | under a message/rfc822 parent, a header that no branch takes is appended to the envelope; this includes a repeated first-wins header |
| HeaderParser.RecordIffAccepted | src/lib-imap/imap-bodystructure.c:157-169 | the record exists exactly when some header of the block was accepted |
| HeaderParser.ParamsStep | src/lib-imap/imap-bodystructure.c:176-184 | one header keeps the parameter field set once set, sets it for Content-Type, and never sets the type without it |
| HeaderParser.DispositionStep | src/lib-imap/imap-bodystructure.c:198-206 | one header runs the Content-Disposition branch only while the parameter field is unset; the disposition becomes that header's value when it has one, and no other branch touches either field |
| HeaderParser.DispositionFromFirstHeader | src/lib-imap/imap-bodystructure.c:198-206 | the disposition is what the first Content-Disposition header yields, with no value giving None whatever later headers carry; the parameter field is set exactly when the block has such a header; the disposition is never set without it |
| HeaderParser.LaterDispositionIgnored | src/lib-imap/imap-bodystructure.c:198-206 | headers after the first Content-Disposition header never change the disposition that header yields |
| HeaderParser.TypeStep | src/lib-imap/imap-bodystructure.c:176-184 | one header sets type and subtype together, from the same value, and only while the type is unset |
| HeaderParser.SubtypeFromFirstType | src/lib-imap/imap-bodystructure.c:36-54 | the subtype comes from the same Content-Type header as the type: the first one whose value the content parser reports; with none, both are unset |
| HeaderParser.ParamsAfterContentType | src/lib-imap/imap-bodystructure.c:176-184 | after a block with a Content-Type header the parameter field is set, and a stored type always comes with parameters |
| HeaderParser.TypeParamsStep | src/lib-imap/imap-bodystructure.c:176-184 | a Content-Type header replaces the stored parameters while the type is unset; every other header leaves them alone |
| HeaderParser.TypeParamsFromTypeHeader | src/lib-imap/imap-bodystructure.c:176-184 | the stored parameters are those of the header that sets the type or, when no Content-Type header reports a value, those of the last Content-Type header; with no such header they are unset |
| HeaderParser.TypeHeaderPairsParams | src/lib-imap/imap-bodystructure.c:176-184 | once a Content-Type header with a value has been seen, type, subtype and parameters all stay that header's, whatever headers follow |
| BodystructureWriter.PartGetBodystructure | src/lib-imap/imap-bodystructure.c:413-419 | the root part written into an empty buffer is its rendering without enclosing parentheses |
| BodystructureWriter.WriteBodystructure | src/lib-imap/imap-bodystructure.c:392-411 | appends the sibling list's rendering; a top-level list has at most one part |
| BodystructureWriter.WritePart | src/lib-imap/imap-bodystructure.c:396-408 | appends one part, in parentheses when it has a parent, written as multipart or single part |
| BodystructureWriter.WriteBodyMultipart | src/lib-imap/imap-bodystructure.c:244-298 | appends the children (or the empty placeholder), the quoted subtype and, when extended, the parameters, the disposition and the language |
| BodystructureWriter.WriteBody | src/lib-imap/imap-bodystructure.c:300-390 | appends the basic fields, the type-dependent tail and, when extended, the single-part extension |
| BodystructureWriter.WriteBasicFields | src/lib-imap/imap-bodystructure.c:306-328 | appends type, subtype, parameters, ID, description, encoding and size, with defaults "text", "plain" and "8bit" |
| BodystructureWriter.WriteTypeTail | src/lib-imap/imap-bodystructure.c:330-355 | appends the line count for text; for message/rfc822 it appends the envelope (NIL without one), the child's bodystructure and the line count |
| BodystructureWriter.WriteSingleExtension | src/lib-imap/imap-bodystructure.c:357-389 | appends MD5, disposition and language, each NIL when absent |
| BodystructureWriter.ParentWraps | src/lib-imap/imap-bodystructure.c:397-406 | a part with a parent is its parentless rendering in parentheses |
| BodystructureWriter.SiblingsConcatenate | src/lib-imap/imap-bodystructure.c:396-410 | the rendering of two sibling lists is the concatenation of their renderings, with nothing in between |
| BodystructureWriter.EmptyMultipartPlaceholder | src/lib-imap/imap-bodystructure.c:250-261 | a multipart without children is the fixed empty-part placeholder followed by its subtype |
| BodystructureWriter.DefaultFields | src/lib-imap/imap-bodystructure.c:304-328 | a part without a record is written as text/plain, 8bit, with NIL parameters, ID and description, and its size |
| BodystructureWriter.TextPartLayout | src/lib-imap/imap-bodystructure.c:330-332 | a text part is its basic fields followed by its line count; its extended form adds exactly the single-part extension |
| BodystructureWriter.MessagePartLayout | src/lib-imap/imap-bodystructure.c:333-355 | a message/rfc822 tail is the envelope, the child's parentless bodystructure in parentheses, and the line count |
| BodystructureWriter.SingleExtensionCorrected | src/lib-imap/imap-bodystructure.c:362-363 | the single-part extension with the disposition as one list; it agrees with the code as written when there are no disposition parameters |
| BodystructureParser.ArgText | src/lib-imap/imap-bodystructure.c:442-464 | an argument is written exactly when it and every argument nested in it is NIL, an atom, a string or a list |
| BodystructureParser.ItemsText | src/lib-imap/imap-bodystructure.c:442-466 | a sequence of arguments is written exactly when every item is supported |
| BodystructureParser.ListText | src/lib-imap/imap-bodystructure.c:437-468 | a list is written exactly when every item is supported |
| BodystructureParser.WriteList | src/lib-imap/imap-bodystructure.c:437-468 | succeeds exactly when the list is supported, and then appends its parenthesised rendering |
| BodystructureParser.WriteArg | src/lib-imap/imap-bodystructure.c:442-464 | succeeds exactly when the argument is supported, and then appends its rendering |
| BodystructureParser.LeadingLists | src/lib-imap/imap-bodystructure.c:476-484 | the count of leading list arguments; the argument after them is not a list |
| BodystructureParser.PairsText | src/lib-imap/imap-bodystructure.c:511-524 | a parameter list is accepted exactly when it has an even number of items and all are strings |
| BodystructureParser.ParamsText | src/lib-imap/imap-bodystructure.c:507-531 | the parameter argument is accepted exactly when it is NIL or a list of string pairs |
| BodystructureParser.FieldText | src/lib-imap/imap-bodystructure.c:535-544 | a basic field is accepted exactly when it is NIL, an atom or a string |
| BodystructureParser.FieldsText | src/lib-imap/imap-bodystructure.c:533-545 | the four basic fields are accepted exactly when each one is |
| BodystructureParser.ParseBodystructureArgs | src/lib-imap/imap-bodystructure.c:470-577 | succeeds exactly when the normalizer as written accepts the arguments, and then appends its output |
| BodystructureParser.WriteSinglepart | src/lib-imap/imap-bodystructure.c:495-577 | succeeds exactly when the single-part normalizer accepts, and then appends its output |
| BodystructureParser.WriteParams | src/lib-imap/imap-bodystructure.c:507-531 | succeeds exactly when the parameters are accepted, and then appends them |
| BodystructureParser.WritePairs | src/lib-imap/imap-bodystructure.c:511-524 | succeeds exactly when the pairs are accepted, and then appends them |
| BodystructureParser.WriteFields | src/lib-imap/imap-bodystructure.c:533-545 | succeeds exactly when there are at least seven arguments and fields four to seven are accepted, and then appends them |
| BodystructureParser.WriteField | src/lib-imap/imap-bodystructure.c:535-544 | succeeds exactly when the field is accepted; an atom is kept as is, a string is requoted, NIL is kept |
| BodystructureParser.FieldsTextRendersFields | src/lib-imap/imap-bodystructure.c:533-545 | the four fields the normalizer copies are the decoded fields as IMAP writes them (NIL, the atom, or the quoted string), each after a space, built front to back independently of the copying loop |
| BodystructureParser.WriteTail | src/lib-imap/imap-bodystructure.c:547-574 | succeeds exactly when the type-dependent tail is accepted (a line-count atom for text; an envelope list, a body list and an atom for message/rfc822), and then appends it |
| BodystructureParser.ChildrenPrefixFails | src/lib-imap/imap-bodystructure.c:476-480 | once one child of a multipart is rejected, so is the whole multipart |
| NormalizerProofs.PairsDecode | src/lib-imap/imap-bodystructure.c:511-524 | an accepted parameter list is its decoded pairs, joined by spaces |
| NormalizerProofs.NormalizeDecodes | src/lib-imap/imap-bodystructure.c:470-577 | the normalizer's output is the rendering of the decoded structure, and it fails exactly when decoding fails |
| NormalizerProofs.EncodeDecodes | src/lib-imap/imap-bodystructure.c:470-577 | decoding the encoding of a well-formed structure gives it back |
| NormalizerProofs.DecodeEncodes | src/lib-imap/imap-bodystructure.c:470-577 | a decodable argument list is the encoding of what it decodes to, extension data included |
| NormalizerProofs.NormalizeEncoded | src/lib-imap/imap-bodystructure.c:470-577 | the normalizer writes the basic form of every well-formed structure, whatever extension data follows |
| NormalizerProofs.AcceptedIffEncoded | src/lib-imap/imap-bodystructure.c:470-577 | the normalizer accepts an argument list exactly when it encodes some well-formed structure |
| BodystructureRoundTrip.WriterRendersShape | src/lib-imap/imap-bodystructure.c:244-411 | the writer's basic form of the part tree built from a structure is that structure's rendering with nested bodies in parentheses |
| BodystructureRoundTrip.CorrectedNormalizerInvertsWriter | src/lib-imap/imap-bodystructure.c:566-570 | the corrected normalizer maps a stored structure to exactly what the writer writes in basic form |
| BodystructureRoundTrip.UnwrappedRendering | src/lib-imap/imap-bodystructure.c:566-570 | dropping the nested parentheses changes the rendering exactly when the structure contains a message/rfc822 part; then it is at least two characters shorter |
| BodystructureRoundTrip.AsWrittenDropsParentheses | src/lib-imap/imap-bodystructure.c:566-570 | the normalizer as written reproduces the writer exactly when the structure contains no message/rfc822 part |
| BodystructureRoundTrip.DispositionIsOneList | src/lib-imap/imap-bodystructure.c:277-288 | the multipart disposition field is one list, with the parameters nested inside it; the corrected single-part extension writes that list |
| BodystructureRoundTrip.SingleDispositionSplitsParams | src/lib-imap/imap-bodystructure.c:370-381 | the single-part disposition as written is one list exactly when disposition or parameters are absent; with both, it is two lists |
| BodystructureRoundTrip.TwoLists | src/lib-imap/imap-bodystructure.c:370-381 | with both a disposition and parameters, the single-part text is two lists and differs from the multipart field |
| AclCache.NewObjectCache | src/plugins/acl/acl-cache.c:262-266 | a new entry has an empty positive and negative slot for each identifier type, and no current rights |
| AclCache.GetSpace | src/plugins/acl/acl-cache.c:97-98 | a mask grown to cover a byte keeps its bytes and pads with zero bytes |
| AclCache.OrMaskBits | src/plugins/acl/acl-cache.c:197-207 | a bit is set in the OR of two masks exactly when it is set in either; the length is the longer one's |
| AclCache.ClearMaskBits | src/plugins/acl/acl-cache.c:215-218 | a bit is set after removal exactly when it was set and the change does not set it; the length is unchanged |
| AclCache.SetBitBits | src/plugins/acl/acl-cache.c:97-98 | setting bit idx sets exactly that bit and grows the mask to cover its byte |
| AclCache.MaskOfIndicesBits | src/plugins/acl/acl-cache.c:95-105 | the mask of a list of indices has exactly those bits set, and as many bytes as the largest one needs |
| AclCache.NamesInverseDistinct | src/plugins/acl/acl-cache.c:124-134 | the interned names are distinct |
| AclCache.NamesInverseMembers | src/plugins/acl/acl-cache.c:124-134 | a name has an index exactly when it is in the names table |
| AclCache.NamesDetermineIndex | src/plugins/acl/acl-cache.c:124-134 | the names table determines the name-to-index map: two maps inverse to the same table are equal |
| AclCache.InternedNames | src/plugins/acl/acl-cache.c:95-99 | after interning a list, a name is in the table exactly when it was there before or is in the list |
| AclCache.InternedKnown | src/plugins/acl/acl-cache.c:118-139 | interning only names already in the table leaves the table as it was |
| AclCache.MaskInitKnownRights | src/plugins/acl/acl-cache.c:95-99 | a mask built from rights that are all already known leaves both maps unchanged and uses their existing indices |
| AclCache.ExtensionKeepsIndices | src/plugins/acl/acl-cache.c:27-32 | appending names never changes the index of a name already interned |
| AclCache.IndicesOf | src/plugins/acl/acl-cache.c:95-100 | each right maps to its index, one less than the stored map value |
| AclCache.MaskOfRightsRoundTrip | src/plugins/acl/acl-cache.c:27-32 | reading a mask back through the names array, even after more names are interned, gives exactly the listed rights |
| AclCache.ListedRightHasBit | src/plugins/acl/acl-cache.c:95-105 | every listed right is among the rights its mask names |
| AclCache.MaskBitIsListed | src/plugins/acl/acl-cache.c:95-105 | every bit of a rights mask names a listed right |
| AclCache.ModifyMaskUnchanged | src/plugins/acl/acl-cache.c:235-238 | when the update does not count as a change, the slot keeps its old mask |
| AclCache.ModifyMaskBits | src/plugins/acl/acl-cache.c:184-225 | per bit: ADD gives old-or-change, REMOVE gives old-and-not-change, REPLACE gives change |
| AclCache.OrBytesInto | src/plugins/acl/acl-cache.c:198-206 | ORing the shorter mask into the longer one byte by byte gives their OR |
| AclCache.RemoveBits | src/plugins/acl/acl-cache.c:215-218 | clearing the change's bits byte by byte gives the old mask without them |
| AclCache.RightsUpToBits | src/plugins/acl/acl-cache.c:309-328 | a bit of the recalculated mask over the first n slots is set exactly when some positive or negative slot among them has it |
| AclCache.RecalculatedBits | src/plugins/acl/acl-cache.c:309-328 | the recalculated rights hold a bit exactly when some positive or negative slot holds it |
| AclCache.NegativeRightGranted | src/plugins/acl/acl-cache.c:319-327 | a right that only a negative entry names is granted by the code as written, and withheld by the corrected recalculation |
| AclCache.CorrectedUpToBits | src/plugins/acl/acl-cache.c:319-321 | corrected: a right is granted exactly when some positive slot names it and no negative slot from there on removes it |
| AclCache.UnionUpToBits | src/plugins/acl/acl-cache.c:310-317 | a bit of the union of the first n masks of a slot list is set exactly when one of them has it |
| AclCache.GlobalCorrectedBits | src/plugins/acl/acl-cache.c:319-321 | corrected, global reading: a right is granted exactly when some positive slot names it and no negative slot names it, independent of the slot order |
| AclCache.GlobalWithinCorrected | src/plugins/acl/acl-cache.c:319-321 | the global reading grants no more than the slot-by-slot one, and they differ only on a right an earlier slot denies and a later slot grants |
| AclCache.ModifySlot | src/plugins/acl/acl-cache.c:169-239 | an updated slot keeps the entry's slot counts |
| AclCache.UpdatedObject | src/plugins/acl/acl-cache.c:242-254 | the two updates keep the entry's slot counts |
| AclCache.ModifySlotValid | src/plugins/acl/acl-cache.c:235-238 | a slot update keeps the entry valid and drops the current rights exactly when the mode function reports a change |
| AclCache.UpdatedObjectValid | src/plugins/acl/acl-cache.c:242-254 | the positive-then-negative update keeps the entry valid |
| AclCache.MyCurrentRightsRecalculate | src/plugins/acl/acl-cache.c:300-338 | the entry's current rights become the recalculated mask; nothing else changes |
| AclCache.AclCache.constructor | src/plugins/acl/acl-cache.c:37-53 | a new cache has no objects and no right names |
| AclCache.AclCache.RightLookup | src/plugins/acl/acl-cache.c:118-139 | a known right keeps its index; a new one is appended at the end; the index names the right in both maps |
| AclCache.AclCache.GetNames | src/plugins/acl/acl-cache.c:292-297 | returns the names array and its length |
| AclCache.AclCache.MaskInit | src/plugins/acl/acl-cache.c:83-108 | interns every right and returns the mask of their indices; the new names table is the old one with the rights not yet known appended in order of first appearance, and the known names are the old ones plus the given rights |
| AclCache.AclCache.UpdateRightsMask | src/plugins/acl/acl-cache.c:169-239 | the slot's new mask and change flag are those of the mode function applied to the interned change mask; the current rights are dropped on a change and otherwise kept; the names table grows only by the listed rights not yet known, and is unchanged with no list |
| AclCache.AclCache.UpdateRights | src/plugins/acl/acl-cache.c:242-254 | the entry after the positive and then the negative update of its identifier type's slot; the names table grows by the unknown positive rights, then by the unknown negative rights |
| AclCache.AclCache.Update | src/plugins/acl/acl-cache.c:256-290 | creates the entry if missing and applies the update only when the identifier applies to the user; other objects are unchanged; when applied, the names table grows only by the unknown listed rights |
| AclCache.AclCache.GetMyRights | src/plugins/acl/acl-cache.c:341-352 | an unknown object gives NULL; a known one gives its recalculated rights, which are cached |
| AclCache.AclCache.Flush | src/plugins/acl/acl-cache.c:141-150 | forgets exactly that object's entry |
| AclCache.AclCache.FlushAll | src/plugins/acl/acl-cache.c:152-166 | forgets every entry |
| AclCache.LookupAfterFlush | src/plugins/acl/acl-cache.c:141-166 | after a flush, a lookup of the object gives NULL; after a full flush, so does any lookup |
| AclCache.GetMyRightsTwice | src/plugins/acl/acl-cache.c:341-352 | two lookups with no update in between agree, and give NULL exactly for an unknown object |

## Left out

- `imap_part_get_bodystructure` and `part_parse_headers` drive the message parser (`message_parse`, `message_parse_header`) over a stream. That parser is not part of this model. The model takes the header block of one part as a sequence (`ParseHeaders`) and the finished part tree as a value. `part_get_bodystructure` itself only writes the root part into a fresh buffer; it is modelled by `BodystructureWriter.PartGetBodystructure`.
- `imap_body_parse_from_bodystructure`'s string buffer, IMAP parser and `i_error` are not modelled. The normalizer starts from the argument list the parser would produce.
- The RFC 822 tokenizer, `message_content_parse_header`, the quoting helpers, the envelope builder and the envelope writer are uninterpreted parameters (`Collaborators` and `we`). The envelope is the list of header lines handed to the builder.
- `HeaderParser.PartContext.ParseContentType`: the value `rfc822_tokens_get_value_quoted` returns for a count of -1 (no '/') is an uninterpreted constant, `subtypeWithoutSlash`.
- Memory pools, `t_push`/`t_pop`, `str_new` and the deinit and free functions manage memory only and are not modelled.
- `acl_cache_flush_all` deletes entries in hash-table order. The model forgets them all at once, and the result is the same.
- The output `string_t` buffers are threaded through as string values.
- When a normalizer method fails, its output is left unspecified, as in the C code, which abandons the buffer.
- Sizes and line counts are unbounded naturals printed in decimal. The C `uoff_t`/`unsigned int` widths are not modelled.
- The ACL backend's user and group tests are fields of a `Backend` datatype.
- The `i_unreached` for `ACL_ID_TYPE_COUNT` is excluded by the identifier type datatype.
- `acl_cache_mask_deinit`, `acl_cache_deinit` and `acl_cache_free_object_cache` only free memory. The hash tables become Dafny maps, and the name copies (`i_strdup`, `p_strdup`) become plain values.
- Section 7.4.2 of RFC 3501, the comment at imap-bodystructure.c:362-363 and the multipart writer all nest the single-part disposition parameters inside the disposition list. The single-part code writes them as a separate second list (see Findings). The model follows the code in `SingleDisposition` and proves the nested form about `SingleExtensionCorrected`.
- The comment at acl-cache.c:320-321 says negative rights take rights away. The loop at 319-327 ORs them in. `Recalculated` and `GetMyRights` follow the code; `CorrectedUpTo` models the comment's intent.
- `CorrectedUpTo`: the slot-by-slot reading depends on the order of the slots, which the model takes to be the order of the cases of the switch at acl-cache.c:268-287 (`Anyone`, `Authenticated`, `Group`, `GroupOverride`, `User`, in `IdTypeIndex`). The header that declares `enum acl_id_type` is not part of this model, so that order is assumed. `GlobalCorrected` is the order-independent reading, in which every negative mask removes its rights from the union of all positive masks; `GlobalWithinCorrected` relates the two.

## Findings

| source | as written | input that shows it | evidently intended | confidence | as-written member | corrected member |
|---|---|---|---|---|---|---|
| src/lib-imap/imap-bodystructure.c:566-570 | the normalizer writes a message/rfc822 part's nested body structure without the parentheses the writer puts around it (line 353) | any stored message/rfc822 part, e.g. `"message" "rfc822" NIL NIL NIL "7bit" 100 (<envelope>) ("text" "plain" NIL NIL NIL "7bit" 10 1) 5`: the writer writes the body as `("text" ... 1)`, the normalizer as `"text" ... 1` | the nested body is written in parentheses, so that normalizing a stored value reproduces the writer's BODY form | not executed | BodystructureRoundTrip.AsWrittenDropsParentheses | BodystructureRoundTrip.CorrectedNormalizerInvertsWriter |
| src/lib-imap/imap-bodystructure.c:370-381 | a single part's disposition parameters are written after the disposition list, as a second list | Content-Disposition `attachment; filename=a` is written as `("attachment") ("filename" "a")` | `("attachment" ("filename" "a"))`, one list as in section 7.4.2 of RFC 3501, as in the comment at lines 362-363 and as the multipart writer does at lines 277-288 | not executed | BodystructureRoundTrip.SingleDispositionSplitsParams | BodystructureRoundTrip.DispositionIsOneList |
| src/plugins/acl/acl-cache.c:319-327 | the recalculation ORs the negative rights into the result, like the positive ones | an object whose only entry is a negative `lookup` right: the current rights include `lookup` | negative rights remove rights granted by the entries before them (the comment at lines 320-321) | not executed | AclCache.NegativeRightGranted | AclCache.CorrectedUpToBits |
