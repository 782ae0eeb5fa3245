# Validation-harness models

Dafny models of the validation harnesses around the oxicrypt module, with proofs of what
they promise. Each module follows one component of the harnesses; the code is restated
with its own branches, edge cases, error conditions and constants.

The components:

- **Two JSON codecs.** `Json`, `JsonParser` and `JsonWriter` are the integer-only codec,
  `JsonLite` and `JsonLiteParser` the lossless reader. Texts are sequences of Unicode
  scalars and documents are bytes; `Utf8` connects the two. Each parser is an object with
  a position, proved to compute a reading function; each writer appends to a buffer,
  proved to append the rendering. `JsonRoundTrip`, `JsonPrintRead` and `JsonTheorems` hold
  the round trip with its exact condition, `JsonAgreement` the comparison of the two
  readers. `LiteTokens`, `LiteStrings` and `JsonStrings` state numbers and strings by
  RFC 8259, `JsonGrammar` has its derivation trees, `LiteGrammar` and `IntGrammar` the
  theorem that each reader is that grammar, `JsonErrors` where a document is refused, and
  `JsonLayout` what is printed.
- **The event log** (`EventLog`, `EventLogFiles`): one compact record a line, under crashes,
  and the loading of any file.
- **Multipart upload bodies.** `Multipart` is the encoder, `MultipartReceiver` an
  independent receiver and the recovery theorem, `MultipartRules` and `MultipartTypes` what
  is accepted and what is on the wire, `BoundarySearch` the generator with its counting
  argument.
- **Polling** (`PollStatus`, `Poll`, `PollTheorems`, `PollReplies`) and the **authenticated
  session** (`EsvAuth`, `EsvSession`). The other side is an arbitrary infinite script, or a world
  that keeps a log of every exchange; the results are statements about the script or the log.
- **Submission** (`SessionIds`, `Submission`, `SubmissionSafety`, `SubmissionLimits`,
  `SubmissionRecords`). The session directory is a map, a script has every answer of the
  server and of the disk, writes may fail or be cut short, and a process may die between two
  steps or in the middle of a write.
- **Keep-alive framing** (`KeepAlive`, `KeepAliveFraming`, `KeepAliveCuts`,
  `KeepAliveHeads`): a byte stream with a position; well-formed responses, streams that
  end too early, and any head at all.
- **Base64, exact decimals, hex and record files** (`Base64`, `Hmin`, `Hex`, `Rsp`, `RspFiles`,
  `RspLines`).
- **The source blanker** of the coverage script (`CodeOnly`, `CodeOnlyTheorems`,
  `CodeOnlyLiterals`, `CodeOnlySources`).
- **Certification requests** (`Certify`).

`Prelude`, `Text`, `Decimal` and `Numerals` hold what several components share. Code that
changes state step by step is a class or a method with a loop, proved against a function; the
theorems are about those functions. The theorems that say exactly what a function does, most of
them named `...Iff` or `...Outcome`, are stated with definitions of their own (spellings,
alphabets, grammars, place values, letter case, what a reply says) and not with the functions of
the code. `dafny verify dfyconfig.toml` checks everything.

Where the code and its own words differ, the code is modelled:

- The integer codec decodes UTF-8 only up to the first escape of a string; after it every
  byte becomes one character (`acvp-harness/src/json.rs:411-418`). The round trip therefore
  carries that condition, and `JsonTheorems.LatinAfterEscapeIsLost` shows the smallest failure.
- The record parser calls itself strict about duplicate keys, but any number of `[L = N]`
  headers is accepted, anywhere, even inside a record, and the last one wins (`RspFiles.ParseIff`).
- A response that could not be persisted is submitted all the same
  (`acvp-harness/src/transport.rs:1689-1702`), a second run reuses a directory, and a write can
  be cut short. So a directory is safe through every crash exactly under the condition of
  `SubmissionSafety.SubmitRunSafeIff`; `SubmissionLimits` takes the three cases apart, each
  with its own exact condition and an input that falls outside.
- The end of a chunked body is two bytes that are read but not looked at, and a chunk size
  near 2^64 wraps the buffer's length; both are in `KeepAlive.ReadChunks`.
- The blanker promises every character literal, but one with more than eleven units between
  its apostrophes, such as a Unicode escape with underscores in it, stays code
  (`scripts/check-lama-coverage.ts:804`, `CodeOnlyLiterals.EscapedIff`).
- The encoder accepts every boundary of RFC 2046 but writes it into the `Content-Type` header
  without quotes, so one with a blank or a special in it is not read back
  (`esv-harness/src/datafiles.rs:482`, `MultipartReceiver.HeaderRead`).
- The automatic replay is started by the text `SUBMIT_ERROR`, which a server's verdict could
  also read (`Submission.ReplayStartsIff`).

## Model

| member | source | states |
|---|---|---|
| JsonParser.Parser.Bump | acvp-harness/src/json.rs:253-257 | returns the byte at the position and moves past it; at the end it moves nowhere |
| JsonParser.Parser.ExpectByte | acvp-harness/src/json.rs:259-271 | moves past exactly the wanted byte; any other byte is an error at its own position |
| JsonParser.Parser.SkipWhitespace | acvp-harness/src/json.rs:273-281 | stops at the first byte that is no JSON whitespace |
| JsonParser.Parser.ParseHex4 | acvp-harness/src/json.rs:452-465 | four hex digits of either case as their value |
| JsonParser.Parser.ParseEscape | acvp-harness/src/json.rs:424-450 | appends the scalar of one escape; surrogates are refused |
| JsonParser.Parser.ParseString | acvp-harness/src/json.rs:373-422 | the string at the position: a UTF-8 slice up to the first escape, one character a byte after it |
| JsonParser.Parser.ParseNumber | acvp-harness/src/json.rs:467-504 | an integer token without leading zeros, inside the i64 range |
| JsonParser.Parser.ParseBool | acvp-harness/src/json.rs:506-520 | the two words, in full |
| JsonParser.Parser.ParseNull | acvp-harness/src/json.rs:522-536 | the word, in full |
| JsonParser.Parser.ParseValue | acvp-harness/src/json.rs:283-301 | one value, refused below depth 64; the position only moves forward |
| JsonParser.Parser.ParseObject | acvp-harness/src/json.rs:303-340 | an object with pairwise distinct keys, else the position of the repeated key |
| JsonParser.Parser.ParseMember | acvp-harness/src/json.rs:312-321 | one key that the object does not have yet, and its value |
| JsonParser.Parser.ParseArray | acvp-harness/src/json.rs:342-371 | an array, every item one level deeper |
| JsonParser.ParseDocument | acvp-harness/src/json.rs:231-241 | one value with only whitespace around it, else the exact error; terminates because the rest of the input and the rank of the call shrink |
| JsonWriter.WriteString | acvp-harness/src/json.rs:655-684 | appends the quoted text: short escapes, `\u00XX` for other control characters, everything else raw |
| JsonWriter.WriteValueCompact | acvp-harness/src/json.rs:564-594 | appends the compact rendering of any value |
| JsonWriter.WriteArrayCompact | acvp-harness/src/json.rs:571-580 | brackets and commas only, in item order |
| JsonWriter.WriteObjectCompact | acvp-harness/src/json.rs:581-592 | braces, commas and colons only, in member order |
| JsonWriter.WriteValue | acvp-harness/src/json.rs:596-647 | appends the pretty rendering of any value at its indentation |
| JsonWriter.WriteArray | acvp-harness/src/json.rs:606-624 | one item a line, `[]` when empty |
| JsonWriter.WriteObject | acvp-harness/src/json.rs:625-645 | one member a line, `{}` when empty |
| JsonWriter.PushIndent | acvp-harness/src/json.rs:649-653 | two spaces a level |
| JsonWriter.ToCompactString | acvp-harness/src/json.rs:558-562 | the compact rendering |
| JsonWriter.ToPrettyString | acvp-harness/src/json.rs:542-546 | the pretty rendering |
| JsonWriter.RenderCompactIndent | acvp-harness/src/json.rs:564-594 | the compact rendering does not depend on any indentation |
| JsonRoundTrip.MangledTextFixed | acvp-harness/src/json.rs:373-422 | a text comes back from the codec unchanged exactly when no non-ASCII character stands after an escaped one |
| JsonRoundTrip.MangledTextInjective | acvp-harness/src/json.rs:373-422 | what one trip through the codec does to texts never makes two of them equal |
| JsonRoundTrip.ReadPrintedString | acvp-harness/src/json.rs:373-422 | reading a printed string gives the text with everything after its first escape as the Latin-1 characters of its UTF-8 bytes |
| JsonRoundTrip.ReadPrintedNumber | acvp-harness/src/json.rs:467-504 | every i64, the minimum included, reads back from its decimal |
| JsonRoundTrip.MangledFixed | acvp-harness/src/json.rs:231-241 | a whole value is unchanged by one trip exactly when all its texts and keys are |
| JsonPrintRead.ReadRendered | acvp-harness/src/json.rs:283-504 | a rendered value inside any document, at any depth, reads as that value up to the mangling and ends where the rendering ends, or is refused when it is too deep or repeats a key |
| JsonTheorems.ParsePrinted | acvp-harness/src/json.rs:542-684 | parsing a printed value, compact or pretty, succeeds exactly when keys are distinct and nesting is at most 64 |
| JsonTheorems.RoundTrip | acvp-harness/src/json.rs:231-241 | parse of print is the identity if and only if keys are distinct, nesting is at most 64 and no string has a non-ASCII character after an escaped one |
| JsonTheorems.LatinAfterEscapeIsLost | acvp-harness/src/json.rs:411-418 | the failing family, concretely: a newline followed by e-acute comes back as two other characters |
| JsonTheorems.ParsedShape | acvp-harness/src/json.rs:283-371 | every accepted tree has height at most 64 and distinct keys in every object |
| JsonTheorems.ParsedPrintsParseably | acvp-harness/src/json.rs:542-562 | whatever was parsed can be printed and parsed again |
| JsonLayout.SpellingIff | acvp-harness/src/json.rs:655-684 | how each character of a string is printed: the one-letter escapes of section 7 of RFC 8259 except the slash, two lower-case hex digits behind `u00` for the other control characters, itself otherwise |
| JsonLayout.RenderIff | acvp-harness/src/json.rs:542-684 | the text of any value in either layout, character by character: brackets, commas, colons, line breaks, two spaces a level, and no other text |
| JsonTheorems.CompactIsOneLine | acvp-harness/src/json.rs:548-562 | compact output holds no character below 0x20, so one record is one line |
| JsonStrings.ReadLiteral | acvp-harness/src/json.rs:373-450 | every literal of section 7 of RFC 8259 without surrogate pairs is read, as what the reader hears in it |
| JsonStrings.ReadStringHeard | acvp-harness/src/json.rs:373-450 | on a text, a string is read as `t` exactly when it is a literal without surrogate pairs whose scalars read `t`, raw ones behind the first escape as the Latin-1 of their bytes; short escapes by the letter table, hex by place value |
| JsonStrings.HeardIsScalars | acvp-harness/src/json.rs:373-450 | a literal whose raw scalars behind its first escape are ASCII is heard as its scalars |
| IntGrammar.ParseIff | acvp-harness/src/json.rs:231-536 | any text at all is read as a value exactly when some derivation of RFC 8259 that nests at most 64 deep denotes it: i64 integers, no surrogate pairs, distinct keys |
| JsonErrors.DocumentFine | acvp-harness/src/json.rs:231-536 | the error of a refused document blames what stands at its position: that byte, an escape, a number, a repeated key, a string |
| JsonErrors.DocumentFineLite | esv-harness/src/jsonlite.rs:256-535 | the same for the lossless reader, which blames a bad escape letter and bad UTF-8 on the opening quote |
| Utf8.OctetsIff | acvp-harness/src/json.rs:384-390 | the bytes of a character are the octets of section 3 of RFC 3629, by their value |
| Utf8.DecodeEncode | acvp-harness/src/json.rs:384-390 | decoding UTF-8 undoes encoding, for every text |
| Utf8.EncodeDecode | acvp-harness/src/json.rs:384-390 | an accepted byte string is the encoding of what it decoded to |
| Utf8.DecodeIffEncode | acvp-harness/src/json.rs:384-390 | bytes decode to a text exactly when they are its encoding |
| Decimal.ParseI64IntText | acvp-harness/src/json.rs:492-504 | every i64 survives its decimal text |
| Numerals.NatTextIff | acvp-harness/src/json.rs:564-570 | a number is printed as its decimal digits by place value, without a redundant zero |
| Numerals.ParseI64Iff | acvp-harness/src/json.rs:492-504 | any text is read as an i64 exactly when it spells it, place by place, with an optional sign |
| Numerals.ParseUnsignedIff | acvp-harness/src/transport.rs:463-476 | any text is read as an unsigned number exactly when it spells one below the bound, with an optional plus |
| Decimal.ParseUnsignedNatText | acvp-harness/src/transport.rs:463-476 | an unsigned decimal is read back exactly when it fits the type |
| EventLog.Log.HealTornTail | esv-harness/src/session.rs:864-905 | cuts the file back to its last newline, and only that |
| EventLog.Log.AppendRecord | esv-harness/src/session.rs:807-856 | the healed file followed by the whole compact record and a newline |
| EventLog.Log.LoadRecords | esv-harness/src/session.rs:1033-1110 | the records of all complete lines in order, and the torn tail |
| EventLog.HealedAfter | esv-harness/src/session.rs:864-905 | whatever prefix of a record follows a clean log, healing gives back the log without it |
| EventLog.RunInvariant | esv-harness/src/session.rs:795-905 | after every run of appends and crashes the complete part of the file is exactly the committed records |
| EventLog.LoadAfterRun | esv-harness/src/session.rs:1015-1110 | loading after any such run succeeds and returns the committed records, each mangled as one round trip mangles it |
| EventLog.LoadReturnsCommitted | esv-harness/src/session.rs:1015-1110 | under the round-trip condition the committed records come back themselves; a crash loses only the record being appended |
| EventLogFiles.LoadOutcome | esv-harness/src/session.rs:1033-1110 | any file at all: the records of its lines in order, blank lines passed over and one carriage return dropped, with the tail behind the last newline; else the number and error of the first line that is no record; or that the complete part is no text |
| JsonLiteParser.Parser.ExpectByte | esv-harness/src/jsonlite.rs:290-302 | moves past exactly the wanted byte |
| JsonLiteParser.Parser.ParseHex4 | esv-harness/src/jsonlite.rs:474-487 | four hex digits of either case as their value |
| JsonLiteParser.Parser.ParseEscape | esv-harness/src/jsonlite.rs:432-472 | appends one scalar; a high surrogate needs its low half, a lone low one is refused |
| JsonLiteParser.Parser.ParseString | esv-harness/src/jsonlite.rs:392-430 | the string at the position, raw characters taken whole |
| JsonLiteParser.Parser.SkipInt | esv-harness/src/jsonlite.rs:498-507 | the integer part: `0` alone or digits from 1..9 |
| JsonLiteParser.Parser.SkipFraction | esv-harness/src/jsonlite.rs:508-515 | a point needs a digit after it |
| JsonLiteParser.Parser.SkipExponent | esv-harness/src/jsonlite.rs:516-526 | an exponent needs a digit after its sign |
| JsonLiteParser.Parser.ParseNumber | esv-harness/src/jsonlite.rs:492-535 | the number token as its own source text |
| JsonLiteParser.Parser.ParseValue | esv-harness/src/jsonlite.rs:310-328 | one value, refused below depth 64 |
| JsonLiteParser.Parser.ParseObject | esv-harness/src/jsonlite.rs:330-361 | an object in member order, repeated keys kept |
| JsonLiteParser.Parser.ParseMember | esv-harness/src/jsonlite.rs:339-344 | one key and its value |
| JsonLiteParser.Parser.ParseArray | esv-harness/src/jsonlite.rs:363-390 | an array, every item one level deeper |
| JsonLiteParser.ParseDocument | esv-harness/src/jsonlite.rs:256-267 | one value with only whitespace around it, else the exact error; terminates by the rest of the input and the rank of the call |
| JsonLite.Combined | esv-harness/src/jsonlite.rs:445-458 | the scalar whose UTF-16 halves the two surrogates are |
| JsonLite.GetUniqueMember | esv-harness/src/jsonlite.rs:149-166 | the value of the only member with the key, nothing when there is none, an error when there are two |
| LiteTokens.NumberEndIff | esv-harness/src/jsonlite.rs:492-541 | a number ends at a place exactly when the slice is a token of section 6 of RFC 8259 that the next byte cannot extend |
| LiteTokens.NumberIsSlice | esv-harness/src/jsonlite.rs:527-534 | an accepted number is its own source slice, byte for byte |
| LiteTokens.TokenIsRead | esv-harness/src/jsonlite.rs:492-535 | every maximal number token is accepted as itself |
| LiteStrings.ReadStringIff | esv-harness/src/jsonlite.rs:392-487 | a string is read as a text exactly when it is written with some mix of raw characters, short escapes, `\uXXXX` and surrogate pairs that spells that text: the letters of section 7 of RFC 8259 as a table, hex digits by place value, pairs by UTF-16 |
| LiteGrammar.ParseIff | esv-harness/src/jsonlite.rs:256-535 | any text at all is read as a tree exactly when some derivation of RFC 8259 that nests at most 64 deep denotes it |
| LiteStrings.ParsedHeight | esv-harness/src/jsonlite.rs:310-390 | every accepted tree has height at most 64 |
| JsonAgreement.ReadersAgree | esv-harness/src/jsonlite.rs:310-571 | on every ASCII document the integer reader returns a value exactly when the lossless reader returns a tree of i64 tokens, distinct keys and characters that need no surrogates, which denotes that value |
| JsonAgreement.AcceptanceAgrees | acvp-harness/src/json.rs:283-534 | so the integer reader accepts exactly the convertible documents of the lossless reader |
| Multipart.CheckBoundary | esv-harness/src/datafiles.rs:601-624 | accepts exactly 1 to 70 boundary characters that do not end in a space |
| Multipart.BodyCollides | esv-harness/src/datafiles.rs:654-665 | true exactly when the line end and dash-boundary, or the dash-boundary at the start, occur in the span |
| Multipart.EscapeValue | esv-harness/src/datafiles.rs:551-560 | a backslash before every quote and backslash |
| Multipart.AnySpanCollides | esv-harness/src/datafiles.rs:641-652 | true exactly when the body or the filename of a part collides |
| Multipart.EncodePart | esv-harness/src/datafiles.rs:484-515 | delimiter, header lines, blank line and body of one part |
| Multipart.SerializeMultipart | esv-harness/src/datafiles.rs:460-518 | the whole message, or the error of the first offending part |
| MultipartReceiver.DispositionRead | esv-harness/src/datafiles.rs:486-509 | undoing the quoted-string escapes gives the exact name and filename of a part |
| MultipartReceiver.ContentRead | esv-harness/src/datafiles.rs:484-516 | one part read on its own gives its name, filename and body exactly when its header block holds no blank line before its end |
| MultipartReceiver.FirstDelimiter | esv-harness/src/datafiles.rs:654-665 | from the start of a part the first delimiter is the emitted one, never one inside the body or across its end, exactly when the header block holds none |
| MultipartReceiver.NoErrorMeansSafe | esv-harness/src/datafiles.rs:464-481 | no error is reported exactly when no header value has a control character and no part collides |
| MultipartReceiver.ReceiverRecovers | esv-harness/src/datafiles.rs:460-518 | a receiver after section 5.1.1 of RFC 2046 recovers the same names, filenames and bodies in order, for every accepted part list whose header blocks hold no delimiter, if and only if none holds an early blank line |
| MultipartReceiver.SafeTypesRecover | esv-harness/src/datafiles.rs:460-518 | in particular for every accepted part list with content types free of line ends |
| MultipartReceiver.BlankLineIsTaken | esv-harness/src/datafiles.rs:510-511 | a content type with a blank line in it is accepted and ends its own header block |
| MultipartReceiver.SerializeInjective | esv-harness/src/datafiles.rs:460-518 | two part lists with the same bytes, each of them recovered, agree on every name, filename and body |
| MultipartReceiver.HeaderRead | esv-harness/src/datafiles.rs:482 | the `Content-Type` header gives the boundary back exactly when it is a token of RFC 2045; the encoder accepts others and never quotes them |
| MultipartReceiver.MessageRecovered | esv-harness/src/datafiles.rs:460-518 | header and body together: the parts come back if and only if the boundary is a token and no header block ends early |
| MultipartRules.BoundaryIff | esv-harness/src/datafiles.rs:601-624 | a boundary is accepted exactly when it is one of section 5.1.1 of RFC 2046, character by character |
| MultipartRules.SerializeOutcome | esv-harness/src/datafiles.rs:460-481 | which error, if any: a bad boundary, else the first part with a control character in a name or with a line that starts with the dash-boundary, the former first |
| MultipartTypes.TypeRead | esv-harness/src/datafiles.rs:510-511 | a receiver reads the content type of a file part as it was given exactly when it holds no line end, whatever the body holds |
| MultipartTypes.WireExample | esv-harness/src/datafiles.rs:460-518 | a field and a file, header and message byte for byte |
| BoundarySearch.GeneratedIsRecovered | esv-harness/src/datafiles.rs:677-691 | a generated boundary is a token, so header and message together give the parts back |
| BoundarySearch.CandidateValid | esv-harness/src/datafiles.rs:677-691 | every candidate, for every 64-bit suffix, is a valid boundary |
| BoundarySearch.SamePlaceSameNumber | esv-harness/src/datafiles.rs:677-691 | two different suffixes never collide at the same place with the same number of digits |
| BoundarySearch.RejectionsBounded | esv-harness/src/datafiles.rs:677-691 | the number of rejected candidates is at most the number of (place, digit count) pairs in the spans |
| BoundarySearch.GenerateBoundary | esv-harness/src/datafiles.rs:677-691 | the search ends with the least suffix that collides with no body or filename; the counter does not saturate; the result is valid |
| BoundarySearch.GeneratedBoundarySerializes | esv-harness/src/datafiles.rs:464-481 | with a generated boundary serializing fails only on a control character in a name or filename |
| PollStatus.WordsOfJoined | esv-harness/src/datafiles.rs:846-855 | splitting at whitespace undoes joining with spaces |
| PollStatus.ClassifiedByWords | esv-harness/src/datafiles.rs:868-880 | a status is recognised exactly when its folded words are one of the documented spellings; containing one is not enough |
| PollReplies.StatusIff | esv-harness/src/datafiles.rs:846-880 | a status is recognised exactly when its text says a documented spelling: the words in any letter case, with blanks, hyphens and underscores between and around them |
| PollReplies.PayloadOutcome | esv-harness/src/datafiles.rs:1065-1127 | what any payload comes to: wait, result or which error, by its members alone: two statuses or two ids, a status that is no text, an error text, the HTTP status |
| PollReplies.PassOutcome | esv-harness/src/datafiles.rs:1014-1063 | under a granted token a reply that is an envelope is judged by its payload |
| PollStatus.NormalizeIdempotent | esv-harness/src/datafiles.rs:846-855 | normalising twice is normalising once |
| Poll.ReadPayload | esv-harness/src/datafiles.rs:1065-1106 | the strict reads of status and id and what the loop makes of them |
| Poll.PollDataFile | esv-harness/src/datafiles.rs:993-1108 | returns the verdict of the three-counter automaton on the script, having slept and sent exactly what the script says; no counter saturates |
| PollTheorems.EndsIff | esv-harness/src/datafiles.rs:1005-1108 | a pass ends the poll exactly when the total is used up, it is decisive, or it completes a window of transient failures or of not-yet-processed replies |
| PollTheorems.NotYetEnds | esv-harness/src/datafiles.rs:1090-1098 | the not-yet-processed counter says that this is the last of max+1 such replies without a processing reply between; transient failures do not reset it |
| PollTheorems.NotYetCap | esv-harness/src/datafiles.rs:1090-1098 | while the poll goes on the count never exceeds the cap, so the timeout reports the cap |
| PollTheorems.PayloadIff | esv-harness/src/datafiles.rs:1135-1149 | the payload is there exactly when the body is a versioned envelope |
| PollTheorems.TransientIff | esv-harness/src/datafiles.rs:1014-1063 | a pass is a transient failure exactly when no well-formed envelope came back under a granted token |
| PollTheorems.VerdictByWindow | esv-harness/src/datafiles.rs:993-1108 | on every infinite script the poll stops within the total, and each outcome is characterised by the first window or decisive pass |
| PollTheorems.Effects | esv-harness/src/datafiles.rs:993-1108 | sleeps are passes entered minus one, or requests on the total timeout; every request carries the token of its own pass |
| PollTheorems.ResultIsFaithful | esv-harness/src/datafiles.rs:1065-1089 | a result comes from an envelope with exactly one documented status and at most one id; the id is its text or its number token; a success carries that body verbatim |
| PollTheorems.AlternatingTimesOut | esv-harness/src/datafiles.rs:898-907 | a server alternating between its two waiting states is stopped by the total |
| EsvAuth.ParseBulkRefreshTokens | esv-harness/src/login.rs:336-372 | as many tokens as were sent, in order, or nothing |
| EsvAuth.RefreshBodyCarriesToken | esv-harness/src/login.rs:189-204 | a refresh body hands over the held token exactly when its text survives the codec |
| EsvAuth.BulkReadsBack | esv-harness/src/login.rs:336-372 | a body that carries a token list is read as that list for its own length and refused for every other |
| EsvAuth.BodiesSay | esv-harness/src/login.rs:168-229 | what the login, refresh and bulk bodies hold, member by member |
| EsvAuth.AccessTokenIff | esv-harness/src/login.rs:270-334 | a token is read exactly from a textual `accessToken` in the payload of a versioned reply |
| EsvAuth.BulkTokensIff | esv-harness/src/login.rs:336-372 | a list is read exactly from an `accessToken` that is an array of that many texts, or one text for a list of one |
| EsvSession.PostTotpSigned | esv-harness/src/login.rs:384-412 | at most four tries and three waits, each try with a fresh code; a reply that is no used window is returned at once; for the login and the bulk-refresh path |
| EsvSession.BulkRefresh | esv-harness/src/login.rs:464-480 | fresh tokens for a list, as many as were sent, in at most four POSTs, or nothing; the held token stays |
| EsvSession.Session.AdoptToken | esv-harness/src/login.rs:652-658 | token and age change together and only when a token can be read |
| EsvSession.Session.Refresh | esv-harness/src/login.rs:610-649 | embeds the held token; falls back to a fresh login only after a refusal; a failure leaves token, age and counter unchanged; the counter is the number of fresh-login refreshes up to saturation |
| EsvSession.Session.RefreshIfStale | esv-harness/src/login.rs:660-674 | refreshes exactly when the margin is zero or the clock has reached the issue time plus the margin, and says whether it did |
| EsvSession.Session.AuthenticatedRequest | esv-harness/src/login.rs:676-697 | the log of one request: optional refresh, the request, and after a 401 or 403 one refresh and one more request; token and age are those of the newest grant in the log |
| EsvSession.AdoptedConcat | esv-harness/src/login.rs:652-658 | which token is held depends only on the grants in the log, in order |
| EsvSession.RefreshBounds | esv-harness/src/login.rs:610-649 | a refresh is at most eight signed posts, and only the last can grant a token |
| EsvSession.RequestRunBounds | esv-harness/src/login.rs:676-697 | at most 18 transport calls, at most two of them the caller's, both with the verb, path and body asked for |
| EsvSession.RequestRunBearers | esv-harness/src/login.rs:660-697 | when the held token is due by clock and margin the request goes out under a token granted just before, or not at all; else under the held one; again exactly when it was answered 401 or 403 and a token was then granted, and under that |
| EsvSession.SignedPostIs | esv-harness/src/login.rs:384-412 | a signed post on the wire: to which path, each try under the next code, at least ten seconds behind the one before, going on exactly while the window was used, at most four times |
| EsvSession.RefreshTrail | esv-harness/src/login.rs:610-649 | a refresh on the wire: POSTs that hand over the held token and, exactly after a 401 or 403 that is no used window, plain logins, each to its end |
| EsvSession.OutcomeIs | esv-harness/src/login.rs:610-649 | how a refresh is counted, by the answers of its exchanges |
| SessionIds.IdsReadBack | acvp-harness/src/session.rs:63-70 | both ids come back from every vector-set URL, for all 64-bit ids and any further path |
| SessionIds.IdsIff | acvp-harness/src/session.rs:63-70 | any URL at all: ids are found exactly when numbers below 2^64 lead what stands behind the first session marker and, in that, behind the first vector-set marker |
| Submission.World.WriteFile | acvp-harness/src/session.rs:143-146 | a write replaces the file, cuts it short or leaves it, and reports success only for the first |
| Submission.World.WriteStatus | acvp-harness/src/session.rs:184-186 | the status and a newline |
| Submission.SubmitAndMark | acvp-harness/src/transport.rs:1867-1881 | one POST, and the submitted mark exactly after a 2xx |
| Submission.Conclude | acvp-harness/src/transport.rs:1796-1813 | the verdict is the answer to the poll at that moment, and is written when there is one |
| Submission.SubmitWithRetries | acvp-harness/src/transport.rs:1708-1769 | one more POST after a dead connection that could be reopened, one more after a 401 or 403 under a refreshed token |
| Submission.SubmitResponse | acvp-harness/src/transport.rs:1689-1813 | response, pending mark, attempts and verdict in this order; failed writes do not stop the submit |
| Submission.ProcessVectorSet | acvp-harness/src/transport.rs:1659-1813 | the whole run of one vector set as a log of writes and POSTs, with its disposition |
| Submission.Resubmit | acvp-harness/src/transport.rs:1412-1518 | nothing without a cached response or a login, else one attempt with exactly the cached text |
| Submission.ReplayStartsIff | acvp-harness/src/transport.rs:1348-1350 | the text that starts the automatic replay is shown by a transport error and by a verdict that the server spells the same way, and by nothing else |
| Submission.ProcessWithRecovery | acvp-harness/src/transport.rs:1344-1382 | one automatic replay, exactly when the disposition reads SUBMIT_ERROR; another disposition only when the replay succeeded |
| SubmissionSafety.CutPending | acvp-harness/src/session.rs:184-192 | however a write of the pending mark is cut, what is left still reads as pending or empty |
| SubmissionSafety.StepKeepsSafe | acvp-harness/src/transport.rs:1867-1881 | no allowed step makes the status claim a submission that the server did not accept |
| SubmissionSafety.CrashIsAllowed | acvp-harness/src/transport.rs:1689-1794 | what a crash leaves of a run, even in the middle of a write, is made of allowed steps |
| SubmissionSafety.SubmitRunIsSafe | acvp-harness/src/transport.rs:1689-1794 | wherever the process dies, a status other than pending is backed by a 2xx to a POST of exactly the cached text, from every safe directory in which the submission may be made |
| SubmissionSafety.SubmitRunSafeIff | acvp-harness/src/transport.rs:1659-1813 | for every directory, past and run: every crash is safe if and only if the directory is safe and either it looks pending and the text left in the cache is backed or no status is revealed, or whatever the response write can leave was accepted before |
| SubmissionSafety.PendingIsEnough | acvp-harness/src/session.rs:99-109 | with the response written, a directory whose status is absent, empty or still pending is all that safety needs |
| SubmissionSafety.ReplayIsSafe | acvp-harness/src/transport.rs:1412-1518 | replaying keeps safety from every safe directory |
| SubmissionSafety.ReplaysSendTheCache | acvp-harness/src/transport.rs:1412-1518 | any number of replays that die anywhere leave the cached text alone and send nothing else |
| SubmissionSafety.HistoryIsSafe | acvp-harness/src/transport.rs:1412-1518 | the whole life of a directory: any submissions that may be made and any replays, in any order, each dying anywhere, keep it safe |
| SubmissionSafety.FailureLeavesPending | acvp-harness/src/transport.rs:1782-1793 | a failed submit with both writes done leaves exactly the computed text and the pending mark, whatever the directory held |
| SubmissionSafety.PostBounds | acvp-harness/src/transport.rs:1344-1382 | at most three result POSTs, all of the computed text, and one more with the automatic replay, of the computed text if and only if the cache holds it |
| SubmissionRecords.RunIsDetermined | acvp-harness/src/transport.rs:1659-1813 | one script of outside answers, one run: writes, POSTs and disposition are decided by the inputs and the answers |
| SubmissionRecords.DispositionIs | acvp-harness/src/transport.rs:1659-1813 | the disposition by what happened: a failed first write, no response, the HTTP status of the last POST, a lost one, or after a 2xx the answer that the poll gave |
| SubmissionRecords.RetriesIff | acvp-harness/src/transport.rs:1708-1769 | which POSTs are made and answered by what: one more exactly after a dead socket that could be reopened, one more exactly after a 401 or 403 under a refreshed token |
| SubmissionRecords.RecordedStatus | acvp-harness/src/transport.rs:1796-1810 | the last step of an accepted run writes its word and a newline: the verdict, or SUBMITTED when the poll brought none; when that write is done the status file holds it |
| SubmissionRecords.ReplayRecordedStatus | acvp-harness/src/transport.rs:1480-1518 | the same for a replay |
| SubmissionRecords.ReplayDispositionIs | acvp-harness/src/transport.rs:1412-1518 | a replay posts the cached text once, exactly with a cache and a login, and ends by the reply and the poll |
| SubmissionRecords.PromptAndTokenKept | acvp-harness/src/transport.rs:1659-1688 | prompt.json and token.txt hold what the run was given, when they were written, whatever comes after |
| SubmissionRecords.ResponseKept | acvp-harness/src/transport.rs:1689-1702 | response.json holds the computed text when it was written, and the pending mark is the next write |
| SubmissionRecords.ShownAs | acvp-harness/src/transport.rs:1659-1813 | the text of every disposition that is no verdict, as it is printed and compared |
| SubmissionRecords.RecoveredIff | acvp-harness/src/transport.rs:1906-1915 | a replay recovers a vector set exactly when it ends with a text that names no harness error and the transcript is written |
| SubmissionRecords.RecoveryOutcome | acvp-harness/src/transport.rs:1344-1382 | a demo run reports what its first run ended with or, once recovered, the server's word from the status file |
| SubmissionLimits.NothingRevealedIff | acvp-harness/src/transport.rs:1782-1813 | a run shows a status other than pending only through the submitted mark or the verdict behind an accepted POST |
| SubmissionLimits.PendingRunSafeIff | acvp-harness/src/transport.rs:1696-1702 | from a directory that looks pending, with the submitted mark written: every crash is safe if and only if no POST was accepted or the text left in the cache is the computed one or one accepted before |
| SubmissionLimits.UnstoredResponseIsUnsafe | acvp-harness/src/transport.rs:1696-1702 | an input outside: the response cannot be written, the run goes on and leaves a submitted mark beside no response |
| SubmissionLimits.StoredRunSafeIff | acvp-harness/src/session.rs:99-109 | with the response written and the empty text never accepted: every crash is safe if and only if the directory looked pending |
| SubmissionLimits.ReusedDirectoryIsUnsafe | acvp-harness/src/session.rs:99-109 | an input outside: a second run over an accepted submission that dies after writing its response leaves the old verdict beside a text the server never saw |
| SubmissionLimits.ReplaysSendIff | acvp-harness/src/transport.rs:1412-1518 | every replay with a login sends a text, once, if and only if the cache holds exactly that text |
| SubmissionLimits.CrashReplaysIff | acvp-harness/src/session.rs:174-181 | after any crash of a submission replays send the computed text if and only if the crash log is past the response write and that write left all of it, or is not past it and the cache already held it |
| SubmissionLimits.CutResponseIsReplayed | acvp-harness/src/session.rs:174-181 | an input outside: a death in the middle of writing the response leaves a shorter text that a replay sends |
| KeepAlive.Connection.ReadUntil | acvp-harness/src/transport.rs:430-443 | reads up to the first occurrence of the end mark and no further |
| KeepAlive.Connection.NextChunkHead | acvp-harness/src/transport.rs:505-529 | the size on the next chunk line |
| KeepAlive.Connection.ReadChunkedBody | acvp-harness/src/transport.rs:502-546 | the data of all chunks, with the wrapping length of the buffer and the unchecked last line |
| KeepAlive.Connection.Request | acvp-harness/src/transport.rs:430-499 | status, body and position as the reading of the stream says, chunks before a length; the close mark is of this response |
| KeepAliveFraming.BlankLineIsLast | acvp-harness/src/transport.rs:430-443 | the first blank line of a response is the one behind its last header |
| KeepAliveFraming.StatusRead | acvp-harness/src/transport.rs:451-465 | the status number is read from every well-formed status line |
| KeepAliveFraming.SizedFraming | acvp-harness/src/transport.rs:467-490 | with a sized body the head announces exactly its length, written in any decimal digits |
| KeepAliveFraming.BareFraming | acvp-harness/src/transport.rs:467-490 | without either framing field the head announces nothing |
| KeepAliveFraming.ChunkedFraming | acvp-harness/src/transport.rs:467-490 | one chunked field anywhere decides for chunks |
| KeepAliveFraming.ChunksRead | acvp-harness/src/transport.rs:502-546 | chunks with any hex spelling of their sizes and any extensions read as their data |
| KeepAliveFraming.CloseScanned | acvp-harness/src/transport.rs:2109-2129 | the close mark is set exactly when a `Connection` field of this response has the token `close` |
| KeepAliveFraming.MessageRead | acvp-harness/src/transport.rs:430-499 | wherever a well-formed response stands, reading there returns its status and body and stops at its trailer fields; a response without framing fields, interim or bodiless, is an error |
| KeepAliveFraming.StreamRead | acvp-harness/src/transport.rs:430-499 | for any number of well-formed responses end to end, a request at the k-th reads exactly the k-th, and ends where the next starts if and only if it has no trailer fields |
| KeepAliveFraming.CapitalisedIsRead | acvp-harness/src/transport.rs:467-490 | a response with the names as servers write them is read, body and close mark |
| KeepAliveCuts.CutIff | acvp-harness/src/transport.rs:478-546 | a stream that ends inside a well-formed response gives its whole body if and only if the cut falls no earlier than the last byte needed, and an error otherwise |
| KeepAliveHeads.FramingIff | acvp-harness/src/transport.rs:467-490 | any head: chunks exactly when some line announces them, in any case, and the last length that some line announces |
| KeepAliveHeads.ScanIff | acvp-harness/src/transport.rs:2109-2129 | any head: the close mark exactly when a `Connection` line of its text lists `close`, in any case |
| KeepAliveHeads.ResponseOutcome | acvp-harness/src/transport.rs:430-499 | any stream with a head: which error, or which status and body |
| KeepAliveHeads.SizeLineIff | acvp-harness/src/transport.rs:505-529 | any chunk line: a size is read exactly when it is spelled in hex digits below 2^64, with blanks around it, up to a semicolon |
| KeepAliveHeads.OverflowShrinks | acvp-harness/src/transport.rs:530-540 | a size that carries the length past 2^64 cuts the buffer to what is beyond |
| Base64.PackedSextets | acvp-harness/src/transport.rs:288-311 | packing undoes the grouping of section 4 of RFC 4648 |
| Base64.PackedSnoc | acvp-harness/src/transport.rs:300-307 | one more sextet completes a byte unless it starts a group |
| Base64.TakenByte | acvp-harness/src/transport.rs:302-307 | the byte taken out of the truncated 32-bit buffer is the byte of the last two sextets |
| Base64.DecodeBase64 | acvp-harness/src/transport.rs:288-311 | the loop returns the packed sextets of the text; what the shift pushes out never matters |
| Base64.DecodeInverts | acvp-harness/src/transport.rs:288-311 | every encoding, in either alphabet or mixed, padded or not, with whitespace anywhere, decodes to its bytes |
| Base64.EncodedDecodes | acvp-harness/src/transport.rs:283-288 | the encoders of sections 4 and 5 are undone |
| Base64.SymbolIff | acvp-harness/src/transport.rs:292-299 | the value of a character is its place in one of the two alphabets of RFC 4648, written out |
| Base64.FailsIff | acvp-harness/src/transport.rs:292-302 | decoding fails exactly on a foreign character before the first `=`, and names the first one |
| Base64.DecodeIff | acvp-harness/src/transport.rs:288-311 | any text that decodes, canonical or not: the bytes hold the bits of its symbols, as one number, as many whole bytes as there are |
| Hmin.SerializeIsExact | esv-harness/src/hmin.rs:100-114 | the decimal times 256 is the step count, for every u32, with at most eight places and no trailing zero |
| Hmin.SerializeInjective | esv-harness/src/hmin.rs:100-114 | different step counts have different tokens |
| Hmin.SerializeIsNumber | esv-harness/src/hmin.rs:100-114 | the token is a number of section 6 of RFC 8259 |
| Hmin.SerializeParses | esv-harness/src/hmin.rs:100-114 | the lossless reader returns exactly that token |
| Hmin.WireTokenIff | esv-harness/src/hmin.rs:121-145 | a token is issued exactly when 0 <= steps <= 256 * bits over the integers |
| Hex.DecodeText | acvp-harness/src/hex.rs:40-54 | pairs of hex digits of either case, or the first error |
| Hex.EncodeUpperText | acvp-harness/src/hex.rs:67-75 | two upper-case digits a byte |
| Hex.DecodeEncoded | acvp-harness/src/hex.rs:40-75 | decoding an encoding gives the bytes back |
| Hex.DecodeIff | acvp-harness/src/hex.rs:40-63 | a text decodes to exactly the bytes whose digits it spells, two a byte, in either case; an odd number of bytes is its own error |
| Hex.PrintedDigits | acvp-harness/src/hex.rs:67-75 | the digits printed are the upper-case ones, high nibble first |
| Hex.DecodeFromIff | acvp-harness/src/hex.rs:40-63 | decoding succeeds exactly on hex digits and otherwise names the first byte that is none |
| Rsp.ParseText | acvp-harness/src/rsp.rs:148-226 | the document of the record file, or the error of the first offending line |
| Rsp.PendingInvariant | acvp-harness/src/rsp.rs:152-153 | after every line of every file a message is pending only under a length |
| RspFiles.ResumedIsTriples | acvp-harness/src/rsp.rs:180-217 | filling one field at a time is cutting the fields into Len, Msg, MD triples |
| RspFiles.ParseIff | acvp-harness/src/rsp.rs:148-226 | parsing succeeds exactly when headers are readable, there is one, and the fields are readable triples; the cases are those triples in order and the last header wins |
| RspFiles.SameEntriesSameDocument | acvp-harness/src/rsp.rs:157-163 | files with the same entries parse to the same document |
| RspFiles.DressedHolds | acvp-harness/src/rsp.rs:157-161 | carriage returns and whitespace around a line do not change it |
| RspFiles.RenderedParses | acvp-harness/src/rsp.rs:148-226 | any rendering of a document, with blank and comment lines, carriage returns and surrounding space anywhere, parses to it |
| RspLines.LineIff | acvp-harness/src/rsp.rs:157-180 | what any line says: nothing, a header, a field or neither, by its brackets and its first equals sign, blanks aside |
| RspLines.ErrorIff | acvp-harness/src/rsp.rs:148-226 | which error a file comes to: the fault of the first line that does not say what is due, with its number and the field expected, else an unfinished record, else no header |
| CodeOnly.Blank | scripts/check-lama-coverage.ts:749-751 | blanks a range of the array, keeps newlines, touches nothing else |
| CodeOnly.BlockCommentEnd | scripts/check-lama-coverage.ts:763-773 | the end of a block comment with its nesting |
| CodeOnly.StringClose | scripts/check-lama-coverage.ts:791-795 | the closing quote of a string with escapes, or past the end |
| CodeOnly.CodeOnlyInPlace | scripts/check-lama-coverage.ts:747-814 | the array holds the blanked source |
| CodeOnlyTheorems.OffsetsKept | scripts/check-lama-coverage.ts:739-746 | length and newline positions stay, and every change is to a space |
| CodeOnlyTheorems.NothingToBlankLeft | scripts/check-lama-coverage.ts:747-814 | no quote and no comment opener is left in any output |
| CodeOnlyTheorems.StillNoLiteral | scripts/check-lama-coverage.ts:796-810 | an apostrophe that opened no literal in the source opens none in the output |
| CodeOnlyTheorems.Idempotent | scripts/check-lama-coverage.ts:747-814 | blanking twice is blanking once, on every source, unterminated literals and comments included |
| CodeOnlyLiterals.LineComment | scripts/check-lama-coverage.ts:757-761 | a line comment is blanked up to its newline |
| CodeOnlyLiterals.BlockComment | scripts/check-lama-coverage.ts:762-775 | a block comment is blanked to its own end, however deep it nests |
| CodeOnlyLiterals.StringLiteral | scripts/check-lama-coverage.ts:791-795 | a string, byte string or C string with escapes is blanked to its closing quote |
| CodeOnlyLiterals.RawString | scripts/check-lama-coverage.ts:776-790 | a raw string with any number of hashes is blanked to its own closing |
| CodeOnlyLiterals.CharLiteral | scripts/check-lama-coverage.ts:796-810 | a character or byte literal, plain, escaped or a surrogate pair, is blanked to its closing apostrophe |
| CodeOnlyLiterals.EscapedIff | scripts/check-lama-coverage.ts:796-810 | an escaped literal is blanked exactly when at most eleven units stand between its apostrophes; a longer one stays code |
| CodeOnlyLiterals.LiteralOutput | scripts/check-lama-coverage.ts:739-746 | a blanked literal leaves its own length of spaces and newlines, and the rest is read from behind it |
| CodeOnlySources.CharCloseIff | scripts/check-lama-coverage.ts:796-810 | an apostrophe opens a literal exactly when a content of a character literal and an apostrophe follow |
| CodeOnlySources.BlanksIffOpens | scripts/check-lama-coverage.ts:747-814 | the scanner blanks from a position exactly when a comment or literal opens there |
| CodeOnlySources.LifetimeKept | scripts/check-lama-coverage.ts:796-810 | an apostrophe before a name that no apostrophe closes stays in the output |
| CodeOnlySources.PlainCodeKept | scripts/check-lama-coverage.ts:811-813 | a unit at which nothing opens stays in the output, and the rest is read from the next unit |
| CodeOnlySources.EverySourceReads | scripts/check-lama-coverage.ts:747-814 | every source reads as code units, comments and literals, the last perhaps unclosed |
| CodeOnlySources.UnclosedToEnd | scripts/check-lama-coverage.ts:747-814 | a comment or literal that is never closed is blanked to the end |
| CodeOnlySources.WholeSource | scripts/check-lama-coverage.ts:735-814 | however a source reads, the output is its code units with every comment and literal blanked |
| Certify.FirstFaultIs | esv-harness/src/certify.rs:333-352 | the fault reported is the one of the first faulty assessment |
| Certify.AssessmentsIff | esv-harness/src/certify.rs:333-352 | the assessments pass exactly when there is one, all ids and tokens are there and the ids are distinct |
| Certify.RestartFaultIff | esv-harness/src/certify.rs:377-423 | among distinct facts an assessment passes exactly when some fact about it is IID or records an upload |
| Certify.ContentIff | esv-harness/src/certify.rs:403-451 | the shared checks pass exactly on acceptable assessments, documents and facts |
| Certify.CertifyIff | esv-harness/src/certify.rs:529-553 | a full request is built exactly under these conditions and carries its arguments unchanged, limited to a single module, without a vendor id |
| Certify.AddOeIff | esv-harness/src/certify.rs:628-651 | the same for adding operating environments, with its certificate |
| Certify.ContentErrorIff | esv-harness/src/certify.rs:333-451 | the shared checks report an error if and only if it is the one of the first violation: which assessment, document or fact, and what is wrong with it |
| Certify.FirstViolation | esv-harness/src/certify.rs:529-651 | both constructors fail with an error if and only if it is the one of the first violation |
| Certify.BuiltMeansCleared | esv-harness/src/certify.rs:377-423 | no request is built around an assessment whose fact is neither IID nor uploaded |
| Certify.CountPermuted | esv-harness/src/certify.rs:428-445 | document counts do not depend on the order |
| Certify.DistinctPermuted | esv-harness/src/certify.rs:347-349 | distinctness of ids does not depend on the order |
| Certify.OrderDoesNotMatter | esv-harness/src/certify.rs:529-651 | permuting assessments, documents or facts never changes whether a request can be built |

## Left out

- BoundarySearch.GenerateBoundary: requires that the parts hold fewer than about 2^59 bytes, because beyond that the source's 64-bit counter could saturate and the loop would not end.
- KeepAlive.Connection.Request: models the reading half only; how the request bytes are put together and written is left out, and a body is returned as bytes, without the lossy UTF-8 decoding.
- KeepAliveFraming.StreamRead: a bodiless response that still announces a length, as a 304 may, is not part of the theorem; the code would take the next response for its body.
- MultipartReceiver.ReceiverRecovers: goes one way for header blocks that hold the delimiter, since a content type made of a whole part may still be recovered by coincidence; the content type is read back apart from it, in `MultipartTypes.TypeRead`.
- MultipartReceiver.SerializeInjective: is stated for part lists that the receiver recovers.
- Submission.Conclude: polling for the verdict is one answer of the world, or none.
- Submission.ProcessVectorSet: starts after the vector set was fetched and parsed; fetching, dispatching and the shape of the response body are parameters, and a POST is one call of the transport, whose own curl backend may repeat a failed one.
- Submission.ProcessWithRecovery: the URL has already given both ids, and a transcript that cannot be written counts as a failed replay.
- Submission.Resubmit: reopening, logging in and refreshing are answers of the world; the cached token is written but its use is left out.
- Poll.PollDataFile: error texts and the response preview are left out; only the error kinds stay.
- EsvSession.Session.AuthenticatedRequest: the clock is a counter that the world moves, and the one-time code is what the world hands out for each try, or nothing.
- EventLog.Log.AppendRecord: a failed open, write or sync is a crash of the run here, not an error return.
- EventLog.Log.LoadRecords: returns the parsed records; turning a record into an event and applying it to the submission state is left out, as are directory syncing and file permissions.
- CodeOnly.CodeOnlyInPlace: the searches for a newline, a raw-string closing and an apostrophe are functions here, as they are library calls in the source.
- Certify.CertifyIff: the wire body and the setters for the vendor id and the limit are left out.
- Process spawning, TLS, PKCS#11, curl, sleeping, logging and transcripts: replaced by the worlds above.
- HMAC, one-time codes and hash primitives: their crates are not part of this model.
- `Display` texts, `clip`, percent-encoding, PIN redaction, retry-hint clamping and URL splitting: single-branch code that would only add easy members.
- ACVP handlers, the module state gate, registration, preflight and the ESV submission stages: other components, not part of this model.
- The rest of the coverage script: its regular expressions, macro expansion and module resolution.
