# Client-side gadget finder: the trace-log decoder and the analysis helpers

The gadget finder drives an instrumented Chromium build over a list of websites. The engine writes
a trace log of what happened during each visit: property reads that found nothing, stores of
tainted keys, prototype pollution, sinks reached, frame locations and the start of the document.
The tool decodes that log and reports two things:

- the undefined properties seen once the page's document started loading, each with the source
  position named on the first line of its stack trace;
- the log entries that concern sinks.

This project models, in Dafny, the two parts of the tool that do not drive the browser.

**The trace-log decoder (`src/log_parser.rs`).** The log is a byte sequence held in memory.
- Bytes are skipped up to a `[`.
- The token after a `[`, up to the next ASCII whitespace byte, is the record tag. It includes the
  closing `]`, and it selects the fields that follow.
- A sized field is a decimal length token, that many raw bytes, and one discarded byte.
- Every tag and every field must be well-formed UTF-8 (section 4 of RFC 3629).
- Lengths are parsed as a 64-bit `usize`.

The model has the decoder in two forms:
- functions that say what each read produces from a position (`LogParser.ReadToken`,
  `LogParser.ReadSized`, `LogParser.ReadRecord`, `LogParser.DecodeFrom`);
- a `ByteReader` class whose methods advance one shared position byte by byte, as the source's
  iterator does, with `ParseLog` running the labelled outer loop and the inner scan loop.

Every method is proved to agree with the matching function. An encoder of the same layout
(`LogFormat`) is the decoder's partner: it is used to state the round trip and what the decoder
makes of noise, unknown tags and damaged records. `LogErrors` follows every arm's chain of `?`
reads: whichever field of a record fails first, after any number that read well, its error is
the result of the whole decode.

**The analysis helpers (`src/main.rs`).**
- `normalize_path` collapses runs of `/`, except that `//` survives directly after a `:`.
- `parse_custom_property` splits a `KEY[=VALUE]` argument at the first `=`.
- A stack-trace resolver matches the fixed pattern `[\(]?(?:https?://)?([^\s:]+):(\d+):(\d+)[\)]?`
  against the first line of a trace, with the regex engine's leftmost-first semantics.
- Two collectors build the ordered sets (`BTreeSet`) of undefined-property names and of
  `(name, stack_trace)` pairs seen after the first `DocumentStart`. An ordered set is modelled as
  a strictly ascending sequence.
- The sink filter keeps sink-related entries.
- The URL-file line filter drops blank lines and `#` comments.
- The per-pair record assembly builds `UndefinedPropertiesResult`.

Modules: `Wrappers` (Option, Result), `Utf8Codec`, `Seqs`, `Text` (Unicode whitespace, `trim`,
the `String` order), `LogParser`, `LogFormat`, `LogErrors`, `Paths`, `StackTrace`, `Cli`, `Analysis`.

Three behaviours of the code that are easy to miss:

- A sized field with fewer bytes left than its length announces is not an error. `take` returns
  the bytes that remain (`LogFormat.ReadSizedTruncated`). A record whose only field is cut short
  therefore still decodes (`LogFormat.TruncatedLocationDecodes`). A record with a second sized
  field fails instead, because that field's length token is empty
  (`LogFormat.TruncatedUndefinedPropertyFails`).
- The reported file path never includes an `http://` or `https://` prefix. Capture group 1 is
  `[^\s:]+`, so it cannot hold a `:` (`StackTrace.FindLineColumn`).
- The sink filter works on the whole message list. It does not skip to the first `DocumentStart`
  (`Analysis.RetainKeepsBeforeDocumentStart`).

## Model

| member | source | states |
|---|---|---|
| LogParser.ParseUsize | src/log_parser.rs:227 | a parsed length never exceeds 2^64−1; every failure is `IntParse`; the empty token and a bare `+` are rejected |
| LogFormat.ParseUsizeDecimal | src/log_parser.rs:227 | every decimal numeral that fits a `usize` parses back to its value, with or without a leading `+`; a larger numeral is an `IntParse` error |
| LogFormat.ParseUsizeRejectsMinus | src/log_parser.rs:227 | a length with a `-` sign is an `IntParse` error |
| LogFormat.DecimalDigits | src/log_parser.rs:227 | the numeral written for a length is a non-empty string of ASCII digits whose value is the length |
| LogParser.TokenEnd | src/log_parser.rs:212-218 | the token stops at the first ASCII whitespace byte (space, tab, line feed, form feed, carriage return) or at the end of the input, and it holds no whitespace byte |
| LogParser.TokenEndIs | src/log_parser.rs:212-218 | those two conditions determine the end of the token |
| LogParser.ReadToken | src/log_parser.rs:209-222 | `read_until_whitespace` succeeds exactly when the token's bytes are well-formed UTF-8; its only error is `Utf8`; it never moves past the end of the input |
| LogParser.TextField | src/log_parser.rs:228-233 | a byte range reads as text exactly when it is well-formed UTF-8, and the byte after it, if any, is consumed |
| LogParser.ReadSized | src/log_parser.rs:224-234 | a sized field that reads well consumes at least one byte and stays within the input |
| LogParser.ReadUndefinedProperty | src/log_parser.rs:117-127 | two sized fields give an `UndefinedProperty` carrying the source of the tag |
| LogParser.ReadAssignTaintedKey | src/log_parser.rs:129-143 | four sized fields give an `AssignTaintedKey` carrying the source of the tag |
| LogParser.ReadLocation | src/log_parser.rs:158-161 | one sized field gives a `Location` |
| LogParser.ReadPolluted | src/log_parser.rs:162-171 | three sized fields give a `Polluted` |
| LogParser.ReadFromJs | src/log_parser.rs:172-191 | the message type token yields a `DocumentStart`, a `PrototypeGet` or nothing |
| LogParser.ReadSinkReached | src/log_parser.rs:192-201 | a whitespace token and two sized fields give a `SinkReached` |
| LogParser.ReadRecord | src/log_parser.rs:145-203 | the dispatch on the tag never moves backwards or past the end of the input |
| LogParser.NextRecordStart | src/log_parser.rs:105-113 | the scan stops just after the first `[` at or after the position, and finds none exactly when no `[` is left |
| LogParser.ReadNext | src/log_parser.rs:104-203 | one turn of the outer loop ends the log exactly when no `[` is left, consuming the rest; otherwise it consumes at least the `[` |
| LogParser.DecodeFrom | src/log_parser.rs:104-206 | decoding terminates and yields at most one message per remaining byte |
| LogParser.Decode | src/log_parser.rs:96-207 | an empty log decodes to no messages, and no log yields more messages than it has bytes; the round trip and the error results are stated by the `LogFormat` and `LogErrors` lemmas below |
| LogParser.DecodeFromNext | src/log_parser.rs:104-204 | what one turn of the loop contributes: its error ends the decode, the end of the records gives no message, otherwise its message comes ahead of the rest |
| LogParser.ByteReader.constructor | src/log_parser.rs:102 | the reader starts at the first byte of the input |
| LogParser.ByteReader.Next | src/log_parser.rs:106-113 | `next` yields the byte at the position and advances by one, or yields nothing at the end |
| LogParser.ByteReader.ReadUntilWhitespace | src/log_parser.rs:209-222 | the byte-by-byte `take_while` returns and consumes what `ReadToken` says, the whitespace byte included |
| LogParser.ByteReader.Take | src/log_parser.rs:228 | `take(n)` returns the next `n` bytes, or all that remain when fewer are left |
| LogParser.ByteReader.ReadSizedString | src/log_parser.rs:224-234 | returns and consumes what `ReadSized` says |
| LogParser.ByteReader.ReadText | src/log_parser.rs:228-233 | the part of `read_sized_string` after the length: the bytes, the discarded byte and the UTF-8 check |
| LogParser.ByteReader.HandleUndefinedProperty | src/log_parser.rs:117-127 | the `handle_undefined_property!` arm agrees with `ReadUndefinedProperty` |
| LogParser.ByteReader.HandleAssignTaintedKey | src/log_parser.rs:129-143 | the `handle_assign_tainted_key!` arm agrees with `ReadAssignTaintedKey` |
| LogParser.ByteReader.HandleLocation | src/log_parser.rs:158-161 | the `LogFrameLocation]` arm agrees with `ReadLocation` |
| LogParser.ByteReader.HandlePolluted | src/log_parser.rs:162-171 | the `Runtime::SetObjectProperty_PROTOTYPE]` arm agrees with `ReadPolluted` |
| LogParser.ByteReader.HandleFromJs | src/log_parser.rs:172-191 | the `From_JS]` arm with its inner match agrees with `ReadFromJs` |
| LogParser.ByteReader.HandleSinkReached | src/log_parser.rs:192-201 | the `LogIfStringTainted]` arm agrees with `ReadSinkReached` |
| LogParser.ByteReader.HandleRecord | src/log_parser.rs:145-203 | the `match name.as_str()` agrees with `ReadRecord` |
| LogParser.ByteReader.ReadNextRecord | src/log_parser.rs:104-203 | one turn of the outer loop, the inner scan included, agrees with `ReadNext` |
| LogParser.ParseLog | src/log_parser.rs:96-207 | the imperative `parse_log` returns exactly what `Decode` says |
| Utf8Codec.Decode | src/log_parser.rs:221 | `String::from_utf8` succeeds exactly on well-formed UTF-8 and yields no more characters than bytes |
| Utf8Codec.DecodeEncode | src/log_parser.rs:233 | decoding the UTF-8 encoding of any text gives the text back |
| Utf8Codec.EncodeDecode | src/log_parser.rs:221-233 | `String::from_utf8` loses nothing: the text decoded from well-formed bytes encodes back to exactly those bytes |
| LogFormat.ReadTokenAt | src/log_parser.rs:209-222 | a token followed by a space reads back as its text and consumes the text and the space |
| LogFormat.ReadSizedAt | src/log_parser.rs:224-234 | the sized-string round trip: the length, a space, the bytes of `s` and any byte `b` read back as exactly `s`, spaces, line feeds and `[` included, and consume exactly those bytes |
| LogFormat.ReadSizedBadLength | src/log_parser.rs:227 | a length token that `usize::from_str` rejects fails the field with `IntParse` |
| LogFormat.ReadSizedBadText | src/log_parser.rs:233 | field bytes that are not well-formed UTF-8 fail the field with `Utf8` |
| LogFormat.ReadSizedShortOk | src/log_parser.rs:228-233 | with fewer bytes left than announced, the field is the text of the bytes that remain and the input is used up |
| LogFormat.ReadSizedTruncated | src/log_parser.rs:228-231 | a field cut short by the end of the input is not an error |
| LogFormat.ReadSizedAtEnd | src/log_parser.rs:227 | a sized field that starts at the end of the input fails with `IntParse`, because its length token is empty |
| LogFormat.DispatchUndefinedProperty | src/log_parser.rs:146-151 | `LoadIC::Load_NOT_FOUND]` and `Runtime::GetObjectProperty_NOT_FOUND]` run the undefined-property handler, with source `InlineCache` and `RuntimeObject` |
| LogFormat.DispatchAssignTaintedKey | src/log_parser.rs:152-157 | `StoreIC::Store]` and `Runtime::SetObjectProperty_TAINTED]` run the tainted-key handler, with source `InlineCache` and `RuntimeObject` |
| LogFormat.DispatchLocation | src/log_parser.rs:158-161 | `LogFrameLocation]` runs the location handler |
| LogFormat.DispatchPolluted | src/log_parser.rs:162-171 | `Runtime::SetObjectProperty_PROTOTYPE]` runs the pollution handler |
| LogFormat.DispatchFromJs | src/log_parser.rs:172-191 | `From_JS]` reads a message type |
| LogFormat.DispatchSinkReached | src/log_parser.rs:192-201 | `LogIfStringTainted]` runs the sink handler |
| LogFormat.DispatchUnknown | src/log_parser.rs:202 | any other tag reads nothing and yields nothing |
| LogFormat.ReadUndefinedPropertyAt | src/log_parser.rs:117-127 | the two fields of an undefined-property record read back as the message |
| LogFormat.ReadAssignTaintedKeyAt | src/log_parser.rs:129-143 | the four fields of a tainted-key record read back as the message |
| LogFormat.ReadLocationAt | src/log_parser.rs:158-161 | the field of a location record reads back as the message |
| LogFormat.ReadPollutedAt | src/log_parser.rs:162-171 | the three fields of a pollution record read back as the message |
| LogFormat.ReadPrototypeGetAt | src/log_parser.rs:178-187 | `PROTOTYPE_GET` and three fields read back as a `PrototypeGet` |
| LogFormat.ReadDocumentStartAt | src/log_parser.rs:175-177 | `From_JS] DOCUMENT_LOAD` yields `DocumentStart` and reads no fields |
| LogFormat.ReadSinkReachedAt | src/log_parser.rs:192-201 | the sink type token and two sized fields read back as a `SinkReached` |
| LogFormat.ReadRecordAt | src/log_parser.rs:145-201 | the tag-to-message mapping: the fields after a message's tag, read under that tag, give back exactly that message |
| LogFormat.TagIsToken | src/log_parser.rs:145-192 | every record tag is a single token, so `read_until_whitespace` reads it whole |
| LogFormat.ReadNextAt | src/log_parser.rs:104-203 | an encoded record, read from its `[`, yields its message and ends where the record ends |
| LogFormat.DecodeStep | src/log_parser.rs:104-204 | one encoded record contributes exactly its message, ahead of whatever follows |
| LogFormat.DecodeFromEncoded | src/log_parser.rs:100-204 | messages are only appended, in input order, one per record, ahead of whatever the rest of the input decodes to, an error included |
| LogFormat.DecodeEncodeLog | src/log_parser.rs:96-207 | the round trip: any log of encodable messages decodes to exactly those messages |
| LogFormat.DecodeFailsAfterPrefix | src/log_parser.rs:115-206 | the first error after any run of good records is the result of the whole decode: there is no partial log |
| LogFormat.DecodeWithoutRecords | src/log_parser.rs:104-113 | input without a `[` byte decodes to an empty log |
| LogFormat.NextRecordStartSkips | src/log_parser.rs:105-113 | the scan passes over bytes other than `[` |
| LogFormat.DecodeSkipsNoise | src/log_parser.rs:105-113 | bytes before a `[` change nothing in the decode |
| LogFormat.UnknownTagSkipped | src/log_parser.rs:202 | an unknown tag emits nothing and consumes only its token; scanning resumes right after it |
| LogFormat.FromJsUnknownOk | src/log_parser.rs:188 | a message type other than `DOCUMENT_LOAD` and `PROTOTYPE_GET` reads nothing more and yields nothing |
| LogFormat.UnknownFromJsSkipped | src/log_parser.rs:172-191 | such a `From_JS]` record emits nothing and consumes only its two tokens |
| LogFormat.BadLengthFails | src/log_parser.rs:119-227 | a record whose first length token does not parse as a `usize` fails the whole decode with `IntParse` |
| LogFormat.BadTagFails | src/log_parser.rs:115-221 | a tag that is not well-formed UTF-8 fails the whole decode with `Utf8` |
| LogFormat.BadTokenAt | src/log_parser.rs:209-222 | a token whose bytes are not well-formed UTF-8 fails to read |
| LogFormat.BadFieldFails | src/log_parser.rs:119-233 | a first field that is not well-formed UTF-8 fails the whole decode with `Utf8` |
| LogFormat.FirstFieldFails | src/log_parser.rs:145-171 | a record whose schema starts with a sized field fails with that field's error |
| LogFormat.TruncatedLocationDecodes | src/log_parser.rs:158-161 | a `LogFrameLocation]` record cut short at the end of the input decodes to the bytes that remain |
| LogFormat.SecondFieldFails | src/log_parser.rs:119-120 | when the first field of an undefined-property record uses up the input, the second fails with `IntParse` |
| LogFormat.TruncatedUndefinedPropertyFails | src/log_parser.rs:117-127 | a record with two sized fields whose first one is cut short fails the decode with `IntParse` |
| LogErrors.ReadFields | src/log_parser.rs:119-120 | `n` fields read one after the other with `?` give exactly `n` texts, or the first field's error |
| LogErrors.FieldsStopAt | src/log_parser.rs:119-201 | after `k` fields that read well, a field that fails ends any longer run of fields with its error |
| LogErrors.ReadFieldsAt | src/log_parser.rs:224-234 | encoded fields that fit a `usize` read back, one after the other, as exactly those texts, and end where their encoding ends |
| LogErrors.UndefinedPropertyFieldFails | src/log_parser.rs:117-127 | either field of `handle_undefined_property!`, the first or the one after a good first, fails the arm with its own error |
| LogErrors.AssignTaintedKeyFieldFails | src/log_parser.rs:129-143 | any of the four fields of `handle_assign_tainted_key!`, after the good ones before it, fails the arm with its own error |
| LogErrors.LocationFieldFails | src/log_parser.rs:158-161 | the field of a location record fails the arm with its error |
| LogErrors.PollutedFieldFails | src/log_parser.rs:162-171 | any of the three fields of a pollution record, after the good ones before it, fails the arm with its own error |
| LogErrors.PrototypeGetFieldFails | src/log_parser.rs:172-187 | after `From_JS] PROTOTYPE_GET`, any of the three fields, after the good ones before it, fails the record with its own error |
| LogErrors.SinkReachedFieldFails | src/log_parser.rs:192-201 | after `LogIfStringTainted]` and its sink type, either field fails the record with its own error |
| LogErrors.RecordFieldFails | src/log_parser.rs:145-171 | for every tag whose arm starts with a sized field, the first field that fails, whichever it is, fails the record with that field's error |
| LogErrors.TypeTokenFails | src/log_parser.rs:173-193 | a message-type or sink-type token that does not read fails its `From_JS]` or `LogIfStringTainted]` record with `Utf8` |
| LogErrors.RecordFails | src/log_parser.rs:115-206 | a record that fails after its tag fails the whole decode with the same error |
| LogErrors.SizedRecordFieldFails | src/log_parser.rs:115-206 | in an encoded sized-field record, the first field that fails, after any good ones, is the result of the whole decode |
| LogErrors.PrototypeGetRecordFieldFails | src/log_parser.rs:172-206 | the same for the fields of an encoded `From_JS] PROTOTYPE_GET` record |
| LogErrors.SinkReachedRecordFieldFails | src/log_parser.rs:192-206 | the same for the fields of an encoded `LogIfStringTainted]` record |
| LogErrors.BadTypeTokenFails | src/log_parser.rs:173-221 | a message type or sink type that is not well-formed UTF-8 fails the whole decode with `Utf8` |
| LogErrors.BadLengthAt | src/log_parser.rs:227 | a length token that `usize::from_str` rejects fails its field with `IntParse` |
| LogErrors.BadTextAt | src/log_parser.rs:228-233 | field bytes that are not well-formed UTF-8 fail their field with `Utf8` |
| LogErrors.LaterLengthFails | src/log_parser.rs:117-227 | a bad length token in any field of a sized-field record, after good fields, fails the whole decode with `IntParse` |
| LogErrors.LaterTextFails | src/log_parser.rs:117-233 | ill-formed bytes in any field of a sized-field record, after good fields, fail the whole decode with `Utf8` |
| Cli.SplitOnce | src/main.rs:110 | `split_once` finds no split exactly when the separator is absent; otherwise the parts rejoin to the input around the first separator |
| Cli.ParseCustomProperty | src/main.rs:109-115 | never an error; `(s, None)` without `=`; otherwise the key has no `=` and key, `=` and value rejoin to the argument |
| Cli.BlankLineSkipped | src/main.rs:130 | a blank line is never visited |
| Cli.UrlLineAt | src/main.rs:130-131 | a line with a non-blank character is visited exactly when its first non-blank character is not `#` |
| Cli.UrlLines | src/main.rs:127-132 | a line is visited exactly when it is in the file and passes both filters, and no more lines are visited than the file has |
| Cli.UrlLinesInOrder | src/main.rs:127-132 | the visited lines are the subsequence of the file's lines at exactly the positions of the lines that pass both filters |
| Text.TrimStart | src/main.rs:131 | `trim_start` returns the suffix after a blank prefix; that suffix is empty or starts with a non-whitespace character |
| Text.TrimEnd | src/main.rs:130 | `trim_end` returns the prefix before a blank suffix; that prefix is empty or ends in a non-whitespace character |
| Text.TrimEmpty | src/main.rs:130 | a line trims to nothing exactly when it is blank |
| Text.TrimStartAt | src/main.rs:131 | `trim_start` drops exactly the whitespace before the first non-whitespace character |
| Text.StringLessIsStrictTotalOrder | src/main.rs:287-302 | the `String` order a `BTreeSet<String>` iterates in is a strict total order |
| Text.PairLessIsStrictTotalOrder | src/main.rs:304-320 | so is the order of `(String, String)` pairs |
| Seqs.Insert | src/main.rs:297 | `BTreeSet::insert` adds the element and nothing else, and keeps every element already there |
| Seqs.InsertSorted | src/main.rs:315 | insertion keeps an ordered set ascending and free of duplicates |
| Seqs.SortedUnique | src/main.rs:287-320 | an ordered set is determined by its elements |
| Seqs.FilterIndices | src/main.rs:340-351 | the positions of the kept elements, in increasing order, with every accepted position among them |
| Seqs.FilterAtIndices | src/main.rs:340-351 | `filter`/`collect` keeps exactly the elements at the accepted positions, in order |
| Seqs.FilterMembership | src/main.rs:340-351 | an element is kept exactly when it occurs and is accepted |
| Seqs.FilterAppend | src/main.rs:340-351 | filtering treats each element on its own |
| Seqs.Map | src/main.rs:216-239 | one output per input, in order |
| Paths.NormalizePath | src/main.rs:251-271 | the imperative `while let` loop over the peekable iterator returns exactly `Normalized(path)` |
| Paths.Normalized | src/main.rs:251-271 | the output is no longer than the input |
| Paths.PrefixColonSlash | src/main.rs:262 | the output so far ends in `:/` exactly when the input read so far does |
| Paths.PrefixLast | src/main.rs:255-266 | the output so far ends in the last character read |
| Paths.OnlySlashesRemoved | src/main.rs:251-271 | deleting every `/` from the input and from the output gives the same string |
| Paths.PrefixIsNormal | src/main.rs:255-268 | every output has no `//` except directly after `:`, and no `///` |
| Paths.NormalFixed | src/main.rs:251-271 | a path of that shape is its own normalization |
| Paths.NormalizeIdempotent | src/main.rs:251-271 | normalizing twice is normalizing once |
| Paths.NormalizeRun | src/main.rs:255-268 | a maximal run of `/` becomes one `/`, or exactly `//` when it has two or more slashes and directly follows `:`; the text around it is normalized on its own |
| Paths.NormalizeExamples | src/main.rs:259-262 | `a//b` becomes `a/b` and `http:///x` becomes `http://x` |
| StackTrace.Head | src/main.rs:274-275 | the first line is the prefix before the first line feed |
| StackTrace.PathEnd | src/main.rs:276 | the greedy run of `[^\s:]` stops at the first whitespace character or `:` |
| StackTrace.DigitEnd | src/main.rs:276 | the greedy run of `\d` stops at the first non-digit |
| StackTrace.CapturesDescribes | src/main.rs:276-281 | what the captures return at a start position is read off an occurrence of `path:digits:digits`, with a non-empty path free of `:` and whitespace |
| StackTrace.FirstCapturesFinds | src/main.rs:276 | when any alternative at a start position matches, the match at that position succeeds |
| StackTrace.FirstSomeFinds | src/main.rs:277 | a match at any start position makes the leftmost search succeed |
| StackTrace.FirstSomeIsFirst | src/main.rs:277 | the leftmost search returns the match at a start position before which no position has a match |
| StackTrace.Matches | src/main.rs:277 | the search considers every start position, the end of the line included |
| StackTrace.MatchesDescribe | src/main.rs:277-281 | the first match from any start position on is read off an occurrence of the pattern |
| StackTrace.Search | src/main.rs:277-281 | whatever `captures` returns is read off an occurrence of the pattern, with a path free of `:` and whitespace |
| StackTrace.SearchLeftmost | src/main.rs:277 | `captures` returns the match at a start position before which no position has a match |
| StackTrace.MatchAtOccurrence | src/main.rs:276 | an occurrence of `path:digits:digits` gives a match at the start of its path |
| StackTrace.OccurrencesNotBefore | src/main.rs:276-277 | where no position before `i` has a match, no occurrence has its path start before `i` |
| StackTrace.SearchFinds | src/main.rs:277 | any occurrence of the pattern makes the search succeed |
| StackTrace.FindLineColumnSucceeds | src/main.rs:273-285 | the resolver succeeds exactly when the first line contains a non-empty run of characters other than `:` and whitespace followed by `:digits:digits` |
| StackTrace.FindLineColumn | src/main.rs:273-285 | the returned path, line and column are read off an occurrence of the pattern in the first line, and the path contains no `:` and no whitespace |
| StackTrace.FindLineColumnLeftmost | src/main.rs:273-285 | the returned position is the leftmost match in the first line: no occurrence there has its path start earlier |
| StackTrace.OnlyFirstLine | src/main.rs:274-275 | only the text before the first line feed is examined |
| Analysis.AfterDocumentStart | src/main.rs:309 | `skip_while` keeps the suffix that starts at the first `DocumentStart` and drops only messages that are not `DocumentStart` |
| Analysis.SkipToDocumentStart | src/main.rs:306-310 | the scan stops at the first `DocumentStart` and leaves exactly that suffix |
| Analysis.IgnoresBeforeDocumentStart | src/main.rs:304-310 | without a `DocumentStart` nothing is left; otherwise exactly what precedes the first one is dropped |
| Analysis.AddPair | src/main.rs:311-316 | one step of the pair loop keeps the set ascending and its contents exactly the pairs read so far |
| Analysis.AddName | src/main.rs:296-298 | one step of the name loop keeps the set ascending and its contents exactly the names read so far |
| Analysis.InsertUndefinedPairs | src/main.rs:305-317 | the insertion loop yields an ascending, duplicate-free set holding exactly the undefined-property pairs of its messages |
| Analysis.InsertUndefinedNames | src/main.rs:290-299 | the same for the names |
| Analysis.GetAllUndefinedPropertiesAndStackTraces | src/main.rs:304-320 | exactly the `(name, stack_trace)` pairs of `UndefinedProperty` messages at or after the first `DocumentStart`, ascending and without duplicates |
| Analysis.GetAllUndefinedProperties | src/main.rs:287-302 | exactly the names of those messages, ascending and without duplicates |
| Analysis.NamesAreFirstComponents | src/main.rs:287-320 | the name set is the set of first components of the pair set |
| Analysis.RetainSinkRelatedLogEntries | src/main.rs:340-351 | an entry is retained exactly when it is in the log and is sink-related; nothing is added |
| Analysis.RetainedInOrder | src/main.rs:340-351 | the retained entries are the subsequence of the whole log at exactly the positions of `SinkReached` and of `AssignTaintedKey` outside `Object`, `Array` and `Function` |
| Analysis.RetainKeepsBeforeDocumentStart | src/main.rs:340-351 | entries before a `DocumentStart` are kept as well |
| Analysis.LocationOf | src/main.rs:218-232 | the location is `None` exactly when the resolver fails; otherwise it holds the resolver's line and column and its path normalized |
| Analysis.ResolveLocation | src/main.rs:218-232 | the `match` of one loop turn, with `normalize_path`, gives exactly `LocationOf` |
| Analysis.KeysOfRecords | src/main.rs:216-239 | one record per pair, in pair order: dropping the locations gives the pairs back |
| Analysis.LocationsOfRecords | src/main.rs:218-238 | every record's location is the one resolved from its own stack trace |
| Analysis.AssembleUndefinedProperties | src/main.rs:213-246 | the assembly loop pushes one record per pair, in order, and `count` is the number of pairs |
| Analysis.FindWebsiteUndefinedProperties | src/main.rs:209-249 | one record per distinct `(name, stack_trace)` pair seen after the first `DocumentStart`, in ascending pair order, each located from its own stack trace, with `count` equal to the number of records |

## Left out

- `src/crawler.rs` is not part of this model. It covers launching the browser, the background loop that drains its events, page calls, timeouts and the generated polluting script (`gen_polluting_script`). All of this is browser I/O, concurrency and JSON encoding. `Crawler::visit_url` becomes the log passed to `Analysis.FindWebsiteUndefinedProperties`.
- Command-line parsing, the executable lookup, the temporary directory, the output file, `serde_json` and `tracing` in `main` and `run_action` are library glue and are left out.
- The URL file is taken as its sequence of lines. Splitting it with `lines()` and stopping at the first read error (`map_while(Result::ok)`) is I/O.
- `File::open` and the `Io` variant of `LogError`: the log is a byte sequence already in memory. So the quirk that `take_while` treats an I/O error byte as a token end is not modelled.
- `LogParser.ParseUsize`: `usize` is taken to be 64 bits wide.
- `StackTrace.FindLineColumn`: `\d` is restricted to ASCII digits. Line and column are unbounded naturals, so the `parse().unwrap()` panics on non-ASCII digits or on overflow are left out.
- `StackTrace.FindLineColumn`: the regex is modelled only for this one pattern, not as general regex.
- `Text.StringLess`: `String` ordering is modelled as code-point order. That it agrees with the byte order of the UTF-8 encoding, which Rust actually compares, is not proved.
- `Analysis.RetainSinkRelatedLogEntries` returns copies of the messages, not references into the log (`Vec<&LogMessage>`). Which references alias which entry is therefore not captured, only their order and values.
- `LogFormat.DecodeEncodeLog` covers only messages the layout can carry: every sized field fits a `usize`, and the sink type is a single token without ASCII whitespace. A sink type with a space cannot be written in a form the decoder reads back.
