/**
 * The byte layout that the decoder of src/log_parser.rs reads, written out as an encoder, and
 * what the decoder makes of encoded records, of noise between them and of damaged records.
 *
 * A token is text followed by one space; a sized field is its byte length in decimal as a token,
 * the bytes, and one separator byte; a record is `[`, its tag as a token and the fields of the
 * tag's schema.
 */
module LogFormat {
  import opened Wrappers
  import Utf8Codec
  import opened LogParser

  /** The ASCII digit of a value below ten. */
  function DigitChar(v: nat): (c: char)
    requires v < 10
    ensures IsAsciiDigit(c) && DigitValue(c) == v
  {
    ('0' as int + v) as char
  }

  /** The decimal numeral of `n`, without sign or leading zeros. */
  function DecimalDigits(n: nat): (d: string)
    ensures |d| > 0
    ensures AllDigits(d)
    ensures DigitsValue(d) == n
    decreases n
  {
    if n < 10 then [DigitChar(n)]
    else
      var d := DecimalDigits(n / 10) + [DigitChar(n % 10)];
      assert d[..|d| - 1] == DecimalDigits(n / 10);
      d
  }

  /** `usize::from_str` reads back every numeral that fits, with or without a `+`, and rejects the rest. */
  lemma ParseUsizeDecimal(n: nat)
    ensures n <= USIZE_MAX ==> ParseUsize(DecimalDigits(n)) == Ok(n)
    ensures n <= USIZE_MAX ==> ParseUsize("+" + DecimalDigits(n)) == Ok(n)
    ensures n > USIZE_MAX ==> ParseUsize(DecimalDigits(n)) == Err(IntParse)
  {
    var d := DecimalDigits(n);
    assert d[0] != '+';
    assert ("+" + d)[1..] == d;
  }

  lemma ParseDecimal(n: nat)
    requires n <= USIZE_MAX
    ensures ParseUsize(DecimalDigits(n)) == Ok(n)
  {
    ParseUsizeDecimal(n);
  }

  /** A sign other than `+` is not accepted. */
  lemma ParseUsizeRejectsMinus(d: string)
    ensures ParseUsize("-" + d) == Err(IntParse)
  {
    var s := "-" + d;
    assert s[0] == '-' && s[0] != '+';
    assert !IsAsciiDigit(s[0]);
  }

  /** The characters whose UTF-8 encoding is an ASCII whitespace byte. */
  predicate IsAsciiWhitespaceChar(c: char) {
    c as int < 0x80 && IsAsciiWhitespace(c as int)
  }

  /** Text with no ASCII whitespace character: it survives as one token. */
  predicate IsToken(t: string) {
    forall c | c in t :: !IsAsciiWhitespaceChar(c)
  }

  /** The encoding of a token holds no ASCII whitespace byte. */
  lemma TokenBytes(t: string)
    requires IsToken(t)
    ensures forall k :: 0 <= k < |Utf8Codec.Encode(t)| ==> !IsAsciiWhitespace(Utf8Codec.Encode(t)[k])
  {
    forall k | 0 <= k < |Utf8Codec.Encode(t)|
      ensures !IsAsciiWhitespace(Utf8Codec.Encode(t)[k])
    {
      if Utf8Codec.Encode(t)[k] < 0x80 {
        Utf8Codec.AsciiOctetInEncoding(t, k);
      }
    }
  }

  /** Text whose every character lies above the space character is a token. */
  lemma AboveSpaceIsToken(t: string)
    requires forall k :: 0 <= k < |t| ==> t[k] as int > 0x20
    ensures IsToken(t)
  {
    forall c | c in t
      ensures !IsAsciiWhitespaceChar(c)
    {
      var k :| 0 <= k < |t| && t[k] == c;
    }
  }

  lemma DigitsAreToken(d: string)
    requires AllDigits(d)
    ensures IsToken(d)
  {
  }

  /** `f` occurs in `input` at `pos`. */
  predicate At(input: seq<byte>, pos: nat, f: seq<byte>) {
    pos + |f| <= |input| && input[pos..pos + |f|] == f
  }

  /** The bytes of an occurrence, as a slice ending at `end`. */
  lemma AtSlice(input: seq<byte>, pos: nat, f: seq<byte>, end: nat)
    requires At(input, pos, f) && end == pos + |f|
    ensures end <= |input| && input[pos..end] == f
  {
  }

  /** The two halves of an occurrence, the second one starting at `mid`. */
  lemma AtSplit(input: seq<byte>, pos: nat, a: seq<byte>, b: seq<byte>, mid: nat)
    requires At(input, pos, a + b) && mid == pos + |a|
    ensures At(input, pos, a) && At(input, mid, b)
  {
    assert input[pos..mid] == (a + b)[..|a|];
    assert input[mid..mid + |b|] == (a + b)[|a|..];
  }

  /** A token: the text and one space. */
  function EncodeToken(t: string): seq<byte> {
    Utf8Codec.Encode(t) + [SPACE]
  }

  /** A sized field with an arbitrary separator byte `b`. */
  function SizedField(s: string, b: byte): seq<byte> {
    EncodeToken(DecimalDigits(|Utf8Codec.Encode(s)|)) + (Utf8Codec.Encode(s) + [b])
  }

  /** A sized field as the engine writes it: separated by a space. */
  function EncodeField(s: string): seq<byte> {
    SizedField(s, SPACE)
  }

  /** A field whose byte length a `usize` can hold. */
  predicate Fits(s: string) {
    |Utf8Codec.Encode(s)| <= USIZE_MAX
  }

  /** A token reads back as its text and consumes the text and the space after it. */
  lemma ReadTokenAt(input: seq<byte>, pos: nat, t: string, rest: seq<byte>, next: nat)
    requires IsToken(t) && At(input, pos, EncodeToken(t) + rest) && next == pos + |EncodeToken(t)|
    ensures ReadToken(input, pos) == Ok(Parsed(t, next))
    ensures At(input, next, rest)
  {
    var e := Utf8Codec.Encode(t);
    var end := pos + |e|;
    assert EncodeToken(t) + rest == e + ([SPACE] + rest);
    AtSplit(input, pos, e, [SPACE] + rest, end);
    AtSplit(input, end, [SPACE], rest, next);
    TokenBytes(t);
    assert forall k :: pos <= k < end ==> input[k] == input[pos..end][k - pos];
    assert input[end] == input[end..end + 1][0];
    TokenEndIs(input, pos, end);
    assert input[pos..end] == e;
    Utf8Codec.DecodeEncode(t);
    ReadTokenOk(input, pos, end, t, next);
  }

  /** The length token of a sized field reads back as the field's byte length. */
  lemma ReadLengthAt(input: seq<byte>, pos: nat, n: nat, d: string, rest: seq<byte>, next: nat)
    requires n <= USIZE_MAX && d == DecimalDigits(n)
    requires At(input, pos, EncodeToken(d) + rest) && next == pos + |EncodeToken(d)|
    ensures ReadToken(input, pos) == Ok(Parsed(d, next))
    ensures ParseUsize(d) == Ok(n)
    ensures At(input, next, rest)
  {
    DigitsAreToken(d);
    ReadTokenAt(input, pos, d, rest, next);
    ParseDecimal(n);
  }

  /** The encoded bytes of a text, wherever they occur, decode to the text. */
  lemma DecodeAt(input: seq<byte>, pos: nat, s: string, rest: seq<byte>, end: nat)
    requires At(input, pos, Utf8Codec.Encode(s) + rest) && end == pos + |Utf8Codec.Encode(s)|
    ensures end + |rest| <= |input|
    ensures Utf8Codec.Decode(input[pos..end]) == Some(s)
    ensures At(input, end, rest)
  {
    var e := Utf8Codec.Encode(s);
    AtSplit(input, pos, e, rest, end);
    assert input[pos..end] == e;
    Utf8Codec.DecodeEncode(s);
  }

  /**
   * The sized-string round trip: the length, a space, the bytes of `s` and any byte `b` read back
   * as exactly `s`, whatever `s` holds (spaces, newlines and `[` included), and consume exactly
   * the numeral, the space, the bytes of `s` and `b`.
   */
  lemma ReadSizedAt(input: seq<byte>, pos: nat, s: string, b: byte, rest: seq<byte>, next: nat)
    requires Fits(s) && At(input, pos, SizedField(s, b) + rest) && next == pos + |SizedField(s, b)|
    ensures ReadSized(input, pos) == Ok(Parsed(s, next))
    ensures At(input, next, rest)
  {
    var e := Utf8Codec.Encode(s);
    var d := DecimalDigits(|e|);
    assert SizedField(s, b) + rest == EncodeToken(d) + (e + ([b] + rest));
    var start := pos + |EncodeToken(d)|;
    ReadLengthAt(input, pos, |e|, d, e + ([b] + rest), start);
    var end := start + |e|;
    DecodeAt(input, start, s, [b] + rest, end);
    AtSplit(input, end, [b], rest, next);
    ReadSizedOk(input, pos, d, start, |e|, end, s, next);
  }

  /** The field of a record tag that the decoder reads first is a sized one. */
  predicate StartsWithSizedField(tag: string) {
    tag == TAG_LOAD_IC || tag == TAG_GET_OBJECT_PROPERTY || tag == TAG_STORE_IC
    || tag == TAG_SET_OBJECT_PROPERTY_TAINTED || tag == TAG_FRAME_LOCATION
    || tag == TAG_SET_OBJECT_PROPERTY_PROTOTYPE
  }

  /** None of the tags the decoder knows. */
  predicate IsUnknownTag(tag: string) {
    !StartsWithSizedField(tag) && tag != TAG_FROM_JS && tag != TAG_STRING_TAINTED
  }

  /** The record tag the engine writes for a message. */
  function RecordTag(m: LogMessage): string {
    match m
    case UndefinedProperty(_, source, _) => if source == InlineCache then TAG_LOAD_IC else TAG_GET_OBJECT_PROPERTY
    case AssignTaintedKey(_, _, _, source, _) => if source == InlineCache then TAG_STORE_IC else TAG_SET_OBJECT_PROPERTY_TAINTED
    case Location(_) => TAG_FRAME_LOCATION
    case Polluted(_, _, _) => TAG_SET_OBJECT_PROPERTY_PROTOTYPE
    case PrototypeGet(_, _, _) => TAG_FROM_JS
    case SinkReached(_, _, _) => TAG_STRING_TAINTED
    case DocumentStart => TAG_FROM_JS
  }

  /** What follows the tag token of a message's record. */
  function EncodeFields(m: LogMessage): seq<byte> {
    match m
    case UndefinedProperty(name, _, stackTrace) => EncodeField(name) + EncodeField(stackTrace)
    case AssignTaintedKey(className, key, value, _, stackTrace) =>
      EncodeField(className) + (EncodeField(key) + (EncodeField(value) + EncodeField(stackTrace)))
    case Location(url) => EncodeField(url)
    case Polluted(key, value, stackTrace) => EncodeField(key) + (EncodeField(value) + EncodeField(stackTrace))
    case PrototypeGet(key, value, stackTrace) =>
      EncodeToken(MSG_PROTOTYPE_GET) + (EncodeField(key) + (EncodeField(value) + EncodeField(stackTrace)))
    case SinkReached(sinkType, value, stackTrace) => EncodeToken(sinkType) + (EncodeField(value) + EncodeField(stackTrace))
    case DocumentStart => EncodeToken(MSG_DOCUMENT_LOAD)
  }

  /** A whole record: `[`, the tag token and the fields. */
  function EncodeMessage(m: LogMessage): seq<byte> {
    [OPEN_BRACKET] + (EncodeToken(RecordTag(m)) + EncodeFields(m))
  }

  /** A log: the records of its messages, one after another. */
  function EncodeLog(messages: seq<LogMessage>): seq<byte> {
    if messages == [] then [] else EncodeMessage(messages[0]) + EncodeLog(messages[1..])
  }

  /** What the layout can carry: every sized field fits, and the sink type is a single token. */
  predicate Encodable(m: LogMessage) {
    match m
    case UndefinedProperty(name, _, stackTrace) => Fits(name) && Fits(stackTrace)
    case AssignTaintedKey(className, key, value, _, stackTrace) => Fits(className) && Fits(key) && Fits(value) && Fits(stackTrace)
    case Location(url) => Fits(url)
    case Polluted(key, value, stackTrace) => Fits(key) && Fits(value) && Fits(stackTrace)
    case PrototypeGet(key, value, stackTrace) => Fits(key) && Fits(value) && Fits(stackTrace)
    case SinkReached(sinkType, value, stackTrace) => IsToken(sinkType) && Fits(value) && Fits(stackTrace)
    case DocumentStart => true
  }

  // Each handler reads its fields one after the other.

  lemma UndefinedPropertyOk(input: seq<byte>, pos: nat, source: PropertySource, name: string, p1: nat, stackTrace: string, next: nat)
    requires pos <= |input| && ReadSized(input, pos) == Ok(Parsed(name, p1))
    requires p1 <= |input| && ReadSized(input, p1) == Ok(Parsed(stackTrace, next))
    ensures ReadUndefinedProperty(input, pos, source) == Ok(Parsed(UndefinedProperty(name, source, stackTrace), next))
  {
  }

  lemma AssignTaintedKeyOk(input: seq<byte>, pos: nat, source: PropertySource, className: string, p1: nat,
                           key: string, p2: nat, value: string, p3: nat, stackTrace: string, next: nat)
    requires pos <= |input| && ReadSized(input, pos) == Ok(Parsed(className, p1))
    requires p1 <= |input| && ReadSized(input, p1) == Ok(Parsed(key, p2))
    requires p2 <= |input| && ReadSized(input, p2) == Ok(Parsed(value, p3))
    requires p3 <= |input| && ReadSized(input, p3) == Ok(Parsed(stackTrace, next))
    ensures ReadAssignTaintedKey(input, pos, source) == Ok(Parsed(AssignTaintedKey(className, key, value, source, stackTrace), next))
  {
  }

  lemma PollutedOk(input: seq<byte>, pos: nat, key: string, p1: nat, value: string, p2: nat, stackTrace: string, next: nat)
    requires pos <= |input| && ReadSized(input, pos) == Ok(Parsed(key, p1))
    requires p1 <= |input| && ReadSized(input, p1) == Ok(Parsed(value, p2))
    requires p2 <= |input| && ReadSized(input, p2) == Ok(Parsed(stackTrace, next))
    ensures ReadPolluted(input, pos) == Ok(Parsed(Polluted(key, value, stackTrace), next))
  {
  }

  lemma PrototypeGetOk(input: seq<byte>, pos: nat, p0: nat, key: string, p1: nat, value: string, p2: nat, stackTrace: string, next: nat)
    requires pos <= |input| && ReadToken(input, pos) == Ok(Parsed(MSG_PROTOTYPE_GET, p0))
    requires p0 <= |input| && ReadSized(input, p0) == Ok(Parsed(key, p1))
    requires p1 <= |input| && ReadSized(input, p1) == Ok(Parsed(value, p2))
    requires p2 <= |input| && ReadSized(input, p2) == Ok(Parsed(stackTrace, next))
    ensures ReadFromJs(input, pos) == Ok(Parsed(Some(PrototypeGet(key, value, stackTrace)), next))
  {
    assert MSG_PROTOTYPE_GET[0] != MSG_DOCUMENT_LOAD[0];
  }

  lemma SinkReachedOk(input: seq<byte>, pos: nat, sinkType: string, p1: nat, value: string, p2: nat, stackTrace: string, next: nat)
    requires pos <= |input| && ReadToken(input, pos) == Ok(Parsed(sinkType, p1))
    requires p1 <= |input| && ReadSized(input, p1) == Ok(Parsed(value, p2))
    requires p2 <= |input| && ReadSized(input, p2) == Ok(Parsed(stackTrace, next))
    ensures ReadSinkReached(input, pos) == Ok(Parsed(SinkReached(sinkType, value, stackTrace), next))
  {
  }

  lemma Assoc2(a: seq<byte>, b: seq<byte>, rest: seq<byte>)
    ensures (a + b) + rest == a + (b + rest)
  {
  }

  lemma Assoc3(a: seq<byte>, b: seq<byte>, c: seq<byte>, rest: seq<byte>)
    ensures (a + (b + c)) + rest == a + (b + (c + rest))
  {
  }

  /** Two sized fields in a row read back as their texts. */
  lemma ReadTwoFields(input: seq<byte>, pos: nat, a: string, b: string, rest: seq<byte>, p1: nat, next: nat)
    requires Fits(a) && Fits(b) && At(input, pos, EncodeField(a) + (EncodeField(b) + rest))
    requires p1 == pos + |EncodeField(a)| && next == p1 + |EncodeField(b)|
    ensures ReadSized(input, pos) == Ok(Parsed(a, p1))
    ensures ReadSized(input, p1) == Ok(Parsed(b, next))
    ensures At(input, next, rest)
  {
    ReadSizedAt(input, pos, a, SPACE, EncodeField(b) + rest, p1);
    ReadSizedAt(input, p1, b, SPACE, rest, next);
  }

  /** Three sized fields in a row read back as their texts. */
  lemma ReadThreeFields(input: seq<byte>, pos: nat, a: string, b: string, c: string, rest: seq<byte>, p1: nat, p2: nat, next: nat)
    requires Fits(a) && Fits(b) && Fits(c) && At(input, pos, EncodeField(a) + (EncodeField(b) + (EncodeField(c) + rest)))
    requires p1 == pos + |EncodeField(a)| && p2 == p1 + |EncodeField(b)| && next == p2 + |EncodeField(c)|
    ensures ReadSized(input, pos) == Ok(Parsed(a, p1))
    ensures ReadSized(input, p1) == Ok(Parsed(b, p2))
    ensures ReadSized(input, p2) == Ok(Parsed(c, next))
    ensures At(input, next, rest)
  {
    ReadSizedAt(input, pos, a, SPACE, EncodeField(b) + (EncodeField(c) + rest), p1);
    ReadTwoFields(input, p1, b, c, rest, p2, next);
  }

  /** A handler's outcome as the outcome of the record: its message, if it read one. */
  function AsRecord(r: Outcome<LogMessage>): Outcome<Option<LogMessage>> {
    match r
    case Ok(p) => Ok(Parsed(Some(p.value), p.next))
    case Err(e) => Err(e)
  }

  /** `LoadIC::Load_NOT_FOUND]` and `Runtime::GetObjectProperty_NOT_FOUND]` select the `UndefinedProperty` handler. */
  lemma DispatchUndefinedProperty(input: seq<byte>, pos: nat, source: PropertySource)
    requires pos <= |input|
    ensures ReadRecord(input, pos, if source == InlineCache then TAG_LOAD_IC else TAG_GET_OBJECT_PROPERTY)
         == AsRecord(ReadUndefinedProperty(input, pos, source))
  {
  }

  /** `StoreIC::Store]` and `Runtime::SetObjectProperty_TAINTED]` select the `AssignTaintedKey` handler. */
  lemma DispatchAssignTaintedKey(input: seq<byte>, pos: nat, source: PropertySource)
    requires pos <= |input|
    ensures ReadRecord(input, pos, if source == InlineCache then TAG_STORE_IC else TAG_SET_OBJECT_PROPERTY_TAINTED)
         == AsRecord(ReadAssignTaintedKey(input, pos, source))
  {
  }

  /** `LogFrameLocation]` selects the `Location` handler. */
  lemma DispatchLocation(input: seq<byte>, pos: nat)
    requires pos <= |input|
    ensures ReadRecord(input, pos, TAG_FRAME_LOCATION) == AsRecord(ReadLocation(input, pos))
  {
  }

  /** `Runtime::SetObjectProperty_PROTOTYPE]` selects the `Polluted` handler. */
  lemma DispatchPolluted(input: seq<byte>, pos: nat)
    requires pos <= |input|
    ensures ReadRecord(input, pos, TAG_SET_OBJECT_PROPERTY_PROTOTYPE) == AsRecord(ReadPolluted(input, pos))
  {
  }

  /** `From_JS]` selects the handler that reads a message type. */
  lemma DispatchFromJs(input: seq<byte>, pos: nat)
    requires pos <= |input|
    ensures ReadRecord(input, pos, TAG_FROM_JS) == ReadFromJs(input, pos)
  {
  }

  /** `LogIfStringTainted]` selects the `SinkReached` handler. */
  lemma DispatchSinkReached(input: seq<byte>, pos: nat)
    requires pos <= |input|
    ensures ReadRecord(input, pos, TAG_STRING_TAINTED) == AsRecord(ReadSinkReached(input, pos))
  {
  }

  /** Any other tag reads nothing and yields nothing. */
  lemma DispatchUnknown(input: seq<byte>, pos: nat, tag: string)
    requires pos <= |input| && IsUnknownTag(tag)
    ensures ReadRecord(input, pos, tag) == Ok(Parsed(None, pos))
  {
  }

  /** The fields of an `UndefinedProperty` record read back as the message. */
  lemma ReadUndefinedPropertyAt(input: seq<byte>, pos: nat, name: string, source: PropertySource, stackTrace: string, rest: seq<byte>, next: nat)
    requires Fits(name) && Fits(stackTrace)
    requires At(input, pos, EncodeFields(UndefinedProperty(name, source, stackTrace)) + rest)
    requires next == pos + |EncodeFields(UndefinedProperty(name, source, stackTrace))|
    ensures ReadUndefinedProperty(input, pos, source) == Ok(Parsed(UndefinedProperty(name, source, stackTrace), next))
    ensures At(input, next, rest)
    ensures ReadRecord(input, pos, RecordTag(UndefinedProperty(name, source, stackTrace))) == Ok(Parsed(Some(UndefinedProperty(name, source, stackTrace)), next))
  {
    var f1, f2 := EncodeField(name), EncodeField(stackTrace);
    var p1 := pos + |f1|;
    Assoc2(f1, f2, rest);
    ReadTwoFields(input, pos, name, stackTrace, rest, p1, next);
    UndefinedPropertyOk(input, pos, source, name, p1, stackTrace, next);
    DispatchUndefinedProperty(input, pos, source);
  }

  /** The fields of an `AssignTaintedKey` record read back as the message. */
  lemma ReadAssignTaintedKeyAt(input: seq<byte>, pos: nat, m: LogMessage, rest: seq<byte>, next: nat)
    requires m.AssignTaintedKey? && Encodable(m) && At(input, pos, EncodeFields(m) + rest) && next == pos + |EncodeFields(m)|
    ensures ReadAssignTaintedKey(input, pos, m.source) == Ok(Parsed(m, next))
    ensures At(input, next, rest)
    ensures ReadRecord(input, pos, RecordTag(m)) == Ok(Parsed(Some(m), next))
  {
    var AssignTaintedKey(className, key, value, source, stackTrace) := m;
    var f1, f2, f3, f4 := EncodeField(className), EncodeField(key), EncodeField(value), EncodeField(stackTrace);
    var p1 := pos + |f1|;
    var p2 := p1 + |f2|;
    var p3 := p2 + |f3|;
    Assoc2(f1, f2 + (f3 + f4), rest);
    Assoc3(f2, f3, f4, rest);
    ReadSizedAt(input, pos, className, SPACE, f2 + (f3 + (f4 + rest)), p1);
    ReadThreeFields(input, p1, key, value, stackTrace, rest, p2, p3, next);
    AssignTaintedKeyOk(input, pos, source, className, p1, key, p2, value, p3, stackTrace, next);
    DispatchAssignTaintedKey(input, pos, source);
  }

  /** The field of a `Location` record reads back as the message. */
  lemma ReadLocationAt(input: seq<byte>, pos: nat, m: LogMessage, rest: seq<byte>, next: nat)
    requires m.Location? && Encodable(m) && At(input, pos, EncodeFields(m) + rest) && next == pos + |EncodeFields(m)|
    ensures ReadLocation(input, pos) == Ok(Parsed(m, next))
    ensures At(input, next, rest)
    ensures ReadRecord(input, pos, RecordTag(m)) == Ok(Parsed(Some(m), next))
  {
    ReadSizedAt(input, pos, m.url, SPACE, rest, next);
    DispatchLocation(input, pos);
  }

  /** The fields of a `Polluted` record read back as the message. */
  lemma ReadPollutedAt(input: seq<byte>, pos: nat, m: LogMessage, rest: seq<byte>, next: nat)
    requires m.Polluted? && Encodable(m) && At(input, pos, EncodeFields(m) + rest) && next == pos + |EncodeFields(m)|
    ensures ReadPolluted(input, pos) == Ok(Parsed(m, next))
    ensures At(input, next, rest)
    ensures ReadRecord(input, pos, RecordTag(m)) == Ok(Parsed(Some(m), next))
  {
    var Polluted(key, value, stackTrace) := m;
    var f1, f2, f3 := EncodeField(key), EncodeField(value), EncodeField(stackTrace);
    var p1 := pos + |f1|;
    var p2 := p1 + |f2|;
    Assoc3(f1, f2, f3, rest);
    ReadThreeFields(input, pos, key, value, stackTrace, rest, p1, p2, next);
    PollutedOk(input, pos, key, p1, value, p2, stackTrace, next);
    DispatchPolluted(input, pos);
  }

  /** The message types after `From_JS]` are tokens. */
  lemma MessageTypesAreTokens()
    ensures IsToken(MSG_DOCUMENT_LOAD) && IsToken(MSG_PROTOTYPE_GET)
  {
    AboveSpaceIsToken(MSG_DOCUMENT_LOAD);
    AboveSpaceIsToken(MSG_PROTOTYPE_GET);
  }

  /** The fields of a `From_JS] PROTOTYPE_GET` record read back as the message. */
  lemma ReadPrototypeGetAt(input: seq<byte>, pos: nat, m: LogMessage, rest: seq<byte>, next: nat)
    requires m.PrototypeGet? && Encodable(m) && At(input, pos, EncodeFields(m) + rest) && next == pos + |EncodeFields(m)|
    ensures ReadFromJs(input, pos) == Ok(Parsed(Some(m), next))
    ensures At(input, next, rest)
    ensures ReadRecord(input, pos, RecordTag(m)) == Ok(Parsed(Some(m), next))
  {
    var PrototypeGet(key, value, stackTrace) := m;
    var f0, f1, f2, f3 := EncodeToken(MSG_PROTOTYPE_GET), EncodeField(key), EncodeField(value), EncodeField(stackTrace);
    var p0 := pos + |f0|;
    var p1 := p0 + |f1|;
    var p2 := p1 + |f2|;
    Assoc2(f0, f1 + (f2 + f3), rest);
    Assoc3(f1, f2, f3, rest);
    MessageTypesAreTokens();
    ReadTokenAt(input, pos, MSG_PROTOTYPE_GET, f1 + (f2 + (f3 + rest)), p0);
    ReadThreeFields(input, p0, key, value, stackTrace, rest, p1, p2, next);
    PrototypeGetOk(input, pos, p0, key, p1, value, p2, stackTrace, next);
    DispatchFromJs(input, pos);
  }

  /** The `From_JS] DOCUMENT_LOAD` record reads back as the message. */
  lemma ReadDocumentStartAt(input: seq<byte>, pos: nat, rest: seq<byte>, next: nat)
    requires At(input, pos, EncodeToken(MSG_DOCUMENT_LOAD) + rest) && next == pos + |EncodeToken(MSG_DOCUMENT_LOAD)|
    ensures ReadRecord(input, pos, TAG_FROM_JS) == Ok(Parsed(Some(DocumentStart), next))
    ensures At(input, next, rest)
  {
    MessageTypesAreTokens();
    ReadTokenAt(input, pos, MSG_DOCUMENT_LOAD, rest, next);
    DispatchFromJs(input, pos);
  }

  /** The fields of a `LogIfStringTainted]` record read back as the message. */
  lemma ReadSinkReachedAt(input: seq<byte>, pos: nat, m: LogMessage, rest: seq<byte>, next: nat)
    requires m.SinkReached? && Encodable(m) && At(input, pos, EncodeFields(m) + rest) && next == pos + |EncodeFields(m)|
    ensures ReadSinkReached(input, pos) == Ok(Parsed(m, next))
    ensures At(input, next, rest)
    ensures ReadRecord(input, pos, RecordTag(m)) == Ok(Parsed(Some(m), next))
  {
    var SinkReached(sinkType, value, stackTrace) := m;
    var f0, f1, f2 := EncodeToken(sinkType), EncodeField(value), EncodeField(stackTrace);
    var p1 := pos + |f0|;
    var p2 := p1 + |f1|;
    Assoc3(f0, f1, f2, rest);
    ReadTokenAt(input, pos, sinkType, f1 + (f2 + rest), p1);
    ReadTwoFields(input, p1, value, stackTrace, rest, p2, next);
    SinkReachedOk(input, pos, sinkType, p1, value, p2, stackTrace, next);
    DispatchSinkReached(input, pos);
  }
  /**
   * The tag-to-message mapping: the fields after a message's tag, read under that tag, give back
   * exactly that message.
   */
  lemma ReadRecordAt(input: seq<byte>, pos: nat, m: LogMessage, rest: seq<byte>, next: nat)
    requires Encodable(m) && At(input, pos, EncodeFields(m) + rest) && next == pos + |EncodeFields(m)|
    ensures ReadRecord(input, pos, RecordTag(m)) == Ok(Parsed(Some(m), next))
    ensures At(input, next, rest)
  {
    if m.UndefinedProperty? || m.AssignTaintedKey? || m.Location? {
      ReadSizedRecordAt(input, pos, m, rest, next);
    } else {
      ReadOtherRecordAt(input, pos, m, rest, next);
    }
  }

  lemma ReadSizedRecordAt(input: seq<byte>, pos: nat, m: LogMessage, rest: seq<byte>, next: nat)
    requires m.UndefinedProperty? || m.AssignTaintedKey? || m.Location?
    requires Encodable(m) && At(input, pos, EncodeFields(m) + rest) && next == pos + |EncodeFields(m)|
    ensures ReadRecord(input, pos, RecordTag(m)) == Ok(Parsed(Some(m), next))
    ensures At(input, next, rest)
  {
    match m
    case UndefinedProperty(name, source, stackTrace) => ReadUndefinedPropertyAt(input, pos, name, source, stackTrace, rest, next);
    case AssignTaintedKey(_, _, _, _, _) => ReadAssignTaintedKeyAt(input, pos, m, rest, next);
    case Location(_) => ReadLocationAt(input, pos, m, rest, next);
  }

  lemma ReadOtherRecordAt(input: seq<byte>, pos: nat, m: LogMessage, rest: seq<byte>, next: nat)
    requires m.Polluted? || m.PrototypeGet? || m.SinkReached? || m.DocumentStart?
    requires Encodable(m) && At(input, pos, EncodeFields(m) + rest) && next == pos + |EncodeFields(m)|
    ensures ReadRecord(input, pos, RecordTag(m)) == Ok(Parsed(Some(m), next))
    ensures At(input, next, rest)
  {
    match m
    case Polluted(_, _, _) => ReadPollutedAt(input, pos, m, rest, next);
    case PrototypeGet(_, _, _) => ReadPrototypeGetAt(input, pos, m, rest, next);
    case SinkReached(_, _, _) => ReadSinkReachedAt(input, pos, m, rest, next);
    case DocumentStart => ReadDocumentStartAt(input, pos, rest, next);
  }

  lemma LoadTagsAreTokens()
    ensures IsToken(TAG_LOAD_IC) && IsToken(TAG_GET_OBJECT_PROPERTY)
  {
    AboveSpaceIsToken(TAG_LOAD_IC);
    AboveSpaceIsToken(TAG_GET_OBJECT_PROPERTY);
  }

  lemma StoreTagsAreTokens()
    ensures IsToken(TAG_STORE_IC) && IsToken(TAG_SET_OBJECT_PROPERTY_TAINTED)
  {
    AboveSpaceIsToken(TAG_STORE_IC);
    AboveSpaceIsToken(TAG_SET_OBJECT_PROPERTY_TAINTED);
  }

  lemma OtherTagsAreTokens()
    ensures IsToken(TAG_FRAME_LOCATION) && IsToken(TAG_SET_OBJECT_PROPERTY_PROTOTYPE)
    ensures IsToken(TAG_FROM_JS) && IsToken(TAG_STRING_TAINTED)
  {
    AboveSpaceIsToken(TAG_FRAME_LOCATION);
    AboveSpaceIsToken(TAG_SET_OBJECT_PROPERTY_PROTOTYPE);
    AboveSpaceIsToken(TAG_FROM_JS);
    AboveSpaceIsToken(TAG_STRING_TAINTED);
  }

  /** Every record tag is a single token. */
  lemma TagIsToken(m: LogMessage)
    ensures IsToken(RecordTag(m))
  {
    LoadTagsAreTokens();
    StoreTagsAreTokens();
    OtherTagsAreTokens();
  }


  /** One turn of the outer loop when a `[` is found and its tag and fields read well. */
  lemma ReadNextOk(input: seq<byte>, pos: nat, start: nat, tag: string, fields: nat, m: Option<LogMessage>, next: nat)
    requires pos <= |input| && NextRecordStart(input, pos) == Some(start)
    requires ReadToken(input, start) == Ok(Parsed(tag, fields))
    requires fields <= |input| && ReadRecord(input, fields, tag) == Ok(Parsed(m, next))
    ensures ReadNext(input, pos) == Ok(Parsed(Some(m), next))
  {
  }

  /** A `[` at `pos` starts the next record right there. */
  lemma BracketAt(input: seq<byte>, pos: nat, rest: seq<byte>, start: nat)
    requires At(input, pos, [OPEN_BRACKET] + rest) && start == pos + 1
    ensures NextRecordStart(input, pos) == Some(start)
    ensures At(input, start, rest)
  {
    AtSplit(input, pos, [OPEN_BRACKET], rest, start);
    assert input[pos] == input[pos..start][0];
  }

  /** One encoded record, read from its `[`, yields its message and ends where the record ends. */
  lemma ReadNextAt(input: seq<byte>, pos: nat, m: LogMessage, rest: seq<byte>, next: nat)
    requires Encodable(m) && At(input, pos, EncodeMessage(m) + rest) && next == pos + |EncodeMessage(m)|
    ensures ReadNext(input, pos) == Ok(Parsed(Some(Some(m)), next))
    ensures At(input, next, rest)
  {
    var tag := RecordTag(m);
    var start := pos + 1;
    var fields := start + |EncodeToken(tag)|;
    Assoc2([OPEN_BRACKET], EncodeToken(tag) + EncodeFields(m), rest);
    Assoc2(EncodeToken(tag), EncodeFields(m), rest);
    BracketAt(input, pos, EncodeToken(tag) + (EncodeFields(m) + rest), start);
    TagIsToken(m);
    ReadTokenAt(input, start, tag, EncodeFields(m) + rest, fields);
    ReadRecordAt(input, fields, m, rest, next);
    ReadNextOk(input, pos, start, tag, fields, Some(m), next);
  }

  /** One turn of the outer loop ends in the error of the record's fields. */
  lemma ReadNextFieldsFail(input: seq<byte>, pos: nat, start: nat, tag: string, fields: nat, e: LogError)
    requires pos <= |input| && NextRecordStart(input, pos) == Some(start)
    requires ReadToken(input, start) == Ok(Parsed(tag, fields))
    requires fields <= |input| && ReadRecord(input, fields, tag) == Err(e)
    ensures ReadNext(input, pos) == Err(e)
  {
  }

  /** One turn of the outer loop ends in the error of the tag. */
  lemma ReadNextTagFails(input: seq<byte>, pos: nat, start: nat, e: LogError)
    requires pos <= |input| && NextRecordStart(input, pos) == Some(start)
    requires ReadToken(input, start) == Err(e)
    ensures ReadNext(input, pos) == Err(e)
  {
  }

  /** One encoded record at `pos` contributes its message ahead of what follows it. */
  lemma DecodeStep(input: seq<byte>, pos: nat, m: LogMessage, rest: seq<byte>, next: nat)
    requires Encodable(m) && At(input, pos, EncodeMessage(m) + rest) && next == pos + |EncodeMessage(m)|
    ensures next <= |input| && At(input, next, rest)
    ensures DecodeFrom(input, pos) == Prepend([m], DecodeFrom(input, next))
  {
    ReadNextAt(input, pos, m, rest, next);
    DecodeFromNext(input, pos, Ok(Some(Some(m))), next);
  }

  lemma Cons<T>(s: seq<T>)
    requires |s| > 0
    ensures s == [s[0]] + s[1..]
    ensures forall i :: 0 <= i < |s| - 1 ==> s[1..][i] == s[i + 1]
  {
  }

  lemma EncodeLogCons(messages: seq<LogMessage>)
    requires |messages| > 0
    ensures EncodeLog(messages) == EncodeMessage(messages[0]) + EncodeLog(messages[1..])
  {
  }

  /**
   * Messages are only appended, in input order: an encoded prefix contributes its messages, one
   * per record, ahead of whatever the rest of the input decodes to (an error included).
   */
  lemma {:induction false} DecodeFromEncoded(input: seq<byte>, pos: nat, messages: seq<LogMessage>, rest: seq<byte>, end: nat)
    requires forall i :: 0 <= i < |messages| ==> Encodable(messages[i])
    requires At(input, pos, EncodeLog(messages) + rest) && end == pos + |EncodeLog(messages)|
    ensures end <= |input|
    ensures DecodeFrom(input, pos) == Prepend(messages, DecodeFrom(input, end))
    decreases |messages|
  {
    if messages == [] {
      assert DecodeFrom(input, pos).Ok? ==> [] + DecodeFrom(input, pos).value == DecodeFrom(input, pos).value;
    } else {
      var m, tail := messages[0], messages[1..];
      var next := pos + |EncodeMessage(m)|;
      Cons(messages);
      EncodeLogCons(messages);
      Assoc2(EncodeMessage(m), EncodeLog(tail), rest);
      DecodeStep(input, pos, m, EncodeLog(tail) + rest, next);
      DecodeFromEncoded(input, next, tail, rest, end);
      PrependAppend([m], tail, DecodeFrom(input, end));
    }
  }

  /** Decoding from the end of the input yields no message. */
  lemma DecodeFromEnd(input: seq<byte>, end: nat)
    requires end == |input|
    ensures DecodeFrom(input, end) == Ok([])
  {
    DecodeFromNext(input, end, Ok(None), end);
  }

  lemma DecodeOk(input: seq<byte>, messages: seq<LogMessage>)
    requires DecodeFrom(input, 0) == Ok(messages)
    ensures Decode(input) == Ok(SiteLog(messages))
  {
  }

  lemma DecodeErr(input: seq<byte>, e: LogError)
    requires DecodeFrom(input, 0) == Err(e)
    ensures Decode(input) == Err(e)
  {
  }

  /** The round trip: a log of encodable messages decodes to exactly those messages. */
  lemma DecodeEncodeLog(messages: seq<LogMessage>)
    requires forall i :: 0 <= i < |messages| ==> Encodable(messages[i])
    ensures Decode(EncodeLog(messages)) == Ok(SiteLog(messages))
  {
    var input := EncodeLog(messages);
    var end := |input|;
    assert input + [] == input;
    DecodeFromEncoded(input, 0, messages, [], end);
    DecodeFromEnd(input, end);
    assert messages + [] == messages;
    DecodeOk(input, messages);
  }

  /** A prefix of the input, followed by the rest of it, occurs at the start. */
  lemma PrefixAt(input: seq<byte>, f: seq<byte>, end: nat)
    requires end == |f| && end <= |input| && input[..end] == f
    ensures At(input, 0, f + input[end..])
  {
    assert input[..end] + input[end..] == input;
    assert input[0..|input|] == input;
  }

  /** A first error after encoded records is the result of the whole decode: there is no partial log. */
  lemma DecodeFailsAfterPrefix(input: seq<byte>, messages: seq<LogMessage>, end: nat, e: LogError)
    requires forall i :: 0 <= i < |messages| ==> Encodable(messages[i])
    requires end == |EncodeLog(messages)| && end <= |input| && input[..end] == EncodeLog(messages)
    requires DecodeFrom(input, end) == Err(e)
    ensures Decode(input) == Err(e)
  {
    var f := EncodeLog(messages);
    PrefixAt(input, f, end);
    DecodeFromEncoded(input, 0, messages, input[end..], end);
    DecodeErr(input, e);
  }

  /** Input with no `[` byte decodes to an empty log. */
  lemma DecodeWithoutRecords(input: seq<byte>)
    requires forall k :: 0 <= k < |input| ==> input[k] != OPEN_BRACKET
    ensures Decode(input) == Ok(SiteLog([]))
  {
    DecodeFromNext(input, 0, Ok(None), |input|);
  }

  lemma {:induction false} NextRecordStartSkips(input: seq<byte>, pos: nat, q: nat)
    requires pos <= q <= |input|
    requires forall k :: pos <= k < q ==> input[k] != OPEN_BRACKET
    ensures NextRecordStart(input, pos) == NextRecordStart(input, q)
    decreases q - pos
  {
    if pos < q {
      NextRecordStartSkips(input, pos + 1, q);
    }
  }

  /** Bytes before a `[` are skipped: they change nothing in the decode. */
  lemma DecodeSkipsNoise(input: seq<byte>, pos: nat, q: nat)
    requires pos <= q <= |input|
    requires forall k :: pos <= k < q ==> input[k] != OPEN_BRACKET
    ensures DecodeFrom(input, pos) == DecodeFrom(input, q)
  {
    NextRecordStartSkips(input, pos, q);
    assert ReadNext(input, pos) == ReadNext(input, q);
  }

  /** A `[` whose tag is unknown emits nothing and consumes only the tag; scanning resumes after it. */
  lemma UnknownTagSkipped(input: seq<byte>, pos: nat, tag: string, rest: seq<byte>, next: nat)
    requires IsToken(tag) && IsUnknownTag(tag)
    requires At(input, pos, [OPEN_BRACKET] + (EncodeToken(tag) + rest)) && next == pos + 1 + |EncodeToken(tag)|
    ensures DecodeFrom(input, pos) == DecodeFrom(input, next)
  {
    var start := pos + 1;
    BracketAt(input, pos, EncodeToken(tag) + rest, start);
    ReadTokenAt(input, start, tag, rest, next);
    DispatchUnknown(input, next, tag);
    ReadNextOk(input, pos, start, tag, next, None, next);
    DecodeFromNext(input, pos, Ok(Some(None)), next);
    assert DecodeFrom(input, next).Ok? ==> [] + DecodeFrom(input, next).value == DecodeFrom(input, next).value;
  }

  /** `From_JS]` with a message type other than `DOCUMENT_LOAD` and `PROTOTYPE_GET` reads nothing more. */
  lemma FromJsUnknownOk(input: seq<byte>, pos: nat, msgType: string, next: nat)
    requires pos <= |input| && ReadToken(input, pos) == Ok(Parsed(msgType, next))
    requires msgType != MSG_DOCUMENT_LOAD && msgType != MSG_PROTOTYPE_GET
    ensures ReadFromJs(input, pos) == Ok(Parsed(None, next))
  {
  }

  /** A `From_JS]` record of any other message type emits nothing and consumes only its two tokens. */
  lemma UnknownFromJsSkipped(input: seq<byte>, pos: nat, msgType: string, rest: seq<byte>, next: nat)
    requires IsToken(msgType) && msgType != MSG_DOCUMENT_LOAD && msgType != MSG_PROTOTYPE_GET
    requires At(input, pos, [OPEN_BRACKET] + (EncodeToken(TAG_FROM_JS) + (EncodeToken(msgType) + rest)))
    requires next == pos + 1 + |EncodeToken(TAG_FROM_JS)| + |EncodeToken(msgType)|
    ensures DecodeFrom(input, pos) == DecodeFrom(input, next)
  {
    var start := pos + 1;
    var fields := start + |EncodeToken(TAG_FROM_JS)|;
    BracketAt(input, pos, EncodeToken(TAG_FROM_JS) + (EncodeToken(msgType) + rest), start);
    OtherTagsAreTokens();
    ReadTokenAt(input, start, TAG_FROM_JS, EncodeToken(msgType) + rest, fields);
    ReadTokenAt(input, fields, msgType, rest, next);
    FromJsUnknownOk(input, fields, msgType, next);
    DispatchFromJs(input, fields);
    ReadNextOk(input, pos, start, TAG_FROM_JS, fields, None, next);
    DecodeFromNext(input, pos, Ok(Some(None)), next);
    assert DecodeFrom(input, next).Ok? ==> [] + DecodeFrom(input, next).value == DecodeFrom(input, next).value;
  }

  /** The head of a record: its `[`, found from `pos`, and its tag token. */
  lemma RecordHeadAt(input: seq<byte>, pos: nat, tag: string, rest: seq<byte>, start: nat, fields: nat)
    requires IsToken(tag) && At(input, pos, [OPEN_BRACKET] + (EncodeToken(tag) + rest))
    requires start == pos + 1 && fields == start + |EncodeToken(tag)|
    ensures NextRecordStart(input, pos) == Some(start)
    ensures ReadToken(input, start) == Ok(Parsed(tag, fields))
    ensures At(input, fields, rest)
  {
    BracketAt(input, pos, EncodeToken(tag) + rest, start);
    ReadTokenAt(input, start, tag, rest, fields);
  }

  /** A record whose fields fail ends the decode with that error. */
  lemma FieldsFail(input: seq<byte>, pos: nat, start: nat, tag: string, fields: nat, e: LogError)
    requires pos <= |input| && NextRecordStart(input, pos) == Some(start)
    requires ReadToken(input, start) == Ok(Parsed(tag, fields))
    requires fields <= |input| && ReadRecord(input, fields, tag) == Err(e)
    ensures DecodeFrom(input, pos) == Err(e)
  {
    ReadNextFieldsFail(input, pos, start, tag, fields, e);
    DecodeFromNext(input, pos, Err(e), 0);
  }

  /** A record of one message ends the decode when nothing follows it. */
  lemma LastRecord(input: seq<byte>, pos: nat, start: nat, tag: string, fields: nat, m: LogMessage)
    requires pos <= |input| && NextRecordStart(input, pos) == Some(start)
    requires ReadToken(input, start) == Ok(Parsed(tag, fields))
    requires fields <= |input| && ReadRecord(input, fields, tag) == Ok(Parsed(Some(m), |input|))
    ensures DecodeFrom(input, pos) == Ok([m])
  {
    ReadNextOk(input, pos, start, tag, fields, Some(m), |input|);
    DecodeFromNext(input, pos, Ok(Some(Some(m))), |input|);
    DecodeFromEnd(input, |input|);
    assert [m] + [] == [m];
  }

  lemma SizedTagIsToken(tag: string)
    requires StartsWithSizedField(tag)
    ensures IsToken(tag)
  {
    LoadTagsAreTokens();
    StoreTagsAreTokens();
    OtherTagsAreTokens();
  }

  /** A length token that `usize::from_str` rejects fails the sized field. */
  lemma ReadSizedBadLength(input: seq<byte>, pos: nat, length: string, next: nat)
    requires pos <= |input| && ReadToken(input, pos) == Ok(Parsed(length, next)) && ParseUsize(length).Err?
    ensures ReadSized(input, pos) == Err(IntParse)
  {
  }

  /** Bytes that are not well-formed UTF-8 fail the sized field. */
  lemma ReadSizedBadText(input: seq<byte>, pos: nat, length: string, start: nat, n: nat, end: nat)
    requires pos <= |input| && ReadToken(input, pos) == Ok(Parsed(length, start)) && ParseUsize(length) == Ok(n)
    requires end == start + n && end <= |input| && Utf8Codec.Decode(input[start..end]).None?
    ensures ReadSized(input, pos) == Err(Utf8)
  {
    ReadSizedIs(input, pos, length, start, n);
    SizedTextBad(input, start, n, end);
  }

  lemma SizedTextBad(input: seq<byte>, start: nat, n: nat, end: nat)
    requires end == start + n && end <= |input| && Utf8Codec.Decode(input[start..end]).None?
    ensures SizedText(input, start, n) == Err(Utf8)
  {
    assert (if start + n <= |input| then start + n else |input|) == end;
  }

  /** A record whose first field is a sized one fails with that field. */
  lemma FirstFieldFails(input: seq<byte>, pos: nat, tag: string, e: LogError)
    requires pos <= |input| && StartsWithSizedField(tag) && ReadSized(input, pos) == Err(e)
    ensures ReadRecord(input, pos, tag) == Err(e)
  {
    if tag == TAG_LOAD_IC || tag == TAG_GET_OBJECT_PROPERTY {
      DispatchUndefinedProperty(input, pos, if tag == TAG_LOAD_IC then InlineCache else RuntimeObject);
    } else if tag == TAG_STORE_IC || tag == TAG_SET_OBJECT_PROPERTY_TAINTED {
      DispatchAssignTaintedKey(input, pos, if tag == TAG_STORE_IC then InlineCache else RuntimeObject);
    } else if tag == TAG_FRAME_LOCATION {
      DispatchLocation(input, pos);
    } else {
      DispatchPolluted(input, pos);
    }
  }

  /**
   * A record whose first sized field has a length token that `usize::from_str` rejects (empty,
   * non-numeric, signed with `-`, or too large) fails the decode with `IntParse`.
   */
  lemma BadLengthFails(input: seq<byte>, pos: nat, tag: string, length: string, rest: seq<byte>)
    requires StartsWithSizedField(tag) && IsToken(length) && ParseUsize(length).Err?
    requires At(input, pos, [OPEN_BRACKET] + (EncodeToken(tag) + (EncodeToken(length) + rest)))
    ensures DecodeFrom(input, pos) == Err(IntParse)
  {
    var start := pos + 1;
    var fields := start + |EncodeToken(tag)|;
    var next := fields + |EncodeToken(length)|;
    SizedTagIsToken(tag);
    RecordHeadAt(input, pos, tag, EncodeToken(length) + rest, start, fields);
    ReadTokenAt(input, fields, length, rest, next);
    ReadSizedBadLength(input, fields, length, next);
    FirstFieldFails(input, fields, tag, IntParse);
    FieldsFail(input, pos, start, tag, fields, IntParse);
  }

  /** A `[` followed by a tag that is not well-formed UTF-8 fails the decode with `Utf8`. */
  lemma BadTagFails(input: seq<byte>, pos: nat, tag: seq<byte>, rest: seq<byte>)
    requires forall k :: 0 <= k < |tag| ==> !IsAsciiWhitespace(tag[k])
    requires !Utf8Codec.WellFormed(tag)
    requires At(input, pos, [OPEN_BRACKET] + (tag + ([SPACE] + rest)))
    ensures DecodeFrom(input, pos) == Err(Utf8)
  {
    var start := pos + 1;
    BracketAt(input, pos, tag + ([SPACE] + rest), start);
    BadTokenAt(input, start, tag, rest, start + |tag|);
    ReadNextTagFails(input, pos, start, Utf8);
    DecodeFromNext(input, pos, Err(Utf8), 0);
  }

  /** A token whose bytes are not well-formed UTF-8 fails to read. */
  lemma BadTokenAt(input: seq<byte>, start: nat, tag: seq<byte>, rest: seq<byte>, end: nat)
    requires forall k :: 0 <= k < |tag| ==> !IsAsciiWhitespace(tag[k])
    requires !Utf8Codec.WellFormed(tag)
    requires At(input, start, tag + ([SPACE] + rest)) && end == start + |tag|
    ensures ReadToken(input, start) == Err(Utf8)
  {
    AtSplit(input, start, tag, [SPACE] + rest, end);
    AtSplit(input, end, [SPACE], rest, end + 1);
    AtSlice(input, start, tag, end);
    assert forall k :: start <= k < end ==> input[k] == tag[k - start];
    assert input[end] == input[end..end + 1][0];
    TokenEndIs(input, start, end);
  }

  /** A first sized field whose bytes are not well-formed UTF-8 fails the decode with `Utf8`. */
  lemma BadFieldFails(input: seq<byte>, pos: nat, tag: string, bytes: seq<byte>, b: byte, rest: seq<byte>)
    requires StartsWithSizedField(tag) && |bytes| <= USIZE_MAX && !Utf8Codec.WellFormed(bytes)
    requires At(input, pos, [OPEN_BRACKET] + (EncodeToken(tag) + (EncodeToken(DecimalDigits(|bytes|)) + (bytes + ([b] + rest)))))
    ensures DecodeFrom(input, pos) == Err(Utf8)
  {
    var d := DecimalDigits(|bytes|);
    var start := pos + 1;
    var fields := start + |EncodeToken(tag)|;
    var text := fields + |EncodeToken(d)|;
    var end := text + |bytes|;
    SizedTagIsToken(tag);
    RecordHeadAt(input, pos, tag, EncodeToken(d) + (bytes + ([b] + rest)), start, fields);
    ReadLengthAt(input, fields, |bytes|, d, bytes + ([b] + rest), text);
    AtSplit(input, text, bytes, [b] + rest, end);
    AtSlice(input, text, bytes, end);
    ReadSizedBadText(input, fields, d, text, |bytes|, end);
    FirstFieldFails(input, fields, tag, Utf8);
    FieldsFail(input, pos, start, tag, fields, Utf8);
  }

  /** The outcome of `read_sized_string` when fewer bytes remain than the length announces. */
  lemma ReadSizedShortOk(input: seq<byte>, pos: nat, length: string, start: nat, n: nat, text: string)
    requires pos <= |input| && ReadToken(input, pos) == Ok(Parsed(length, start)) && ParseUsize(length) == Ok(n)
    requires |input| < start + n && Utf8Codec.Decode(input[start..|input|]) == Some(text)
    ensures ReadSized(input, pos) == Ok(Parsed(text, |input|))
  {
    ReadSizedIs(input, pos, length, start, n);
  }

  /**
   * A sized field cut short by the end of the input is not an error: its text is whatever bytes
   * remain, and the whole input is consumed.
   */
  lemma ReadSizedTruncated(input: seq<byte>, pos: nat, n: nat, tail: seq<byte>, start: nat)
    requires n <= USIZE_MAX && |tail| < n && Utf8Codec.WellFormed(tail)
    requires At(input, pos, EncodeToken(DecimalDigits(n)) + tail)
    requires start == pos + |EncodeToken(DecimalDigits(n))| && start + |tail| == |input|
    ensures ReadSized(input, pos) == Ok(Parsed(Utf8Codec.Decode(tail).value, |input|))
  {
    var d := DecimalDigits(n);
    ReadLengthAt(input, pos, n, d, tail, start);
    assert input[start..|input|] == tail;
    ReadSizedShortOk(input, pos, d, start, n, Utf8Codec.Decode(tail).value);
  }

  /** A sized field that starts at the end of the input fails: its length token is empty. */
  lemma ReadSizedAtEnd(input: seq<byte>, pos: nat)
    requires pos == |input|
    ensures ReadSized(input, pos) == Err(IntParse)
  {
    assert ReadToken(input, pos) == Ok(Parsed("", pos));
  }

  /** A record whose first sized field is cut short by the end of the input. */
  lemma TruncatedFieldAt(input: seq<byte>, pos: nat, tag: string, n: nat, tail: seq<byte>, start: nat, fields: nat)
    requires IsToken(tag) && n <= USIZE_MAX && |tail| < n && Utf8Codec.WellFormed(tail)
    requires At(input, pos, [OPEN_BRACKET] + (EncodeToken(tag) + (EncodeToken(DecimalDigits(n)) + tail)))
    requires start == pos + 1 && fields == start + |EncodeToken(tag)|
    requires fields + |EncodeToken(DecimalDigits(n))| + |tail| == |input|
    ensures NextRecordStart(input, pos) == Some(start) && ReadToken(input, start) == Ok(Parsed(tag, fields))
    ensures fields <= |input| && ReadSized(input, fields) == Ok(Parsed(Utf8Codec.Decode(tail).value, |input|))
  {
    var text := fields + |EncodeToken(DecimalDigits(n))|;
    RecordHeadAt(input, pos, tag, EncodeToken(DecimalDigits(n)) + tail, start, fields);
    ReadSizedTruncated(input, fields, n, tail, text);
  }

  /** The fields of a `LogFrameLocation]` record: one sized field. */
  lemma LocationRecordOk(input: seq<byte>, fields: nat, url: string, next: nat)
    requires fields <= |input| && ReadSized(input, fields) == Ok(Parsed(url, next))
    ensures ReadRecord(input, fields, TAG_FRAME_LOCATION) == Ok(Parsed(Some(Location(url)), next))
  {
    DispatchLocation(input, fields);
  }

  /**
   * Hence a `LogFrameLocation]` record cut short at the end of the input still decodes, to the
   * bytes that remain.
   */
  lemma TruncatedLocationDecodes(input: seq<byte>, pos: nat, n: nat, tail: seq<byte>)
    requires n <= USIZE_MAX && |tail| < n && Utf8Codec.WellFormed(tail)
    requires At(input, pos, [OPEN_BRACKET] + (EncodeToken(TAG_FRAME_LOCATION) + (EncodeToken(DecimalDigits(n)) + tail)))
    requires pos + 1 + |EncodeToken(TAG_FRAME_LOCATION)| + |EncodeToken(DecimalDigits(n))| + |tail| == |input|
    ensures DecodeFrom(input, pos) == Ok([Location(Utf8Codec.Decode(tail).value)])
  {
    var start := pos + 1;
    var fields := start + |EncodeToken(TAG_FRAME_LOCATION)|;
    OtherTagsAreTokens();
    TruncatedFieldAt(input, pos, TAG_FRAME_LOCATION, n, tail, start, fields);
    LocationRecordOk(input, fields, Utf8Codec.Decode(tail).value, |input|);
    LastRecord(input, pos, start, TAG_FRAME_LOCATION, fields, Location(Utf8Codec.Decode(tail).value));
  }

  /** The second field of an undefined-property record fails when the first one ends the input. */
  lemma SecondFieldFails(input: seq<byte>, pos: nat, source: PropertySource, name: string, next: nat)
    requires pos <= |input| && ReadSized(input, pos) == Ok(Parsed(name, next)) && next == |input|
    ensures ReadUndefinedProperty(input, pos, source) == Err(IntParse)
  {
    ReadSizedAtEnd(input, next);
  }

  /** The fields of an undefined-property record fail when the first one ends the input. */
  lemma UndefinedPropertyRecordFails(input: seq<byte>, fields: nat, tag: string, source: PropertySource, name: string)
    requires tag == (if source == InlineCache then TAG_LOAD_IC else TAG_GET_OBJECT_PROPERTY)
    requires fields <= |input| && ReadSized(input, fields) == Ok(Parsed(name, |input|))
    ensures ReadRecord(input, fields, tag) == Err(IntParse)
  {
    SecondFieldFails(input, fields, source, name, |input|);
    DispatchUndefinedProperty(input, fields, source);
  }

  /**
   * A record with two sized fields whose first one is cut short fails: the second field's length
   * token is empty.
   */
  lemma TruncatedUndefinedPropertyFails(input: seq<byte>, pos: nat, source: PropertySource, tag: string, n: nat, tail: seq<byte>)
    requires tag == (if source == InlineCache then TAG_LOAD_IC else TAG_GET_OBJECT_PROPERTY)
    requires n <= USIZE_MAX && |tail| < n && Utf8Codec.WellFormed(tail)
    requires At(input, pos, [OPEN_BRACKET] + (EncodeToken(tag) + (EncodeToken(DecimalDigits(n)) + tail)))
    requires pos + 1 + |EncodeToken(tag)| + |EncodeToken(DecimalDigits(n))| + |tail| == |input|
    ensures DecodeFrom(input, pos) == Err(IntParse)
  {
    var start := pos + 1;
    var fields := start + |EncodeToken(tag)|;
    TruncatedUndefinedPropertyFields(input, pos, source, tag, n, tail, start, fields);
    FieldsFail(input, pos, start, tag, fields, IntParse);
  }

  lemma TruncatedUndefinedPropertyFields(input: seq<byte>, pos: nat, source: PropertySource, tag: string, n: nat, tail: seq<byte>, start: nat, fields: nat)
    requires tag == (if source == InlineCache then TAG_LOAD_IC else TAG_GET_OBJECT_PROPERTY)
    requires n <= USIZE_MAX && |tail| < n && Utf8Codec.WellFormed(tail)
    requires At(input, pos, [OPEN_BRACKET] + (EncodeToken(tag) + (EncodeToken(DecimalDigits(n)) + tail)))
    requires start == pos + 1 && fields == start + |EncodeToken(tag)|
    requires fields + |EncodeToken(DecimalDigits(n))| + |tail| == |input|
    ensures NextRecordStart(input, pos) == Some(start) && ReadToken(input, start) == Ok(Parsed(tag, fields))
    ensures fields <= |input| && ReadRecord(input, fields, tag) == Err(IntParse)
  {
    LoadTagsAreTokens();
    TruncatedFieldAt(input, pos, tag, n, tail, start, fields);
    UndefinedPropertyRecordFails(input, fields, tag, source, Utf8Codec.Decode(tail).value);
  }
}
