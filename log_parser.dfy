/**
 * The decoder of the instrumented engine's trace log (src/log_parser.rs).
 *
 * A log is a byte stream. Bytes are skipped up to a `[`; the token after it, up to the next ASCII
 * whitespace byte, is the record tag (it includes the closing `]`) and selects the fields that
 * follow. A sized field is a decimal length token, that many raw bytes and one discarded byte.
 * The file read of the source is replaced by an in-memory byte sequence; the shared byte iterator
 * becomes a `ByteReader` object whose position only moves forward.
 *
 * The functions state what each read produces from a position of the input; the `ByteReader`
 * methods and `ParseLog` do the same work the way the source does, one byte at a time, and are
 * proved to agree with them.
 */
module LogParser {
  import opened Wrappers
  import Utf8Codec

  type byte = Utf8Codec.byte

  datatype PropertySource = InlineCache | RuntimeObject

  datatype LogMessage =
    | UndefinedProperty(name: string, source: PropertySource, stackTrace: string)
    | AssignTaintedKey(className: string, key: string, value: string, source: PropertySource, stackTrace: string)
    | Location(url: string)
    | Polluted(key: string, value: string, stackTrace: string)
    | PrototypeGet(key: string, value: string, stackTrace: string)
    | SinkReached(sinkType: string, value: string, stackTrace: string)
    | DocumentStart

  datatype SiteLog = SiteLog(messages: seq<LogMessage>)

  /** A failed `String::from_utf8` or a failed `usize` parse; I/O errors are not part of this model. */
  datatype LogError = Utf8 | IntParse

  /** What a read produced and the position of the first byte it did not consume. */
  datatype Parsed<T> = Parsed(value: T, next: nat)

  type Outcome<T> = Result<Parsed<T>, LogError>

  const OPEN_BRACKET: byte := 0x5B
  const SPACE: byte := 0x20

  /** The largest `usize` of a 64-bit target. */
  const USIZE_MAX: nat := 0xFFFF_FFFF_FFFF_FFFF

  const TAG_LOAD_IC := "LoadIC::Load_NOT_FOUND]"
  const TAG_GET_OBJECT_PROPERTY := "Runtime::GetObjectProperty_NOT_FOUND]"
  const TAG_STORE_IC := "StoreIC::Store]"
  const TAG_SET_OBJECT_PROPERTY_TAINTED := "Runtime::SetObjectProperty_TAINTED]"
  const TAG_FRAME_LOCATION := "LogFrameLocation]"
  const TAG_SET_OBJECT_PROPERTY_PROTOTYPE := "Runtime::SetObjectProperty_PROTOTYPE]"
  const TAG_FROM_JS := "From_JS]"
  const TAG_STRING_TAINTED := "LogIfStringTainted]"
  const MSG_DOCUMENT_LOAD := "DOCUMENT_LOAD"
  const MSG_PROTOTYPE_GET := "PROTOTYPE_GET"

  /** `u8::is_ascii_whitespace`: space, tab, line feed, form feed and carriage return (not vertical tab). */
  predicate IsAsciiWhitespace(b: byte) {
    b == 0x20 || b == 0x09 || b == 0x0A || b == 0x0C || b == 0x0D
  }

  predicate IsAsciiDigit(c: char) {
    '0' <= c <= '9'
  }

  function DigitValue(c: char): (v: nat)
    requires IsAsciiDigit(c)
    ensures v < 10
  {
    c as int - '0' as int
  }

  predicate AllDigits(d: string) {
    forall k :: 0 <= k < |d| ==> IsAsciiDigit(d[k])
  }

  /** The value of a string of decimal digits, most significant first. */
  function DigitsValue(d: string): nat
    requires AllDigits(d)
  {
    if d == [] then 0 else DigitsValue(d[..|d| - 1]) * 10 + DigitValue(d[|d| - 1])
  }

  /**
   * `usize::from_str`: an optional `+`, then one or more ASCII digits whose value fits a `usize`.
   * Every other string, the empty one included, is an `IntParse` error.
   */
  function ParseUsize(s: string): (r: Result<nat, LogError>)
    ensures r.Ok? ==> r.value <= USIZE_MAX
    ensures r.Err? ==> r.error == IntParse
    ensures r.Ok? ==> s != [] && s != "+"
  {
    var digits := if |s| > 0 && s[0] == '+' then s[1..] else s;
    if digits == [] || !AllDigits(digits) then Err(IntParse)
    else if DigitsValue(digits) > USIZE_MAX then Err(IntParse)
    else Ok(DigitsValue(digits))
  }

  /** The first ASCII whitespace position at or after `pos`, or the end of the input. */
  function TokenEnd(input: seq<byte>, pos: nat): (e: nat)
    requires pos <= |input|
    ensures pos <= e <= |input|
    ensures forall k :: pos <= k < e ==> !IsAsciiWhitespace(input[k])
    ensures e == |input| || IsAsciiWhitespace(input[e])
    decreases |input| - pos
  {
    if pos == |input| || IsAsciiWhitespace(input[pos]) then pos else TokenEnd(input, pos + 1)
  }

  /** The two conditions above pin the token end down. */
  lemma TokenEndIs(input: seq<byte>, pos: nat, e: nat)
    requires pos <= e <= |input|
    requires forall k :: pos <= k < e ==> !IsAsciiWhitespace(input[k])
    requires e == |input| || IsAsciiWhitespace(input[e])
    ensures TokenEnd(input, pos) == e
    decreases e - pos
  {
    if pos < e {
      TokenEndIs(input, pos + 1, e);
    }
  }

  /**
   * `read_until_whitespace`: the bytes up to the next ASCII whitespace byte as text; the whitespace
   * byte itself is consumed too. At the end of the input the token is what is left, possibly empty.
   */
  function ReadToken(input: seq<byte>, pos: nat): (r: Outcome<string>)
    requires pos <= |input|
    ensures r.Ok? ==> pos <= r.value.next <= |input|
    ensures r.Ok? <==> Utf8Codec.WellFormed(input[pos..TokenEnd(input, pos)])
    ensures r.Err? ==> r.error == Utf8
  {
    TextField(input, pos, TokenEnd(input, pos))
  }

  /**
   * The bytes from `start` to `end` as text; the byte at `end`, if the input has one, is consumed
   * too. Decoding fails on a malformed byte sequence (`String::from_utf8`).
   */
  function TextField(input: seq<byte>, start: nat, end: nat): (r: Outcome<string>)
    requires start <= end <= |input|
    ensures r.Ok? <==> Utf8Codec.WellFormed(input[start..end])
    ensures r.Ok? ==> r.value.next == (if end < |input| then end + 1 else end)
    ensures r.Err? ==> r.error == Utf8
  {
    var next := if end < |input| then end + 1 else end;
    match Utf8Codec.Decode(input[start..end])
    case None => Err(Utf8)
    case Some(text) => Ok(Parsed(text, next))
  }

  /** The outcome of `read_until_whitespace` when the token ends at a whitespace byte and is good text. */
  lemma ReadTokenOk(input: seq<byte>, pos: nat, end: nat, text: string, next: nat)
    requires pos <= end < |input| && TokenEnd(input, pos) == end
    requires Utf8Codec.Decode(input[pos..end]) == Some(text) && next == end + 1
    ensures ReadToken(input, pos) == Ok(Parsed(text, next))
  {
    assert ReadToken(input, pos) == TextField(input, pos, end);
  }

  /**
   * `read_sized_string`: a length token, then up to that many bytes (fewer when the input ends
   * first: `take` does not fail), then one discarded byte of any value.
   */
  function ReadSized(input: seq<byte>, pos: nat): (r: Outcome<string>)
    requires pos <= |input|
    ensures r.Ok? ==> pos < r.value.next <= |input|
  {
    var size :- ReadToken(input, pos);
    var n :- ParseUsize(size.value);
    SizedText(input, size.next, n)
  }

  /** The text part of a sized field: `n` bytes from `start`, or what remains, then one byte. */
  function SizedText(input: seq<byte>, start: nat, n: nat): (r: Outcome<string>)
    requires start <= |input|
    ensures r.Ok? ==> start <= r.value.next <= |input|
  {
    TextField(input, start, if start + n <= |input| then start + n else |input|)
  }

  /** A good length token hands the field over to its text part. */
  lemma ReadSizedIs(input: seq<byte>, pos: nat, length: string, start: nat, n: nat)
    requires pos <= |input| && ReadToken(input, pos) == Ok(Parsed(length, start)) && ParseUsize(length) == Ok(n)
    ensures start <= |input| && ReadSized(input, pos) == SizedText(input, start, n)
  {
    var size := ReadToken(input, pos);
    assert !size.IsFailure() && size.Extract() == Parsed(length, start);
    var parsed := ParseUsize(length);
    assert !parsed.IsFailure() && parsed.Extract() == n;
  }

  /** The outcome of `read_sized_string` when the length and the text are good. */
  lemma ReadSizedOk(input: seq<byte>, pos: nat, length: string, start: nat, n: nat, end: nat, text: string, next: nat)
    requires pos <= |input| && ReadToken(input, pos) == Ok(Parsed(length, start)) && ParseUsize(length) == Ok(n)
    requires end == start + n && end < |input| && Utf8Codec.Decode(input[start..end]) == Some(text)
    requires next == end + 1
    ensures ReadSized(input, pos) == Ok(Parsed(text, next))
  {
    ReadSizedIs(input, pos, length, start, n);
    SizedTextOk(input, start, n, end, text, next);
  }

  lemma SizedTextOk(input: seq<byte>, start: nat, n: nat, end: nat, text: string, next: nat)
    requires end == start + n && end < |input| && Utf8Codec.Decode(input[start..end]) == Some(text)
    requires next == end + 1
    ensures SizedText(input, start, n) == Ok(Parsed(text, next))
  {
    assert (if start + n <= |input| then start + n else |input|) == end;
  }

  /** `handle_undefined_property!`: the property name and the stack trace, two sized fields. */
  function ReadUndefinedProperty(input: seq<byte>, pos: nat, source: PropertySource): (r: Outcome<LogMessage>)
    requires pos <= |input|
    ensures r.Ok? ==> pos < r.value.next <= |input|
    ensures r.Ok? ==> r.value.value.UndefinedProperty? && r.value.value.source == source
  {
    var property :- ReadSized(input, pos);
    var stackTrace :- ReadSized(input, property.next);
    Ok(Parsed(UndefinedProperty(property.value, source, stackTrace.value), stackTrace.next))
  }

  /** `handle_assign_tainted_key!`: class name, key, value and stack trace, four sized fields. */
  function ReadAssignTaintedKey(input: seq<byte>, pos: nat, source: PropertySource): (r: Outcome<LogMessage>)
    requires pos <= |input|
    ensures r.Ok? ==> pos < r.value.next <= |input|
    ensures r.Ok? ==> r.value.value.AssignTaintedKey? && r.value.value.source == source
  {
    var className :- ReadSized(input, pos);
    var key :- ReadSized(input, className.next);
    var value :- ReadSized(input, key.next);
    var stackTrace :- ReadSized(input, value.next);
    Ok(Parsed(AssignTaintedKey(className.value, key.value, value.value, source, stackTrace.value), stackTrace.next))
  }

  /** The fields after `LogFrameLocation]`: the frame's URL. */
  function ReadLocation(input: seq<byte>, pos: nat): (r: Outcome<LogMessage>)
    requires pos <= |input|
    ensures r.Ok? ==> pos < r.value.next <= |input| && r.value.value.Location?
  {
    var url :- ReadSized(input, pos);
    Ok(Parsed(Location(url.value), url.next))
  }

  /** The fields after `Runtime::SetObjectProperty_PROTOTYPE]`: key, value and stack trace. */
  function ReadPolluted(input: seq<byte>, pos: nat): (r: Outcome<LogMessage>)
    requires pos <= |input|
    ensures r.Ok? ==> pos < r.value.next <= |input| && r.value.value.Polluted?
  {
    var key :- ReadSized(input, pos);
    var value :- ReadSized(input, key.next);
    var stackTrace :- ReadSized(input, value.next);
    Ok(Parsed(Polluted(key.value, value.value, stackTrace.value), stackTrace.next))
  }

  /**
   * After `From_JS]`: a message type token. `DOCUMENT_LOAD` has no fields, `PROTOTYPE_GET` has key,
   * value and stack trace; any other message type yields nothing.
   */
  function ReadFromJs(input: seq<byte>, pos: nat): (r: Outcome<Option<LogMessage>>)
    requires pos <= |input|
    ensures r.Ok? ==> pos <= r.value.next <= |input|
    ensures r.Ok? && r.value.value.Some? ==> r.value.value.value.DocumentStart? || r.value.value.value.PrototypeGet?
  {
    var msgType :- ReadToken(input, pos);
    if msgType.value == MSG_DOCUMENT_LOAD then
      Ok(Parsed(Some(DocumentStart), msgType.next))
    else if msgType.value == MSG_PROTOTYPE_GET then
      var key :- ReadSized(input, msgType.next);
      var value :- ReadSized(input, key.next);
      var stackTrace :- ReadSized(input, value.next);
      Ok(Parsed(Some(PrototypeGet(key.value, value.value, stackTrace.value)), stackTrace.next))
    else
      Ok(Parsed(None, msgType.next))
  }

  /** The fields after `LogIfStringTainted]`: the sink type as a whitespace token, then value and stack trace. */
  function ReadSinkReached(input: seq<byte>, pos: nat): (r: Outcome<LogMessage>)
    requires pos <= |input|
    ensures r.Ok? ==> pos < r.value.next <= |input| && r.value.value.SinkReached?
  {
    var sinkType :- ReadToken(input, pos);
    var value :- ReadSized(input, sinkType.next);
    var stackTrace :- ReadSized(input, value.next);
    Ok(Parsed(SinkReached(sinkType.value, value.value, stackTrace.value), stackTrace.next))
  }

  /** The dispatch on the record tag. An unknown tag reads nothing and yields nothing. */
  function ReadRecord(input: seq<byte>, pos: nat, tag: string): (r: Outcome<Option<LogMessage>>)
    requires pos <= |input|
    ensures r.Ok? ==> pos <= r.value.next <= |input|
  {
    if tag == TAG_LOAD_IC then
      var m :- ReadUndefinedProperty(input, pos, InlineCache);
      Ok(Parsed(Some(m.value), m.next))
    else if tag == TAG_GET_OBJECT_PROPERTY then
      var m :- ReadUndefinedProperty(input, pos, RuntimeObject);
      Ok(Parsed(Some(m.value), m.next))
    else if tag == TAG_STORE_IC then
      var m :- ReadAssignTaintedKey(input, pos, InlineCache);
      Ok(Parsed(Some(m.value), m.next))
    else if tag == TAG_SET_OBJECT_PROPERTY_TAINTED then
      var m :- ReadAssignTaintedKey(input, pos, RuntimeObject);
      Ok(Parsed(Some(m.value), m.next))
    else if tag == TAG_FRAME_LOCATION then
      var m :- ReadLocation(input, pos);
      Ok(Parsed(Some(m.value), m.next))
    else if tag == TAG_SET_OBJECT_PROPERTY_PROTOTYPE then
      var m :- ReadPolluted(input, pos);
      Ok(Parsed(Some(m.value), m.next))
    else if tag == TAG_FROM_JS then
      ReadFromJs(input, pos)
    else if tag == TAG_STRING_TAINTED then
      var m :- ReadSinkReached(input, pos);
      Ok(Parsed(Some(m.value), m.next))
    else
      Ok(Parsed(None, pos))
  }

  /** The position just after the first `[` at or after `pos`, if there is one. */
  function NextRecordStart(input: seq<byte>, pos: nat): (r: Option<nat>)
    requires pos <= |input|
    ensures r.Some? ==> pos < r.value <= |input| && input[r.value - 1] == OPEN_BRACKET
    ensures r.Some? ==> forall k :: pos <= k < r.value - 1 ==> input[k] != OPEN_BRACKET
    ensures r.None? <==> forall k :: pos <= k < |input| ==> input[k] != OPEN_BRACKET
    decreases |input| - pos
  {
    if pos == |input| then None
    else if input[pos] == OPEN_BRACKET then Some(pos + 1)
    else NextRecordStart(input, pos + 1)
  }

  function Emitted(m: Option<LogMessage>): seq<LogMessage> {
    if m.Some? then [m.value] else []
  }

  /**
   * One turn of the outer loop of `parse_log`: skip to the next `[`, read the tag and let the tag's
   * arm read the fields. `None` when no `[` is left (the whole rest is consumed), otherwise the
   * message the record yields, if any.
   */
  function ReadNext(input: seq<byte>, pos: nat): (r: Outcome<Option<Option<LogMessage>>>)
    requires pos <= |input|
    ensures r.Ok? ==> pos <= r.value.next <= |input|
    ensures r.Ok? && r.value.value.Some? ==> pos < r.value.next
    ensures r.Ok? && r.value.value.None? <==> NextRecordStart(input, pos).None?
    ensures r.Ok? && r.value.value.None? ==> r.value.next == |input|
  {
    match NextRecordStart(input, pos)
    case None => Ok(Parsed(None, |input|))
    case Some(start) =>
      var tag :- ReadToken(input, start);
      var record :- ReadRecord(input, tag.next, tag.value);
      Ok(Parsed(Some(record.value), record.next))
  }

  /**
   * The messages of the records from `pos` on, in input order, or the first error. Each message
   * comes from its own `[`, so there are no more messages than bytes.
   */
  function DecodeFrom(input: seq<byte>, pos: nat): (r: Result<seq<LogMessage>, LogError>)
    requires pos <= |input|
    ensures r.Ok? ==> |r.value| <= |input| - pos
    decreases |input| - pos
  {
    var record :- ReadNext(input, pos);
    match record.value
    case None => Ok([])
    case Some(m) =>
      var rest :- DecodeFrom(input, record.next);
      Ok(Emitted(m) + rest)
  }

  /**
   * `parse_log` on an input already in memory: an empty log has no messages, and no log yields
   * more messages than it has bytes.
   */
  function Decode(input: seq<byte>): (r: Result<SiteLog, LogError>)
    ensures input == [] ==> r == Ok(SiteLog([]))
    ensures r.Ok? ==> |r.value.messages| <= |input|
  {
    var messages :- DecodeFrom(input, 0);
    Ok(SiteLog(messages))
  }

  /** What one turn of the loop contributes to the decode from `pos`. */
  lemma DecodeFromNext(input: seq<byte>, pos: nat, r: Result<Option<Option<LogMessage>>, LogError>, next: nat)
    requires pos <= |input|
    requires Agrees(ReadNext(input, pos), r, next)
    ensures r.Err? ==> DecodeFrom(input, pos) == Err(r.error)
    ensures r.Ok? && r.value.None? ==> DecodeFrom(input, pos) == Ok([])
    ensures r.Ok? && r.value.Some? ==> next <= |input| && DecodeFrom(input, pos) == Prepend(Emitted(r.value.value), DecodeFrom(input, next))
  {
  }

  lemma PrependAppend(a: seq<LogMessage>, b: seq<LogMessage>, r: Result<seq<LogMessage>, LogError>)
    ensures Prepend(a, Prepend(b, r)) == Prepend(a + b, r)
  {
    if r.Ok? {
      assert a + (b + r.value) == (a + b) + r.value;
    }
  }

  /** Messages already collected, followed by what the rest of the input decodes to. */
  function Prepend(messages: seq<LogMessage>, r: Result<seq<LogMessage>, LogError>): Result<seq<LogMessage>, LogError> {
    if r.Ok? then Ok(messages + r.value) else r
  }

  /** A method's result and final position agree with what a read function says. */
  predicate Agrees<T(==)>(spec: Outcome<T>, r: Result<T, LogError>, pos: nat) {
    match spec
    case Ok(p) => r == Ok(p.value) && pos == p.next
    case Err(e) => r == Err(e)
  }

  /** The byte iterator that `parse_log` and its helpers advance as a side effect. */
  class ByteReader {
    const input: seq<byte>
    var pos: nat

    ghost predicate Valid()
      reads this
    {
      pos <= |input|
    }

    constructor (input: seq<byte>)
      ensures Valid() && this.input == input && pos == 0
    {
      this.input := input;
      pos := 0;
    }

    /** `Iterator::next`. */
    method Next() returns (b: Option<byte>)
      requires Valid()
      modifies this
      ensures Valid()
      ensures old(pos) < |input| ==> b == Some(input[old(pos)]) && pos == old(pos) + 1
      ensures old(pos) == |input| ==> b == None && pos == old(pos)
    {
      if pos < |input| {
        b := Some(input[pos]);
        pos := pos + 1;
      } else {
        b := None;
      }
    }

    /** `read_until_whitespace`: `take_while` also eats the whitespace byte that stops it. */
    method ReadUntilWhitespace() returns (r: Result<string, LogError>)
      requires Valid()
      modifies this
      ensures Valid() && Agrees(ReadToken(input, old(pos)), r, pos)
    {
      ghost var start := pos;
      var bytes: seq<byte> := [];
      while true
        invariant Valid() && start <= pos
        invariant pos == start + |bytes| && bytes == input[start..pos]
        invariant forall k :: start <= k < pos ==> !IsAsciiWhitespace(input[k])
        decreases |input| - pos
      {
        var c := Next();
        match c {
          case None =>
            TokenEndIs(input, start, pos);
            break;
          case Some(x) =>
            if IsAsciiWhitespace(x) {
              TokenEndIs(input, start, pos - 1);
              break;
            }
            bytes := bytes + [x];
        }
      }
      match Utf8Codec.Decode(bytes) {
        case None => r := Err(Utf8);
        case Some(text) => r := Ok(text);
      }
    }

    /** `iter.take(n).collect()`: up to `n` bytes, fewer (and no error) when the input ends first. */
    method Take(n: nat) returns (bytes: seq<byte>)
      requires Valid()
      modifies this
      ensures Valid()
      ensures pos == if old(pos) + n <= |input| then old(pos) + n else |input|
      ensures bytes == input[old(pos)..pos]
    {
      bytes := [];
      while |bytes| < n
        invariant Valid() && old(pos) <= pos
        invariant pos == old(pos) + |bytes| && |bytes| <= n
        invariant bytes == input[old(pos)..pos]
        decreases n - |bytes|
      {
        var b := Next();
        match b {
          case None => break;
          case Some(x) => bytes := bytes + [x];
        }
      }
    }

    /** `read_sized_string`. */
    method ReadSizedString() returns (r: Result<string, LogError>)
      requires Valid()
      modifies this
      ensures Valid() && Agrees(ReadSized(input, old(pos)), r, pos)
    {
      ghost var start := pos;
      var sizeToken :- ReadUntilWhitespace();
      var size :- ParseUsize(sizeToken);
      ReadSizedIs(input, start, sizeToken, pos, size);
      r := ReadText(size);
    }

    /** The rest of `read_sized_string` once the length is known. */
    method ReadText(size: nat) returns (r: Result<string, LogError>)
      requires Valid()
      modifies this
      ensures Valid() && Agrees(SizedText(input, old(pos), size), r, pos)
    {
      var bytes := Take(size);
      // the byte after the string is dropped, whatever it is
      var separator := Next();
      match Utf8Codec.Decode(bytes) {
        case None => r := Err(Utf8);
        case Some(text) => r := Ok(text);
      }
    }

    /** `handle_undefined_property!` when it does not fail. */
    method HandleUndefinedProperty(source: PropertySource) returns (r: Result<LogMessage, LogError>)
      requires Valid()
      modifies this
      ensures Valid() && Agrees(ReadUndefinedProperty(input, old(pos), source), r, pos)
    {
      var property :- ReadSizedString();
      var stackTrace :- ReadSizedString();
      r := Ok(UndefinedProperty(property, source, stackTrace));
    }

    /** `handle_assign_tainted_key!` when it does not fail. */
    method HandleAssignTaintedKey(source: PropertySource) returns (r: Result<LogMessage, LogError>)
      requires Valid()
      modifies this
      ensures Valid() && Agrees(ReadAssignTaintedKey(input, old(pos), source), r, pos)
    {
      var className :- ReadSizedString();
      var key :- ReadSizedString();
      var value :- ReadSizedString();
      var stackTrace :- ReadSizedString();
      r := Ok(AssignTaintedKey(className, key, value, source, stackTrace));
    }

    /** The body of the `LogFrameLocation]` arm. */
    method HandleLocation() returns (r: Result<LogMessage, LogError>)
      requires Valid()
      modifies this
      ensures Valid() && Agrees(ReadLocation(input, old(pos)), r, pos)
    {
      var newLocation :- ReadSizedString();
      r := Ok(Location(newLocation));
    }

    /** The body of the `Runtime::SetObjectProperty_PROTOTYPE]` arm. */
    method HandlePolluted() returns (r: Result<LogMessage, LogError>)
      requires Valid()
      modifies this
      ensures Valid() && Agrees(ReadPolluted(input, old(pos)), r, pos)
    {
      var key :- ReadSizedString();
      var value :- ReadSizedString();
      var stackTrace :- ReadSizedString();
      r := Ok(Polluted(key, value, stackTrace));
    }

    /** The body of the `From_JS]` arm, with its inner match on the message type. */
    method HandleFromJs() returns (r: Result<Option<LogMessage>, LogError>)
      requires Valid()
      modifies this
      ensures Valid() && Agrees(ReadFromJs(input, old(pos)), r, pos)
    {
      var msgType :- ReadUntilWhitespace();
      if msgType == MSG_DOCUMENT_LOAD {
        r := Ok(Some(DocumentStart));
      } else if msgType == MSG_PROTOTYPE_GET {
        var key :- ReadSizedString();
        var value :- ReadSizedString();
        var stackTrace :- ReadSizedString();
        r := Ok(Some(PrototypeGet(key, value, stackTrace)));
      } else {
        r := Ok(None);
      }
    }

    /** The body of the `LogIfStringTainted]` arm. */
    method HandleSinkReached() returns (r: Result<LogMessage, LogError>)
      requires Valid()
      modifies this
      ensures Valid() && Agrees(ReadSinkReached(input, old(pos)), r, pos)
    {
      var sinkType :- ReadUntilWhitespace();
      var value :- ReadSizedString();
      var stackTrace :- ReadSizedString();
      r := Ok(SinkReached(sinkType, value, stackTrace));
    }

    /** The `match name.as_str()` of `parse_log`: the message a record yields, if its tag is known. */
    method HandleRecord(name: string) returns (r: Result<Option<LogMessage>, LogError>)
      requires Valid()
      modifies this
      ensures Valid() && Agrees(ReadRecord(input, old(pos), name), r, pos)
    {
      if name == TAG_LOAD_IC {
        var m :- HandleUndefinedProperty(PropertySource.InlineCache);
        r := Ok(Some(m));
      } else if name == TAG_GET_OBJECT_PROPERTY {
        var m :- HandleUndefinedProperty(PropertySource.RuntimeObject);
        r := Ok(Some(m));
      } else if name == TAG_STORE_IC {
        var m :- HandleAssignTaintedKey(PropertySource.InlineCache);
        r := Ok(Some(m));
      } else if name == TAG_SET_OBJECT_PROPERTY_TAINTED {
        var m :- HandleAssignTaintedKey(PropertySource.RuntimeObject);
        r := Ok(Some(m));
      } else if name == TAG_FRAME_LOCATION {
        var m :- HandleLocation();
        r := Ok(Some(m));
      } else if name == TAG_SET_OBJECT_PROPERTY_PROTOTYPE {
        var m :- HandlePolluted();
        r := Ok(Some(m));
      } else if name == TAG_FROM_JS {
        r := HandleFromJs();
      } else if name == TAG_STRING_TAINTED {
        var m :- HandleSinkReached();
        r := Ok(Some(m));
      } else {
        r := Ok(None);
      }
    }

    /**
     * The body of the outer loop of `parse_log`: the inner loop that consumes bytes through the
     * next `[` (`None` when the input ends first, where the source breaks out of both loops), the
     * tag, and the tag's arm.
     */
    method ReadNextRecord() returns (r: Result<Option<Option<LogMessage>>, LogError>)
      requires Valid()
      modifies this
      ensures Valid() && Agrees(ReadNext(input, old(pos)), r, pos)
    {
      while true
        invariant Valid() && old(pos) <= pos
        invariant NextRecordStart(input, old(pos)) == NextRecordStart(input, pos)
        decreases |input| - pos
      {
        var b := Next();
        match b {
          case Some(x) =>
            if x == OPEN_BRACKET {
              break;
            }
          case None =>
            return Ok(None);
        }
      }
      var name :- ReadUntilWhitespace();
      var message :- HandleRecord(name);
      r := Ok(Some(message));
    }
  }

  /**
   * `parse_log`: each turn of the loop reads one record (`ReadNextRecord`) and appends the message
   * it yields; the first error abandons the whole log, messages collected so far included.
   */
  method ParseLog(input: seq<byte>) returns (r: Result<SiteLog, LogError>)
    ensures r == Decode(input)
  {
    var messages: seq<LogMessage> := [];
    var iter := new ByteReader(input);
    assert DecodeFrom(input, 0).Ok? ==> [] + DecodeFrom(input, 0).value == DecodeFrom(input, 0).value;
    while true
      invariant iter.Valid() && iter.input == input
      invariant DecodeFrom(input, 0) == Prepend(messages, DecodeFrom(input, iter.pos))
      decreases |input| - iter.pos
    {
      ghost var recordPos := iter.pos;
      var record := iter.ReadNextRecord();
      DecodeFromNext(input, recordPos, record, iter.pos);
      if record.Err? {
        assert DecodeFrom(input, 0) == Err(record.error);
        return Err(record.error);
      }
      match record.value {
        case None =>
          assert DecodeFrom(input, 0) == Ok(messages + []);
          assert messages + [] == messages;
          break;
        case Some(m) =>
          PrependAppend(messages, Emitted(m), DecodeFrom(input, iter.pos));
          messages := messages + Emitted(m);
      }
    }
    r := Ok(SiteLog(messages));
  }
}
