/**
 * How a damaged field anywhere in a record of src/log_parser.rs ends the decode. Every arm reads
 * its sized fields one after the other with `?`, so the first field that fails, whichever it
 * is, makes the arm fail with that field's error, and `parse_log` returns that error.
 */
module LogErrors {
  import opened Wrappers
  import Utf8Codec
  import opened LogParser
  import opened LogFormat

  /** A reader of one field at a position: `read_sized_string`, or any other in the general lemmas. */
  type Reader = (seq<byte>, nat) -> Outcome<string>

  /** `read_sized_string` as a reader; a position past the end of the input never arises. */
  function Sized(input: seq<byte>, pos: nat): Outcome<string> {
    if pos <= |input| then ReadSized(input, pos) else Err(Utf8)
  }

  /** `n` fields read one after the other from `pos`, or the error of the first that fails. */
  function ReadFields(read: Reader, input: seq<byte>, pos: nat, n: nat): (r: Outcome<seq<string>>)
    ensures r.Ok? ==> |r.value.value| == n
    decreases n
  {
    if n == 0 then Ok(Parsed([], pos))
    else
      match read(input, pos)
      case Err(e) => Err(e)
      case Ok(field) =>
        match ReadFields(read, input, field.next, n - 1)
        case Err(e) => Err(e)
        case Ok(rest) => Ok(Parsed([field.value] + rest.value, rest.next))
  }

  /** Sized fields as the engine writes them, one after the other. */
  function EncodeFieldSeq(fs: seq<string>): seq<byte> {
    if fs == [] then [] else EncodeField(fs[0]) + EncodeFieldSeq(fs[1..])
  }

  /** The number of sized fields after a tag whose first field is a sized one. */
  function SizedCount(tag: string): nat
    requires StartsWithSizedField(tag)
  {
    if tag == TAG_LOAD_IC || tag == TAG_GET_OBJECT_PROPERTY then 2
    else if tag == TAG_STORE_IC || tag == TAG_SET_OBJECT_PROPERTY_TAINTED then 4
    else if tag == TAG_FRAME_LOCATION then 1
    else 3
  }

  /** A first field that reads well, then `m` more that read well, are `m + 1` fields that read well. */
  lemma ReadFieldsStep(read: Reader, input: seq<byte>, pos: nat, n: nat, m: nat, first: string, q: nat, more: seq<string>, next: nat)
    requires n == m + 1 && read(input, pos) == Ok(Parsed(first, q)) && ReadFields(read, input, q, m) == Ok(Parsed(more, next))
    ensures ReadFields(read, input, pos, n) == Ok(Parsed([first] + more, next))
  {
  }

  /** A first field that reads well, then `m` fields that fail, fail with their error. */
  lemma ReadFieldsLater(read: Reader, input: seq<byte>, pos: nat, m: nat, first: string, q: nat, e: LogError)
    requires read(input, pos) == Ok(Parsed(first, q)) && ReadFields(read, input, q, m) == Err(e)
    ensures ReadFields(read, input, pos, m + 1) == Err(e)
  {
  }

  /** A first field that fails makes any run of fields starting with it fail. */
  lemma ReadFieldsHead(read: Reader, input: seq<byte>, pos: nat, n: nat, e: LogError)
    requires n > 0 && read(input, pos) == Err(e)
    ensures ReadFields(read, input, pos, n) == Err(e)
  {
  }

  /** A run of fields that reads well starts with a field that reads well. */
  lemma ReadFieldsFirst(read: Reader, input: seq<byte>, pos: nat, n: nat, fs: seq<string>, p: nat) returns (q: nat)
    requires n > 0 && ReadFields(read, input, pos, n) == Ok(Parsed(fs, p))
    ensures |fs| == n && read(input, pos) == Ok(Parsed(fs[0], q))
    ensures ReadFields(read, input, q, n - 1) == Ok(Parsed(fs[1..], p))
  {
    q := read(input, pos).value.next;
  }

  /** After `k` fields that read well, a field that fails makes every longer run of fields fail with its error. */
  lemma {:induction false} FieldsStopAt(read: Reader, input: seq<byte>, pos: nat, k: nat, n: nat, fs: seq<string>, p: nat, e: LogError)
    requires k < n && ReadFields(read, input, pos, k) == Ok(Parsed(fs, p)) && read(input, p) == Err(e)
    ensures ReadFields(read, input, pos, n) == Err(e)
    decreases k
  {
    if k == 0 {
      assert p == pos;
      ReadFieldsHead(read, input, pos, n, e);
    } else {
      var q := ReadFieldsFirst(read, input, pos, k, fs, p);
      var m: nat := n - 1;
      FieldsStopAt(read, input, q, k - 1, m, fs[1..], p, e);
      ReadFieldsLater(read, input, pos, m, fs[0], q, e);
    }
  }

  /** The first of several encoded fields reads back as itself and leaves the others. */
  lemma FirstFieldAt(input: seq<byte>, pos: nat, fs: seq<string>, rest: seq<byte>, p: nat)
    requires fs != [] && Fits(fs[0]) && At(input, pos, EncodeFieldSeq(fs) + rest) && p == pos + |EncodeField(fs[0])|
    ensures Sized(input, pos) == Ok(Parsed(fs[0], p))
    ensures At(input, p, EncodeFieldSeq(fs[1..]) + rest) && |EncodeFieldSeq(fs)| == |EncodeField(fs[0])| + |EncodeFieldSeq(fs[1..])|
  {
    var head, tail := EncodeField(fs[0]), EncodeFieldSeq(fs[1..]);
    assert EncodeFieldSeq(fs) == head + tail;
    Utf8Codec.Associative(head, tail, rest);
    ReadSizedAt(input, pos, fs[0], SPACE, tail + rest, p);
  }

  /** Encoded fields read back as exactly those fields and end where their encoding ends. */
  lemma {:induction false} ReadFieldsAt(input: seq<byte>, pos: nat, fs: seq<string>, rest: seq<byte>, next: nat)
    requires forall i :: 0 <= i < |fs| ==> Fits(fs[i])
    requires At(input, pos, EncodeFieldSeq(fs) + rest) && next == pos + |EncodeFieldSeq(fs)|
    ensures ReadFields(Sized, input, pos, |fs|) == Ok(Parsed(fs, next))
    ensures At(input, next, rest)
    decreases |fs|
  {
    if fs == [] {
      assert EncodeFieldSeq(fs) + rest == rest;
    } else {
      var p := pos + |EncodeField(fs[0])|;
      var more := fs[1..];
      FirstFieldAt(input, pos, fs, rest, p);
      ReadFieldsAt(input, p, more, rest, next);
      assert [fs[0]] + more == fs;
      ReadFieldsStep(Sized, input, pos, |fs|, |more|, fs[0], p, more, next);
    }
  }

  /** The first of `n` sized fields that read well, pinned down. */
  lemma SizedFirst(input: seq<byte>, pos: nat, n: nat, fs: seq<string>, p: nat) returns (q: nat)
    requires n > 0 && ReadFields(Sized, input, pos, n) == Ok(Parsed(fs, p))
    ensures |fs| == n && pos <= |input| && ReadSized(input, pos) == Ok(Parsed(fs[0], q)) && q <= |input|
    ensures ReadFields(Sized, input, q, n - 1) == Ok(Parsed(fs[1..], p))
  {
    q := ReadFieldsFirst(Sized, input, pos, n, fs, p);
  }

  /** No fields read end where they start. */
  lemma NoFields(input: seq<byte>, pos: nat, fs: seq<string>, p: nat)
    requires ReadFields(Sized, input, pos, 0) == Ok(Parsed(fs, p))
    ensures p == pos
  {
  }

  // In every arm, after fields that read well, the first field that fails is the arm's error.

  lemma UndefinedPropertyFieldFails(input: seq<byte>, pos: nat, source: PropertySource, k: nat, fs: seq<string>, p: nat, e: LogError)
    requires pos <= |input| && k < 2 && ReadFields(Sized, input, pos, k) == Ok(Parsed(fs, p))
    requires p <= |input| && ReadSized(input, p) == Err(e)
    ensures ReadUndefinedProperty(input, pos, source) == Err(e)
  {
    if k == 0 {
      NoFields(input, pos, fs, p);
    } else {
      var q1 := SizedFirst(input, pos, k, fs, p);
      NoFields(input, q1, fs[1..], p);
    }
  }

  lemma AssignTaintedKeyFieldFails(input: seq<byte>, pos: nat, source: PropertySource, k: nat, fs: seq<string>, p: nat, e: LogError)
    requires pos <= |input| && k < 4 && ReadFields(Sized, input, pos, k) == Ok(Parsed(fs, p))
    requires p <= |input| && ReadSized(input, p) == Err(e)
    ensures ReadAssignTaintedKey(input, pos, source) == Err(e)
  {
    if k == 0 {
      NoFields(input, pos, fs, p);
    } else {
      var q1 := SizedFirst(input, pos, k, fs, p);
      var q2, q3 := ThreeFieldsFail(input, q1, k - 1, fs[1..], p, e);
    }
  }

  lemma LocationFieldFails(input: seq<byte>, pos: nat, e: LogError)
    requires pos <= |input| && ReadSized(input, pos) == Err(e)
    ensures ReadLocation(input, pos) == Err(e)
  {
  }

  /** The `k`-th of three fields fails; `ReadPolluted` and the `PROTOTYPE_GET` arm both read three. */
  lemma ThreeFieldsFail(input: seq<byte>, pos: nat, k: nat, fs: seq<string>, p: nat, e: LogError)
    returns (q1: nat, q2: nat)
    requires pos <= |input| && k < 3 && ReadFields(Sized, input, pos, k) == Ok(Parsed(fs, p))
    requires p <= |input| && ReadSized(input, p) == Err(e)
    ensures k == 0 ==> p == pos
    ensures k >= 1 ==> ReadSized(input, pos) == Ok(Parsed(fs[0], q1)) && q1 <= |input|
    ensures k == 1 ==> p == q1
    ensures k == 2 ==> ReadSized(input, q1) == Ok(Parsed(fs[1], q2)) && q2 == p
  {
    q1, q2 := 0, 0;
    if k == 0 {
      NoFields(input, pos, fs, p);
    } else {
      q1 := SizedFirst(input, pos, k, fs, p);
      if k == 1 {
        NoFields(input, q1, fs[1..], p);
      } else {
        q2 := SizedFirst(input, q1, k - 1, fs[1..], p);
        NoFields(input, q2, fs[1..][1..], p);
      }
    }
  }

  lemma PollutedFieldFails(input: seq<byte>, pos: nat, k: nat, fs: seq<string>, p: nat, e: LogError)
    requires pos <= |input| && k < 3 && ReadFields(Sized, input, pos, k) == Ok(Parsed(fs, p))
    requires p <= |input| && ReadSized(input, p) == Err(e)
    ensures ReadPolluted(input, pos) == Err(e)
  {
    var q1, q2 := ThreeFieldsFail(input, pos, k, fs, p, e);
  }

  /** The same for the three fields after `From_JS] PROTOTYPE_GET`. */
  lemma PrototypeGetFieldFails(input: seq<byte>, fields: nat, p0: nat, k: nat, fs: seq<string>, p: nat, e: LogError)
    requires fields <= |input| && ReadToken(input, fields) == Ok(Parsed(MSG_PROTOTYPE_GET, p0))
    requires p0 <= |input| && k < 3 && ReadFields(Sized, input, p0, k) == Ok(Parsed(fs, p))
    requires p <= |input| && ReadSized(input, p) == Err(e)
    ensures ReadRecord(input, fields, TAG_FROM_JS) == Err(e)
  {
    assert MSG_PROTOTYPE_GET[0] != MSG_DOCUMENT_LOAD[0];
    var q1, q2 := ThreeFieldsFail(input, p0, k, fs, p, e);
    DispatchFromJs(input, fields);
  }

  /** The same for the two fields after the sink type of `LogIfStringTainted]`. */
  lemma SinkReachedFieldFails(input: seq<byte>, fields: nat, sinkType: string, p0: nat, k: nat, fs: seq<string>, p: nat, e: LogError)
    requires fields <= |input| && ReadToken(input, fields) == Ok(Parsed(sinkType, p0))
    requires p0 <= |input| && k < 2 && ReadFields(Sized, input, p0, k) == Ok(Parsed(fs, p))
    requires p <= |input| && ReadSized(input, p) == Err(e)
    ensures ReadRecord(input, fields, TAG_STRING_TAINTED) == Err(e)
  {
    if k == 0 {
      NoFields(input, p0, fs, p);
    } else {
      var q1 := SizedFirst(input, p0, k, fs, p);
      NoFields(input, q1, fs[1..], p);
    }
    DispatchSinkReached(input, fields);
  }

  /**
   * In a record whose arm reads sized fields, the first field that fails, after any number of
   * fields that read well, makes the record fail with that field's error.
   */
  lemma RecordFieldFails(input: seq<byte>, fields: nat, tag: string, k: nat, fs: seq<string>, p: nat, e: LogError)
    requires fields <= |input| && StartsWithSizedField(tag) && k < SizedCount(tag)
    requires ReadFields(Sized, input, fields, k) == Ok(Parsed(fs, p)) && p <= |input| && ReadSized(input, p) == Err(e)
    ensures ReadRecord(input, fields, tag) == Err(e)
  {
    if tag == TAG_LOAD_IC || tag == TAG_GET_OBJECT_PROPERTY {
      var source := if tag == TAG_LOAD_IC then InlineCache else RuntimeObject;
      UndefinedPropertyFieldFails(input, fields, source, k, fs, p, e);
      DispatchUndefinedProperty(input, fields, source);
    } else if tag == TAG_STORE_IC || tag == TAG_SET_OBJECT_PROPERTY_TAINTED {
      var source := if tag == TAG_STORE_IC then InlineCache else RuntimeObject;
      AssignTaintedKeyFieldFails(input, fields, source, k, fs, p, e);
      DispatchAssignTaintedKey(input, fields, source);
    } else if tag == TAG_FRAME_LOCATION {
      NoFields(input, fields, fs, p);
      LocationFieldFails(input, fields, e);
      DispatchLocation(input, fields);
    } else {
      PollutedFieldFails(input, fields, k, fs, p, e);
      DispatchPolluted(input, fields);
    }
  }

  /** A message type or sink type token that is not well-formed UTF-8 fails its record with `Utf8`. */
  lemma TypeTokenFails(input: seq<byte>, fields: nat)
    requires fields <= |input| && ReadToken(input, fields).Err?
    ensures ReadRecord(input, fields, TAG_FROM_JS) == Err(Utf8)
    ensures ReadRecord(input, fields, TAG_STRING_TAINTED) == Err(Utf8)
  {
    DispatchFromJs(input, fields);
    DispatchSinkReached(input, fields);
  }

  /** A record at `pos` that fails after its tag fails the whole decode from `pos`. */
  lemma RecordFails(input: seq<byte>, pos: nat, tag: string, rest: seq<byte>, start: nat, fields: nat, e: LogError)
    requires IsToken(tag) && At(input, pos, [OPEN_BRACKET] + (EncodeToken(tag) + rest))
    requires start == pos + 1 && fields == start + |EncodeToken(tag)|
    requires fields <= |input| && ReadRecord(input, fields, tag) == Err(e)
    ensures DecodeFrom(input, pos) == Err(e)
  {
    RecordHeadAt(input, pos, tag, rest, start, fields);
    FieldsFail(input, pos, start, tag, fields, e);
  }

  /**
   * A sized-field record whose fields read well up to some field that fails, that one included,
   * fails the whole decode with that field's error, whichever of its fields it is.
   */
  lemma SizedRecordFieldFails(input: seq<byte>, pos: nat, tag: string, fs: seq<string>, rest: seq<byte>,
                               start: nat, fields: nat, p: nat, e: LogError)
    requires StartsWithSizedField(tag) && |fs| < SizedCount(tag) && forall i :: 0 <= i < |fs| ==> Fits(fs[i])
    requires At(input, pos, [OPEN_BRACKET] + (EncodeToken(tag) + (EncodeFieldSeq(fs) + rest)))
    requires start == pos + 1 && fields == start + |EncodeToken(tag)| && p == fields + |EncodeFieldSeq(fs)|
    requires p <= |input| && ReadSized(input, p) == Err(e)
    ensures DecodeFrom(input, pos) == Err(e)
  {
    SizedTagIsToken(tag);
    RecordHeadAt(input, pos, tag, EncodeFieldSeq(fs) + rest, start, fields);
    ReadFieldsAt(input, fields, fs, rest, p);
    RecordFieldFails(input, fields, tag, |fs|, fs, p, e);
    RecordFails(input, pos, tag, EncodeFieldSeq(fs) + rest, start, fields, e);
  }

  /** The same for the three fields after `From_JS] PROTOTYPE_GET`, */
  lemma PrototypeGetRecordFieldFails(input: seq<byte>, pos: nat, fs: seq<string>, rest: seq<byte>,
                                     start: nat, fields: nat, p0: nat, p: nat, e: LogError)
    requires |fs| < 3 && forall i :: 0 <= i < |fs| ==> Fits(fs[i])
    requires At(input, pos, [OPEN_BRACKET] + (EncodeToken(TAG_FROM_JS) + (EncodeToken(MSG_PROTOTYPE_GET) + (EncodeFieldSeq(fs) + rest))))
    requires start == pos + 1 && fields == start + |EncodeToken(TAG_FROM_JS)|
    requires p0 == fields + |EncodeToken(MSG_PROTOTYPE_GET)| && p == p0 + |EncodeFieldSeq(fs)|
    requires p <= |input| && ReadSized(input, p) == Err(e)
    ensures DecodeFrom(input, pos) == Err(e)
  {
    var after := EncodeToken(MSG_PROTOTYPE_GET) + (EncodeFieldSeq(fs) + rest);
    OtherTagsAreTokens();
    MessageTypesAreTokens();
    RecordHeadAt(input, pos, TAG_FROM_JS, after, start, fields);
    ReadTokenAt(input, fields, MSG_PROTOTYPE_GET, EncodeFieldSeq(fs) + rest, p0);
    ReadFieldsAt(input, p0, fs, rest, p);
    PrototypeGetFieldFails(input, fields, p0, |fs|, fs, p, e);
    RecordFails(input, pos, TAG_FROM_JS, after, start, fields, e);
  }

  /** and for the two fields after `LogIfStringTainted]` and its sink type. */
  lemma SinkReachedRecordFieldFails(input: seq<byte>, pos: nat, sinkType: string, fs: seq<string>, rest: seq<byte>,
                                    start: nat, fields: nat, p0: nat, p: nat, e: LogError)
    requires IsToken(sinkType) && |fs| < 2 && forall i :: 0 <= i < |fs| ==> Fits(fs[i])
    requires At(input, pos, [OPEN_BRACKET] + (EncodeToken(TAG_STRING_TAINTED) + (EncodeToken(sinkType) + (EncodeFieldSeq(fs) + rest))))
    requires start == pos + 1 && fields == start + |EncodeToken(TAG_STRING_TAINTED)|
    requires p0 == fields + |EncodeToken(sinkType)| && p == p0 + |EncodeFieldSeq(fs)|
    requires p <= |input| && ReadSized(input, p) == Err(e)
    ensures DecodeFrom(input, pos) == Err(e)
  {
    var after := EncodeToken(sinkType) + (EncodeFieldSeq(fs) + rest);
    OtherTagsAreTokens();
    RecordHeadAt(input, pos, TAG_STRING_TAINTED, after, start, fields);
    ReadTokenAt(input, fields, sinkType, EncodeFieldSeq(fs) + rest, p0);
    ReadFieldsAt(input, p0, fs, rest, p);
    SinkReachedFieldFails(input, fields, sinkType, p0, |fs|, fs, p, e);
    RecordFails(input, pos, TAG_STRING_TAINTED, after, start, fields, e);
  }

  /** A message type or sink type that is not well-formed UTF-8 fails the whole decode with `Utf8`. */
  lemma BadTypeTokenFails(input: seq<byte>, pos: nat, tag: string, bad: seq<byte>, rest: seq<byte>)
    requires tag == TAG_FROM_JS || tag == TAG_STRING_TAINTED
    requires forall k :: 0 <= k < |bad| ==> !IsAsciiWhitespace(bad[k])
    requires !Utf8Codec.WellFormed(bad)
    requires At(input, pos, [OPEN_BRACKET] + (EncodeToken(tag) + (bad + ([SPACE] + rest))))
    ensures DecodeFrom(input, pos) == Err(Utf8)
  {
    var start := pos + 1;
    var fields := start + |EncodeToken(tag)|;
    OtherTagsAreTokens();
    RecordHeadAt(input, pos, tag, bad + ([SPACE] + rest), start, fields);
    BadTokenAt(input, fields, bad, rest, fields + |bad|);
    TypeTokenFails(input, fields);
    RecordFails(input, pos, tag, bad + ([SPACE] + rest), start, fields, Utf8);
  }

  /** A length token that `usize::from_str` rejects fails its sized field with `IntParse`. */
  lemma BadLengthAt(input: seq<byte>, p: nat, length: string, rest: seq<byte>)
    requires IsToken(length) && ParseUsize(length).Err? && At(input, p, EncodeToken(length) + rest)
    ensures p <= |input| && ReadSized(input, p) == Err(IntParse)
  {
    ReadTokenAt(input, p, length, rest, p + |EncodeToken(length)|);
    ReadSizedBadLength(input, p, length, p + |EncodeToken(length)|);
  }

  /** Field bytes that are not well-formed UTF-8 fail their sized field with `Utf8`. */
  lemma BadTextAt(input: seq<byte>, p: nat, bytes: seq<byte>, b: byte, rest: seq<byte>)
    requires |bytes| <= USIZE_MAX && !Utf8Codec.WellFormed(bytes)
    requires At(input, p, EncodeToken(DecimalDigits(|bytes|)) + (bytes + ([b] + rest)))
    ensures p <= |input| && ReadSized(input, p) == Err(Utf8)
  {
    var d := DecimalDigits(|bytes|);
    var text := p + |EncodeToken(d)|;
    var end := text + |bytes|;
    ReadLengthAt(input, p, |bytes|, d, bytes + ([b] + rest), text);
    AtSplit(input, text, bytes, [b] + rest, end);
    AtSlice(input, text, bytes, end);
    ReadSizedBadText(input, p, d, text, |bytes|, end);
  }

  /** Hence in a sized-field record a bad length token in any field fails the decode with `IntParse`, */
  lemma LaterLengthFails(input: seq<byte>, pos: nat, tag: string, fs: seq<string>, length: string, rest: seq<byte>)
    requires StartsWithSizedField(tag) && |fs| < SizedCount(tag) && forall i :: 0 <= i < |fs| ==> Fits(fs[i])
    requires IsToken(length) && ParseUsize(length).Err?
    requires At(input, pos, [OPEN_BRACKET] + (EncodeToken(tag) + (EncodeFieldSeq(fs) + (EncodeToken(length) + rest))))
    ensures DecodeFrom(input, pos) == Err(IntParse)
  {
    var start := pos + 1;
    var fields := start + |EncodeToken(tag)|;
    var p := fields + |EncodeFieldSeq(fs)|;
    SizedTagIsToken(tag);
    RecordHeadAt(input, pos, tag, EncodeFieldSeq(fs) + (EncodeToken(length) + rest), start, fields);
    AtSplit(input, fields, EncodeFieldSeq(fs), EncodeToken(length) + rest, p);
    BadLengthAt(input, p, length, rest);
    SizedRecordFieldFails(input, pos, tag, fs, EncodeToken(length) + rest, start, fields, p, IntParse);
  }

  /** and ill-formed bytes in any field fail it with `Utf8`. */
  lemma LaterTextFails(input: seq<byte>, pos: nat, tag: string, fs: seq<string>, bytes: seq<byte>, b: byte, rest: seq<byte>)
    requires StartsWithSizedField(tag) && |fs| < SizedCount(tag) && forall i :: 0 <= i < |fs| ==> Fits(fs[i])
    requires |bytes| <= USIZE_MAX && !Utf8Codec.WellFormed(bytes)
    requires At(input, pos, [OPEN_BRACKET] + (EncodeToken(tag) + (EncodeFieldSeq(fs) + (EncodeToken(DecimalDigits(|bytes|)) + (bytes + ([b] + rest))))))
    ensures DecodeFrom(input, pos) == Err(Utf8)
  {
    var start := pos + 1;
    var fields := start + |EncodeToken(tag)|;
    var p := fields + |EncodeFieldSeq(fs)|;
    var field := EncodeToken(DecimalDigits(|bytes|)) + (bytes + ([b] + rest));
    SizedTagIsToken(tag);
    RecordHeadAt(input, pos, tag, EncodeFieldSeq(fs) + field, start, fields);
    AtSplit(input, fields, EncodeFieldSeq(fs), field, p);
    BadTextAt(input, p, bytes, b, rest);
    SizedRecordFieldFails(input, pos, tag, fs, field, start, fields, p, Utf8);
  }
}
