/**
 * The analysis of a decoded log (src/main.rs:209-249, 287-320, 340-351): the undefined properties
 * seen once the page's document has started loading, collected into ordered sets, the records
 * reported for them, and the entries that concern sinks.
 *
 * An ordered set (`BTreeSet`) is a strictly ascending sequence; `Seqs.SortedUnique` shows that its
 * elements determine it, so stating the elements and the order states the set's iteration exactly.
 */
module Analysis {
  import opened Wrappers
  import Seqs
  import Text
  import LogParser
  import StackTrace
  import Paths

  type LogMessage = LogParser.LogMessage

  /**
   * `skip_while(|msg| !matches!(msg, DocumentStart))`: the messages from the first `DocumentStart`
   * on, or none when there is no `DocumentStart`.
   */
  function AfterDocumentStart(messages: seq<LogMessage>): (r: seq<LogMessage>)
    ensures |r| <= |messages| && r == messages[|messages| - |r|..]
    ensures r != [] ==> r[0] == LogParser.DocumentStart
    ensures forall k :: 0 <= k < |messages| - |r| ==> messages[k] != LogParser.DocumentStart
  {
    if messages == [] || messages[0] == LogParser.DocumentStart then messages
    else AfterDocumentStart(messages[1..])
  }

  /** The suffix found by a scan that stops at the first `DocumentStart`. */
  lemma {:induction false} SkipTo(messages: seq<LogMessage>, i: nat)
    requires i <= |messages| && (i < |messages| ==> messages[i] == LogParser.DocumentStart)
    requires forall k :: 0 <= k < i ==> messages[k] != LogParser.DocumentStart
    ensures AfterDocumentStart(messages) == messages[i..]
  {
    if i > 0 {
      assert messages[1..][i - 1..] == messages[i..];
      SkipTo(messages[1..], i - 1);
    }
  }

  /** Without a `DocumentStart`, nothing is left; otherwise what precedes the first one is dropped. */
  lemma IgnoresBeforeDocumentStart(before: seq<LogMessage>, after: seq<LogMessage>)
    requires LogParser.DocumentStart !in before
    ensures AfterDocumentStart(before) == []
    ensures AfterDocumentStart(before + [LogParser.DocumentStart] + after) == [LogParser.DocumentStart] + after
  {
    SkipTo(before, |before|);
    var all := before + [LogParser.DocumentStart] + after;
    SkipTo(all, |before|);
    assert all[|before|..] == [LogParser.DocumentStart] + after;
  }

  /** The scan of `skip_while`: the position of the first `DocumentStart`, or the end of the log. */
  method SkipToDocumentStart(messages: seq<LogMessage>) returns (i: nat)
    ensures i <= |messages| && messages[i..] == AfterDocumentStart(messages)
  {
    i := 0;
    while i < |messages| && messages[i] != LogParser.DocumentStart
      invariant i <= |messages|
      invariant forall k :: 0 <= k < i ==> messages[k] != LogParser.DocumentStart
    {
      i := i + 1;
    }
    SkipTo(messages, i);
  }

  /** The `(name, stack_trace)` pairs of the undefined-property messages. */
  function UndefinedPairs(messages: seq<LogMessage>): set<(string, string)> {
    set i | 0 <= i < |messages| && messages[i].UndefinedProperty? :: (messages[i].name, messages[i].stackTrace)
  }

  /** The names of the undefined-property messages. */
  function UndefinedNames(messages: seq<LogMessage>): set<string> {
    set i | 0 <= i < |messages| && messages[i].UndefinedProperty? :: messages[i].name
  }

  lemma PairsSnoc(messages: seq<LogMessage>, j: nat)
    requires j < |messages|
    ensures UndefinedPairs(messages[..j + 1])
         == UndefinedPairs(messages[..j])
          + (if messages[j].UndefinedProperty? then {(messages[j].name, messages[j].stackTrace)} else {})
  {
    var a, b := messages[..j + 1], messages[..j];
    assert forall i :: 0 <= i < j ==> a[i] == b[i];
    assert a[j] == messages[j];
  }

  lemma NamesSnoc(messages: seq<LogMessage>, j: nat)
    requires j < |messages|
    ensures UndefinedNames(messages[..j + 1])
         == UndefinedNames(messages[..j]) + (if messages[j].UndefinedProperty? then {messages[j].name} else {})
  {
    var a, b := messages[..j + 1], messages[..j];
    assert forall i :: 0 <= i < j ==> a[i] == b[i];
    assert a[j] == messages[j];
  }

  /** The ordered set of pairs after one message: its pair is inserted if it has one. */
  function WithPair(r: seq<(string, string)>, m: LogMessage): seq<(string, string)> {
    if m.UndefinedProperty? then Seqs.Insert(r, (m.name, m.stackTrace), Text.PairLess) else r
  }

  /** The ordered set of names after one message: its name is inserted if it has one. */
  function WithName(r: seq<string>, m: LogMessage): seq<string> {
    if m.UndefinedProperty? then Seqs.Insert(r, m.name, Text.StringLess) else r
  }

  /** One step of the insertion loop over pairs keeps the set ordered and its contents exact. */
  lemma AddPair(r: seq<(string, string)>, messages: seq<LogMessage>, j: nat)
    requires j < |messages| && Seqs.StrictlySorted(r, Text.PairLess)
    requires forall p :: p in r <==> p in UndefinedPairs(messages[..j])
    ensures Seqs.StrictlySorted(WithPair(r, messages[j]), Text.PairLess)
    ensures forall p :: p in WithPair(r, messages[j]) <==> p in UndefinedPairs(messages[..j + 1])
  {
    var m := messages[j];
    if m.UndefinedProperty? {
      Text.PairLessIsStrictTotalOrder();
      Seqs.InsertSorted(r, (m.name, m.stackTrace), Text.PairLess);
    }
    PairsSnoc(messages, j);
  }

  /** One step of the insertion loop over names keeps the set ordered and its contents exact. */
  lemma AddName(r: seq<string>, messages: seq<LogMessage>, j: nat)
    requires j < |messages| && Seqs.StrictlySorted(r, Text.StringLess)
    requires forall n :: n in r <==> n in UndefinedNames(messages[..j])
    ensures Seqs.StrictlySorted(WithName(r, messages[j]), Text.StringLess)
    ensures forall n :: n in WithName(r, messages[j]) <==> n in UndefinedNames(messages[..j + 1])
  {
    var m := messages[j];
    if m.UndefinedProperty? {
      Text.StringLessIsStrictTotalOrder();
      Seqs.InsertSorted(r, m.name, Text.StringLess);
    }
    NamesSnoc(messages, j);
  }

  /** `get_all_undefined_properties` gives the first components of what its sibling gives. */
  lemma NamesAreFirstComponents(messages: seq<LogMessage>)
    ensures UndefinedNames(messages) == set p | p in UndefinedPairs(messages) :: p.0
  {
    forall n | n in UndefinedNames(messages)
      ensures n in set p | p in UndefinedPairs(messages) :: p.0
    {
      var i :| 0 <= i < |messages| && messages[i].UndefinedProperty? && messages[i].name == n;
      assert (messages[i].name, messages[i].stackTrace) in UndefinedPairs(messages);
    }
  }

  /** The `for` loop that inserts every undefined-property pair of `messages` into an ordered set. */
  method InsertUndefinedPairs(messages: seq<LogMessage>) returns (r: seq<(string, string)>)
    ensures Seqs.StrictlySorted(r, Text.PairLess)
    ensures forall p :: p in r <==> p in UndefinedPairs(messages)
  {
    r := [];
    var j := 0;
    while j < |messages|
      invariant j <= |messages|
      invariant Seqs.StrictlySorted(r, Text.PairLess)
      invariant forall p :: p in r <==> p in UndefinedPairs(messages[..j])
    {
      AddPair(r, messages, j);
      r := WithPair(r, messages[j]);
      j := j + 1;
    }
    assert messages[..j] == messages;
  }

  /**
   * `get_all_undefined_properties_and_stack_traces`: the `(name, stack_trace)` pairs of the
   * undefined-property messages at or after the first `DocumentStart`, ascending and without
   * duplicates.
   */
  method GetAllUndefinedPropertiesAndStackTraces(log: LogParser.SiteLog) returns (r: seq<(string, string)>)
    ensures Seqs.StrictlySorted(r, Text.PairLess)
    ensures forall p :: p in r <==> p in UndefinedPairs(AfterDocumentStart(log.messages))
  {
    var i := SkipToDocumentStart(log.messages);
    r := InsertUndefinedPairs(log.messages[i..]);
  }

  /** The `for` loop that inserts every undefined-property name of `messages` into an ordered set. */
  method InsertUndefinedNames(messages: seq<LogMessage>) returns (r: seq<string>)
    ensures Seqs.StrictlySorted(r, Text.StringLess)
    ensures forall n :: n in r <==> n in UndefinedNames(messages)
  {
    r := [];
    var j := 0;
    while j < |messages|
      invariant j <= |messages|
      invariant Seqs.StrictlySorted(r, Text.StringLess)
      invariant forall n :: n in r <==> n in UndefinedNames(messages[..j])
    {
      AddName(r, messages, j);
      r := WithName(r, messages[j]);
      j := j + 1;
    }
    assert messages[..j] == messages;
  }

  /**
   * `get_all_undefined_properties`: the names of the undefined-property messages at or after the
   * first `DocumentStart`, ascending and without duplicates.
   */
  method GetAllUndefinedProperties(log: LogParser.SiteLog) returns (r: seq<string>)
    ensures Seqs.StrictlySorted(r, Text.StringLess)
    ensures forall n :: n in r <==> n in UndefinedNames(AfterDocumentStart(log.messages))
  {
    var i := SkipToDocumentStart(log.messages);
    r := InsertUndefinedNames(log.messages[i..]);
  }

  /** A tainted assignment outside the three built-in classes, or a sink that was reached. */
  predicate IsSinkRelated(m: LogMessage) {
    match m
    case AssignTaintedKey(className, _, _, _, _) => className != "Object" && className != "Array" && className != "Function"
    case SinkReached(_, _, _) => true
    case _ => false
  }

  /** `retain_sink_related_log_entries`: the sink-related messages of the whole log, in log order. */
  function RetainSinkRelatedLogEntries(log: LogParser.SiteLog): (r: seq<LogMessage>)
    ensures |r| <= |log.messages|
    ensures forall m :: m in r <==> m in log.messages && IsSinkRelated(m)
  {
    assert forall m :: m in Seqs.Filter(log.messages, IsSinkRelated) <==> m in log.messages && IsSinkRelated(m) by {
      forall m {
        Seqs.FilterMembership(log.messages, IsSinkRelated, m);
      }
    }
    Seqs.Filter(log.messages, IsSinkRelated)
  }

  /**
   * The retained entries are the subsequence of the log at exactly the positions of its
   * sink-related messages.
   */
  lemma RetainedInOrder(log: LogParser.SiteLog)
    ensures |RetainSinkRelatedLogEntries(log)| == |Seqs.FilterIndices(log.messages, IsSinkRelated)|
    ensures forall k :: 0 <= k < |RetainSinkRelatedLogEntries(log)| ==>
      RetainSinkRelatedLogEntries(log)[k] == log.messages[Seqs.FilterIndices(log.messages, IsSinkRelated)[k]]
    ensures forall m :: m in RetainSinkRelatedLogEntries(log) <==> m in log.messages && IsSinkRelated(m)
  {
    Seqs.FilterAtIndices(log.messages, IsSinkRelated);
  }

  lemma FilterDocumentStart()
    ensures Seqs.Filter([LogParser.DocumentStart], IsSinkRelated) == []
  {
    var one := [LogParser.DocumentStart];
    assert one[..0] == [];
    assert !IsSinkRelated(one[0]);
  }

  /** Unlike the undefined-property sets, the sink entries before a `DocumentStart` are kept. */
  lemma RetainKeepsBeforeDocumentStart(before: seq<LogMessage>, after: seq<LogMessage>)
    ensures RetainSinkRelatedLogEntries(LogParser.SiteLog(before + [LogParser.DocumentStart] + after))
         == Seqs.Filter(before, IsSinkRelated) + Seqs.Filter(after, IsSinkRelated)
  {
    Seqs.FilterAppend(before + [LogParser.DocumentStart], after, IsSinkRelated);
    Seqs.FilterAppend(before, [LogParser.DocumentStart], IsSinkRelated);
    FilterDocumentStart();
  }

  /** Where an undefined property was read: the normalized file path, line and column. */
  datatype PropertyLocation = PropertyLocation(filepath: string, line: nat, column: nat)

  datatype UndefinedProperty = UndefinedProperty(name: string, location: Option<PropertyLocation>, stackTrace: string)

  datatype UndefinedPropertiesResult = UndefinedPropertiesResult(url: string, properties: seq<UndefinedProperty>, count: nat)

  /**
   * The location reported for a stack trace: None exactly when the resolver fails; otherwise the
   * resolver's line and column with its path normalized.
   */
  function LocationOf(stackTrace: string): (r: Option<PropertyLocation>)
    ensures r.None? <==> StackTrace.FindLineColumn(stackTrace).None?
    ensures r.Some? ==> Paths.IsNormal(r.value.filepath)
    ensures r.Some? ==>
      var found := StackTrace.FindLineColumn(stackTrace).value;
      r.value.filepath == Paths.Normalized(found.filepath) && r.value.line == found.line && r.value.column == found.column
  {
    match StackTrace.FindLineColumn(stackTrace)
    case None => None
    case Some(found) =>
      Paths.PrefixIsNormal(found.filepath, |found.filepath|);
      Some(PropertyLocation(Paths.Normalized(found.filepath), found.line, found.column))
  }

  /** The `match find_line_number_column_number(..)` of one record, with the path normalized. */
  method ResolveLocation(stackTrace: string) returns (location: Option<PropertyLocation>)
    ensures location == LocationOf(stackTrace)
  {
    var found := StackTrace.FindLineColumn(stackTrace);
    if found.Some? {
      var filepath := Paths.NormalizePath(found.value.filepath);
      location := Some(PropertyLocation(filepath, found.value.line, found.value.column));
    } else {
      location := None;
    }
  }

  /** The record reported for one `(name, stack_trace)` pair. */
  function Record(pair: (string, string)): UndefinedProperty {
    UndefinedProperty(pair.0, LocationOf(pair.1), pair.1)
  }

  /** What a record was made from: its name and stack trace. */
  function Key(u: UndefinedProperty): (string, string) {
    (u.name, u.stackTrace)
  }

  /** The records of the pairs are exactly the pairs again once the locations are dropped. */
  lemma KeysOfRecords(pairs: seq<(string, string)>)
    ensures Seqs.Map(Seqs.Map(pairs, Record), Key) == pairs
  {
    var records := Seqs.Map(pairs, Record);
    forall i | 0 <= i < |pairs|
      ensures Key(records[i]) == pairs[i]
    {
      assert records[i] == Record(pairs[i]);
    }
  }

  /** Every record's location is the one resolved from its own stack trace. */
  lemma LocationsOfRecords(pairs: seq<(string, string)>)
    ensures forall u :: u in Seqs.Map(pairs, Record) ==> u.location == LocationOf(u.stackTrace)
  {
    var records := Seqs.Map(pairs, Record);
    forall u | u in records
      ensures u.location == LocationOf(u.stackTrace)
    {
      var i :| 0 <= i < |records| && records[i] == u;
      assert u == Record(pairs[i]);
    }
  }

  /**
   * The loop of `find_website_undefined_properties`: one record per pair, in the order of the
   * pairs, with the location resolved from the stack trace, and the count.
   */
  method AssembleUndefinedProperties(url: string, pairs: seq<(string, string)>) returns (result: UndefinedPropertiesResult)
    ensures result == UndefinedPropertiesResult(url, Seqs.Map(pairs, Record), |pairs|)
  {
    var properties: seq<UndefinedProperty> := [];
    var i := 0;
    while i < |pairs|
      invariant i <= |pairs| && properties == Seqs.Map(pairs[..i], Record)
    {
      var (name, stackTrace) := pairs[i];
      var location := ResolveLocation(stackTrace);
      assert pairs[..i + 1][..i] == pairs[..i];
      properties := properties + [UndefinedProperty(name, location, stackTrace)];
      i := i + 1;
    }
    assert pairs[..i] == pairs;
    result := UndefinedPropertiesResult(url, properties, |properties|);
  }

  /**
   * `find_website_undefined_properties` on the log of one visit: a record for each distinct
   * `(name, stack_trace)` pair seen after the first `DocumentStart`, in ascending pair order.
   */
  method FindWebsiteUndefinedProperties(url: string, log: LogParser.SiteLog) returns (result: UndefinedPropertiesResult)
    ensures result.url == url && result.count == |result.properties|
    ensures Seqs.StrictlySorted(Seqs.Map(result.properties, Key), Text.PairLess)
    ensures forall p :: p in Seqs.Map(result.properties, Key) <==> p in UndefinedPairs(AfterDocumentStart(log.messages))
    ensures forall u :: u in result.properties ==> u.location == LocationOf(u.stackTrace)
  {
    var pairs := GetAllUndefinedPropertiesAndStackTraces(log);
    result := AssembleUndefinedProperties(url, pairs);
    KeysOfRecords(pairs);
    LocationsOfRecords(pairs);
  }
}
