/**
 * `find_line_number_column_number` (src/main.rs:273-285): the source position named on the first
 * line of a JavaScript stack trace, found by the pattern
 *
 *     [\(]?(?:https?://)?([^\s:]+):(\d+):(\d+)[\)]?
 *
 * The model is a matcher for this one pattern with the regex engine's semantics: the leftmost
 * start position that admits a match wins, and at that position the alternatives are tried in
 * priority order (the optional `(` and the optional scheme are taken when they can be, `https`
 * before `http`). Every repetition in the pattern is greedy and is followed by a character its
 * own class excludes, so once the start of group 1 is fixed the rest of the match is determined.
 */
module StackTrace {
  import opened Wrappers
  import Text
  import LogParser

  /** The text before the first line feed: what `split('\n').next()` yields. */
  function Head(trace: string): (r: string)
    ensures '\n' !in r && |r| <= |trace| && r == trace[..|r|]
    ensures |r| < |trace| ==> trace[|r|] == '\n'
  {
    if trace == [] || trace[0] == '\n' then []
    else
      var rest := Head(trace[1..]);
      assert trace[1..][..|rest|] == trace[1..|rest| + 1];
      [trace[0]] + rest
  }

  /** `[^\s:]`: the class of group 1. */
  predicate IsPathChar(c: char) {
    !Text.IsWhitespace(c) && c != ':'
  }

  /** Where the longest run of path characters from `i` ends. */
  function PathEnd(s: string, i: nat): (r: nat)
    requires i <= |s|
    ensures i <= r <= |s| && (r < |s| ==> !IsPathChar(s[r]))
    ensures forall k :: i <= k < r ==> IsPathChar(s[k])
    decreases |s| - i
  {
    if i < |s| && IsPathChar(s[i]) then PathEnd(s, i + 1) else i
  }

  /** Where the longest run of ASCII digits from `i` ends. */
  function DigitEnd(s: string, i: nat): (r: nat)
    requires i <= |s|
    ensures i <= r <= |s| && (r < |s| ==> !LogParser.IsAsciiDigit(s[r]))
    ensures forall k :: i <= k < r ==> LogParser.IsAsciiDigit(s[k])
    decreases |s| - i
  {
    if i < |s| && LogParser.IsAsciiDigit(s[i]) then DigitEnd(s, i + 1) else i
  }

  /** A file path with the line and column that follow it. */
  datatype SourcePosition = SourcePosition(filepath: string, line: nat, column: nat)

  /**
   * `([^\s:]+):(\d+):(\d+)` at `s[q..e]`, `s[e + 1..d1]` and `s[d1 + 1..d2]`: a non-empty path
   * without `:` or whitespace, a colon, digits, a colon, digits.
   */
  predicate LocationAt(s: string, q: nat, e: nat, d1: nat, d2: nat) {
    q < e < d1 && d1 + 1 < d2 <= |s| && e + 1 < d1
    && (forall k :: q <= k < e ==> IsPathChar(s[k]))
    && s[e] == ':' && LogParser.AllDigits(s[e + 1..d1])
    && s[d1] == ':' && LogParser.AllDigits(s[d1 + 1..d2])
  }

  /** The head contains a path followed by `:line:column`. */
  ghost predicate HasLocation(s: string) {
    exists q: nat, e: nat, d1: nat, d2: nat :: LocationAt(s, q, e, d1, d2)
  }

  /** `loc` is read off an occurrence of the location pattern in `s`. */
  ghost predicate Describes(s: string, loc: SourcePosition) {
    exists q: nat, e: nat, d1: nat, d2: nat :: LocationAt(s, q, e, d1, d2)
      && loc == SourcePosition(s[q..e], LogParser.DigitsValue(s[e + 1..d1]), LogParser.DigitsValue(s[d1 + 1..d2]))
  }

  lemma DigitsOf(s: string, i: nat, j: nat)
    requires i <= j <= |s| && forall k :: i <= k < j ==> LogParser.IsAsciiDigit(s[k])
    ensures LogParser.AllDigits(s[i..j])
  {
    assert forall k :: 0 <= k < j - i ==> s[i..j][k] == s[i + k];
  }

  /** The rest of the pattern once group 1 starts at `q`: everything is determined by greedy runs. */
  function Captures(s: string, q: nat): (r: Option<SourcePosition>)
    requires q <= |s|
  {
    var e := PathEnd(s, q);
    if e == q || e == |s| || s[e] != ':' then None
    else
      var d1 := DigitEnd(s, e + 1);
      if d1 == e + 1 || d1 == |s| || s[d1] != ':' then None
      else
        var d2 := DigitEnd(s, d1 + 1);
        if d2 == d1 + 1 then None
        else Some(SourcePosition(s[q..e], LogParser.DigitsValue(s[e + 1..d1]), LogParser.DigitsValue(s[d1 + 1..d2])))
  }

  /** What the captures return is read off an occurrence of the pattern, with group 1 a path. */
  lemma CapturesDescribes(s: string, q: nat)
    requires q <= |s|
    ensures Captures(s, q).Some? ==> Describes(s, Captures(s, q).value) && IsPath(Captures(s, q).value.filepath)
  {
    var e := PathEnd(s, q);
    if e != q && e < |s| && s[e] == ':' {
      var d1 := DigitEnd(s, e + 1);
      if d1 != e + 1 && d1 < |s| && s[d1] == ':' {
        var d2 := DigitEnd(s, d1 + 1);
        if d2 != d1 + 1 {
          RunsLocate(s, q, e, d1, d2);
          DescribesAt(s, q, e, d1, d2);
          CapturesValue(s, q, e, d1, d2);
        } else {
          assert Captures(s, q).None?;
        }
      } else {
        assert Captures(s, q).None?;
      }
    } else {
      assert Captures(s, q).None?;
    }
  }

  /** What the captures return once the greedy runs have the right shape. */
  lemma CapturesValue(s: string, q: nat, e: nat, d1: nat, d2: nat)
    requires LocationAt(s, q, e, d1, d2) && e == PathEnd(s, q) && d1 == DigitEnd(s, e + 1) && d2 == DigitEnd(s, d1 + 1)
    ensures Captures(s, q) == Some(SourcePosition(s[q..e], LogParser.DigitsValue(s[e + 1..d1]), LogParser.DigitsValue(s[d1 + 1..d2])))
  {
  }

  /** The greedy runs from `q` lay out an occurrence of the pattern. */
  lemma RunsLocate(s: string, q: nat, e: nat, d1: nat, d2: nat)
    requires q <= |s| && e == PathEnd(s, q) && e != q && e < |s| && s[e] == ':'
    requires d1 == DigitEnd(s, e + 1) && d1 != e + 1 && d1 < |s| && s[d1] == ':'
    requires d2 == DigitEnd(s, d1 + 1) && d2 != d1 + 1
    ensures LocationAt(s, q, e, d1, d2)
  {
    DigitsOf(s, e + 1, d1);
    DigitsOf(s, d1 + 1, d2);
  }

  /** The position read off an occurrence of the pattern is described by it, with a path for group 1. */
  lemma DescribesAt(s: string, q: nat, e: nat, d1: nat, d2: nat)
    requires LocationAt(s, q, e, d1, d2)
    ensures Describes(s, SourcePosition(s[q..e], LogParser.DigitsValue(s[e + 1..d1]), LogParser.DigitsValue(s[d1 + 1..d2])))
    ensures IsPath(s[q..e])
  {
    assert forall k :: 0 <= k < e - q ==> s[q..e][k] == s[q + k];
  }

  /** A non-empty run of path characters. */
  predicate IsPath(p: string) {
    p != [] && forall k :: 0 <= k < |p| ==> IsPathChar(p[k])
  }

  /** `s[p..]` starts with `t`. */
  predicate StartsAt(s: string, p: nat, t: string) {
    p + |t| <= |s| && s[p..p + |t|] == t
  }

  /** Where group 1 may start after the optional scheme at `p`, in the order the engine tries them. */
  function SchemeStarts(s: string, p: nat): (r: seq<nat>)
    requires p <= |s|
    ensures |r| > 0 && r[|r| - 1] == p && forall k :: 0 <= k < |r| ==> r[k] <= |s|
  {
    (if StartsAt(s, p, "https://") then [p + 8] else [])
    + (if StartsAt(s, p, "http://") then [p + 7] else [])
    + [p]
  }

  /** Where group 1 may start for a match at `start`: with the optional `(` first, then without. */
  function GroupStarts(s: string, start: nat): (r: seq<nat>)
    requires start <= |s|
    ensures |r| > 0 && r[|r| - 1] == start && forall k :: 0 <= k < |r| ==> r[k] <= |s|
  {
    (if start < |s| && s[start] == '(' then SchemeStarts(s, start + 1) else []) + SchemeStarts(s, start)
  }

  /** The first alternative, in priority order, whose captures succeed. */
  function FirstCaptures(s: string, qs: seq<nat>): (r: Option<SourcePosition>)
    requires forall k :: 0 <= k < |qs| ==> qs[k] <= |s|
  {
    if qs == [] then None
    else
      match Captures(s, qs[0])
      case Some(loc) => Some(loc)
      case None => FirstCaptures(s, qs[1..])
  }

  /** The match that starts at `start`, if any. */
  function MatchAt(s: string, start: nat): (r: Option<SourcePosition>)
    requires start <= |s|
  {
    FirstCaptures(s, GroupStarts(s, start))
  }

  /** The first present entry of `ms` from `start` on. */
  function FirstSome<T>(ms: seq<Option<T>>, start: nat): (r: Option<T>)
    requires start <= |ms|
    decreases |ms| - start
  {
    if start == |ms| then None
    else if ms[start].Some? then ms[start]
    else FirstSome(ms, start + 1)
  }

  /** A present entry at or after `start` makes the first one exist. */
  lemma {:induction false} FirstSomeFinds<T>(ms: seq<Option<T>>, start: nat, q: nat)
    requires start <= q < |ms| && ms[q].Some?
    ensures FirstSome(ms, start).Some?
    decreases q - start
  {
    if ms[start].None? {
      FirstSomeFinds(ms, start + 1, q);
    }
  }

  /** The first present entry is an entry with only absent entries before it. */
  lemma {:induction false} FirstSomeIsFirst<T>(ms: seq<Option<T>>, start: nat)
    requires start <= |ms|
    ensures FirstSome(ms, start).Some? ==>
      exists i :: start <= i < |ms| && ms[i] == FirstSome(ms, start) && forall j :: start <= j < i ==> ms[j].None?
    decreases |ms| - start
  {
    if start < |ms| && ms[start].None? {
      FirstSomeIsFirst(ms, start + 1);
    }
  }

  /** The match at every start position, the end of the text included. */
  function Matches(s: string): (r: seq<Option<SourcePosition>>)
    ensures |r| == |s| + 1 && forall i :: 0 <= i <= |s| ==> r[i] == MatchAt(s, i)
  {
    seq(|s| + 1, i requires 0 <= i <= |s| => MatchAt(s, i))
  }

  lemma {:induction false} FirstCapturesDescribes(s: string, qs: seq<nat>)
    requires forall k :: 0 <= k < |qs| ==> qs[k] <= |s|
    ensures FirstCaptures(s, qs).Some? ==> Describes(s, FirstCaptures(s, qs).value) && IsPath(FirstCaptures(s, qs).value.filepath)
  {
    if qs != [] {
      CapturesDescribes(s, qs[0]);
      FirstCapturesDescribes(s, qs[1..]);
    }
  }

  /** The first match from `start` on is read off an occurrence of the pattern. */
  lemma {:induction false} MatchesDescribe(s: string, start: nat)
    requires start <= |s| + 1
    ensures FirstSome(Matches(s), start).Some? ==>
      Describes(s, FirstSome(Matches(s), start).value) && IsPath(FirstSome(Matches(s), start).value.filepath)
    decreases |s| + 1 - start
  {
    if start <= |s| {
      FirstCapturesDescribes(s, GroupStarts(s, start));
      MatchesDescribe(s, start + 1);
    }
  }

  /**
   * `Regex::captures`: the match at the leftmost start position that has one; whatever it
   * returns is read off an occurrence of the pattern.
   */
  function Search(s: string): (r: Option<SourcePosition>)
    ensures r.Some? ==> Describes(s, r.value) && IsPath(r.value.filepath)
  {
    MatchesDescribe(s, 0);
    FirstSome(Matches(s), 0)
  }

  /**
   * The source position named on the first line of `trace`, or None where the source returns an
   * error. A position it returns is read off an occurrence of the pattern in the first line: the
   * path is a non-empty run without `:` or whitespace, so a scheme is never part of it.
   */
  function FindLineColumn(trace: string): (r: Option<SourcePosition>)
    ensures r.Some? ==> Describes(Head(trace), r.value) && IsPath(r.value.filepath)
  {
    Search(Head(trace))
  }

  /** An occurrence of the pattern makes the captures at its group-1 start succeed. */
  lemma CapturesAt(s: string, q: nat, e: nat, d1: nat, d2: nat)
    requires LocationAt(s, q, e, d1, d2)
    ensures Captures(s, q).Some?
  {
    assert PathEnd(s, q) == e;
    assert forall k :: e + 1 <= k < d1 ==> s[e + 1..d1][k - (e + 1)] == s[k];
    assert forall k :: d1 + 1 <= k < d2 ==> s[d1 + 1..d2][k - (d1 + 1)] == s[k];
    assert DigitEnd(s, e + 1) == d1;
    assert DigitEnd(s, d1 + 1) > d1 + 1;
  }

  lemma {:induction false} FirstCapturesFinds(s: string, qs: seq<nat>, k: nat)
    requires forall j :: 0 <= j < |qs| ==> qs[j] <= |s|
    requires k < |qs| && Captures(s, qs[k]).Some?
    ensures FirstCaptures(s, qs).Some?
  {
    if k > 0 && Captures(s, qs[0]).None? {
      FirstCapturesFinds(s, qs[1..], k - 1);
    }
  }

  /**
   * The resolver succeeds exactly when the first line of the trace contains a non-empty run of
   * characters other than `:` and whitespace followed by `:digits:digits`.
   */
  lemma FindLineColumnSucceeds(trace: string)
    ensures FindLineColumn(trace).Some? <==> HasLocation(Head(trace))
  {
    var s := Head(trace);
    if HasLocation(s) {
      var q: nat, e: nat, d1: nat, d2: nat :| LocationAt(s, q, e, d1, d2);
      SearchFinds(s, q, e, d1, d2);
    }
  }

  /** An occurrence of the pattern anywhere makes the search succeed. */
  lemma SearchFinds(s: string, q: nat, e: nat, d1: nat, d2: nat)
    requires LocationAt(s, q, e, d1, d2)
    ensures Search(s).Some?
  {
    CapturesAt(s, q, e, d1, d2);
    var qs := GroupStarts(s, q);
    FirstCapturesFinds(s, qs, |qs| - 1);
    var ms := Matches(s);
    assert ms[q].Some?;
    FirstSomeFinds(ms, 0, q);
  }

  /** No start position before `i` has a match. */
  ghost predicate NoMatchBefore(s: string, i: nat) {
    forall j :: 0 <= j < i <= |s| ==> MatchAt(s, j).None?
  }

  /** No occurrence of `path:digits:digits` has its path start before `i`. */
  ghost predicate NoOccurrenceBefore(s: string, i: nat) {
    forall j, e, d1, d2 :: 0 <= j < i ==> !LocationAt(s, j, e, d1, d2)
  }

  /** The search returns the match at a start position before which no position has a match. */
  lemma SearchLeftmost(s: string)
    ensures Search(s).Some? ==> exists i :: 0 <= i <= |s| && Search(s) == MatchAt(s, i) && NoMatchBefore(s, i)
  {
    var ms := Matches(s);
    FirstSomeIsFirst(ms, 0);
    if Search(s).Some? {
      var i :| 0 <= i < |ms| && ms[i] == FirstSome(ms, 0) && forall j :: 0 <= j < i ==> ms[j].None?;
      assert Search(s) == MatchAt(s, i);
      assert forall j :: 0 <= j < i ==> ms[j] == MatchAt(s, j);
    }
  }

  /** An occurrence whose group 1 starts at `j` gives a match at `j`. */
  lemma MatchAtOccurrence(s: string, j: nat, e: nat, d1: nat, d2: nat)
    requires LocationAt(s, j, e, d1, d2)
    ensures MatchAt(s, j).Some?
  {
    CapturesAt(s, j, e, d1, d2);
    var qs := GroupStarts(s, j);
    FirstCapturesFinds(s, qs, |qs| - 1);
  }

  /** Where no position before `i` has a match, no occurrence has its path start before `i`. */
  lemma OccurrencesNotBefore(s: string, i: nat)
    requires i <= |s| && NoMatchBefore(s, i)
    ensures NoOccurrenceBefore(s, i)
  {
    forall j: nat, e: nat, d1: nat, d2: nat | j < i && LocationAt(s, j, e, d1, d2)
      ensures MatchAt(s, j).Some?
    {
      MatchAtOccurrence(s, j, e, d1, d2);
    }
  }

  /**
   * The resolver reports the leftmost match, as `Regex::captures` does: the match at a start
   * position of the first line before which no position has a match, so that no occurrence of
   * `path:digits:digits` there has its path start earlier.
   */
  lemma FindLineColumnLeftmost(trace: string)
    ensures FindLineColumn(trace).Some? ==>
      exists i :: 0 <= i <= |Head(trace)| && FindLineColumn(trace) == MatchAt(Head(trace), i)
        && NoMatchBefore(Head(trace), i) && NoOccurrenceBefore(Head(trace), i)
  {
    var s := Head(trace);
    SearchLeftmost(s);
    if Search(s).Some? {
      var i :| 0 <= i <= |s| && Search(s) == MatchAt(s, i) && NoMatchBefore(s, i);
      OccurrencesNotBefore(s, i);
    }
  }

  /** Only the text before the first line feed is examined. */
  lemma OnlyFirstLine(first: string, rest: string)
    requires '\n' !in first
    ensures FindLineColumn(first + "\n" + rest) == FindLineColumn(first)
  {
    var t := first + "\n" + rest;
    var h := Head(t);
    assert forall k :: 0 <= k < |first| ==> first[k] != '\n' && t[k] == first[k];
    assert t[|first|] == '\n';
    assert forall k :: 0 <= k < |h| ==> h[k] != '\n';
    assert |h| == |first|;
    assert h == t[..|first|] == first;
    assert Head(first) == first;
  }
}
