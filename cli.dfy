/**
 * The two argument and input helpers of the command line: `Commands::parse_custom_property`
 * (src/main.rs:109-115) and the filter that `main` applies to the lines of a URL file
 * (src/main.rs:127-132).
 */
module Cli {
  import opened Wrappers
  import Seqs
  import Text

  /** `str::split_once`: the text before and after the first `c`, or None when there is no `c`. */
  function SplitOnce(s: string, c: char): (r: Option<(string, string)>)
    ensures r.None? <==> c !in s
    ensures r.Some? ==> r.value.0 + [c] + r.value.1 == s && c !in r.value.0
  {
    if s == [] then None
    else if s[0] == c then Some(([], s[1..]))
    else
      match SplitOnce(s[1..], c)
      case None => None
      case Some((before, after)) =>
        assert s == [s[0]] + s[1..];
        Some(([s[0]] + before, after))
  }

  /**
   * A `KEY[=VALUE]` argument: the key and the value split at the first `=`, or the whole argument
   * as the key when there is no `=`. It never reports an error.
   */
  function ParseCustomProperty(s: string): (r: Result<(string, Option<string>), string>)
    ensures r.Ok?
    ensures '=' !in s ==> r.value == (s, None)
    ensures '=' in s ==> r.value.1.Some? && r.value.0 + "=" + r.value.1.value == s && '=' !in r.value.0
  {
    match SplitOnce(s, '=')
    case Some((key, value)) => Ok((key, Some(value)))
    case None => Ok((s, None))
  }

  /** A line of the URL file that is visited: not blank, and not a `#` comment. */
  predicate IsUrlLine(line: string) {
    Text.Trim(line) != [] && !(Text.TrimStart(line) != [] && Text.TrimStart(line)[0] == '#')
  }

  /** The lines of the URL file that are visited, in file order. */
  function UrlLines(lines: seq<string>): (r: seq<string>)
    ensures |r| <= |lines|
    ensures forall line :: line in r <==> line in lines && IsUrlLine(line)
  {
    assert forall line :: line in Seqs.Filter(lines, IsUrlLine) <==> line in lines && IsUrlLine(line) by {
      forall line {
        Seqs.FilterMembership(lines, IsUrlLine, line);
      }
    }
    Seqs.Filter(lines, IsUrlLine)
  }

  /** A blank line is never visited. */
  lemma BlankLineSkipped(line: string)
    requires Text.IsBlank(line)
    ensures !IsUrlLine(line)
  {
    Text.TrimEmpty(line);
  }

  /** A line with a non-blank character is visited exactly when its first one is not `#`. */
  lemma UrlLineAt(line: string, k: nat)
    requires k < |line| && Text.IsBlank(line[..k]) && !Text.IsWhitespace(line[k])
    ensures IsUrlLine(line) <==> line[k] != '#'
  {
    Text.TrimEmpty(line);
    Text.TrimStartAt(line, k);
    assert line[k..][0] == line[k];
  }

  /**
   * The visited lines are the subsequence of the file's lines at exactly the positions of the
   * lines that are visited.
   */
  lemma UrlLinesInOrder(lines: seq<string>)
    ensures |UrlLines(lines)| == |Seqs.FilterIndices(lines, IsUrlLine)|
    ensures forall k :: 0 <= k < |UrlLines(lines)| ==> UrlLines(lines)[k] == lines[Seqs.FilterIndices(lines, IsUrlLine)[k]]
    ensures forall line :: line in UrlLines(lines) <==> line in lines && IsUrlLine(line)
  {
    Seqs.FilterAtIndices(lines, IsUrlLine);
  }
}
