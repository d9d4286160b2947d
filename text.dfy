/**
 * The parts of Rust's `str` that the analysis relies on: Unicode whitespace (`char::is_whitespace`,
 * which is also what the regex class `\s` matches), `trim_start`/`trim`, and the ordering of
 * `String` and of string pairs that a `BTreeSet` iterates in.
 */
module Text {
  import Seqs

  /** The Unicode `White_Space` property. */
  predicate IsWhitespace(c: char) {
    var n := c as int;
    (0x09 <= n <= 0x0D) || n == 0x20 || n == 0x85 || n == 0xA0 || n == 0x1680
    || (0x2000 <= n <= 0x200A) || n == 0x2028 || n == 0x2029 || n == 0x202F || n == 0x205F
    || n == 0x3000
  }

  /** Only whitespace, the empty string included. */
  predicate IsBlank(s: string) {
    forall k :: 0 <= k < |s| ==> IsWhitespace(s[k])
  }

  /** `str::trim_start`: the suffix after the leading whitespace. */
  function TrimStart(s: string): (r: string)
    ensures |r| <= |s| && r == s[|s| - |r|..]
    ensures IsBlank(s[..|s| - |r|])
    ensures r != [] ==> !IsWhitespace(r[0])
  {
    if s != [] && IsWhitespace(s[0]) then
      var r := TrimStart(s[1..]);
      BlankBefore(s, r);
      r
    else s
  }

  /** `str::trim_end`: the prefix before the trailing whitespace. */
  function TrimEnd(s: string): (r: string)
    ensures |r| <= |s| && r == s[..|r|]
    ensures IsBlank(s[|r|..])
    ensures r != [] ==> !IsWhitespace(r[|r| - 1])
  {
    if s != [] && IsWhitespace(s[|s| - 1]) then
      var r := TrimEnd(s[..|s| - 1]);
      BlankAfter(s, r);
      r
    else s
  }

  /** A leading whitespace character followed by a blank run before `r` is a blank run before `r`. */
  lemma BlankBefore(s: string, r: string)
    requires s != [] && IsWhitespace(s[0])
    requires |r| <= |s| - 1 && r == s[1..][|s| - 1 - |r|..] && IsBlank(s[1..][..|s| - 1 - |r|])
    ensures r == s[|s| - |r|..] && IsBlank(s[..|s| - |r|])
  {
    assert forall k :: 1 <= k < |s| - |r| ==> s[k] == s[1..][..|s| - 1 - |r|][k - 1];
    assert forall k :: 0 <= k < |s| - |r| ==> s[..|s| - |r|][k] == s[k];
  }

  /** A blank run after `r` followed by a trailing whitespace character is a blank run after `r`. */
  lemma BlankAfter(s: string, r: string)
    requires s != [] && IsWhitespace(s[|s| - 1])
    requires |r| <= |s| - 1 && r == s[..|s| - 1][..|r|] && IsBlank(s[..|s| - 1][|r|..])
    ensures r == s[..|r|] && IsBlank(s[|r|..])
  {
    assert forall k :: |r| <= k < |s| - 1 ==> s[k] == s[..|s| - 1][|r|..][k - |r|];
    assert forall k :: 0 <= k < |s| - |r| ==> s[|r|..][k] == s[|r| + k];
  }

  /** `str::trim`: whitespace removed from both ends. */
  function Trim(s: string): string {
    TrimEnd(TrimStart(s))
  }

  lemma {:induction false} BlankTrimStart(s: string)
    requires IsBlank(s)
    ensures TrimStart(s) == []
  {
    if s != [] {
      assert IsBlank(s[1..]) by {
        assert forall k :: 0 <= k < |s| - 1 ==> s[1..][k] == s[k + 1];
      }
      BlankTrimStart(s[1..]);
    }
  }

  /** The leading whitespace stops before the first non-whitespace character `s[k]`. */
  lemma TrimStartStopsAt(s: string, k: nat)
    requires k < |s| && !IsWhitespace(s[k])
    ensures |s| - |TrimStart(s)| <= k
  {
    var n := |s| - |TrimStart(s)|;
    assert forall j :: 0 <= j < n ==> s[..n][j] == s[j];
  }

  lemma {:induction false} TrimEndKeeps(t: string)
    requires t != [] && !IsWhitespace(t[0])
    ensures TrimEnd(t) != []
  {
    if IsWhitespace(t[|t| - 1]) {
      TrimEndKeeps(t[..|t| - 1]);
    }
  }

  /** A string trims to nothing exactly when it is blank. */
  lemma TrimEmpty(s: string)
    ensures Trim(s) == [] <==> IsBlank(s)
  {
    if IsBlank(s) {
      BlankTrimStart(s);
    } else {
      var k :| 0 <= k < |s| && !IsWhitespace(s[k]);
      TrimStartStopsAt(s, k);
      TrimEndKeeps(TrimStart(s));
    }
  }

  /** `trim_start` drops exactly the whitespace in front of the first non-whitespace character. */
  lemma TrimStartAt(s: string, k: nat)
    requires k <= |s| && IsBlank(s[..k]) && (k < |s| ==> !IsWhitespace(s[k]))
    ensures TrimStart(s) == s[k..]
  {
    if k < |s| {
      TrimStartStopsAt(s, k);
    }
    TrimStartSkips(s, k);
  }

  /** `trim_start` drops at least a blank prefix. */
  lemma {:induction false} TrimStartSkips(s: string, k: nat)
    requires k <= |s| && IsBlank(s[..k])
    ensures |s| - |TrimStart(s)| >= k
  {
    if k > 0 {
      assert IsWhitespace(s[..k][0]);
      var u := s[1..][..k - 1];
      forall j | 0 <= j < |u|
        ensures IsWhitespace(u[j])
      {
        assert u[j] == s[..k][j + 1];
      }
      TrimStartSkips(s[1..], k - 1);
    }
  }

  /** The order of Rust's `String`: lexicographic by code point, a proper prefix first. */
  predicate StringLess(a: string, b: string) {
    if a == [] then b != []
    else if b == [] then false
    else if a[0] != b[0] then a[0] < b[0]
    else StringLess(a[1..], b[1..])
  }

  /** The order of a pair of strings: by the first component, then by the second. */
  predicate PairLess(p: (string, string), q: (string, string)) {
    StringLess(p.0, q.0) || (p.0 == q.0 && StringLess(p.1, q.1))
  }

  lemma {:induction false} StringLessIrreflexive(a: string)
    ensures !StringLess(a, a)
  {
    if a != [] {
      StringLessIrreflexive(a[1..]);
    }
  }

  lemma {:induction false} StringLessTransitive(a: string, b: string, c: string)
    requires StringLess(a, b) && StringLess(b, c)
    ensures StringLess(a, c)
  {
    if a != [] && a[0] == b[0] && b[0] == c[0] {
      StringLessTransitive(a[1..], b[1..], c[1..]);
    }
  }

  lemma {:induction false} StringLessTotal(a: string, b: string)
    ensures a == b || StringLess(a, b) || StringLess(b, a)
  {
    if a != [] && b != [] && a[0] == b[0] {
      StringLessTotal(a[1..], b[1..]);
      assert a == [a[0]] + a[1..] && b == [b[0]] + b[1..];
    }
  }

  /** The `String` order is a strict total order, so a sorted sequence of strings is an ordered set. */
  lemma StringLessIsStrictTotalOrder()
    ensures Seqs.IsStrictTotalOrder(StringLess)
  {
    forall a {
      StringLessIrreflexive(a);
    }
    forall a, b, c | StringLess(a, b) && StringLess(b, c) {
      StringLessTransitive(a, b, c);
    }
    forall a, b {
      StringLessTotal(a, b);
    }
  }

  /** So is the order of string pairs. */
  lemma PairLessIsStrictTotalOrder()
    ensures Seqs.IsStrictTotalOrder(PairLess)
  {
    StringLessIsStrictTotalOrder();
    forall p: (string, string), q: (string, string), r: (string, string) | PairLess(p, q) && PairLess(q, r)
      ensures PairLess(p, r)
    {
      if StringLess(p.0, q.0) && StringLess(q.0, r.0) {
        StringLessTransitive(p.0, q.0, r.0);
      }
    }
  }
}
