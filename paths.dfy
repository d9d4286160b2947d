/**
 * `normalize_path` (src/main.rs:251-271): every run of `/` collapses to one `/`, except that the
 * slash after a `:` may be followed by one more, so that a scheme such as `http://` survives.
 *
 * The loop keeps a character unless it is a `/` directly after a `/`; such a second slash is
 * still kept when the output so far ends in `:/`. `Kept` states the same decision from the input
 * alone, and `Normalized` is the input with exactly the kept characters.
 */
module Paths {
  import Seqs

  /** Whether the loop keeps the character at `i`: decided by it and the two characters before it. */
  predicate Kept(path: string, i: nat)
    requires i < |path|
  {
    path[i] != '/' || i == 0 || path[i - 1] != '/' || (i >= 2 && path[i - 2] == ':')
  }

  /** The kept characters among the first `n`. */
  function NormalizedPrefix(path: string, n: nat): (r: string)
    requires n <= |path|
    ensures |r| <= n
  {
    if n == 0 then []
    else NormalizedPrefix(path, n - 1) + (if Kept(path, n - 1) then [path[n - 1]] else [])
  }

  /** The normalized path: the input with exactly the kept characters. */
  function Normalized(path: string): (r: string)
    ensures |r| <= |path|
  {
    NormalizedPrefix(path, |path|)
  }

  /** What `result.ends_with(":/")` tests. */
  predicate EndsWithColonSlash(s: string) {
    |s| >= 2 && s[|s| - 2] == ':' && s[|s| - 1] == '/'
  }

  /** The output so far ends in the last character read: a dropped `/` follows a kept `/`. */
  lemma {:induction false} PrefixLast(path: string, n: nat)
    requires 1 <= n <= |path|
    ensures NormalizedPrefix(path, n) != []
    ensures NormalizedPrefix(path, n)[|NormalizedPrefix(path, n)| - 1] == path[n - 1]
  {
    if !Kept(path, n - 1) {
      PrefixLast(path, n - 1);
    }
  }

  /** The output so far ends in `:/` exactly when the input read so far does. */
  lemma {:induction false} PrefixColonSlash(path: string, n: nat)
    requires n <= |path|
    ensures EndsWithColonSlash(NormalizedPrefix(path, n)) <==> n >= 2 && path[n - 2] == ':' && path[n - 1] == '/'
  {
    if n >= 2 {
      PrefixLast(path, n - 1);
      if !Kept(path, n - 1) {
        PrefixColonSlash(path, n - 1);
      }
    }
  }

  /** The `while let` loop over a peekable iterator of the characters, as the source runs it. */
  method NormalizePath(path: string) returns (result: string)
    ensures result == Normalized(path)
  {
    result := [];
    var i := 0;
    while i < |path|
      invariant i <= |path|
      invariant result == NormalizedPrefix(path, i)
      invariant i < |path| ==> Kept(path, i)
    {
      var c := path[i];
      i := i + 1;
      result := result + [c];
      if c == '/' {
        while i < |path| && path[i] == '/'
          invariant 1 <= i <= |path| && path[i - 1] == '/'
          invariant result == NormalizedPrefix(path, i)
        {
          PrefixColonSlash(path, i);
          if EndsWithColonSlash(result) {
            break;
          }
          i := i + 1;
        }
        if i < |path| && path[i] == '/' {
          PrefixColonSlash(path, i);
        }
      }
    }
  }

  predicate NotSlash(c: char) {
    c != '/'
  }

  /** Normalization removes `/` characters and nothing else. */
  lemma {:induction false} PrefixOnlyDropsSlashes(path: string, n: nat)
    requires n <= |path|
    ensures Seqs.Filter(NormalizedPrefix(path, n), NotSlash) == Seqs.Filter(path[..n], NotSlash)
  {
    if n > 0 {
      PrefixOnlyDropsSlashes(path, n - 1);
      var c := path[n - 1];
      assert path[..n] == path[..n - 1] + [c];
      DropStep(NormalizedPrefix(path, n - 1), path[..n - 1], c, Kept(path, n - 1));
    }
  }

  /** Appending a character to one side and, unless it is a `/`, to the other keeps the non-`/` text equal. */
  lemma DropStep(out: string, read: string, c: char, keep: bool)
    requires Seqs.Filter(out, NotSlash) == Seqs.Filter(read, NotSlash) && (keep || c == '/')
    ensures Seqs.Filter(out + (if keep then [c] else []), NotSlash) == Seqs.Filter(read + [c], NotSlash)
  {
    Seqs.FilterAppend(read, [c], NotSlash);
    Seqs.FilterAppend(out, if keep then [c] else [], NotSlash);
    assert Seqs.Filter([c], NotSlash) == Seqs.Filter([][..0], NotSlash) + (if NotSlash(c) then [c] else []);
  }

  /** Deleting every `/` from the input and from the output gives the same string. */
  lemma OnlySlashesRemoved(path: string)
    ensures Seqs.Filter(Normalized(path), NotSlash) == Seqs.Filter(path, NotSlash)
  {
    PrefixOnlyDropsSlashes(path, |path|);
    assert path[..|path|] == path;
  }

  /** A path the loop leaves unchanged: every character is kept. */
  predicate IsNormal(s: string) {
    forall i :: 0 <= i < |s| ==> Kept(s, i)
  }

  lemma {:induction false} NormalPrefixFixed(s: string, n: nat)
    requires IsNormal(s) && n <= |s|
    ensures NormalizedPrefix(s, n) == s[..n]
  {
    if n > 0 {
      NormalPrefixFixed(s, n - 1);
      assert s[..n] == s[..n - 1] + [s[n - 1]];
    }
  }

  /** A normal path is its own normalization. */
  lemma NormalFixed(s: string)
    requires IsNormal(s)
    ensures Normalized(s) == s
  {
    NormalPrefixFixed(s, |s|);
    assert s[..|s|] == s;
  }

  /** Every output so far is normal: it has no `//` except directly after `:`, and no `///` at all. */
  lemma {:induction false} PrefixIsNormal(path: string, n: nat)
    requires n <= |path|
    ensures IsNormal(NormalizedPrefix(path, n))
  {
    if n > 0 {
      PrefixIsNormal(path, n - 1);
      var out := NormalizedPrefix(path, n - 1);
      if Kept(path, n - 1) {
        var c := path[n - 1];
        var next := out + [c];
        forall i | 0 <= i < |out|
          ensures Kept(next, i)
        {
          assert Kept(out, i);
        }
        if c == '/' && |out| > 0 {
          PrefixLast(path, n - 1);
          if path[n - 2] == '/' {
            assert n - 1 >= 2 && path[n - 3] == ':';
            PrefixLast(path, n - 2);
            assert Kept(path, n - 2);
            assert out == NormalizedPrefix(path, n - 2) + [path[n - 2]];
            assert next[|out| - 2] == ':';
          }
        }
        assert Kept(next, |out|);
      } else {
        assert out + [] == out;
      }
    }
  }

  /** Normalizing twice is normalizing once. */
  lemma NormalizeIdempotent(path: string)
    ensures Normalized(Normalized(path)) == Normalized(path)
  {
    PrefixIsNormal(path, |path|);
    NormalFixed(Normalized(path));
  }

  /** A run of `k` slashes. */
  function Slashes(k: nat): (r: string)
    ensures |r| == k && forall i :: 0 <= i < k ==> r[i] == '/'
  {
    if k == 0 then [] else Slashes(k - 1) + ['/']
  }

  /** The prefix of the output is decided by the prefix of the input. */
  lemma {:induction false} PrefixDepends(a: string, b: string, n: nat)
    requires n <= |a| && n <= |b| && a[..n] == b[..n]
    ensures NormalizedPrefix(a, n) == NormalizedPrefix(b, n)
  {
    if n > 0 {
      assert a[..n - 1] == a[..n][..n - 1] && b[..n - 1] == b[..n][..n - 1];
      PrefixDepends(a, b, n - 1);
      assert a[n - 1] == a[..n][n - 1] && b[n - 1] == b[..n][n - 1];
      if n >= 2 {
        assert a[n - 2] == a[..n][n - 2] && b[n - 2] == b[..n][n - 2];
      }
      if n >= 3 {
        assert a[n - 3] == a[..n][n - 3] && b[n - 3] == b[..n][n - 3];
      }
    }
  }

  /** Inside the run: the first slash is kept, the second only after a `:`, the rest never. */
  lemma {:induction false} RunPrefix(w: string, p: string, k: nat, j: nat)
    requires |p| + k <= |w| && w[..|p|] == p && (forall i :: |p| <= i < |p| + k ==> w[i] == '/')
    requires p == [] || p[|p| - 1] != '/'
    requires 1 <= j <= k
    ensures NormalizedPrefix(w, |p| + j) == Normalized(p) + (if j >= 2 && p != [] && p[|p| - 1] == ':' then "//" else "/")
  {
    var m := |p|;
    if j == 1 {
      PrefixDepends(w, p, m);
      assert p[..m] == p;
      if m > 0 {
        assert w[m - 1] == w[..m][m - 1];
      }
    } else {
      RunPrefix(w, p, k, j - 1);
      if m > 0 {
        assert w[m - 1] == w[..m][m - 1];
      }
    }
  }

  /** After the run: the characters of `q` are kept exactly as in `q` alone. */
  lemma {:induction false} AfterRunPrefix(w: string, start: nat, q: string, m: nat)
    requires start >= 1 && start + |q| == |w| && w[start..] == q && w[start - 1] == '/'
    requires q == [] || q[0] != '/'
    requires m <= |q|
    ensures NormalizedPrefix(w, start + m) == NormalizedPrefix(w, start) + NormalizedPrefix(q, m)
  {
    if m > 0 {
      AfterRunPrefix(w, start, q, m - 1);
      var i := m - 1;
      assert w[start + i] == q[i];
      if i >= 1 {
        assert w[start + i - 1] == q[i - 1];
      }
      if i >= 2 {
        assert w[start + i - 2] == q[i - 2];
      }
      assert Kept(w, start + i) == Kept(q, i);
    }
  }

  /**
   * The run rule: a maximal run of `k` slashes becomes one `/`, or exactly `//` when it has at
   * least two slashes and directly follows a `:`; the text around it is normalized on its own.
   */
  lemma NormalizeRun(p: string, k: nat, q: string)
    requires k >= 1 && (p == [] || p[|p| - 1] != '/') && (q == [] || q[0] != '/')
    ensures Normalized(p + Slashes(k) + q)
         == Normalized(p) + (if k >= 2 && p != [] && p[|p| - 1] == ':' then "//" else "/") + Normalized(q)
  {
    var w := p + Slashes(k) + q;
    RunLayout(p, k, q, w);
    NormalizeRunAt(w, p, k, q);
  }

  /** The run rule for a string laid out as `p`, then `k` slashes, then `q`. */
  lemma NormalizeRunAt(w: string, p: string, k: nat, q: string)
    requires k >= 1 && (p == [] || p[|p| - 1] != '/') && (q == [] || q[0] != '/')
    requires |w| == |p| + k + |q| && w[..|p|] == p && w[|p| + k..] == q && w[|p| + k - 1] == '/'
    requires forall i :: |p| <= i < |p| + k ==> w[i] == '/'
    ensures Normalized(w) == Normalized(p) + (if k >= 2 && p != [] && p[|p| - 1] == ':' then "//" else "/") + Normalized(q)
  {
    var start := |p| + k;
    RunPrefix(w, p, k, k);
    AfterRunPrefix(w, start, q, |q|);
  }

  /** Where the parts of `p + Slashes(k) + q` lie. */
  lemma RunLayout(p: string, k: nat, q: string, w: string)
    requires k >= 1 && w == p + Slashes(k) + q
    ensures |w| == |p| + k + |q| && w[..|p|] == p && w[|p| + k..] == q && w[|p| + k - 1] == '/'
    ensures forall i :: |p| <= i < |p| + k ==> w[i] == '/'
  {
    assert forall i :: |p| <= i < |p| + k ==> w[i] == Slashes(k)[i - |p|];
  }

  /** The two cases the source's comments name. */
  lemma NormalizeExamples()
    ensures Normalized("a//b") == "a/b"
    ensures Normalized("http:///x") == "http://x"
  {
    assert "a//b" == "a" + Slashes(2) + "b";
    NormalizeRun("a", 2, "b");
    assert "http:///x" == "http:" + Slashes(3) + "x";
    NormalizeRun("http:", 3, "x");
    NormalFixed("http:");
  }
}
