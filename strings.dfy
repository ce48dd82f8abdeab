/** The Python `str` operations the pipeline relies on: prefix and suffix tests,
    `str.replace` (which replaces every non-overlapping occurrence, scanning left
    to right) and the code-point order that `sorted` uses on strings. */
module Strings {

  /** `s.startswith(prefix)` */
  predicate StartsWith(s: string, prefix: string)
  {
    |prefix| <= |s| && s[..|prefix|] == prefix
  }

  /** `s.endswith(suffix)` */
  predicate EndsWith(s: string, suffix: string)
  {
    |suffix| <= |s| && s[|s| - |suffix|..] == suffix
  }

  /** A string starts with `prefix` exactly when it is `prefix` followed by
      the rest. */
  lemma StartsWithMeans(prefix: string, rest: string, s: string)
    ensures StartsWith(prefix + rest, prefix)
    ensures StartsWith(s, prefix) ==> s == prefix + s[|prefix|..]
  {
    assert (prefix + rest)[..|prefix|] == prefix;
  }

  /** A string ends with `suffix` exactly when it is something followed by
      `suffix`. */
  lemma EndsWithMeans(front: string, suffix: string, s: string)
    ensures EndsWith(front + suffix, suffix)
    ensures EndsWith(s, suffix) ==> s == s[..|s| - |suffix|] + suffix
  {
    assert (front + suffix)[|front + suffix| - |suffix|..] == suffix;
    if EndsWith(s, suffix) {
      assert s == s[..|s| - |suffix|] + s[|s| - |suffix|..];
    }
  }

  /** `pat` occurs in `s` starting at index `i`. */
  predicate OccursAt(s: string, pat: string, i: nat)
  {
    i + |pat| <= |s| && s[i..i + |pat|] == pat
  }

  /** `pat in s` */
  predicate Contains(s: string, pat: string)
  {
    exists i: nat | i <= |s| :: OccursAt(s, pat, i)
  }

  /** `s.replace(pat, rep)` for a non-empty `pat`: scan left to right; at an
      occurrence emit `rep` and skip past it, otherwise copy one character. */
  function ReplaceAll(s: string, pat: string, rep: string): string
    requires pat != []
    decreases |s|
  {
    if |s| < |pat| then s
    else if s[..|pat|] == pat then rep + ReplaceAll(s[|pat|..], pat, rep)
    else [s[0]] + ReplaceAll(s[1..], pat, rep)
  }

  /** A string without the pattern is returned unchanged. */
  lemma {:induction false} ReplaceAllAbsent(s: string, pat: string, rep: string)
    requires pat != []
    requires !Contains(s, pat)
    ensures ReplaceAll(s, pat, rep) == s
    decreases |s|
  {
    if |s| >= |pat| {
      assert !OccursAt(s, pat, 0);
      forall i: nat | OccursAt(s[1..], pat, i) ensures false {
        assert s[1..][i..i + |pat|] == s[i + 1..i + 1 + |pat|];
        assert OccursAt(s, pat, i + 1);
      }
      ReplaceAllAbsent(s[1..], pat, rep);
    }
  }

  /** A text without the pattern's first character has no occurrence. */
  lemma AbsentFirstChar(s: string, pat: string)
    requires pat != [] && pat[0] !in s
    ensures !Contains(s, pat)
  {
    forall i: nat | i <= |s| ensures !OccursAt(s, pat, i) {
      if i + |pat| <= |s| {
        assert s[i..i + |pat|][0] == s[i];
      }
    }
  }

  /** A text without the pattern's first character, followed by the pattern,
      becomes that text followed by the replacement. */
  lemma {:induction false} ReplaceAllBeforePattern(u: string, pat: string, rep: string)
    requires pat != [] && pat[0] !in u
    ensures ReplaceAll(u + pat, pat, rep) == u + rep
    decreases |u|
  {
    if u == [] {
      assert u + pat == pat + [];
      ReplaceAllLeading(pat, [], rep);
    } else {
      var t := u + pat;
      assert t[..|pat|][0] == u[0] && u[0] in u;
      assert t[..|pat|] != pat;
      assert t[1..] == u[1..] + pat;
      assert ReplaceAll(t, pat, rep) == [t[0]] + ReplaceAll(t[1..], pat, rep);
      assert pat[0] !in u[1..];
      ReplaceAllBeforePattern(u[1..], pat, rep);
      assert u == [u[0]] + u[1..];
    }
  }

  /** A text that starts with the pattern starts, after replacement, with the
      replacement, and the rest is replaced independently. */
  lemma ReplaceAllLeading(pat: string, rest: string, rep: string)
    requires pat != []
    ensures ReplaceAll(pat + rest, pat, rep) == rep + ReplaceAll(rest, pat, rep)
  {
    assert (pat + rest)[..|pat|] == pat;
    assert (pat + rest)[|pat|..] == rest;
  }

  /** Conditions under which no occurrence of `pat` can straddle, or sit
      inside, an inserted `rep`: `rep` is non-empty, its first character is
      not a later character of `pat`, `pat` is not inside `rep`, and no tail
      of `rep` is a beginning of `pat`. */
  predicate CleanReplacement(pat: string, rep: string)
  {
    && pat != [] && rep != []
    && (forall k :: 1 <= k < |pat| ==> pat[k] != rep[0])
    && !Contains(rep, pat)
    && (forall j :: 0 <= j < |rep| && |rep| - j < |pat| ==> rep[j..] != pat[..|rep| - j])
  }

  /** An occurrence at the front is replaced first. */
  lemma LeadingReplaced(t: string, pat: string, rep: string)
    requires pat != [] && rep != []
    ensures |t| >= |pat| && t[..|pat|] == pat ==>
      ReplaceAll(t, pat, rep) != [] && ReplaceAll(t, pat, rep)[0] == rep[0]
  {
  }

  /** Replacement never manufactures a prefix made of characters other than
      `rep[0]`: such a prefix of the result was already a prefix of the input. */
  lemma {:induction false} ReplaceAllKeepsPrefix(t: string, pat: string, rep: string, w: string)
    requires CleanReplacement(pat, rep)
    requires forall k :: 0 <= k < |w| ==> w[k] != rep[0]
    requires StartsWith(ReplaceAll(t, pat, rep), w)
    ensures StartsWith(t, w)
    decreases |t|
  {
    LeadingReplaced(t, pat, rep);
    if w != [] && |t| >= |pat| && t[..|pat|] != pat {
      var r := ReplaceAll(t[1..], pat, rep);
      assert ReplaceAll(t, pat, rep) == [t[0]] + r;
      assert r[..|w| - 1] == w[1..];
      ReplaceAllKeepsPrefix(t[1..], pat, rep, w[1..]);
      assert t[..|w|] == [t[0]] + t[1..][..|w| - 1];
    }
  }

  /** A clean replacement followed by a text without the pattern has none. */
  lemma NoneAfterReplacement(rep: string, rt: string, pat: string)
    requires CleanReplacement(pat, rep)
    requires !Contains(rt, pat)
    ensures !Contains(rep + rt, pat)
  {
    var r := rep + rt;
    forall i: nat | i <= |r| ensures !OccursAt(r, pat, i) {
      if i + |pat| <= |rep| {
        assert r[i..i + |pat|] == rep[i..i + |pat|];
        assert !OccursAt(rep, pat, i);
      } else if i < |rep| && i + |pat| <= |r| {
        assert r[i..|rep|] == rep[i..];
        assert r[i..i + |pat|][..|rep| - i] == r[i..|rep|];
        assert rep[i..] != pat[..|rep| - i];
      } else if i >= |rep| {
        assert !OccursAt(rt, pat, i - |rep|);
        assert rt[i - |rep|..] == r[i..];
      }
    }
  }

  /** A copied character that does not start an occurrence, followed by the
      replaced rest, starts none either. */
  lemma NoneAfterCopied(s: string, pat: string, rep: string)
    requires CleanReplacement(pat, rep)
    requires |s| >= |pat| && s[..|pat|] != pat
    requires !Contains(ReplaceAll(s[1..], pat, rep), pat)
    ensures !Contains([s[0]] + ReplaceAll(s[1..], pat, rep), pat)
  {
    var t := s[1..];
    var rt := ReplaceAll(t, pat, rep);
    var r := [s[0]] + rt;
    forall i: nat | i <= |r| ensures !OccursAt(r, pat, i) {
      if i == 0 {
        if StartsWith(rt, pat[1..]) {
          assert forall k :: 0 <= k < |pat| - 1 ==> pat[1..][k] == pat[k + 1];
          ReplaceAllKeepsPrefix(t, pat, rep, pat[1..]);
          assert t[..|pat| - 1] == pat[1..];
          assert s[..|pat|] == [s[0]] + t[..|pat| - 1];
        }
      } else {
        assert !OccursAt(rt, pat, i - 1);
        assert rt[i - 1..] == r[i..];
      }
    }
  }

  /** Every occurrence is replaced: when the replacement is clean, the result
      contains no occurrence of the pattern at all. */
  lemma {:induction false} ReplaceAllRemovesAll(s: string, pat: string, rep: string)
    requires CleanReplacement(pat, rep)
    ensures !Contains(ReplaceAll(s, pat, rep), pat)
    decreases |s|
  {
    if |s| < |pat| {
      assert ReplaceAll(s, pat, rep) == s;
      forall i: nat | i <= |s| ensures !OccursAt(s, pat, i) {}
    } else if s[..|pat|] == pat {
      ReplaceAllRemovesAll(s[|pat|..], pat, rep);
      NoneAfterReplacement(rep, ReplaceAll(s[|pat|..], pat, rep), pat);
    } else {
      ReplaceAllRemovesAll(s[1..], pat, rep);
      NoneAfterCopied(s, pat, rep);
    }
  }

  /** Python's `<=` on `str`: lexicographic by code point, a proper prefix
      sorting first. */
  predicate StrLe(a: string, b: string)
  {
    a == [] || (b != [] && (a[0] < b[0] || (a[0] == b[0] && StrLe(a[1..], b[1..]))))
  }

  lemma {:induction false} StrLeTotal(a: string, b: string)
    ensures StrLe(a, b) || StrLe(b, a)
  {
    if a != [] && b != [] && a[0] == b[0] {
      StrLeTotal(a[1..], b[1..]);
    }
  }

  lemma {:induction false} StrLeTransitive(a: string, b: string, c: string)
    requires StrLe(a, b) && StrLe(b, c)
    ensures StrLe(a, c)
  {
    if a != [] && a[0] == b[0] && b[0] == c[0] {
      StrLeTransitive(a[1..], b[1..], c[1..]);
    }
  }

  lemma {:induction false} StrLeAntisymmetric(a: string, b: string)
    requires StrLe(a, b) && StrLe(b, a)
    ensures a == b
  {
    if a != [] {
      StrLeAntisymmetric(a[1..], b[1..]);
    }
  }
}
