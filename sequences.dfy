/** List operations the pipeline writes with comprehensions, slicing and
    `sorted`: filtering in order, Python's `s[:n]`, and a stable descending
    sort on a string key. */
module Sequences {
  import opened Strings

  /** `[x for x in s if p(x)]`, defined element by element from the back so that
      a loop that appends as it scans is specified by it directly. */
  function Filter<T(==)>(s: seq<T>, p: T -> bool): (r: seq<T>)
    ensures |r| <= |s|
    ensures forall i :: 0 <= i < |r| ==> p(r[i]) && r[i] in s
    ensures forall i :: 0 <= i < |s| && p(s[i]) ==> s[i] in r
  {
    if s == [] then []
    else Filter(s[..|s| - 1], p) + (if p(s[|s| - 1]) then [s[|s| - 1]] else [])
  }

  /** An element is in the filtered sequence exactly when it is in the
      sequence and satisfies the predicate. */
  lemma FilterMember<T>(s: seq<T>, p: T -> bool, x: T)
    ensures x in Filter(s, p) <==> x in s && p(x)
  {
    var r := Filter(s, p);
    if x in r {
      var i :| 0 <= i < |r| && r[i] == x;
    }
    if x in s && p(x) {
      var i :| 0 <= i < |s| && s[i] == x;
    }
  }

  /** Filtering keeps order: the filtered concatenation is the concatenation
      of the filtered parts. */
  lemma {:induction false} FilterAppend<T>(a: seq<T>, b: seq<T>, p: T -> bool)
    ensures Filter(a + b, p) == Filter(a, p) + Filter(b, p)
    decreases |b|
  {
    if b != [] {
      var b' := b[..|b| - 1];
      assert (a + b)[..|a + b| - 1] == a + b';
      FilterAppend(a, b', p);
    } else {
      assert a + b == a;
    }
  }

  /** Nothing passes the filter when no element satisfies the predicate. */
  lemma {:induction false} FilterNone<T>(s: seq<T>, p: T -> bool)
    requires forall i :: 0 <= i < |s| ==> !p(s[i])
    ensures Filter(s, p) == []
    decreases |s|
  {
    if s != [] {
      FilterNone(s[..|s| - 1], p);
    }
  }

  /** Python's `s[:n]`, also what pandas' `head(n)` does: a negative `n` drops
      that many elements from the end. */
  function Prefix<T>(s: seq<T>, n: int): (r: seq<T>)
    ensures n >= 0 ==> |r| == (if n <= |s| then n else |s|)
    ensures n < 0 ==> |r| == (if |s| + n >= 0 then |s| + n else 0)
    ensures r == s[..|r|]
  {
    if n >= 0 then (if n <= |s| then s[..n] else s)
    else (if |s| + n >= 0 then s[..|s| + n] else [])
  }

  /** Ordered from largest to smallest key (`sorted(..., reverse=True)`). */
  ghost predicate SortedDesc<T>(s: seq<T>, key: T -> string)
  {
    forall i, j :: 0 <= i < j < |s| ==> StrLe(key(s[j]), key(s[i]))
  }

  /** Place `x` before the first element whose key is not larger, so that
      among equal keys earlier elements stay first. */
  function Insert<T>(x: T, s: seq<T>, key: T -> string): seq<T>
  {
    if s == [] || StrLe(key(s[0]), key(x)) then [x] + s
    else [s[0]] + Insert(x, s[1..], key)
  }

  /** Stable insertion sort, largest key first. */
  function SortDesc<T>(s: seq<T>, key: T -> string): seq<T>
  {
    if s == [] then [] else Insert(s[0], SortDesc(s[1..], key), key)
  }

  lemma {:induction false} InsertCorrect<T>(x: T, s: seq<T>, key: T -> string)
    requires SortedDesc(s, key)
    ensures SortedDesc(Insert(x, s, key), key)
    ensures multiset(Insert(x, s, key)) == multiset(s) + multiset{x}
  {
    var r := Insert(x, s, key);
    if s == [] {
    } else if StrLe(key(s[0]), key(x)) {
      forall j | 0 <= j < |s| ensures StrLe(key(s[j]), key(x)) {
        if j > 0 { StrLeTransitive(key(s[j]), key(s[0]), key(x)); }
      }
      assert r == [x] + s;
    } else {
      StrLeTotal(key(s[0]), key(x));
      var tail := Insert(x, s[1..], key);
      assert s == [s[0]] + s[1..];
      InsertCorrect(x, s[1..], key);
      forall j | 0 <= j < |tail| ensures StrLe(key(tail[j]), key(s[0])) {
        assert tail[j] in multiset(tail);
        assert tail[j] == x || tail[j] in multiset(s[1..]);
        if tail[j] != x {
          var k :| 0 <= k < |s[1..]| && s[1..][k] == tail[j];
          assert s[k + 1] == tail[j];
        }
      }
      assert r == [s[0]] + tail;
    }
  }

  /** `SortDesc` sorts and only reorders. */
  lemma {:induction false} SortDescCorrect<T>(s: seq<T>, key: T -> string)
    ensures SortedDesc(SortDesc(s, key), key)
    ensures multiset(SortDesc(s, key)) == multiset(s)
  {
    if s != [] {
      SortDescCorrect(s[1..], key);
      InsertCorrect(s[0], SortDesc(s[1..], key), key);
      assert s == [s[0]] + s[1..];
    }
  }

  /** Taking the first `n` of a descending list keeps the largest keys: every
      element left out is no larger than every element kept. */
  lemma {:induction false} PrefixOfSortedIsTop<T>(s: seq<T>, key: T -> string, n: int, x: T)
    requires SortedDesc(s, key)
    requires x in s && x !in Prefix(s, n)
    ensures forall y :: y in Prefix(s, n) ==> StrLe(key(x), key(y))
  {
    var p := Prefix(s, n);
    var j :| 0 <= j < |s| && s[j] == x;
    forall y | y in p ensures StrLe(key(x), key(y)) {
      var i :| 0 <= i < |p| && p[i] == y;
      assert s[i] == y;
    }
  }

  /** A prefix takes no element more often than the whole has it. */
  lemma PrefixMultiset<T>(s: seq<T>, k: nat)
    requires k <= |s|
    ensures multiset(s[..k]) <= multiset(s)
  {
    assert s == s[..k] + s[k..];
  }

  /** The first `n` after a descending sort has `min(n, |s|)` elements, none
      taken more often than it occurs in `s`. */
  lemma TopCount<T>(s: seq<T>, key: T -> string, n: nat)
    ensures |Prefix(SortDesc(s, key), n)| == (if n <= |s| then n else |s|)
    ensures multiset(Prefix(SortDesc(s, key), n)) <= multiset(s)
  {
    var sorted := SortDesc(s, key);
    SortDescCorrect(s, key);
    assert |sorted| == |s| by {
      assert |multiset(sorted)| == |multiset(s)|;
    }
    PrefixMultiset(sorted, |Prefix(sorted, n)|);
  }

  /** The first `n` after a descending sort: elements of `s`, still in
      descending order, and none left out larger than one kept. */
  lemma TopByKey<T>(s: seq<T>, key: T -> string, n: nat)
    ensures SortedDesc(Prefix(SortDesc(s, key), n), key)
    ensures forall x :: x in Prefix(SortDesc(s, key), n) ==> x in s
    ensures forall x, y :: x in s && x !in Prefix(SortDesc(s, key), n) && y in Prefix(SortDesc(s, key), n) ==>
      StrLe(key(x), key(y))
  {
    var sorted := SortDesc(s, key);
    SortDescCorrect(s, key);
    var top := Prefix(sorted, n);
    forall x | x in top ensures x in s {
      assert x in multiset(sorted);
    }
    forall x, y | x in s && x !in top && y in top ensures StrLe(key(x), key(y)) {
      assert x in multiset(sorted);
      PrefixOfSortedIsTop(sorted, key, n, x);
    }
  }

  /** `TopByKey` on the elements of `s` that satisfy `p`: what is kept comes
      from `s` and satisfies `p`, and no satisfying element left out has a
      larger key than one kept. */
  lemma TopOfFiltered<T>(s: seq<T>, p: T -> bool, key: T -> string, n: nat)
    ensures forall x :: x in Prefix(SortDesc(Filter(s, p), key), n) ==> x in s && p(x)
    ensures forall x, y ::
      (x in s && p(x) && x !in Prefix(SortDesc(Filter(s, p), key), n) && y in Prefix(SortDesc(Filter(s, p), key), n))
      ==> StrLe(key(x), key(y))
  {
    var c := Filter(s, p);
    TopByKey(c, key, n);
    forall x | x in Prefix(SortDesc(c, key), n) ensures x in s && p(x) {
      FilterMember(s, p, x);
    }
    forall x, y | x in s && p(x) && x !in Prefix(SortDesc(c, key), n) && y in Prefix(SortDesc(c, key), n)
      ensures StrLe(key(x), key(y))
    {
      FilterMember(s, p, x);
    }
  }
}
