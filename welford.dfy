/** Welford's online algorithm for one channel, over exact reals: the loop body
    of `BaselineManager.update` as a step function, its fold over a batch, and
    the algebra that makes it correct (running mean, two-pass sum of squared
    deviations, monotone M2, batch splitting). */
module Welford {
  /** Welford's accumulator, the stored keys "count", "mean" and "M2" of one
      channel. */
  datatype Stat = Stat(count: nat, mean: real, m2: real)

  /** The accumulator created for a channel seen for the first time. */
  const Fresh: Stat := Stat(0, 0.0, 0.0)

  /** One value folded in: count first, then the mean, then M2 from the
      deviations before and after the mean moved. */
  function Step(s: Stat, x: real): Stat
  {
    var n := s.count + 1;
    var delta := x - s.mean;
    var mean := s.mean + delta / (n as real);
    var delta2 := x - mean;
    s.(count := n, mean := mean, m2 := s.m2 + delta * delta2)
  }

  /** The values folded in one at a time, in order. */
  function Fold(s: Stat, xs: seq<real>): Stat
    decreases |xs|
  {
    if xs == [] then s else Step(Fold(s, xs[..|xs| - 1]), xs[|xs| - 1])
  }

  function Sum(xs: seq<real>): real
    decreases |xs|
  {
    if xs == [] then 0.0 else Sum(xs[..|xs| - 1]) + xs[|xs| - 1]
  }

  function SumSq(xs: seq<real>): real
    decreases |xs|
  {
    if xs == [] then 0.0 else SumSq(xs[..|xs| - 1]) + xs[|xs| - 1] * xs[|xs| - 1]
  }

  /** The two-pass sum of squared deviations from `c`. */
  function SumSqDev(xs: seq<real>, c: real): real
    decreases |xs|
  {
    if xs == [] then 0.0
    else SumSqDev(xs[..|xs| - 1], c) + (xs[|xs| - 1] - c) * (xs[|xs| - 1] - c)
  }

  /** A correct square root, standing for `math.sqrt`. */
  ghost predicate IsSqrt(sqrt: real -> real)
  {
    forall v :: 0.0 <= v ==> 0.0 <= sqrt(v) && sqrt(v) * sqrt(v) == v
  }

  /** Folding advances the count by one per value. */
  lemma {:induction false} FoldCount(s: Stat, xs: seq<real>)
    ensures Fold(s, xs).count == s.count + |xs|
    decreases |xs|
  {
    if xs != [] {
      FoldCount(s, xs[..|xs| - 1]);
    }
  }

  /** The weighted total carried by an entry: `mean * count`. */
  function Total(s: Stat): real
  {
    s.mean * (s.count as real)
  }

  /** The step moves the weighted total by exactly the new value. */
  lemma StepMean(s: Stat, x: real)
    ensures Step(s, x).mean * ((s.count + 1) as real) == s.mean * (s.count as real) + x
  {
    var bigN := (s.count + 1) as real;
    var d := x - s.mean;
    var e := d / bigN;
    assert e * bigN == d;
    calc {
      Step(s, x).mean * bigN;
      (s.mean + e) * bigN;
      s.mean * bigN + e * bigN;
      s.mean * bigN + d;
      s.mean * (s.count as real) + x;
    }
  }

  /** `StepMean` in terms of `Total`. */
  lemma StepTotal(s: Stat, x: real)
    ensures Total(Step(s, x)) == Total(s) + x
  {
    StepMean(s, x);
    assert (Step(s, x).count as real) == ((s.count + 1) as real);
  }

  /** Any quantity that each step grows by the new value grows, over a fold,
      by the sum of the values. */
  lemma {:induction false} FoldAddsValues(f: Stat -> real, s: Stat, xs: seq<real>)
    requires forall t: Stat, x: real :: f(Step(t, x)) == f(t) + x
    ensures f(Fold(s, xs)) == f(s) + Sum(xs)
    decreases |xs|
  {
    if xs != [] {
      FoldAddsValues(f, s, xs[..|xs| - 1]);
    }
  }

  /** After folding, the weighted total `mean * count` is the prior total
      plus the sum of the values: the running mean is the mean of everything
      seen. */
  lemma FoldMean(s: Stat, xs: seq<real>)
    ensures Total(Fold(s, xs)) == Total(s) + Sum(xs)
  {
    forall t: Stat, x: real ensures Total(Step(t, x)) == Total(t) + x {
      StepTotal(t, x);
    }
    FoldAddsValues(t => Total(t), s, xs);
  }

  /** For a fresh channel the mean is the arithmetic mean of the values. */
  lemma FreshMean(xs: seq<real>)
    requires |xs| > 0
    ensures Fold(Fresh, xs).mean == Sum(xs) / (|xs| as real)
  {
    var t := Fold(Fresh, xs);
    EmptyTotals(Fresh);
    FoldMean(Fresh, xs);
    FoldCount(Fresh, xs);
    Quotient(t.mean, t.count as real, Sum(xs), |xs| as real);
  }

  /** A factor times `k` giving `total` is `total / n` when `k == n > 0`. */
  lemma Quotient(m: real, k: real, total: real, n: real)
    requires m * k == total && k == n && n > 0.0
    ensures m == total / n
  {
  }

  /** The step adds `delta^2 * n / (n + 1)` to M2, never a negative amount. */
  lemma StepM2(s: Stat, x: real)
    ensures Step(s, x).m2 == s.m2 + (x - s.mean) * (x - s.mean) * (s.count as real) / ((s.count + 1) as real)
    ensures Step(s, x).m2 >= s.m2
  {
    var bigN := (s.count + 1) as real;
    var n := s.count as real;
    var d := x - s.mean;
    var e := d / bigN;
    assert e * bigN == d;
    var mean' := s.mean + e;
    calc {
      d * (x - mean');
      d * (d - e);
      d * (e * bigN - e);
      d * e * n;
    }
    assert d * d * n / bigN == d * e * n;
    assert d * d >= 0.0;
    assert d * d * n >= 0.0;
  }

  /** M2 never decreases while folding. */
  lemma {:induction false} FoldM2Monotone(s: Stat, xs: seq<real>)
    ensures Fold(s, xs).m2 >= s.m2
    decreases |xs|
  {
    if xs != [] {
      FoldM2Monotone(s, xs[..|xs| - 1]);
      StepM2(Fold(s, xs[..|xs| - 1]), xs[|xs| - 1]);
    }
  }

  /** The second raw moment carried by an entry: `M2 + count * mean^2`. */
  function Moment(s: Stat): real
  {
    s.m2 + (s.count as real) * s.mean * s.mean
  }

  /** `M2 + count * mean^2` grows by exactly `x^2` per step. */
  lemma StepMoment(s: Stat, x: real)
    ensures Moment(Step(s, x)) == Moment(s) + x * x
  {
    var bigN := (s.count + 1) as real;
    var n := s.count as real;
    var m := s.mean;
    var d := x - m;
    var e := d / bigN;
    assert e * bigN == d;
    var t := Step(s, x);
    assert t.mean == m + e;
    StepM2(s, x);
    assert t.m2 == s.m2 + d * e * n by {
      assert d * d * n / bigN == d * e * n;
    }
    assert bigN * (m + e) * (m + e) == bigN * m * m + 2.0 * m * (e * bigN) + (e * bigN) * e;
    assert d * e * n + d * e == d * (e * bigN);
    assert (m + d) * (m + d) == m * m + 2.0 * m * d + d * d;
    calc {
      Moment(t);
      t.m2 + bigN * t.mean * t.mean;
      s.m2 + d * e * n + bigN * (m + e) * (m + e);
      s.m2 + d * e * n + bigN * m * m + 2.0 * m * d + d * e;
      s.m2 + d * d + bigN * m * m + 2.0 * m * d;
      s.m2 + n * m * m + (m + d) * (m + d);
      Moment(s) + x * x;
    }
  }

  /** Any quantity that each step grows by the square of the new value grows,
      over a fold, by the sum of the squares. */
  lemma {:induction false} FoldAddsSquares(f: Stat -> real, s: Stat, xs: seq<real>)
    requires forall t: Stat, x: real :: f(Step(t, x)) == f(t) + x * x
    ensures f(Fold(s, xs)) == f(s) + SumSq(xs)
    decreases |xs|
  {
    if xs != [] {
      FoldAddsSquares(f, s, xs[..|xs| - 1]);
    }
  }

  /** Folding adds the sum of the squared values to the raw moment. */
  lemma FoldMoment(s: Stat, xs: seq<real>)
    ensures Moment(Fold(s, xs)) == Moment(s) + SumSq(xs)
  {
    forall t: Stat, x: real ensures Moment(Step(t, x)) == Moment(t) + x * x {
      StepMoment(t, x);
    }
    FoldAddsSquares(t => Moment(t), s, xs);
  }

  /** The polynomial identity behind one step of `SumSqDevExpand`. */
  lemma ExpandOne(q: real, total: real, k: real, x: real, c: real)
    ensures (q - 2.0 * c * total + k * (c * c)) + (x - c) * (x - c)
         == (q + x * x) - 2.0 * c * (total + x) + (k + 1.0) * (c * c)
  {
  }

  lemma {:induction false} SumSqDevExpand(xs: seq<real>, c: real)
    ensures SumSqDev(xs, c) == SumSq(xs) - 2.0 * c * Sum(xs) + (|xs| as real) * (c * c)
    decreases |xs|
  {
    if xs != [] {
      var init := xs[..|xs| - 1];
      SumSqDevExpand(init, c);
      ExpandOne(SumSq(init), Sum(init), |init| as real, xs[|xs| - 1], c);
    }
  }

  /** `SumSqDevExpand` around the mean of an entry whose total, moment and
      count are those of `xs`. */
  lemma SumSqDevExpandAt(t: Stat, xs: seq<real>)
    requires Total(t) == Sum(xs)
    requires Moment(t) == SumSq(xs)
    requires t.count == |xs|
    ensures SumSqDev(xs, t.mean) == Moment(t) - 2.0 * t.mean * Total(t) + (t.count as real) * (t.mean * t.mean)
  {
    SumSqDevExpand(xs, t.mean);
  }

  /** The polynomial identity behind `TwoPass`. */
  lemma TwoPassAlgebra(m2: real, n: real, mu: real, total: real, q: real, dev: real)
    requires mu * n == total
    requires m2 + n * mu * mu == q
    requires dev == q - 2.0 * mu * total + n * (mu * mu)
    ensures m2 == dev
  {
  }

  /** The totals and moments of an entry that starts empty are zero. */
  lemma EmptyTotals(s: Stat)
    requires s.count == 0 && s.m2 == 0.0
    ensures Total(s) == 0.0 && Moment(s) == 0.0
  {
    assert (s.count as real) == 0.0;
  }

  /** The algebra behind `TwoPass`: `dev`, expanded around the entry's own mean,
      is its M2. */
  lemma TwoPassGlue(t: Stat, dev: real)
    requires dev == Moment(t) - 2.0 * t.mean * Total(t) + (t.count as real) * (t.mean * t.mean)
    ensures t.m2 == dev
  {
    TwoPassAlgebra(t.m2, t.count as real, t.mean, Total(t), Moment(t), dev);
  }

  /** `TwoPass` for any entry whose total, moment and count are those of the
      batch `xs`. */
  lemma TwoPassCore(t: Stat, xs: seq<real>)
    requires Total(t) == Sum(xs)
    requires Moment(t) == SumSq(xs)
    requires t.count == |xs|
    ensures t.m2 == SumSqDev(xs, t.mean)
  {
    SumSqDevExpandAt(t, xs);
    TwoPassGlue(t, SumSqDev(xs, t.mean));
  }

  /** For a channel that starts empty, the final M2 is the two-pass sum of
      squared deviations from the final mean. */
  lemma TwoPass(s: Stat, xs: seq<real>)
    requires s.count == 0 && s.m2 == 0.0
    ensures Fold(s, xs).m2 == SumSqDev(xs, Fold(s, xs).mean)
  {
    EmptyTotals(s);
    FoldMean(s, xs);
    FoldMoment(s, xs);
    FoldCount(s, xs);
    TwoPassCore(Fold(s, xs), xs);
  }

  /** Folding two pieces in turn is folding their concatenation. */
  lemma {:induction false} FoldSplit(s: Stat, xs: seq<real>, ys: seq<real>)
    ensures Fold(Fold(s, xs), ys) == Fold(s, xs + ys)
    decreases |ys|
  {
    if ys == [] {
      assert xs + ys == xs;
    } else {
      var init := ys[..|ys| - 1];
      assert (xs + ys)[..|xs + ys| - 1] == xs + init;
      assert (xs + ys)[|xs + ys| - 1] == ys[|ys| - 1];
      FoldSplit(s, xs, init);
    }
  }

  /** Extending the folded prefix by one value is one more step. */
  lemma FoldExtend(s: Stat, xs: seq<real>, i: nat)
    requires i < |xs|
    ensures Fold(s, xs[..i + 1]) == Step(Fold(s, xs[..i]), xs[i])
  {
    assert xs[..i + 1][..i] == xs[..i];
  }

  /** A sum of squares is never negative. */
  lemma {:induction false} SumSqDevNonNegative(xs: seq<real>, c: real)
    ensures SumSqDev(xs, c) >= 0.0
    decreases |xs|
  {
    if xs != [] {
      SumSqDevNonNegative(xs[..|xs| - 1], c);
      var d := xs[|xs| - 1] - c;
      assert d * d >= 0.0;
    }
  }
}
