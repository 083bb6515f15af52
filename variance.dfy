/**
 * The one-pass variance accumulator org.jenetics.stat.Variance (Welford's
 * algorithm), together with the sample count and mean it inherits from
 * Mean. Doubles are exact reals with NaN as an explicit value.
 */
module Stat {
  import opened RealSums

  /** A Java double: NaN, or a finite value taken as an exact real. */
  datatype Double = NaN | Val(v: real)

  /** IEEE addition on the model: NaN absorbs. */
  function Add(a: Double, b: Double): Double
  {
    if a.Val? && b.Val? then Val(a.v + b.v) else NaN
  }

  /** Subtraction; NaN absorbs. */
  function Sub(a: Double, b: Double): Double
  {
    if a.Val? && b.Val? then Val(a.v - b.v) else NaN
  }

  /** Multiplication; NaN absorbs. */
  function Mul(a: Double, b: Double): Double
  {
    if a.Val? && b.Val? then Val(a.v * b.v) else NaN
  }

  /** Division; zero divided by zero is NaN, and no other division by zero arises. */
  function Div(a: Double, b: Double): Double
    requires b == Val(0.0) ==> a == Val(0.0) || a == NaN
  {
    if a.Val? && b.Val? && b.v != 0.0 then Val(a.v / b.v) else NaN
  }

  // ---------------------------------------------------------------------
  // The statistics of a sample, as the class comment defines them.

  /** The sum of the squares of the samples. */
  function SumSquares(xs: seq<real>): real
  {
    if xs == [] then 0.0 else SumSquares(xs[..|xs| - 1]) + xs[|xs| - 1] * xs[|xs| - 1]
  }

  /** The sum of the squared deviations of the samples from `c`. */
  function SquaredDeviations(xs: seq<real>, c: real): real
  {
    if xs == [] then 0.0
    else SquaredDeviations(xs[..|xs| - 1], c) + (xs[|xs| - 1] - c) * (xs[|xs| - 1] - c)
  }

  /** The arithmetic mean of a non-empty sample. */
  function Mean(xs: seq<real>): real
    requires |xs| > 0
  {
    Sum(xs) / |xs| as real
  }

  /** The sum of the squared deviations from the mean. */
  function M2(xs: seq<real>): real
    requires |xs| > 0
  {
    SquaredDeviations(xs, Mean(xs))
  }

  /** The sample variance: the squared deviations from the mean over N - 1. */
  function SampleVariance(xs: seq<real>): real
    requires |xs| > 1
  {
    M2(xs) / (|xs| - 1) as real
  }

  /** Squared deviations from any point, through the sum and the sum of squares. */
  lemma {:induction false} SquaredDeviationsExpand(xs: seq<real>, c: real)
    ensures SquaredDeviations(xs, c) == SumSquares(xs) - 2.0 * c * Sum(xs) + |xs| as real * c * c
  {
    if xs != [] {
      var init, x := xs[..|xs| - 1], xs[|xs| - 1];
      SquaredDeviationsExpand(init, c);
      ExpandStep(SquaredDeviations(init, c), SumSquares(init), Sum(init), |init| as real, x, c);
    }
  }

  /** Squared deviations are never negative. */
  lemma {:induction false} SquaredDeviationsNonNegative(xs: seq<real>, c: real)
    ensures SquaredDeviations(xs, c) >= 0.0
  {
    if xs != [] {
      SquaredDeviationsNonNegative(xs[..|xs| - 1], c);
      var d := xs[|xs| - 1] - c;
      assert d * d >= 0.0;
    }
  }

  /** The product of a quotient and its divisor is the dividend. */
  lemma DivMul(a: real, d: real)
    requires d != 0.0
    ensures (a / d) * d == a
  {
  }

  /** The mean is the one value that, N times over, makes up the sum. */
  lemma MeanUnique(xs: seq<real>, m: real)
    requires |xs| > 0
    ensures m * |xs| as real == Sum(xs) <==> m == Mean(xs)
  {
    var n := |xs| as real;
    DivMul(Sum(xs), n);
    if m * n == Sum(xs) {
      Cancel(m, Mean(xs), n);
    }
  }

  // ---------------------------------------------------------------------
  // Polynomial identities behind the update and merge formulas.

  /** One step of the expansion of squared deviations. */
  lemma ExpandStep(sd: real, q: real, s: real, n: real, x: real, c: real)
    requires sd == q - 2.0 * c * s + n * c * c
    ensures sd + (x - c) * (x - c) == (q + x * x) - 2.0 * c * (s + x) + (n + 1.0) * c * c
  {
  }

  /** A non-zero factor cancels. */
  lemma Cancel(a: real, b: real, k: real)
    requires k != 0.0 && a * k == b * k
    ensures a == b
  {
    assert (a - b) * k == 0.0;
  }

  /** The Welford update keeps the closed form: mean times count is the sum, m2 is the sum of squares less N times the squared mean. */
  lemma WelfordAlgebra(s: real, s1: real, q: real, q1: real, n: real, k: real,
                       m: real, m2: real, x: real, t: real)
    requires k == n + 1.0 && t * k == x - m
    requires m * n == s && m2 == q - n * m * m
    requires s1 == s + x && q1 == q + x * x
    ensures (m + t) * k == s1
    ensures m2 + (x - m) * (x - (m + t)) == q1 - k * (m + t) * (m + t)
  {
    var m1 := m + t;
    assert m1 * k == n * m + x;
    assert x == k * m1 - n * m;
  }

  /** The merged mean is the count-weighted average of the two means. */
  lemma MergeMeanAlgebra(ma: real, mb: real, na: real, nb: real, n: real, w: real)
    requires n == na + nb && w * n == nb
    ensures (ma + (mb - ma) * w) * n == na * ma + nb * mb
  {
  }

  /** The merged m2 keeps the closed form. */
  lemma MergeM2Algebra(qa: real, qb: real, ma: real, mb: real, na: real, nb: real,
                       n: real, mm: real, v: real)
    requires n == na + nb && n > 0.0
    requires n * mm == na * ma + nb * mb && v * n == na * nb
    ensures (qa - na * ma * ma) + (qb - nb * mb * mb) + (mb - ma) * (mb - ma) * v
         == (qa + qb) - n * mm * mm
  {
    var lhs := (qa - na * ma * ma) + (qb - nb * mb * mb) + (mb - ma) * (mb - ma) * v;
    var rhs := (qa + qb) - n * mm * mm;
    assert lhs * n == rhs * n;
    Cancel(lhs, rhs, n);
  }

  /** Appending one sample to the sums. */
  lemma SumSquaresSnoc(xs: seq<real>, x: real)
    ensures Sum(xs + [x]) == Sum(xs) + x
    ensures SumSquares(xs + [x]) == SumSquares(xs) + x * x
  {
    var ys := xs + [x];
    assert ys[..|ys| - 1] == xs;
  }

  /** Sums of squares add up over concatenation. */
  lemma {:induction false} SumSquaresConcat(a: seq<real>, b: seq<real>)
    ensures SumSquares(a + b) == SumSquares(a) + SumSquares(b)
  {
    if b != [] {
      assert (a + b)[..|a + b| - 1] == a + b[..|b| - 1];
      SumSquaresConcat(a, b[..|b| - 1]);
    } else {
      assert a + b == a;
    }
  }

  /** Converting a product of counts to a real. */
  lemma ProductAsReal(a: int, b: int)
    ensures (a * b) as real == a as real * b as real
  {
  }

  /**
   * `n`, `m` and `m2` summarize `xs` in closed form: `m` times `n` is the
   * sum and `m2` the sum of squares less `n` times the squared mean.
   */
  predicate Summarizes(xs: seq<real>, n: int, m: real, m2: real)
  {
    m * n as real == Sum(xs) && m2 == SumSquares(xs) - n as real * m * m
  }

  /** One Welford step, with the quotient `t` of the mean update named. */
  lemma WelfordBy(xs: seq<real>, x: real, n: int, m: real, m2: real, t: real)
    requires Summarizes(xs, n, m, m2) && t * (n + 1) as real == x - m
    ensures Summarizes(xs + [x], n + 1, m + t, m2 + (x - m) * (x - (m + t)))
  {
    SumSquaresSnoc(xs, x);
    WelfordAlgebra(Sum(xs), Sum(xs + [x]), SumSquares(xs), SumSquares(xs + [x]), n as real, (n + 1) as real,
                   m, m2, x, t);
  }

  /** The merge formulas keep the closed form (counts as integers). */
  lemma MergeAlgebra(sa: real, sb: real, sab: real, qa: real, qb: real, qab: real,
                     na: int, nb: int, ma: real, m2a: real, mb: real, m2b: real, w: real, v: real,
                     n: int, mm: real, m2m: real)
    requires ma * na as real == sa && m2a == qa - na as real * ma * ma
    requires mb * nb as real == sb && m2b == qb - nb as real * mb * mb
    requires sab == sa + sb && qab == qa + qb
    requires n == na + nb && n > 0 && w * n as real == nb as real && v * n as real == (na * nb) as real
    requires mm == ma + (mb - ma) * w && m2m == (m2a + m2b) + (mb - ma) * (mb - ma) * v
    ensures mm * n as real == sab && m2m == qab - n as real * mm * mm
  {
    ProductAsReal(na, nb);
    MergeRealAlgebra(sa, sb, sab, qa, qb, qab, na as real, nb as real, n as real,
                     ma, m2a, mb, m2b, w, v, mm, m2m);
  }

  /** The merge formulas keep the closed form (counts as reals). */
  lemma MergeRealAlgebra(sa: real, sb: real, sab: real, qa: real, qb: real, qab: real,
                         na: real, nb: real, n: real, ma: real, m2a: real, mb: real, m2b: real,
                         w: real, v: real, mm: real, m2m: real)
    requires ma * na == sa && m2a == qa - na * ma * ma
    requires mb * nb == sb && m2b == qb - nb * mb * mb
    requires sab == sa + sb && qab == qa + qb
    requires n == na + nb && n > 0.0 && w * n == nb && v * n == na * nb
    requires mm == ma + (mb - ma) * w && m2m == (m2a + m2b) + (mb - ma) * (mb - ma) * v
    ensures mm * n == sab && m2m == qab - n * mm * mm
  {
    MergeMeanAlgebra(ma, mb, na, nb, n, w);
    MergeM2Algebra(qa, qb, ma, mb, na, nb, n, mm, v);
  }

  /** Merging two closed-form summaries gives the closed form of the concatenation. */
  lemma MergeBy(a: seq<real>, b: seq<real>, na: int, nb: int, ma: real, m2a: real, mb: real, m2b: real,
                w: real, v: real, n: int, mm: real, m2m: real)
    requires Summarizes(a, na, ma, m2a) && Summarizes(b, nb, mb, m2b)
    requires n == na + nb && n > 0 && w * n as real == nb as real && v * n as real == (na * nb) as real
    requires mm == ma + (mb - ma) * w && m2m == (m2a + m2b) + (mb - ma) * (mb - ma) * v
    ensures Summarizes(a + b, n, mm, m2m)
  {
    SumConcat(a, b);
    SumSquaresConcat(a, b);
    MergeAlgebra(Sum(a), Sum(b), Sum(a + b), SumSquares(a), SumSquares(b), SumSquares(a + b),
                 na, nb, ma, m2a, mb, m2b, w, v, n, mm, m2m);
  }

  // ---------------------------------------------------------------------
  // Accumulator states: the fields `_samples`, `_mean` and `_m2` as values.

  datatype Summary = Summary(samples: int, mean: Double, m2: Double)

  /** A fresh accumulator: no samples, mean and m2 NaN. */
  const Empty: Summary := Summary(0, NaN, NaN)

  /** `accumulate(double)`: Welford's update, starting from zero on the first sample. */
  function Step(s: Summary, x: real): Summary
    requires s.samples >= 0
  {
    var m0 := if s.samples == 0 then Val(0.0) else s.mean;
    var q0 := if s.samples == 0 then Val(0.0) else s.m2;
    var delta := Sub(Val(x), m0);
    var m1 := Add(m0, Div(delta, Val((s.samples + 1) as real)));
    Summary(s.samples + 1, m1, Add(q0, Mul(delta, Sub(Val(x), m1))))
  }

  /** `merge`: the parallel combination of two accumulators. */
  function Combine(a: Summary, b: Summary): Summary
    requires a.samples >= 0 && b.samples >= 0
  {
    var r := Sub(b.mean, a.mean);
    var n := a.samples + b.samples;
    Summary(n,
            Add(a.mean, Mul(r, Div(Val(b.samples as real), Val(n as real)))),
            Add(Add(a.m2, b.m2), Mul(Mul(r, r), Div(Val((a.samples * b.samples) as real), Val(n as real)))))
  }

  /**
   * `s` is the exact state after accumulating `xs`: NaN fields while empty,
   * otherwise the count and values in closed form.
   */
  predicate Describes(s: Summary, xs: seq<real>)
  {
    s.samples == |xs| &&
    if xs == [] then s.mean == NaN && s.m2 == NaN
    else s.mean.Val? && s.m2.Val? && Summarizes(xs, s.samples, s.mean.v, s.m2.v)
  }

  /** Accumulating a sample keeps the state exact. */
  lemma AccumulateDescribes(s: Summary, xs: seq<real>, x: real)
    requires Describes(s, xs)
    ensures Describes(Step(s, x), xs + [x])
  {
    if xs == [] {
      AccumulateFirst(s, x);
    } else {
      AccumulateNext(s, xs, x);
    }
  }

  /** The first sample resets mean and m2 to zero before the update. */
  lemma AccumulateFirst(s: Summary, x: real)
    requires Describes(s, [])
    ensures Describes(Step(s, x), [x])
  {
    assert [x][..0] == [];
  }

  /** Welford's step on a non-empty accumulator. */
  lemma AccumulateNext(s: Summary, xs: seq<real>, x: real)
    requires Describes(s, xs) && xs != []
    ensures Describes(Step(s, x), xs + [x])
  {
    DivMul(x - s.mean.v, (s.samples + 1) as real);
    WelfordBy(xs, x, s.samples, s.mean.v, s.m2.v, (x - s.mean.v) / (s.samples + 1) as real);
  }

  /** Merging two non-empty exact states gives the exact state of the concatenation. */
  lemma MergeDescribes(a: Summary, b: Summary, xs: seq<real>, ys: seq<real>)
    requires Describes(a, xs) && Describes(b, ys) && xs != [] && ys != []
    ensures Describes(Combine(a, b), xs + ys)
  {
    CombineIsWeighted(a, b);
    MergeDescribesAt(a, b, xs, ys, Combine(a, b),
                     b.samples as real / (a.samples + b.samples) as real,
                     (a.samples * b.samples) as real / (a.samples + b.samples) as real);
  }

  /** `c` is the merge of `a` and `b` with weights `w` = nb/n and `v` = na*nb/n. */
  predicate Weighted(a: Summary, b: Summary, c: Summary, w: real, v: real)
    requires a.mean.Val? && a.m2.Val? && b.mean.Val? && b.m2.Val?
  {
    w * (a.samples + b.samples) as real == b.samples as real &&
    v * (a.samples + b.samples) as real == (a.samples * b.samples) as real &&
    c.samples == a.samples + b.samples && c.mean.Val? && c.m2.Val? &&
    c.mean.v == a.mean.v + (b.mean.v - a.mean.v) * w &&
    c.m2.v == (a.m2.v + b.m2.v) + (b.mean.v - a.mean.v) * (b.mean.v - a.mean.v) * v
  }

  /** `merge` computes the weighted formulas. */
  lemma CombineIsWeighted(a: Summary, b: Summary)
    requires a.samples > 0 && b.samples > 0
    requires a.mean.Val? && a.m2.Val? && b.mean.Val? && b.m2.Val?
    ensures Weighted(a, b, Combine(a, b),
                     b.samples as real / (a.samples + b.samples) as real,
                     (a.samples * b.samples) as real / (a.samples + b.samples) as real)
  {
    CombineValues(a, b);
    DivMul(b.samples as real, (a.samples + b.samples) as real);
    DivMul((a.samples * b.samples) as real, (a.samples + b.samples) as real);
  }

  /** Any state built by the weighted formulas from exact states is exact. */
  lemma MergeDescribesAt(a: Summary, b: Summary, xs: seq<real>, ys: seq<real>, c: Summary, w: real, v: real)
    requires Describes(a, xs) && Describes(b, ys) && xs != [] && ys != []
    requires Weighted(a, b, c, w, v)
    ensures Describes(c, xs + ys)
  {
    MergeBy(xs, ys, a.samples, b.samples, a.mean.v, a.m2.v, b.mean.v, b.m2.v, w, v,
            c.samples, c.mean.v, c.m2.v);
  }

  /** Merging two summaries with values: the formula over the reals. */
  lemma CombineValues(a: Summary, b: Summary)
    requires a.samples > 0 && b.samples > 0
    requires a.mean.Val? && a.m2.Val? && b.mean.Val? && b.m2.Val?
    ensures Combine(a, b).samples == a.samples + b.samples
    ensures Combine(a, b).mean.Val? && Combine(a, b).m2.Val?
    ensures Combine(a, b).mean.v
         == a.mean.v + (b.mean.v - a.mean.v) * (b.samples as real / (a.samples + b.samples) as real)
    ensures Combine(a, b).m2.v
         == (a.m2.v + b.m2.v) + (b.mean.v - a.mean.v) * (b.mean.v - a.mean.v)
            * ((a.samples * b.samples) as real / (a.samples + b.samples) as real)
  {
  }

  /** With the true mean, the squared deviations take the closed form. */
  lemma ClosedForm(xs: seq<real>, m: real)
    requires m * |xs| as real == Sum(xs)
    ensures SquaredDeviations(xs, m) == SumSquares(xs) - |xs| as real * m * m
  {
    SquaredDeviationsExpand(xs, m);
  }

  /** The closed form pins down the mean and the squared deviations of the sample. */
  lemma SummarizesStatistics(xs: seq<real>, m: real, m2: real)
    requires xs != []
    ensures Summarizes(xs, |xs|, m, m2) <==> m == Mean(xs) && m2 == M2(xs)
  {
    MeanUnique(xs, m);
    if m == Mean(xs) {
      ClosedForm(xs, m);
    }
  }

  /** An exact state of a non-empty sample holds its count, mean and M2, and nothing else. */
  lemma DescribesStatistics(s: Summary, xs: seq<real>)
    requires xs != []
    ensures Describes(s, xs) <==> s == Summary(|xs|, Val(Mean(xs)), Val(M2(xs)))
  {
    if s.mean.Val? && s.m2.Val? {
      SummarizesStatistics(xs, s.mean.v, s.m2.v);
    }
    SummarizesStatistics(xs, Mean(xs), M2(xs));
  }

  /** Accumulating the samples one by one into a fresh accumulator. */
  function AccumulateAll(xs: seq<real>): (s: Summary)
    ensures s.samples == |xs|
  {
    if xs == [] then Empty else Step(AccumulateAll(xs[..|xs| - 1]), xs[|xs| - 1])
  }

  /** The one-pass state after any sequence of samples is exact. */
  lemma {:induction false} AccumulateAllDescribes(xs: seq<real>)
    ensures Describes(AccumulateAll(xs), xs)
  {
    if xs != [] {
      var init := xs[..|xs| - 1];
      AccumulateAllDescribes(init);
      AccumulateDescribes(AccumulateAll(init), init, xs[|xs| - 1]);
      assert init + [xs[|xs| - 1]] == xs;
    }
  }

  /** `getVariance`: m2 for one sample, m2/(N-1) for more, NaN for none. */
  function VarianceOf(s: Summary): Double
  {
    if s.samples == 1 then s.m2
    else if s.samples > 1 then Div(s.m2, Val((s.samples - 1) as real))
    else NaN
  }

  /** The variance of an exact state is the sample variance of the class comment (zero for one sample). */
  lemma VarianceDescribes(s: Summary, xs: seq<real>)
    requires Describes(s, xs)
    ensures |xs| == 0 ==> VarianceOf(s) == NaN
    ensures |xs| == 1 ==> VarianceOf(s) == Val(0.0)
    ensures |xs| > 1 ==> VarianceOf(s) == Val(SampleVariance(xs))
  {
    if |xs| == 1 {
      assert xs[..0] == [];
      assert s.samples as real == 1.0 && Sum(xs) == xs[0];
      assert s.mean.v == xs[0];
      assert SumSquares(xs) == xs[0] * xs[0];
    } else if |xs| > 1 {
      DescribesStatistics(s, xs);
    }
  }

  /** `getVariance` on any reachable state. */
  lemma VarianceTracks(s: Summary, xs: seq<real>)
    requires Tracks(s, xs)
    ensures s.samples == 0 || Poisoned(s) ==> VarianceOf(s) == NaN
    ensures Describes(s, xs) && s.samples == 1 ==> VarianceOf(s) == Val(0.0)
    ensures Describes(s, xs) && s.samples > 1 ==> VarianceOf(s) == Val(SampleVariance(xs))
  {
    if Describes(s, xs) {
      VarianceDescribes(s, xs);
    }
  }

  /** A state with samples whose mean and m2 became NaN (merged with an empty accumulator). */
  predicate Poisoned(s: Summary)
  {
    s.samples > 0 && s.mean == NaN && s.m2 == NaN
  }

  /** The states an accumulator reaches: exact, or poisoned with the right count. */
  predicate Tracks(s: Summary, xs: seq<real>)
  {
    Describes(s, xs) || (Poisoned(s) && s.samples == |xs|)
  }

  /** Accumulating keeps reachable states reachable; a poisoned state stays poisoned. */
  lemma StepTracks(s: Summary, xs: seq<real>, x: real)
    requires Tracks(s, xs)
    ensures Tracks(Step(s, x), xs + [x])
    ensures Poisoned(s) ==> Poisoned(Step(s, x))
  {
    if Describes(s, xs) {
      AccumulateDescribes(s, xs, x);
    }
  }

  /** Merging reachable states; exact only when both or neither side is empty. */
  lemma CombineTracks(a: Summary, b: Summary, xs: seq<real>, ys: seq<real>)
    requires Tracks(a, xs) && Tracks(b, ys)
    ensures Tracks(Combine(a, b), xs + ys)
    ensures Describes(a, xs) && Describes(b, ys) && (xs == [] <==> ys == [])
            ==> Describes(Combine(a, b), xs + ys)
    ensures Poisoned(a) || Poisoned(b) || (xs == [] <==> ys != []) ==> Poisoned(Combine(a, b))
  {
    if Describes(a, xs) && Describes(b, ys) && xs != [] && ys != [] {
      MergeDescribes(a, b, xs, ys);
    }
  }

  /** Merging with a fresh accumulator is not the identity: the result is NaN. */
  lemma CombineWithEmpty(a: Summary, xs: seq<real>)
    requires Describes(a, xs) && xs != []
    ensures Combine(a, Empty) != a && Combine(Empty, a) != a
    ensures Poisoned(Combine(a, Empty)) && Poisoned(Combine(Empty, a))
  {
  }

  /** `merge` as evidently intended: an empty side contributes nothing. */
  function CombineChecked(a: Summary, b: Summary): Summary
    requires a.samples >= 0 && b.samples >= 0
  {
    if a.samples == 0 then b else if b.samples == 0 then a else Combine(a, b)
  }

  /** The intended merge is exact for every pair of exact states, empty ones included. */
  lemma CombineCheckedDescribes(a: Summary, b: Summary, xs: seq<real>, ys: seq<real>)
    requires Describes(a, xs) && Describes(b, ys)
    ensures Describes(CombineChecked(a, b), xs + ys)
  {
    if xs == [] {
      assert xs + ys == ys;
    } else if ys == [] {
      assert xs + ys == xs;
    } else {
      MergeDescribes(a, b, xs, ys);
    }
  }

  /** The merged mean is the count-weighted average of the two means. */
  lemma CombineWeightedMean(a: Summary, b: Summary)
    requires a.samples > 0 && b.samples > 0 && a.mean.Val? && b.mean.Val?
    ensures Combine(a, b).mean.Val?
    ensures Combine(a, b).mean.v * (a.samples + b.samples) as real
         == a.samples as real * a.mean.v + b.samples as real * b.mean.v
  {
    DivMul(b.samples as real, (a.samples + b.samples) as real);
    MergeMeanAlgebra(a.mean.v, b.mean.v, a.samples as real, b.samples as real, (a.samples + b.samples) as real,
                     b.samples as real / (a.samples + b.samples) as real);
  }

  /** The sample variance is never negative. */
  lemma SampleVarianceNonNegative(xs: seq<real>)
    requires |xs| > 1
    ensures SampleVariance(xs) >= 0.0
  {
    SquaredDeviationsNonNegative(xs, Mean(xs));
  }

  /** One pass over 1, 3, 5 gives mean 3 and variance 4. */
  lemma AccumulateExample()
    ensures AccumulateAll([1.0, 3.0, 5.0]).mean == Val(3.0)
    ensures VarianceOf(AccumulateAll([1.0, 3.0, 5.0])) == Val(4.0)
  {
    var xs := [1.0, 3.0, 5.0];
    AccumulateAllDescribes(xs);
    DescribesStatistics(AccumulateAll(xs), xs);
    VarianceDescribes(AccumulateAll(xs), xs);
    assert xs[..2] == [1.0, 3.0] && [1.0, 3.0][..1] == [1.0] && [1.0][..0] == [];
    assert Sum(xs) == 9.0;
    assert SquaredDeviations(xs, 3.0) == 8.0;
  }

  /**
   * The accumulator object: the sample count and mean of the superclass
   * and the squared-deviation sum `m2`, updated in place. The ghost field
   * `values` holds the samples accumulated so far.
   */
  class Variance {
    var samples: int
    var mean: Double
    var m2: Double
    ghost var values: seq<real>

    /** The fields as a value. */
    function State(): Summary
      reads this
    {
      Summary(samples, mean, m2)
    }

    /** The fields are a reachable state for the samples accumulated. */
    ghost predicate Valid()
      reads this
    {
      Tracks(State(), values)
    }

    constructor()
      ensures Valid() && values == [] && State() == Empty
    {
      samples := 0;
      mean := NaN;
      m2 := NaN;
      values := [];
    }

    function GetVariance(): (r: Double)
      reads this
      requires Valid()
      ensures r == VarianceOf(State())
      ensures samples == 0 || Poisoned(State()) ==> r == NaN
      ensures Describes(State(), values) && samples == 1 ==> r == Val(0.0)
      ensures Describes(State(), values) && samples > 1 ==> r == Val(SampleVariance(values))
    {
      VarianceTracks(State(), values);
      VarianceOf(State())
    }

    method Accumulate(x: real)
      requires Valid()
      modifies this
      ensures Valid() && values == old(values) + [x]
      ensures State() == Step(old(State()), x)
    {
      ghost var s0, xs := State(), values;
      if samples == 0 {
        mean := Val(0.0);
        m2 := Val(0.0);
      }
      var delta := Sub(Val(x), mean);
      samples := samples + 1;
      mean := Add(mean, Div(delta, Val(samples as real)));
      m2 := Add(m2, Mul(delta, Sub(Val(x), mean)));
      values := values + [x];
      StepTracks(s0, xs, x);
    }

    method Merge(other: Variance) returns (result: Variance)
      requires Valid() && other.Valid()
      ensures fresh(result) && result.Valid()
      ensures result.values == values + other.values
      ensures result.State() == Combine(State(), other.State())
    {
      result := new Variance();
      var r := Sub(other.mean, mean);
      result.samples := samples + other.samples;
      result.mean := Add(mean, Mul(r, Div(Val(other.samples as real), Val(result.samples as real))));
      result.m2 := Add(Add(m2, other.m2),
                       Mul(Mul(r, r), Div(Val((samples * other.samples) as real), Val(result.samples as real))));
      result.values := values + other.values;
      CombineTracks(State(), other.State(), values, other.values);
    }
  }
}
