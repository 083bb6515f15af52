/**
 * The probabilities of the roulette-wheel (fitness proportional) selector,
 * org.jenetics.RouletteWheelSelector. Fitness values are exact reals; the
 * floating-point distance of a value from zero, counted in ULPs, is the
 * parameter `ulpDistance`, of which the model only assumes that zero is at
 * distance zero from itself.
 */
module Selector {
  import opened RealSums

  /** Sums that are at most this many ULPs away from zero count as zero. */
  const MAX_ULP_DISTANCE: int := 1_000_000_000

  /** The smallest of a non-empty sequence of values (statistics.min). */
  function Min(xs: seq<real>): (m: real)
    requires |xs| > 0
    ensures m in xs
    ensures forall i :: 0 <= i < |xs| ==> m <= xs[i]
  {
    if |xs| == 1 then xs[0]
    else
      var rest := Min(xs[..|xs| - 1]);
      if xs[|xs| - 1] < rest then xs[|xs| - 1] else rest
  }

  function Abs(x: int): int { if x < 0 then -x else x }

  /** The anchor of the shift: the smallest fitness, or 0 if that is positive. */
  function Worst(fitness: seq<real>): (w: real)
    requires |fitness| > 0
    ensures w <= 0.0
    ensures forall i :: 0 <= i < |fitness| ==> w <= fitness[i]
    ensures w == 0.0 || w in fitness
  {
    var m := Min(fitness);
    if m < 0.0 then m else 0.0
  }

  /** The fitness values shifted so that the worst one sits at zero or above. */
  function Shifted(fitness: seq<real>, worst: real): (r: seq<real>)
  {
    seq(|fitness|, i requires 0 <= i < |fitness| => fitness[i] - worst)
  }

  /** Every value divided by `d`. */
  function Scaled(xs: seq<real>, d: real): (r: seq<real>)
    requires d != 0.0
  {
    seq(|xs|, i requires 0 <= i < |xs| => xs[i] / d)
  }

  /** The normalising divisor: the sum of the fitness values minus worst times N. */
  function Total(fitness: seq<real>): real
    requires |fitness| > 0
  {
    Sum(fitness) - Worst(fitness) * |fitness| as real
  }

  /** True when `sum` is far enough from zero, in ULPs, to divide by. */
  predicate FarFromZero(sum: real, ulpDistance: real -> int)
    ensures FarFromZero(sum, ulpDistance) && ulpDistance(0.0) == 0 ==> sum != 0.0
  {
    Abs(ulpDistance(sum)) > MAX_ULP_DISTANCE
  }

  /** A share of a positive whole lies in [0, 1]. */
  lemma ShareInUnitRange(part: real, whole: real)
    requires 0.0 <= part <= whole && whole > 0.0
    ensures 0.0 <= part / whole <= 1.0
  {
    var q := part / whole;
    assert q * whole == part;
  }

  /** A non-zero whole over itself is one. */
  lemma WholeOverItself(share: real, part: real, whole: real)
    requires whole != 0.0 && part == whole && share == part / whole
    ensures share == 1.0
  {
  }

  /** `n` equal shares of a non-zero value are each one `n`-th. */
  lemma EqualShare(x: real, n: real)
    requires x != 0.0 && n > 0.0
    ensures x / (n * x) == 1.0 / n
  {
    var d := n * x;
    var q := x / d;
    var r := 1.0 / n;
    var qd := q * d;
    var qnx := (q * n) * x;
    assert qd == x;
    assert qd == qnx;
    assert (q * n - 1.0) * x == 0.0;
    var rn := r * n;
    assert rn == 1.0;
    assert (q - r) * n == 0.0;
  }

  /** The selection probability of every individual of the population. */
  function Probabilities(fitness: seq<real>, ulpDistance: real -> int): (p: seq<real>)
    requires |fitness| > 0 && ulpDistance(0.0) == 0
  {
    var worst := Worst(fitness);
    var sum := Total(fitness);
    if FarFromZero(sum, ulpDistance) then
      Scaled(Shifted(fitness, worst), sum)
    else
      seq(|fitness|, i => 1.0 / |fitness| as real)
  }

  /** The shift subtracts worst once per individual. */
  lemma {:induction false} SumShifted(fitness: seq<real>, worst: real)
    ensures Sum(Shifted(fitness, worst)) == Sum(fitness) - worst * |fitness| as real
  {
    if fitness != [] {
      var n := |fitness|;
      assert Shifted(fitness, worst)[..n - 1] == Shifted(fitness[..n - 1], worst);
      SumShifted(fitness[..n - 1], worst);
    }
  }

  /** Dividing every term by `d` divides the sum by `d`. */
  lemma {:induction false} SumScaled(xs: seq<real>, d: real)
    requires d != 0.0
    ensures Sum(Scaled(xs, d)) == Sum(xs) / d
  {
    var ys := Scaled(xs, d);
    if xs != [] {
      var n := |xs|;
      assert ys[..n - 1] == Scaled(xs[..n - 1], d);
      SumScaled(xs[..n - 1], d);
      assert Sum(ys) == Sum(xs[..n - 1]) / d + xs[n - 1] / d;
    }
  }

  /** The divisor is the sum of the shifted fitness values, so it is not negative. */
  lemma TotalIsShiftedSum(fitness: seq<real>)
    requires |fitness| > 0
    ensures Total(fitness) == Sum(Shifted(fitness, Worst(fitness)))
    ensures Total(fitness) >= 0.0
  {
    var shifted := Shifted(fitness, Worst(fitness));
    SumShifted(fitness, Worst(fitness));
    SumNonNegative(shifted);
  }

  /** Every probability lies in [0, 1]. */
  lemma ProbabilitiesInUnitRange(fitness: seq<real>, ulpDistance: real -> int)
    requires |fitness| > 0 && ulpDistance(0.0) == 0
    ensures |Probabilities(fitness, ulpDistance)| == |fitness|
    ensures forall i :: 0 <= i < |fitness| ==>
      0.0 <= Probabilities(fitness, ulpDistance)[i] <= 1.0
  {
    var p := Probabilities(fitness, ulpDistance);
    var worst, sum := Worst(fitness), Total(fitness);
    var shifted := Shifted(fitness, worst);
    TotalIsShiftedSum(fitness);
    if FarFromZero(sum, ulpDistance) {
      assert sum > 0.0;
      SumNonNegative(shifted);
      forall i | 0 <= i < |fitness| ensures 0.0 <= p[i] <= 1.0 {
        assert p[i] == shifted[i] / sum;
        ShareInUnitRange(shifted[i], sum);
      }
    } else {
      ShareInUnitRange(1.0, |fitness| as real);
    }
  }

  /** The probabilities sum to one. */
  lemma ProbabilitiesSumToOne(fitness: seq<real>, ulpDistance: real -> int)
    requires |fitness| > 0 && ulpDistance(0.0) == 0
    ensures Sum(Probabilities(fitness, ulpDistance)) == 1.0
  {
    if FarFromZero(Total(fitness), ulpDistance) {
      SharesSumToOne(fitness, ulpDistance);
    } else {
      UniformSumsToOne(fitness, ulpDistance);
    }
  }

  /** Normalised shares of the shifted fitness values sum to one. */
  lemma SharesSumToOne(fitness: seq<real>, ulpDistance: real -> int)
    requires |fitness| > 0 && ulpDistance(0.0) == 0
    requires FarFromZero(Total(fitness), ulpDistance)
    ensures Sum(Probabilities(fitness, ulpDistance)) == 1.0
  {
    TotalIsShiftedSum(fitness);
    SumScaled(Shifted(fitness, Worst(fitness)), Total(fitness));
    WholeOverItself(Sum(Probabilities(fitness, ulpDistance)), Sum(Shifted(fitness, Worst(fitness))), Total(fitness));
  }

  /** N uniform shares of 1/N sum to one. */
  lemma UniformSumsToOne(fitness: seq<real>, ulpDistance: real -> int)
    requires |fitness| > 0 && ulpDistance(0.0) == 0
    requires !FarFromZero(Total(fitness), ulpDistance)
    ensures Sum(Probabilities(fitness, ulpDistance)) == 1.0
  {
    var p := Probabilities(fitness, ulpDistance);
    var n := |fitness| as real;
    SumConstant(p, 1.0 / n);
    assert n * (1.0 / n) == 1.0;
  }

  /** A population whose fitness values are all equal is selected uniformly. */
  lemma EqualFitnessIsUniform(fitness: seq<real>, ulpDistance: real -> int)
    requires |fitness| > 0 && ulpDistance(0.0) == 0
    requires forall i :: 0 <= i < |fitness| ==> fitness[i] == fitness[0]
    ensures forall i :: 0 <= i < |fitness| ==>
      Probabilities(fitness, ulpDistance)[i] == 1.0 / |fitness| as real
  {
    if FarFromZero(Total(fitness), ulpDistance) {
      SumConstant(fitness, fitness[0]);
      EqualShareOfTotal(Sum(fitness), Total(fitness), Worst(fitness), fitness[0], |fitness| as real);
      EqualShares(fitness, ulpDistance);
    }
  }

  /** Equal values give equal shares: each is the share of the first. */
  lemma EqualShares(fitness: seq<real>, ulpDistance: real -> int)
    requires |fitness| > 0 && ulpDistance(0.0) == 0
    requires forall i :: 0 <= i < |fitness| ==> fitness[i] == fitness[0]
    requires FarFromZero(Total(fitness), ulpDistance)
    requires (fitness[0] - Worst(fitness)) / Total(fitness) == 1.0 / |fitness| as real
    ensures forall i :: 0 <= i < |fitness| ==>
      Probabilities(fitness, ulpDistance)[i] == 1.0 / |fitness| as real
  {
  }

  /** With N equal values `f`, the shifted total is N times `f - worst`, and one shift is its N-th part. */
  lemma EqualShareOfTotal(s: real, t: real, worst: real, f: real, n: real)
    requires n > 0.0 && s == n * f && t == s - worst * n && t != 0.0
    ensures (f - worst) / t == 1.0 / n
  {
    var x := f - worst;
    assert t == n * x;
    assert x != 0.0;
    EqualShare(x, n);
  }

  /** A single individual is always selected. */
  lemma SingleIndividual(fitness: seq<real>, ulpDistance: real -> int)
    requires |fitness| == 1 && ulpDistance(0.0) == 0
    ensures Probabilities(fitness, ulpDistance) == [1.0]
  {
    ProbabilitiesSumToOne(fitness, ulpDistance);
    var p := Probabilities(fitness, ulpDistance);
    assert p[..0] == [];
  }

  /**
   * probabilities(population, count): copies the fitness values into an
   * array and normalises them in place, or fills the array uniformly when
   * the shifted sum is too close to zero. `count` does not enter the result.
   */
  method ComputeProbabilities(population: seq<real>, count: int, ulpDistance: real -> int)
    returns (fitness: array<real>)
    requires |population| > 0 && count > 0
    requires ulpDistance(0.0) == 0
    ensures fresh(fitness)
    ensures fitness[..] == Probabilities(population, ulpDistance)
    ensures Sum(fitness[..]) == 1.0
  {
    var n := |population|;
    fitness := CopyOf(population);
    var least := Min(fitness[..]);
    var worst := if least < 0.0 then least else 0.0;
    var sum := Sum(fitness[..]) - worst * n as real;
    assert worst == Worst(population) && sum == Total(population);

    if Abs(ulpDistance(sum)) > MAX_ULP_DISTANCE {
      Normalize(fitness, worst, sum);
    } else {
      Fill(fitness, 1.0 / n as real);
    }
    ghost var p := Probabilities(population, ulpDistance);
    assert forall k :: 0 <= k < n ==> fitness[k] == p[k];
    assert fitness[..] == p;
    ProbabilitiesSumToOne(population, ulpDistance);
  }

  /** The fitness array: element `i` holds the fitness of individual `i`. */
  method CopyOf(population: seq<real>) returns (a: array<real>)
    ensures fresh(a) && a[..] == population
  {
    a := new real[|population|];
    var i := |population|;
    while i > 0
      invariant 0 <= i <= |population|
      invariant forall k :: i <= k < |population| ==> a[k] == population[k]
    {
      i := i - 1;
      a[i] := population[i];
    }
  }

  /** The normalising loop: every element is shifted by `worst` and divided by `sum`. */
  method Normalize(a: array<real>, worst: real, sum: real)
    requires sum != 0.0
    modifies a
    ensures forall k :: 0 <= k < a.Length ==> a[k] == (old(a[k]) - worst) / sum
  {
    var i := a.Length;
    while i > 0
      invariant 0 <= i <= a.Length
      invariant forall k :: 0 <= k < i ==> a[k] == old(a[k])
      invariant forall k :: i <= k < a.Length ==> a[k] == (old(a[k]) - worst) / sum
    {
      i := i - 1;
      a[i] := (a[i] - worst) / sum;
    }
  }

  /** Arrays.fill: every element becomes `value`. */
  method Fill(a: array<real>, value: real)
    modifies a
    ensures forall k :: 0 <= k < a.Length ==> a[k] == value
  {
    var i := 0;
    while i < a.Length
      invariant 0 <= i <= a.Length
      invariant forall k :: 0 <= k < i ==> a[k] == value
    {
      a[i] := value;
      i := i + 1;
    }
  }
}
