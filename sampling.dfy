/** Column specifications and the randomness the generator consumes, made inputs:
    random.sample(range(m), k) is the first k entries of a supplied permutation of
    range(m), and each random.random() is a supplied fraction in [0, 1). */
module Sampling {
  import opened Common

  /** The value num/den of one call of random.random(). */
  datatype Fraction = Fraction(num: nat, den: nat)

  /** random.random() lies in [0, 1). */
  predicate InUnit(f: Fraction) {
    f.num < f.den
  }

  /** int(r * n) for r = num/den and n >= 0: the product, rounded down. */
  function Scaled(f: Fraction, n: nat): nat
    requires f.den > 0
  {
    f.num * n / f.den
  }

  /** Scaling a fraction in [0, 1) by n > 0 gives a valid index below n. */
  lemma ScaledBelow(f: Fraction, n: nat)
    requires InUnit(f) && n > 0
    ensures Scaled(f, n) < n
  {
    var q := Scaled(f, n);
    assert q * f.den <= f.num * n;
    assert f.num * n < f.den * n by {
      assert (f.den - f.num) * n > 0;
    }
    assert (n - q) * f.den > 0;
  }

  /** Every one of k supplied fractions scales to an index below n. */
  lemma ScaledAllBelow(unit: seq<Fraction>, k: nat, n: nat)
    requires UnitDraws(unit, k) && n > 0
    ensures forall i :: 0 <= i < k ==> Scaled(unit[i], n) < n
  {
    forall i | 0 <= i < k ensures Scaled(unit[i], n) < n {
      ScaledBelow(unit[i], n);
    }
  }

  lemma LessFromScaled(x: int, d: int)
    requires d > 0 && x * d < d
    ensures x < 1
  {
    if x >= 1 {
      assert false;
    }
  }

  /** Rounding down: a / d is j exactly when j * d <= a < (j + 1) * d. */
  lemma FloorDiv(a: nat, d: nat, j: nat)
    requires d > 0
    ensures a / d == j <==> j * d <= a < (j + 1) * d
  {
    var q, r := a / d, a % d;
    assert a == q * d + r && 0 <= r < d;
    if j * d <= a < (j + 1) * d {
      assert (j - q) * d == j * d - q * d;
      LessFromScaled(j - q, d);
      assert (q - j) * d == q * d - j * d;
      LessFromScaled(q - j, d);
    }
    assert (q + 1) * d == q * d + d;
  }

  /** Index j is drawn exactly when the fraction lies in [j / n, (j + 1) / n): each of
      the n indices owns a slice of [0, 1) of the same width 1 / n. */
  lemma ScaledExactly(f: Fraction, n: nat, j: nat)
    requires f.den > 0
    ensures Scaled(f, n) == j <==> j * f.den <= f.num * n < (j + 1) * f.den
  {
    FloorDiv(f.num * n, f.den, j);
  }

  /** Every index below n is the scaled value of some fraction in [0, 1). */
  lemma ScaledReaches(j: nat, n: nat)
    requires j < n
    ensures InUnit(Fraction(j, n)) && Scaled(Fraction(j, n), n) == j
  {
    FloorDiv(j * n, n, j);
    assert (j + 1) * n == j * n + n;
  }

  /** range(v): 0, 1, ..., v - 1, and nothing when v <= 0. */
  function Range(v: int): (r: seq<int>)
    ensures |r| == if v < 0 then 0 else v
    ensures forall i :: 0 <= i < |r| ==> r[i] == i
  {
    seq(if v < 0 then 0 else v, i => i)
  }

  /** p is an ordering of range(m). */
  predicate IsPermutation(p: seq<int>, m: nat) {
    && |p| == m
    && (forall i :: 0 <= i < m ==> 0 <= p[i] < m)
    && Distinct(p)
  }

  /** random.sample(range(m), k), given the random ordering perm of range(m):
      ValueError when k > m. */
  function Sample(perm: seq<int>, m: nat, k: nat): (r: Result<seq<int>>)
    requires IsPermutation(perm, m)
    ensures r.Err? <==> k > m
    ensures r.Err? ==> r.error == SampleLargerThanPopulation
    ensures r.Ok? ==> |r.value| == k && Distinct(r.value)
    ensures r.Ok? ==> forall i :: 0 <= i < k ==> 0 <= r.value[i] < m
  {
    if k > m then Err(SampleLargerThanPopulation) else Ok(perm[..k])
  }

  /** A sample of all of range(m) holds every number of the range. */
  lemma SampleAllCovers(perm: seq<int>, m: nat)
    requires IsPermutation(perm, m)
    ensures Sample(perm, m, m).Ok?
    ensures forall v :: 0 <= v < m ==> v in Sample(perm, m, m).value
  {
    assert perm[..m] == perm;
    DistinctFillsInterval(perm, 0);
  }

  /** The cardinality directive, once its float has been compared with 1 and rounded:
      draw == 1, draw < 1 with numvalues = round(numrows * draw), or draw > 1 with
      numvalues = round(draw). */
  datatype Directive = Full | Below(numvalues: int) | Above(numvalues: int)

  /** One line of the specification file: the kind or prefix, the directive and the
      base value (0 when the line has no third field). */
  datatype ColSpec = ColSpec(attribute: string, directive: Directive, basevalue: int)

  /** The randomness one column consumes. */
  datatype Draws = Draws(perm: seq<int>, unit: seq<Fraction>)

  /** At least k values of random.random(), each in [0, 1). */
  predicate UnitDraws(unit: seq<Fraction>, k: nat) {
    |unit| >= k && forall i :: 0 <= i < |unit| ==> InUnit(unit[i])
  }

  /** Whether the randomness supplied for a column is what its directive consumes:
      a permutation of the range random.sample draws from, or enough fractions for
      sample_wr. */
  predicate Fits(spec: ColSpec, d: Draws, numrows: nat, numwrites: nat) {
    match spec.directive
    case Full => IsPermutation(d.perm, numrows)
    case Below(_) => UnitDraws(d.unit, numwrites)
    case Above(v) =>
      if v >= numwrites then IsPermutation(d.perm, v) else UnitDraws(d.unit, numwrites)
  }

  /** [num + basevalue for num in numlist]. */
  function Shift(nums: seq<int>, base: int): (r: seq<int>)
    ensures |r| == |nums|
  {
    seq(|nums|, i requires 0 <= i < |nums| => nums[i] + base)
  }

  /** Shifting keeps distinct numbers distinct and moves a range bound by the base. */
  lemma ShiftFacts(nums: seq<int>, base: int, m: int)
    ensures Distinct(nums) ==> Distinct(Shift(nums, base))
    ensures (forall i :: 0 <= i < |nums| ==> 0 <= nums[i] < m)
        ==> forall i :: 0 <= i < |nums| ==> base <= Shift(nums, base)[i] < base + m
  {
  }

  /** The largest number of a non-empty list, as max(). */
  function Max(s: seq<int>): (m: int)
    requires |s| > 0
    ensures m in s
    ensures forall i :: 0 <= i < |s| ==> s[i] <= m
  {
    if |s| == 1 then s[0]
    else
      var rest := Max(s[1..]);
      assert forall i :: 1 <= i < |s| ==> s[i] == s[1..][i - 1];
      if s[0] >= rest then s[0] else rest
  }
}
