/**
 * The statistics of `math/statistics.py` over exact reals: the arithmetic
 * mean, the median of the sorted data, and the quantity whose square root
 * is the standard deviation, `sum((x - mean)^2) / (N - ddof)`. The data
 * array is flattened to a sequence.
 */
module Statistics {
  import opened Sorting
  import opened Outcomes

  /** Python's `sum`: the entries added from the first to the last. */
  function Sum(xs: seq<real>): real
  {
    if xs == [] then 0.0 else Sum(xs[..|xs| - 1]) + xs[|xs| - 1]
  }

  lemma {:induction false} SumConcat(p: seq<real>, q: seq<real>)
    ensures Sum(p + q) == Sum(p) + Sum(q)
  {
    if q != [] {
      assert (p + q)[..|p + q| - 1] == p + q[..|q| - 1];
      SumConcat(p, q[..|q| - 1]);
    } else {
      assert p + q == p;
    }
  }

  /** The sum of entries that all lie between `lo` and `hi` lies between N·lo and N·hi. */
  lemma {:induction false} SumBounds(xs: seq<real>, lo: real, hi: real)
    requires forall i :: 0 <= i < |xs| ==> lo <= xs[i] <= hi
    ensures (|xs| as real) * lo <= Sum(xs) <= (|xs| as real) * hi
  {
    if xs != [] {
      var n := |xs| - 1;
      SumBounds(xs[..n], lo, hi);
      assert (n as real + 1.0) * lo == (n as real) * lo + lo;
      assert (n as real + 1.0) * hi == (n as real) * hi + hi;
    }
  }

  /** `arithmetic_mean`: the sum divided by the number of entries. */
  function ArithmeticMean(xs: seq<real>): (r: real)
    requires |xs| >= 1
    ensures r * (|xs| as real) == Sum(xs)
  {
    Sum(xs) / (|xs| as real)
  }

  /** The mean lies between any lower and upper bound of the entries. */
  lemma MeanBounds(xs: seq<real>, lo: real, hi: real)
    requires |xs| >= 1
    requires forall i :: 0 <= i < |xs| ==> lo <= xs[i] <= hi
    ensures lo <= ArithmeticMean(xs) <= hi
  {
    SumBounds(xs, lo, hi);
    assert ArithmeticMean(xs) * (|xs| as real) == Sum(xs);
  }

  /** The mean of entries that all equal `c` is `c`. */
  lemma MeanConstant(xs: seq<real>, c: real)
    requires |xs| >= 1
    requires forall i :: 0 <= i < |xs| ==> xs[i] == c
    ensures ArithmeticMean(xs) == c
  {
    MeanBounds(xs, c, c);
  }

  /** The mean test of the library: nineteen integers averaging 1109/19. */
  lemma MeanScenario(xs: seq<real>)
    requires |xs| == 19
    requires xs[0] == 98.0 && xs[1] == 59.0 && xs[2] == 82.0 && xs[3] == 75.0 && xs[4] == 49.0
    requires xs[5] == 91.0 && xs[6] == 55.0 && xs[7] == 77.0 && xs[8] == 68.0 && xs[9] == 4.0
    requires xs[10] == 42.0 && xs[11] == 44.0 && xs[12] == 50.0 && xs[13] == 69.0 && xs[14] == 1.0
    requires xs[15] == 56.0 && xs[16] == 76.0 && xs[17] == 76.0 && xs[18] == 37.0
    ensures ArithmeticMean(xs) == 1109.0 / 19.0
  {
    SumPrefixes(xs);
    assert xs[..19] == xs;
  }

  /** Every prefix sum of `xs`, unfolded once: lets the solver add literal entries one by one. */
  lemma SumPrefixes(xs: seq<real>)
    ensures forall k :: 0 < k <= |xs| ==> Sum(xs[..k]) == Sum(xs[..k - 1]) + xs[k - 1]
  {
    forall k | 0 < k <= |xs| ensures Sum(xs[..k]) == Sum(xs[..k - 1]) + xs[k - 1] {
      assert xs[..k][..k - 1] == xs[..k - 1];
    }
  }

  /**
   * `median`: the middle entry of the sorted data when N is odd, the mean of
   * the two entries at positions (N-1)//2 and (N-1)//2 + 1 when N is even.
   */
  function Median(xs: seq<real>): (r: real)
    requires |xs| >= 1
    ensures |xs| % 2 == 1 ==> r == Sort(xs)[|xs| / 2]
    ensures |xs| % 2 == 0 ==> r == (Sort(xs)[|xs| / 2 - 1] + Sort(xs)[|xs| / 2]) / 2.0
  {
    Middle(Sort(xs))
  }

  /** The middle of a sorted list: its entry at (N-1)//2, or the mean of that entry and the next when N is even. */
  function Middle(s: seq<real>): (r: real)
    requires |s| >= 1
    ensures |s| % 2 == 1 ==> r == s[|s| / 2]
    ensures |s| % 2 == 0 ==> r == (s[|s| / 2 - 1] + s[|s| / 2]) / 2.0
  {
    var n := |s|;
    var index := (n - 1) / 2;
    if n % 2 == 1 then s[index]
    else
      assert s[index..index + 2] == [s[index], s[index + 1]];
      MeanOfTwo(s[index], s[index + 1]);
      ArithmeticMean(s[index..index + 2])
  }

  /** In an ascending list the middle lies between the two middle entries. */
  lemma MiddleWithin(s: seq<real>)
    requires |s| >= 1 && SortedAsc(s)
    ensures s[(|s| - 1) / 2] <= Middle(s) <= s[|s| / 2]
  {
  }

  /** The median depends only on the multiset of entries, not on their order. */
  lemma MedianPermutation(a: seq<real>, b: seq<real>)
    requires |a| >= 1 && multiset(a) == multiset(b)
    ensures |b| >= 1 && Median(a) == Median(b)
  {
    assert |a| == |multiset(a)| == |multiset(b)| == |b|;
    SortPermutation(a, b);
  }

  /** For an odd number of entries the median is one of them. */
  lemma MedianOddIsEntry(xs: seq<real>)
    requires |xs| % 2 == 1
    ensures exists i :: 0 <= i < |xs| && xs[i] == Median(xs)
  {
    var s := Sort(xs);
    assert s[(|s| - 1) / 2] in multiset(xs);
  }

  /** The mean of two entries is their midpoint. */
  lemma MeanOfTwo(a: real, b: real)
    ensures ArithmeticMean([a, b]) == (a + b) / 2.0
  {
    assert [a, b][..1] == [a];
    assert [a][..0] == [];
    assert Sum([a]) == a;
    assert Sum([a, b]) == a + b;
  }

  /** The median lies between the two middle entries of the sorted data (the same entry when N is odd). */
  lemma MedianWithin(xs: seq<real>, s: seq<real>)
    requires |xs| >= 1 && s == Sort(xs)
    ensures s[(|s| - 1) / 2] <= Median(xs) <= s[|s| / 2]
  {
    MiddleWithin(s);
  }

  /** The median lies between the smallest and the largest entry. */
  lemma MedianBetween(xs: seq<real>)
    requires |xs| >= 1
    ensures exists i :: 0 <= i < |xs| && xs[i] <= Median(xs)
    ensures exists j :: 0 <= j < |xs| && Median(xs) <= xs[j]
  {
    var s := Sort(xs);
    MedianWithin(xs, s);
    var lo, hi := s[(|s| - 1) / 2], s[|s| / 2];
    assert lo in multiset(xs) && hi in multiset(xs);
    var i :| 0 <= i < |xs| && xs[i] == lo;
    var j :| 0 <= j < |xs| && xs[j] == hi;
  }

  /** At least half of the entries lie at or below the median, and at least half at or above it. */
  lemma MedianHalves(xs: seq<real>)
    requires |xs| >= 1
    ensures 2 * Count(xs, x => x <= Median(xs)) >= |xs|
    ensures 2 * Count(xs, x => x >= Median(xs)) >= |xs|
  {
    var s := Sort(xs);
    var m := Median(xs);
    MedianWithin(xs, s);
    var low: real -> bool := x => x <= m;
    var high: real -> bool := x => x >= m;
    HalvesOfSorted(s, m, low, high);
    CountPermutation(s, xs, low);
    CountPermutation(s, xs, high);
  }

  /** A value between the two middle entries of an ascending list has half the list on each side. */
  lemma HalvesOfSorted(s: seq<real>, m: real, low: real -> bool, high: real -> bool)
    requires |s| >= 1 && SortedAsc(s)
    requires s[(|s| - 1) / 2] <= m <= s[|s| / 2]
    requires forall x :: low(x) <==> x <= m
    requires forall x :: high(x) <==> x >= m
    ensures 2 * Count(s, low) >= |s|
    ensures 2 * Count(s, high) >= |s|
  {
    CountAtMost(s, (|s| - 1) / 2, m, low);
    CountAtLeast(s, |s| / 2, m, high);
  }

  /** In an ascending list, if s[k] <= m then at least k + 1 entries are at most m. */
  lemma CountAtMost(s: seq<real>, k: int, m: real, low: real -> bool)
    requires SortedAsc(s) && 0 <= k < |s| && s[k] <= m
    requires forall x :: low(x) <==> x <= m
    ensures Count(s, low) >= k + 1
  {
    CountFrontAll(s, k + 1, low);
  }

  /** In an ascending list, if m <= s[k] then at least |s| - k entries are at least m. */
  lemma CountAtLeast(s: seq<real>, k: int, m: real, high: real -> bool)
    requires SortedAsc(s) && 0 <= k < |s| && m <= s[k]
    requires forall x :: high(x) <==> x >= m
    ensures Count(s, high) >= |s| - k
  {
    CountBackAll(s, k, high);
  }

  /** The sum of squared deviations of the entries from `center`. */
  function SquaredDeviations(xs: seq<real>, center: real): real
  {
    if xs == [] then 0.0
    else SquaredDeviations(xs[..|xs| - 1], center) + (xs[|xs| - 1] - center) * (xs[|xs| - 1] - center)
  }

  /** A sum of squares is never negative, and is zero when every entry is the center. */
  lemma {:induction false} SquaredDeviationsSign(xs: seq<real>, center: real)
    ensures SquaredDeviations(xs, center) >= 0.0
    ensures (forall i :: 0 <= i < |xs| ==> xs[i] == center) ==> SquaredDeviations(xs, center) == 0.0
  {
    if xs != [] {
      var n := |xs| - 1;
      SquaredDeviationsSign(xs[..n], center);
      assert forall i :: 0 <= i < n ==> xs[..n][i] == xs[i];
    }
  }

  /**
   * `standard_deviation` up to its square root: the squared deviations from
   * the mean, divided by N - ddof.
   */
  function Radicand(xs: seq<real>, ddof: int): (r: real)
    requires |xs| >= 1 && |xs| != ddof
    ensures r * ((|xs| - ddof) as real) == SquaredDeviations(xs, ArithmeticMean(xs))
  {
    SquaredDeviations(xs, ArithmeticMean(xs)) / ((|xs| - ddof) as real)
  }

  /**
   * With a positive divisor the radicand is non-negative, so the square root
   * exists; with a negative one it is not positive.
   */
  lemma RadicandSign(xs: seq<real>, ddof: int)
    requires |xs| >= 1 && |xs| != ddof
    ensures |xs| > ddof ==> Radicand(xs, ddof) >= 0.0
    ensures |xs| < ddof ==> Radicand(xs, ddof) <= 0.0
  {
    var m := ArithmeticMean(xs);
    SquaredDeviationsSign(xs, m);
    var q := SquaredDeviations(xs, m);
    var d := (|xs| - ddof) as real;
    if d > 0.0 {
      assert q / d >= 0.0;
    } else {
      assert q / d <= 0.0;
    }
  }

  /** Constant data has zero spread, whatever the degrees of freedom. */
  lemma RadicandConstant(xs: seq<real>, c: real, ddof: int)
    requires |xs| >= 1 && |xs| != ddof
    requires forall i :: 0 <= i < |xs| ==> xs[i] == c
    ensures Radicand(xs, ddof) == 0.0
  {
    MeanConstant(xs, c);
    SquaredDeviationsSign(xs, c);
  }

  /** Every prefix of the squared deviations, unfolded once. */
  lemma SquaredDeviationsPrefixes(xs: seq<real>, center: real)
    ensures forall k :: 0 < k <= |xs| ==>
              SquaredDeviations(xs[..k], center)
              == SquaredDeviations(xs[..k - 1], center) + (xs[k - 1] - center) * (xs[k - 1] - center)
  {
    forall k | 0 < k <= |xs|
      ensures SquaredDeviations(xs[..k], center)
              == SquaredDeviations(xs[..k - 1], center) + (xs[k - 1] - center) * (xs[k - 1] - center)
    {
      assert xs[..k][..k - 1] == xs[..k - 1];
    }
  }

  /** The population test of the library (ddof = 0): the radicand is 467971/400. */
  lemma PopulationScenario(xs: seq<real>)
    requires |xs| == 20
    requires xs[0] == 14.0 && xs[1] == 17.0 && xs[2] == 92.0 && xs[3] == 57.0 && xs[4] == 2.0
    requires xs[5] == 92.0 && xs[6] == 82.0 && xs[7] == 2.0 && xs[8] == 42.0 && xs[9] == 64.0
    requires xs[10] == 94.0 && xs[11] == 6.0 && xs[12] == 87.0 && xs[13] == 31.0 && xs[14] == 67.0
    requires xs[15] == 4.0 && xs[16] == 68.0 && xs[17] == 86.0 && xs[18] == 14.0 && xs[19] == 22.0
    ensures ArithmeticMean(xs) == 943.0 / 20.0
    ensures Radicand(xs, 0) == 467971.0 / 400.0
  {
    SumPrefixes(xs);
    assert xs[..20] == xs;
    SquaredDeviationsPrefixes(xs, 943.0 / 20.0);
  }

  /** The sample test of the library (ddof = 1): the radicand is 62116/95. */
  lemma SampleScenario(xs: seq<real>)
    requires |xs| == 20
    requires xs[0] == 92.0 && xs[1] == 9.0 && xs[2] == 43.0 && xs[3] == 72.0 && xs[4] == 64.0
    requires xs[5] == 33.0 && xs[6] == 15.0 && xs[7] == 33.0 && xs[8] == 20.0 && xs[9] == 71.0
    requires xs[10] == 69.0 && xs[11] == 51.0 && xs[12] == 23.0 && xs[13] == 61.0 && xs[14] == 70.0
    requires xs[15] == 27.0 && xs[16] == 85.0 && xs[17] == 10.0 && xs[18] == 60.0 && xs[19] == 36.0
    ensures ArithmeticMean(xs) == 236.0 / 5.0
    ensures Radicand(xs, 1) == 62116.0 / 95.0
  {
    SumPrefixes(xs);
    assert xs[..20] == xs;
    SquaredDeviationsPrefixes(xs, 236.0 / 5.0);
  }

  /*
   * The mean with the entries' own Python types. `np.array(array,
   * dtype=Decimal)` keeps each entry as it is, `sum` adds them from the int
   * 0, and the sum is divided by `Decimal(N)`. A Python float added to a
   * Decimal, or divided by one, raises TypeError.
   */

  /** An entry of the data array: a Python int, float or Decimal. */
  datatype Scalar = PyInt(i: int) | PyFloat(f: real) | PyDecimal(d: real)

  function ScalarValue(x: Scalar): real
  {
    match x
    case PyInt(i) => i as real
    case PyFloat(f) => f
    case PyDecimal(d) => d
  }

  function Values(xs: seq<Scalar>): (r: seq<real>)
    ensures |r| == |xs| && forall i :: 0 <= i < |xs| ==> r[i] == ScalarValue(xs[i])
  {
    seq(|xs|, i requires 0 <= i < |xs| => ScalarValue(xs[i]))
  }

  predicate HasFloat(xs: seq<Scalar>)
  {
    exists x :: x in xs && x.PyFloat?
  }

  predicate HasDecimal(xs: seq<Scalar>)
  {
    exists x :: x in xs && x.PyDecimal?
  }

  /**
   * Python's `+` on two entries: ints stay ints, an int meeting a float or a
   * Decimal takes the other's type, and a float meeting a Decimal is a
   * TypeError.
   */
  function Add(a: Scalar, b: Scalar): (r: Result<Scalar>)
    ensures r.Err? <==> (a.PyFloat? && b.PyDecimal?) || (a.PyDecimal? && b.PyFloat?)
    ensures r.Ok? ==> ScalarValue(r.value) == ScalarValue(a) + ScalarValue(b)
  {
    match (a, b)
    case (PyInt(x), PyInt(y)) => Ok(PyInt(x + y))
    case (PyFloat(_), PyDecimal(_)) => Err(TypeError)
    case (PyDecimal(_), PyFloat(_)) => Err(TypeError)
    case (PyFloat(_), _) => Ok(PyFloat(ScalarValue(a) + ScalarValue(b)))
    case (_, PyFloat(_)) => Ok(PyFloat(ScalarValue(a) + ScalarValue(b)))
    case _ => Ok(PyDecimal(ScalarValue(a) + ScalarValue(b)))
  }

  /** Python's `sum`: a left fold of `Add` from the int 0. */
  function PySum(xs: seq<Scalar>): Result<Scalar>
  {
    if xs == [] then Ok(PyInt(0))
    else
      var total :- PySum(xs[..|xs| - 1]);
      Add(total, xs[|xs| - 1])
  }

  /**
   * The sum fails exactly when the data holds both a float and a Decimal;
   * otherwise it is the exact sum, and a float exactly when some entry is.
   */
  lemma {:induction false} PySumTypes(xs: seq<Scalar>)
    ensures PySum(xs).Err? <==> HasFloat(xs) && HasDecimal(xs)
    ensures PySum(xs).Err? ==> PySum(xs).fault == TypeError
    ensures PySum(xs).Ok? ==> ScalarValue(PySum(xs).value) == Sum(Values(xs))
    ensures PySum(xs).Ok? ==> (PySum(xs).value.PyFloat? <==> HasFloat(xs))
    ensures PySum(xs).Ok? ==> (PySum(xs).value.PyDecimal? <==> HasDecimal(xs))
  {
    if xs != [] {
      var n := |xs| - 1;
      var front := xs[..n];
      PySumTypes(front);
      assert xs == front + [xs[n]];
      assert forall x :: x in xs <==> x in front || x == xs[n];
      assert Values(xs)[..n] == Values(front);
    }
  }

  /**
   * `arithmetic_mean` as written: a TypeError exactly when some entry is a
   * float, since either the sum meets a Decimal or the float sum is divided
   * by `Decimal(N)`; otherwise the exact mean.
   */
  function MeanAsWritten(xs: seq<Scalar>): (r: Result<real>)
    requires |xs| >= 1
    ensures r.Err? <==> HasFloat(xs)
    ensures r.Err? ==> r.fault == TypeError
    ensures r.Ok? ==> r.value == ArithmeticMean(Values(xs))
  {
    PySumTypes(xs);
    var total :- PySum(xs);
    if total.PyFloat? then Err(TypeError) else Ok(ScalarValue(total) / (|xs| as real))
  }

  /**
   * Two floats, 1.5 and 2.5: the code raises TypeError, while the mean the
   * function promises, the one `ArithmeticMean` computes, is 2.
   */
  lemma MeanFloatScenario()
    ensures MeanAsWritten([PyFloat(1.5), PyFloat(2.5)]) == Err(TypeError)
    ensures ArithmeticMean(Values([PyFloat(1.5), PyFloat(2.5)])) == 2.0
  {
    var xs := [PyFloat(1.5), PyFloat(2.5)];
    assert xs[0] in xs;
    assert Values(xs) == [1.5, 2.5];
    MeanOfTwo(1.5, 2.5);
  }
}
