/**
 * The value-based mask generators of `mask/value.py`, over the data array
 * flattened to a sequence of reals (every generator here is elementwise or
 * depends on the data only through its sorted values, so the shape plays no
 * part). A True entry is rejected.
 *
 * `synthesize_masks`, which the source calls to merge masks, is not part of
 * this model; it is taken to be the elementwise OR of its arguments.
 */
module ValueMasks {
  import opened Outcomes
  import opened Sorting
  import MaskCombine

  /** A mask entry counts as masked when it is True. */
  predicate IsSet(b: bool) { b }

  /** `mask_maximum_value`: strictly above the bound. */
  function MaskMaximumValue(data: seq<real>, maximum: real): (r: seq<bool>)
    ensures |r| == |data|
    ensures forall i :: 0 <= i < |r| ==> (r[i] <==> data[i] > maximum)
  {
    seq(|data|, i requires 0 <= i < |data| => data[i] > maximum)
  }

  /** `mask_minimum_value`: strictly below the bound. */
  function MaskMinimumValue(data: seq<real>, minimum: real): (r: seq<bool>)
    ensures |r| == |data|
    ensures forall i :: 0 <= i < |r| ==> (r[i] <==> data[i] < minimum)
  {
    seq(|data|, i requires 0 <= i < |data| => data[i] < minimum)
  }

  /**
   * With one bound for both, the two threshold masks never overlap and
   * between them reject every value except the bound itself; raising a
   * bound only releases entries.
   */
  lemma ThresholdsPartition(data: seq<real>, bound: real, higher: real, i: int)
    requires 0 <= i < |data| && bound <= higher
    ensures !(MaskMaximumValue(data, bound)[i] && MaskMinimumValue(data, bound)[i])
    ensures MaskMaximumValue(data, bound)[i] || MaskMinimumValue(data, bound)[i] <==> data[i] != bound
    ensures MaskMaximumValue(data, higher)[i] ==> MaskMaximumValue(data, bound)[i]
    ensures MaskMinimumValue(data, bound)[i] ==> MaskMinimumValue(data, higher)[i]
  {
  }

  /** numpy.isclose's default relative tolerance. */
  const RelativeTolerance: real := 0.00001
  /** numpy.isclose's default absolute tolerance. */
  const AbsoluteTolerance: real := 0.00000001

  function Abs(x: real): (r: real)
    ensures r >= 0.0 && (r == x || r == -x)
  {
    if x < 0.0 then -x else x
  }

  /** numpy.isclose(a, b): the tolerance scales with the SECOND argument only. */
  predicate IsClose(a: real, b: real) {
    Abs(a - b) <= AbsoluteTolerance + RelativeTolerance * Abs(b)
  }

  /** `mask_exact_value`: each entry compared with the value by numpy.isclose, the entry first. */
  function MaskExactValue(data: seq<real>, exact: real): (r: seq<bool>)
    ensures |r| == |data|
    ensures forall i :: 0 <= i < |r| ==> (r[i] <==> IsClose(data[i], exact))
  {
    seq(|data|, i requires 0 <= i < |data| => IsClose(data[i], exact))
  }

  /**
   * The exact-value mask always rejects the value itself, never rejects an
   * entry farther away than the absolute tolerance plus the relative share
   * of the value, and rejects every entry within the absolute tolerance.
   */
  lemma ExactValueTolerance(data: seq<real>, exact: real, i: int)
    requires 0 <= i < |data|
    ensures data[i] == exact ==> MaskExactValue(data, exact)[i]
    ensures Abs(data[i] - exact) <= AbsoluteTolerance ==> MaskExactValue(data, exact)[i]
    ensures MaskExactValue(data, exact)[i] ==>
              exact - AbsoluteTolerance - RelativeTolerance * Abs(exact) <= data[i] <=
              exact + AbsoluteTolerance + RelativeTolerance * Abs(exact)
  {
  }

  /** numpy.isclose is not symmetric: near zero, the entry 0 is close to `a` but `a` is not close to 0. */
  lemma IsCloseAsymmetric()
    ensures IsClose(0.0, 0.00000001000005)
    ensures !IsClose(0.00000001000005, 0.0)
  {
  }

  /** The integer scenario of the library's tests: the three 7s and nothing else. */
  lemma ExactValueScenario()
    ensures MaskExactValue([7.0, 9.0, 5.0, 3.0, 9.0, 1.0, 7.0, 3.0, 1.0, 4.0, 3.0, 2.0, 7.0], 7.0)
            == [true, false, false, false, false, false, true, false, false, false, false, false, true]
  {
  }

  /** Python's `s[:-k]` for k >= 0: `-0` is 0, so k == 0 gives the empty prefix, and k past the length clamps to empty. */
  function DropLast(s: seq<real>, k: nat): (r: seq<real>)
    ensures |r| == if k == 0 || k >= |s| then 0 else |s| - k
    ensures forall j :: 0 <= j < |r| ==> r[j] == s[j]
  {
    if k == 0 || k >= |s| then [] else s[..|s| - k]
  }

  /** Python's `s[k:]` for k >= 0, clamped to empty past the end. */
  function DropFirst(s: seq<real>, k: nat): (r: seq<real>)
    ensures |r| == if k >= |s| then 0 else |s| - k
    ensures forall j :: 0 <= j < |r| ==> r[j] == s[k + j]
  {
    if k >= |s| then [] else s[k..]
  }

  /** The two threshold masks combined: entries strictly below `lower` or strictly above `upper`. */
  function Cut(data: seq<real>, lower: real, upper: real): (r: seq<bool>)
    ensures |r| == |data|
    ensures forall i :: 0 <= i < |r| ==> (r[i] <==> data[i] < lower || data[i] > upper)
  {
    MaskCombine.LogicalOr(MaskMinimumValue(data, lower), MaskMaximumValue(data, upper))
  }

  /**
   * `mask_pixel_truncation` as written: the upper cut is the last entry of
   * `sorted[:-top]` and the lower cut the first of `sorted[bottom:]`; an
   * empty slice raises IndexError, which happens for `top == 0` as well as
   * for counts at or past the number of entries. Entries strictly above the
   * upper cut or strictly below the lower cut are rejected.
   */
  function MaskPixelTruncation(data: seq<real>, top: int, bottom: int): (r: Result<seq<bool>>)
    requires top >= 0 && bottom >= 0
    ensures r.Err? <==> top == 0 || top >= |data| || bottom >= |data|
    ensures r.Err? ==> r.fault == IndexError
    ensures r.Ok? ==> |r.value| == |data|
    ensures r.Ok? ==> forall i :: 0 <= i < |data| ==>
              (r.value[i] <==> data[i] > Sort(data)[|data| - top - 1] || data[i] < Sort(data)[bottom])
  {
    var sorted := Sort(data);
    var belowTop := DropLast(sorted, top);
    var fromBottom := DropFirst(sorted, bottom);
    if belowTop == [] || fromBottom == [] then Err(IndexError)
    else
      var upper := belowTop[|belowTop| - 1];
      var lower := fromBottom[0];
      assert upper == sorted[|data| - top - 1] && lower == sorted[bottom];
      Ok(Cut(data, lower, upper))
  }

  /**
   * Pixel truncation with the upper cut read at `sorted[N - top - 1]`, so
   * that a top count of 0 keeps every entry up to the maximum instead of
   * failing. Counts at or past the number of entries still fail.
   */
  function MaskPixelTruncationFixed(data: seq<real>, top: int, bottom: int): (r: Result<seq<bool>>)
    requires top >= 0 && bottom >= 0
    ensures r.Err? <==> top >= |data| || bottom >= |data|
    ensures r.Err? ==> r.fault == IndexError
    ensures r.Ok? ==> |r.value| == |data|
  {
    if top >= |data| || bottom >= |data| then Err(IndexError)
    else
      var sorted := Sort(data);
      Ok(Cut(data, sorted[bottom], sorted[|data| - top - 1]))
  }

  /** For every positive top count the two definitions agree. */
  lemma PixelTruncationFixedAgrees(data: seq<real>, top: int, bottom: int)
    requires top > 0 && bottom >= 0
    ensures MaskPixelTruncation(data, top, bottom) == MaskPixelTruncationFixed(data, top, bottom)
  {
    var r := MaskPixelTruncation(data, top, bottom);
    var f := MaskPixelTruncationFixed(data, top, bottom);
    if r.Ok? {
      assert |r.value| == |f.value|;
      forall i | 0 <= i < |data| ensures r.value[i] == f.value[i] {
      }
    }
  }

  /** Asking for no top pixels of [1, 2, 3]: the code as written fails, the fixed definition masks only the bottom entry. */
  lemma PixelTruncationZeroTop(data: seq<real>)
    requires |data| == 3 && data[0] == 1.0 && data[1] == 2.0 && data[2] == 3.0
    ensures MaskPixelTruncation(data, 0, 1) == Err(IndexError)
    ensures MaskPixelTruncationFixed(data, 0, 1) == Ok([true, false, false])
  {
    assert SortedAsc(data);
    SortedUnique(Sort(data), data);
    assert MaskPixelTruncationFixed(data, 0, 1) == Ok(Cut(data, 2.0, 3.0));
    assert Cut(data, 2.0, 3.0) == [true, false, false];
  }

  /** Truncation never splits ties: equal values receive equal bits. */
  lemma PixelTruncationTies(data: seq<real>, top: int, bottom: int, i: int, j: int)
    requires 0 <= top && 0 <= bottom
    requires 0 <= i < |data| && 0 <= j < |data| && data[i] == data[j]
    ensures MaskPixelTruncationFixed(data, top, bottom).Ok? ==>
              MaskPixelTruncationFixed(data, top, bottom).value[i] == MaskPixelTruncationFixed(data, top, bottom).value[j]
  {
  }

  /**
   * In an ascending sequence, the entries strictly above the entry `top`
   * places from the end or strictly below the entry at `bottom` number at
   * most `top + bottom`, and exactly that many when the sequence is strictly
   * ascending and the two counts do not overlap.
   */
  lemma CutCount(s: seq<real>, top: int, bottom: int, above: real -> bool, below: real -> bool, either: real -> bool)
    requires SortedAsc(s) && 0 <= top < |s| && 0 <= bottom < |s|
    requires forall x :: above(x) <==> x > s[|s| - top - 1]
    requires forall x :: below(x) <==> x < s[bottom]
    requires forall x :: either(x) <==> above(x) || below(x)
    ensures Count(s, either) <= top + bottom
    ensures StrictlyAsc(s) && top + bottom <= |s| ==> Count(s, either) == top + bottom
  {
    var n := |s|;
    CountOr(s, above, below, either);
    CountAboveSorted(s, n - top - 1, above);
    CountBelowSorted(s, bottom, below);
    if top + bottom <= n {
      assert forall k :: 0 <= k < n ==> !(above(s[k]) && below(s[k]));
    }
  }

  /**
   * At most `top + bottom` entries are rejected; exactly that many when the
   * values are distinct and the two counts do not exceed the number of
   * entries.
   */
  lemma PixelTruncationCount(data: seq<real>, top: int, bottom: int)
    requires 0 <= top < |data| && 0 <= bottom < |data|
    ensures Count(MaskPixelTruncationFixed(data, top, bottom).value, IsSet) <= top + bottom
    ensures Distinct(data) && top + bottom <= |data| ==>
              Count(MaskPixelTruncationFixed(data, top, bottom).value, IsSet) == top + bottom
  {
    var s := Sort(data);
    FixedFromSorted(data, s, top, bottom);
    CutMaskCount(data, s, top, bottom);
    if Distinct(data) {
      SortDistinct(data);
    }
  }

  /** The fixed truncation reads its cuts off any ascending rearrangement of the data. */
  lemma FixedFromSorted(data: seq<real>, s: seq<real>, top: int, bottom: int)
    requires multiset(data) == multiset(s) && SortedAsc(s)
    requires 0 <= top < |data| && 0 <= bottom < |data|
    ensures |s| == |data|
    ensures MaskPixelTruncationFixed(data, top, bottom) == Ok(Cut(data, s[bottom], s[|s| - top - 1]))
  {
    SortedUnique(Sort(data), s);
  }

  /** The count of a cut taken from an ascending rearrangement `s` of the data. */
  lemma CutMaskCount(data: seq<real>, s: seq<real>, top: int, bottom: int)
    requires multiset(data) == multiset(s) && SortedAsc(s)
    requires 0 <= top < |s| && 0 <= bottom < |s|
    ensures Count(Cut(data, s[bottom], s[|s| - top - 1]), IsSet) <= top + bottom
    ensures StrictlyAsc(s) && top + bottom <= |s| ==>
              Count(Cut(data, s[bottom], s[|s| - top - 1]), IsSet) == top + bottom
  {
    var upper := s[|s| - top - 1];
    var lower := s[bottom];
    var either := (x: real) => x > upper || x < lower;
    var m := Cut(data, lower, upper);
    assert |data| == |s| by {
      assert |multiset(data)| == |multiset(s)|;
    }
    CountCorrespond(m, data, IsSet, either);
    CountPermutation(data, s, either);
    CutCount(s, top, bottom, x => x > upper, x => x < lower, either);
  }

  /**
   * Ties at a cut: asking for the top entry of [1, 2, 3, 3] rejects nothing
   * at the top, because the cut value 3 is shared by the two largest
   * entries and only entries strictly above it are rejected.
   */
  lemma PixelTruncationTieScenario(data: seq<real>)
    requires |data| == 4 && data[0] == 1.0 && data[1] == 2.0 && data[2] == 3.0 && data[3] == 3.0
    ensures MaskPixelTruncation(data, 1, 1) == Ok([true, false, false, false])
  {
    assert SortedAsc(data);
    FixedFromSorted(data, data, 1, 1);
    PixelTruncationFixedAgrees(data, 1, 1);
    assert Cut(data, 2.0, 3.0) == [true, false, false, false];
  }

  /** `floor(N * percent)`: the number of pixels a fraction of N amounts to. */
  function PercentCount(n: nat, percent: real): (k: int)
    requires percent >= 0.0
    ensures k >= 0
    ensures k as real <= n as real * percent < k as real + 1.0
  {
    (n as real * percent).Floor
  }

  /**
   * `mask_percent_truncation`: the floored counts handed to the pixel
   * truncation as written. The percentages are not checked against [0, 1].
   */
  function MaskPercentTruncation(data: seq<real>, topPercent: real, bottomPercent: real): (r: Result<seq<bool>>)
    requires topPercent >= 0.0 && bottomPercent >= 0.0
    ensures r.Err? ==> r.fault == IndexError
    ensures r.Ok? ==> |r.value| == |data|
  {
    MaskPixelTruncation(data, PercentCount(|data|, topPercent), PercentCount(|data|, bottomPercent))
  }

  /** A fraction of N pixels floors to N or more exactly when the fraction is at least 1. */
  lemma PercentCountReachesAll(n: nat, percent: real)
    requires n > 0 && percent >= 0.0
    ensures PercentCount(n, percent) >= n <==> percent >= 1.0
  {
    var x := n as real * percent;
    if percent >= 1.0 {
      assert x - n as real == n as real * (percent - 1.0);
    } else {
      assert n as real - x == n as real * (1.0 - percent);
    }
  }

  /**
   * A percent truncation fails exactly when the top fraction floors to no
   * pixel at all, or either fraction reaches the whole array.
   */
  lemma PercentTruncationFails(data: seq<real>, topPercent: real, bottomPercent: real)
    requires topPercent >= 0.0 && bottomPercent >= 0.0
    ensures MaskPercentTruncation(data, topPercent, bottomPercent).Err? <==>
              |data| as real * topPercent < 1.0 || topPercent >= 1.0 || bottomPercent >= 1.0
  {
    if |data| > 0 {
      PercentCountReachesAll(|data|, topPercent);
      PercentCountReachesAll(|data|, bottomPercent);
    }
  }

  /** A successful percent truncation rejects at most the two fractions of the entries. */
  lemma PercentTruncationBound(data: seq<real>, topPercent: real, bottomPercent: real)
    requires topPercent >= 0.0 && bottomPercent >= 0.0
    requires MaskPercentTruncation(data, topPercent, bottomPercent).Ok?
    ensures Count(MaskPercentTruncation(data, topPercent, bottomPercent).value, IsSet) as real
            <= |data| as real * (topPercent + bottomPercent)
  {
    var top := PercentCount(|data|, topPercent);
    var bottom := PercentCount(|data|, bottomPercent);
    PixelTruncationFixedAgrees(data, top, bottom);
    PixelTruncationCount(data, top, bottom);
  }

  /** The outcome of the precision check that follows a percent truncation. */
  datatype Diagnostic = Quiet | ImprecisionWarning | ImprecisionError

  /**
   * The precision check of `mask_percent_truncation`, in terms of
   * log10(N) and log10 of the float resolution. The error condition implies
   * the warning condition checked before it, so the error is never reached.
   * Neither outcome alters the returned mask.
   */
  function PrecisionDiagnostic(logPixels: real, logResolution: real): (d: Diagnostic)
    ensures d != ImprecisionError
    ensures d == ImprecisionWarning <==> logPixels > -logResolution - 5.0
  {
    if logPixels > -logResolution - 5.0 then ImprecisionWarning
    else if logPixels > -logResolution then ImprecisionError
    else Quiet
  }

  /**
   * The precision check with the stricter condition checked first, so that
   * a pixel count past the float resolution reports an error and one within
   * five orders of magnitude of it a warning.
   */
  function PrecisionDiagnosticFixed(logPixels: real, logResolution: real): (d: Diagnostic)
    ensures d == ImprecisionError <==> logPixels > -logResolution
    ensures d == ImprecisionWarning <==> -logResolution - 5.0 < logPixels <= -logResolution
    ensures d == Quiet <==> logPixels <= -logResolution - 5.0
  {
    if logPixels > -logResolution then ImprecisionError
    else if logPixels > -logResolution - 5.0 then ImprecisionWarning
    else Quiet
  }

  /** The two checks differ exactly on the counts past the resolution. */
  lemma PrecisionDiagnosticAgrees(logPixels: real, logResolution: real)
    ensures PrecisionDiagnostic(logPixels, logResolution) == PrecisionDiagnosticFixed(logPixels, logResolution)
            <==> logPixels <= -logResolution
  {
  }

  /**
   * With a resolution of 1e-18, 1e19 pixels only draw a warning as written,
   * where the error was meant.
   */
  lemma PrecisionDiagnosticScenario()
    ensures PrecisionDiagnostic(19.0, -18.0) == ImprecisionWarning
    ensures PrecisionDiagnosticFixed(19.0, -18.0) == ImprecisionError
  {
  }

  /** The sigma multiple: one number, or a list whose first entry is the bottom and last the top multiple. */
  datatype SigmaMultiple = Symmetric(multiple: real) | Listed(multiples: seq<real>)

  /** The (bottom, top) multiples; an empty list fails when its first entry is read. */
  function SigmaBounds(sigma: SigmaMultiple): (r: Result<(real, real)>)
    ensures sigma.Symmetric? ==> r == Ok((sigma.multiple, sigma.multiple))
    ensures sigma.Listed? ==> (r.Err? <==> |sigma.multiples| == 0)
    ensures r.Err? ==> r.fault == IndexError
    ensures sigma.Listed? && r.Ok? ==>
              r.value.0 == sigma.multiples[0] && r.value.1 == sigma.multiples[|sigma.multiples| - 1]
    ensures sigma.Listed? && |sigma.multiples| == 1 ==> r.Ok? && r.value.0 == r.value.1
  {
    match sigma
    case Symmetric(k) => Ok((k, k))
    case Listed(ks) =>
      if |ks| == 1 then Ok((ks[0], ks[0]))
      else if |ks| == 0 then Err(IndexError)
      else Ok((ks[0], ks[|ks| - 1]))
  }

  /** The positions a mask leaves unrejected, in increasing order. */
  function Kept(mask: seq<bool>): (r: seq<nat>)
    ensures |r| == |mask| - Count(mask, IsSet)
    ensures forall j :: 0 <= j < |r| ==> r[j] < |mask|
  {
    if mask == [] then []
    else
      var rest := Kept(mask[1..]);
      var shifted := seq(|rest|, j requires 0 <= j < |rest| => rest[j] + 1);
      if mask[0] then shifted else [0] + shifted
  }

  /** Every position `Kept` lists is unmasked. */
  lemma {:induction false} KeptUnmasked(mask: seq<bool>)
    ensures forall j :: 0 <= j < |Kept(mask)| ==> !mask[Kept(mask)[j]]
  {
    if mask != [] {
      var tail := mask[1..];
      KeptUnmasked(tail);
      var rest := Kept(tail);
      var shifted := seq(|rest|, j requires 0 <= j < |rest| => rest[j] + 1);
      assert Kept(mask) == if mask[0] then shifted else [0] + shifted;
      forall j | 0 <= j < |shifted| ensures !mask[shifted[j]] {
        assert mask[shifted[j]] == tail[rest[j]];
      }
    }
  }

  /** The positions `Kept` lists increase strictly, so the data keeps its order. */
  lemma {:induction false} KeptIncreasing(mask: seq<bool>)
    ensures forall j, k :: 0 <= j < k < |Kept(mask)| ==> Kept(mask)[j] < Kept(mask)[k]
  {
    if mask != [] {
      var tail := mask[1..];
      KeptIncreasing(tail);
      var rest := Kept(tail);
      var shifted := seq(|rest|, j requires 0 <= j < |rest| => rest[j] + 1);
      assert Kept(mask) == if mask[0] then shifted else [0] + shifted;
    }
  }

  /** No unmasked position is missed. */
  lemma {:induction false} KeptComplete(mask: seq<bool>)
    ensures forall i :: 0 <= i < |mask| && !mask[i] ==> i in Kept(mask)
  {
    if mask != [] {
      var tail := mask[1..];
      KeptComplete(tail);
      var rest := Kept(tail);
      var shifted := seq(|rest|, j requires 0 <= j < |rest| => rest[j] + 1);
      assert Kept(mask) == if mask[0] then shifted else [0] + shifted;
      forall i | 1 <= i < |mask| && !mask[i] ensures i in shifted {
        assert tail[i - 1] == mask[i];
        var j :| 0 <= j < |rest| && rest[j] == i - 1;
        assert shifted[j] == i;
      }
    }
  }

  /** numpy's `compressed()`: the entries the mask leaves unrejected, in order. */
  function Compress(data: seq<real>, mask: seq<bool>): (r: seq<real>)
    requires |mask| == |data|
    ensures |r| == |data| - Count(mask, IsSet)
    ensures forall j :: 0 <= j < |r| ==> r[j] in data
  {
    if data == [] then []
    else
      var rest := Compress(data[1..], mask[1..]);
      assert forall j :: 0 <= j < |rest| ==> rest[j] in data by {
        forall j | 0 <= j < |rest| ensures rest[j] in data {
          assert rest[j] in data[1..];
        }
      }
      if mask[0] then rest else [data[0]] + rest
  }

  /**
   * The compressed data is the data read at the positions `Kept(mask)`:
   * with `KeptUnmasked`, `KeptIncreasing` and `KeptComplete`, exactly the unrejected entries, in their order.
   */
  lemma {:induction false} CompressKept(data: seq<real>, mask: seq<bool>)
    requires |mask| == |data|
    ensures |Compress(data, mask)| == |Kept(mask)|
    ensures forall j :: 0 <= j < |Kept(mask)| ==> Compress(data, mask)[j] == data[Kept(mask)[j]]
  {
    if data != [] {
      var tail, rest := mask[1..], Compress(data[1..], mask[1..]);
      CompressKept(data[1..], tail);
      var kept := Kept(tail);
      var shifted := seq(|kept|, j requires 0 <= j < |kept| => kept[j] + 1);
      forall j | 0 <= j < |rest| ensures rest[j] == data[shifted[j]] {
        assert data[1..][kept[j]] == data[shifted[j]];
      }
      if mask[0] {
        assert Kept(mask) == shifted;
        assert Compress(data, mask) == rest;
      } else {
        var r := [data[0]] + rest;
        assert Kept(mask) == [0] + shifted;
        assert Compress(data, mask) == r;
        forall j | 1 <= j < |r| ensures r[j] == data[([0] + shifted)[j]] {
          assert r[j] == rest[j - 1];
        }
      }
    }
  }

  /** Compressing by an all-False mask keeps every entry. */
  lemma {:induction false} CompressNothing(data: seq<real>, mask: seq<bool>)
    requires |mask| == |data|
    requires forall i :: 0 <= i < |mask| ==> !mask[i]
    ensures Compress(data, mask) == data
  {
    if data != [] {
      CompressNothing(data[1..], mask[1..]);
    }
  }

  /** The lower clipping limit, mean - bottom * std, of the entries still in play. */
  function LowerLimit(kept: seq<real>, bottom: real, mean: seq<real> -> real, std: seq<real> -> real): real {
    mean(kept) - std(kept) * bottom
  }

  /** The upper clipping limit, mean + top * std, of the entries still in play. */
  function UpperLimit(kept: seq<real>, top: real, mean: seq<real> -> real, std: seq<real> -> real): real {
    mean(kept) + std(kept) * top
  }

  /**
   * One clipping round: the robust mean and spread of the unrejected
   * entries set the limits, and the entries below the lower or above the
   * upper limit are added to the running mask.
   */
  function SigmaStep(data: seq<real>, mask: seq<bool>, bottom: real, top: real,
                     mean: seq<real> -> real, std: seq<real> -> real): (r: seq<bool>)
    requires |mask| == |data|
    ensures |r| == |data|
    ensures forall i :: 0 <= i < |r| ==> mask[i] ==> r[i]
  {
    var kept := Compress(data, mask);
    MaskCombine.LogicalOr(MaskCombine.LogicalOr(mask, MaskMinimumValue(data, LowerLimit(kept, bottom, mean, std))),
                          MaskMaximumValue(data, UpperLimit(kept, top, mean, std)))
  }

  /**
   * The running mask after `n` rounds, starting from `mask_nothing`. Once
   * a round has run, every entry outside the limits of the whole data (the
   * limits of the first round) is rejected.
   */
  function SigmaClip(data: seq<real>, bottom: real, top: real, n: nat,
                     mean: seq<real> -> real, std: seq<real> -> real): (r: seq<bool>)
    ensures |r| == |data|
    ensures n == 0 ==> forall i :: 0 <= i < |r| ==> !r[i]
    ensures n >= 1 ==> forall i :: 0 <= i < |r| && OutsideLimits(data, i, bottom, top, mean, std) ==> r[i]
  {
    if n == 0 then seq(|data|, _ => false)
    else
      var previous := SigmaClip(data, bottom, top, n - 1, mean, std);
      if n == 1 then
        CompressNothing(data, previous);
        SigmaStep(data, previous, bottom, top, mean, std)
      else SigmaStep(data, previous, bottom, top, mean, std)
  }

  /** Entry `i` lies outside the clipping limits computed from the whole data. */
  predicate OutsideLimits(data: seq<real>, i: int, bottom: real, top: real,
                          mean: seq<real> -> real, std: seq<real> -> real)
    requires 0 <= i < |data|
  {
    data[i] < LowerLimit(data, bottom, mean, std) || data[i] > UpperLimit(data, top, mean, std)
  }

  /** The clipping loop: `iterations` rounds from `mask_nothing`. */
  method SigmaRounds(data: seq<real>, bottom: real, top: real, iterations: nat,
                     mean: seq<real> -> real, std: seq<real> -> real)
    returns (mask: seq<bool>)
    ensures mask == SigmaClip(data, bottom, top, iterations, mean, std)
  {
    mask := seq(|data|, _ => false);
    var k := 0;
    while k < iterations
      invariant 0 <= k <= iterations
      invariant mask == SigmaClip(data, bottom, top, k, mean, std)
    {
      mask := SigmaStep(data, mask, bottom, top, mean, std);
      k := k + 1;
    }
  }

  /**
   * `mask_sigma_value`, with the robust mean and standard deviation as
   * parameters. Fewer than one iteration raises InputError before anything
   * else; an empty list of multiples fails when it is read; otherwise the
   * result is the running mask after `iterations` rounds.
   */
  method MaskSigmaValue(data: seq<real>, sigma: SigmaMultiple, iterations: int,
                        mean: seq<real> -> real, std: seq<real> -> real)
    returns (r: Result<seq<bool>>)
    ensures iterations < 1 ==> r == Err(InputError)
    ensures iterations >= 1 ==> (r.Err? <==> SigmaBounds(sigma).Err?)
    ensures iterations >= 1 && r.Err? ==> r.fault == IndexError
    ensures iterations >= 1 && r.Ok? ==>
              r.value == SigmaClip(data, SigmaBounds(sigma).value.0, SigmaBounds(sigma).value.1, iterations, mean, std)
  {
    if iterations < 1 {
      return Err(InputError);
    }
    var bounds := SigmaBounds(sigma);
    if bounds.Err? {
      return Err(bounds.fault);
    }
    var (bottom, top) := bounds.value;
    var mask := SigmaRounds(data, bottom, top, iterations, mean, std);
    return Ok(mask);
  }

  /** An entry rejected after `m` rounds stays rejected after any later round. */
  lemma {:induction false} SigmaClipGrows(data: seq<real>, bottom: real, top: real, m: nat, n: nat,
                                          mean: seq<real> -> real, std: seq<real> -> real, i: int)
    requires m <= n && 0 <= i < |data|
    ensures SigmaClip(data, bottom, top, m, mean, std)[i] ==> SigmaClip(data, bottom, top, n, mean, std)[i]
  {
    if m < n {
      SigmaClipGrows(data, bottom, top, m, n - 1, mean, std, i);
      SigmaClipWidens(data, bottom, top, n, mean, std, i);
    }
  }

  /** One more round keeps every rejection. */
  lemma SigmaClipWidens(data: seq<real>, bottom: real, top: real, n: nat,
                        mean: seq<real> -> real, std: seq<real> -> real, i: int)
    requires n >= 1 && 0 <= i < |data|
    ensures SigmaClip(data, bottom, top, n - 1, mean, std)[i] ==> SigmaClip(data, bottom, top, n, mean, std)[i]
  {
    var previous := SigmaClip(data, bottom, top, n - 1, mean, std);
    assert SigmaClip(data, bottom, top, n, mean, std) == SigmaStep(data, previous, bottom, top, mean, std);
  }

  /** More rounds never reject fewer entries. */
  lemma SigmaClipCountGrows(data: seq<real>, bottom: real, top: real, m: nat, n: nat,
                            mean: seq<real> -> real, std: seq<real> -> real)
    requires m <= n
    ensures Count(SigmaClip(data, bottom, top, m, mean, std), IsSet) <= Count(SigmaClip(data, bottom, top, n, mean, std), IsSet)
  {
    var a := SigmaClip(data, bottom, top, m, mean, std);
    var b := SigmaClip(data, bottom, top, n, mean, std);
    forall i | 0 <= i < |data| ensures a[i] ==> b[i] {
      SigmaClipGrows(data, bottom, top, m, n, mean, std, i);
    }
    var index := seq(|data|, i => i);
    CountCorrespond(a, index, IsSet, i => 0 <= i < |a| && a[i]);
    CountCorrespond(b, index, IsSet, i => 0 <= i < |b| && b[i]);
    CountMonotone(index, i => 0 <= i < |a| && a[i], i => 0 <= i < |b| && b[i]);
  }

  /**
   * A single round rejects exactly the entries outside the limits computed
   * from the whole data.
   */
  lemma SigmaClipOnce(data: seq<real>, bottom: real, top: real, mean: seq<real> -> real, std: seq<real> -> real, i: int)
    requires 0 <= i < |data|
    ensures SigmaClip(data, bottom, top, 1, mean, std)[i] <==>
              data[i] < LowerLimit(data, bottom, mean, std) || data[i] > UpperLimit(data, top, mean, std)
  {
    var nothing := SigmaClip(data, bottom, top, 0, mean, std);
    CompressNothing(data, nothing);
  }
}
