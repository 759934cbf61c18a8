/**
 * The geometric mask generators of `mask/geometric.py`. A mask depends only
 * on the shape of the (two-dimensional) data array: each generator allocates
 * a fresh all-False template of that shape and sets cells in place. The data
 * array is only read for its shape and is never written (no method here has
 * it in a `modifies` clause).
 *
 * Axis 0 is the row and axis 1 the column, as in numpy's `a[row, column]`.
 * Negative indexes (numpy's wrap-around from the end) are excluded by the
 * preconditions.
 */
module GeometricMasks {
  import opened Outcomes

  /** Some pair k of the parallel lists has `first[k] == i` and `second[k] == j`. */
  predicate PixelListed(first: seq<int>, second: seq<int>, i: int, j: int) {
    exists k :: 0 <= k < |first| && k < |second| && first[k] == i && second[k] == j
  }

  /** Row `i` and column `j` lie in the inclusive rectangle spanned by the first and last entries of the ranges. */
  predicate InRectangle(columnRange: seq<int>, rowRange: seq<int>, i: int, j: int)
    requires |columnRange| > 0 && |rowRange| > 0
  {
    && rowRange[0] <= i <= rowRange[|rowRange| - 1]
    && columnRange[0] <= j <= columnRange[|columnRange| - 1]
  }

  /** `mask_nothing`: a fresh all-False mask of the data's shape. */
  method MaskNothing(data: array2<real>) returns (m: array2<bool>)
    ensures fresh(m)
    ensures m.Length0 == data.Length0 && m.Length1 == data.Length1
    ensures forall i, j :: 0 <= i < m.Length0 && 0 <= j < m.Length1 ==> !m[i, j]
  {
    m := new bool[data.Length0, data.Length1]((i, j) => false);
  }

  /** `mask_everything`: a fresh all-True mask of the data's shape. */
  method MaskEverything(data: array2<real>) returns (m: array2<bool>)
    ensures fresh(m)
    ensures m.Length0 == data.Length0 && m.Length1 == data.Length1
    ensures forall i, j :: 0 <= i < m.Length0 && 0 <= j < m.Length1 ==> m[i, j]
  {
    m := new bool[data.Length0, data.Length1]((i, j) => true);
  }

  /**
   * `mask_single_pixels` as written: lists of different lengths raise
   * InputError before any mask is built; otherwise pair k sets the cell
   * `[column_indexes[k], row_indexes[k]]`, taking the FIRST axis from the
   * column list, and every other cell stays False.
   */
  method MaskSinglePixels(data: array2<real>, columnIndexes: seq<int>, rowIndexes: seq<int>)
    returns (r: Result<array2<bool>>)
    requires |columnIndexes| == |rowIndexes| ==>
               forall k :: 0 <= k < |columnIndexes| ==>
                 0 <= columnIndexes[k] < data.Length0 && 0 <= rowIndexes[k] < data.Length1
    ensures r.Err? <==> |columnIndexes| != |rowIndexes|
    ensures r.Err? ==> r.fault == InputError
    ensures r.Ok? ==> fresh(r.value) && r.value.Length0 == data.Length0 && r.value.Length1 == data.Length1
    ensures r.Ok? ==> forall i, j :: 0 <= i < data.Length0 && 0 <= j < data.Length1 ==>
                        (r.value[i, j] <==> PixelListed(columnIndexes, rowIndexes, i, j))
  {
    if |columnIndexes| != |rowIndexes| {
      return Err(InputError);
    }
    var m := MaskNothing(data);
    var k := 0;
    while k < |columnIndexes|
      invariant 0 <= k <= |columnIndexes|
      invariant forall i, j :: 0 <= i < m.Length0 && 0 <= j < m.Length1 ==>
                  (m[i, j] <==> exists t :: 0 <= t < k && columnIndexes[t] == i && rowIndexes[t] == j)
    {
      m[columnIndexes[k], rowIndexes[k]] := true;
      k := k + 1;
    }
    return Ok(m);
  }

  /**
   * The single-pixel mask with the axes in numpy's order: pair k sets the
   * cell in row `row_indexes[k]` and column `column_indexes[k]`.
   */
  method MaskSinglePixelsRowMajor(data: array2<real>, columnIndexes: seq<int>, rowIndexes: seq<int>)
    returns (r: Result<array2<bool>>)
    requires |columnIndexes| == |rowIndexes| ==>
               forall k :: 0 <= k < |columnIndexes| ==>
                 0 <= rowIndexes[k] < data.Length0 && 0 <= columnIndexes[k] < data.Length1
    ensures r.Err? <==> |columnIndexes| != |rowIndexes|
    ensures r.Err? ==> r.fault == InputError
    ensures r.Ok? ==> fresh(r.value) && r.value.Length0 == data.Length0 && r.value.Length1 == data.Length1
    ensures r.Ok? ==> forall i, j :: 0 <= i < data.Length0 && 0 <= j < data.Length1 ==>
                        (r.value[i, j] <==> PixelListed(rowIndexes, columnIndexes, i, j))
  {
    if |columnIndexes| != |rowIndexes| {
      return Err(InputError);
    }
    var m := MaskNothing(data);
    var k := 0;
    while k < |columnIndexes|
      invariant 0 <= k <= |columnIndexes|
      invariant forall i, j :: 0 <= i < m.Length0 && 0 <= j < m.Length1 ==>
                  (m[i, j] <==> exists t :: 0 <= t < k && rowIndexes[t] == i && columnIndexes[t] == j)
    {
      m[rowIndexes[k], columnIndexes[k]] := true;
      k := k + 1;
    }
    return Ok(m);
  }

  /**
   * `mask_rectangle`: a cell is True exactly when its row lies between the
   * first and last entries of the row range and its column between those of
   * the column range, bounds included. Entries between the first and last
   * only trigger a warning. An empty range fails on its first index; an
   * upper bound past the edge is clamped, as numpy slicing does.
   */
  method MaskRectangle(data: array2<real>, columnRange: seq<int>, rowRange: seq<int>)
    returns (r: Result<array2<bool>>)
    requires |columnRange| > 0 ==> 0 <= columnRange[0] && 0 <= columnRange[|columnRange| - 1]
    requires |rowRange| > 0 ==> 0 <= rowRange[0] && 0 <= rowRange[|rowRange| - 1]
    ensures r.Err? <==> |columnRange| == 0 || |rowRange| == 0
    ensures r.Err? ==> r.fault == IndexError
    ensures r.Ok? ==> fresh(r.value) && r.value.Length0 == data.Length0 && r.value.Length1 == data.Length1
    ensures r.Ok? ==> forall i, j :: 0 <= i < data.Length0 && 0 <= j < data.Length1 ==>
                        (r.value[i, j] <==> InRectangle(columnRange, rowRange, i, j))
  {
    if |columnRange| == 0 || |rowRange| == 0 {
      return Err(IndexError);
    }
    var m := MaskNothing(data);
    var rowLow, rowHigh := rowRange[0], rowRange[|rowRange| - 1];
    var colLow, colHigh := columnRange[0], columnRange[|columnRange| - 1];
    var i := rowLow;
    while i <= rowHigh && i < m.Length0
      invariant rowLow <= i && (i == rowLow || i <= rowHigh + 1)
      invariant forall p, q :: 0 <= p < m.Length0 && 0 <= q < m.Length1 ==>
                  (m[p, q] <==> rowLow <= p < i && colLow <= q <= colHigh)
    {
      var j := colLow;
      while j <= colHigh && j < m.Length1
        invariant colLow <= j && (j == colLow || j <= colHigh + 1)
        invariant forall p, q :: 0 <= p < m.Length0 && 0 <= q < m.Length1 ==>
                    (m[p, q] <==> (rowLow <= p < i && colLow <= q <= colHigh) || (p == i && colLow <= q < j))
      {
        m[i, j] := true;
        j := j + 1;
      }
      i := i + 1;
    }
    return Ok(m);
  }

  /**
   * `mask_subarray`: the cellwise negation of `mask_rectangle` for the same
   * ranges, so everything outside the inclusive sub-rectangle is True.
   */
  method MaskSubarray(data: array2<real>, columnRange: seq<int>, rowRange: seq<int>)
    returns (r: Result<array2<bool>>)
    requires |columnRange| > 0 ==> 0 <= columnRange[0] && 0 <= columnRange[|columnRange| - 1]
    requires |rowRange| > 0 ==> 0 <= rowRange[0] && 0 <= rowRange[|rowRange| - 1]
    ensures r.Err? <==> |columnRange| == 0 || |rowRange| == 0
    ensures r.Err? ==> r.fault == IndexError
    ensures r.Ok? ==> fresh(r.value) && r.value.Length0 == data.Length0 && r.value.Length1 == data.Length1
    ensures r.Ok? ==> forall i, j :: 0 <= i < data.Length0 && 0 <= j < data.Length1 ==>
                        (r.value[i, j] <==> !InRectangle(columnRange, rowRange, i, j))
  {
    var rectangle := MaskRectangle(data, columnRange, rowRange);
    if rectangle.Err? {
      return Err(rectangle.fault);
    }
    var m := rectangle.value;
    var negated := new bool[m.Length0, m.Length1](
      (i, j) reads m requires 0 <= i < m.Length0 && 0 <= j < m.Length1 => !m[i, j]);
    return Ok(negated);
  }

  /**
   * `mask_columns`: a cell is True exactly when its column occurs in the
   * list, so neither the order nor repetitions of the list matter.
   */
  method MaskColumns(data: array2<real>, columnList: seq<int>) returns (m: array2<bool>)
    requires forall k :: 0 <= k < |columnList| ==> 0 <= columnList[k] < data.Length1
    ensures fresh(m) && m.Length0 == data.Length0 && m.Length1 == data.Length1
    ensures forall i, j :: 0 <= i < m.Length0 && 0 <= j < m.Length1 ==> (m[i, j] <==> j in columnList)
  {
    m := MaskNothing(data);
    var k := 0;
    while k < |columnList|
      invariant 0 <= k <= |columnList|
      invariant forall p, q :: 0 <= p < m.Length0 && 0 <= q < m.Length1 ==> (m[p, q] <==> q in columnList[..k])
    {
      var column := columnList[k];
      var i := 0;
      while i < m.Length0
        invariant 0 <= i <= m.Length0
        invariant forall p, q :: 0 <= p < m.Length0 && 0 <= q < m.Length1 ==>
                    (m[p, q] <==> q in columnList[..k] || (q == column && p < i))
      {
        m[i, column] := true;
        i := i + 1;
      }
      assert columnList[..k + 1] == columnList[..k] + [column];
      k := k + 1;
    }
    assert columnList[..k] == columnList;
  }

  /**
   * `mask_rows`: a cell is True exactly when its row occurs in the list;
   * every other cell stays False.
   */
  method MaskRows(data: array2<real>, rowList: seq<int>) returns (m: array2<bool>)
    requires forall k :: 0 <= k < |rowList| ==> 0 <= rowList[k] < data.Length0
    ensures fresh(m) && m.Length0 == data.Length0 && m.Length1 == data.Length1
    ensures forall i, j :: 0 <= i < m.Length0 && 0 <= j < m.Length1 ==> (m[i, j] <==> i in rowList)
  {
    m := MaskNothing(data);
    var k := 0;
    while k < |rowList|
      invariant 0 <= k <= |rowList|
      invariant forall p, q :: 0 <= p < m.Length0 && 0 <= q < m.Length1 ==> (m[p, q] <==> p in rowList[..k])
    {
      var row := rowList[k];
      var j := 0;
      while j < m.Length1
        invariant 0 <= j <= m.Length1
        invariant forall p, q :: 0 <= p < m.Length0 && 0 <= q < m.Length1 ==>
                    (m[p, q] <==> p in rowList[..k] || (p == row && q < j))
      {
        m[row, j] := true;
        j := j + 1;
      }
      assert rowList[..k + 1] == rowList[..k] + [row];
      k := k + 1;
    }
    assert rowList[..k] == rowList;
  }

  // The single-pixel test case of the library's own test suite: a 6x6 array,
  // columns [1,2,3,5,5,5] paired with rows [3,1,4,0,3,5], and the mask the
  // test expects, written row by row.
  const TestColumns: seq<int> := [1, 2, 3, 5, 5, 5]
  const TestRows: seq<int> := [3, 1, 4, 0, 3, 5]
  const TestExpected: seq<seq<bool>> := [
    [false, false, false, false, false, true ],
    [false, false, true,  false, false, false],
    [false, false, false, false, false, false],
    [false, true,  false, false, false, true ],
    [false, false, false, true,  false, false],
    [false, false, false, false, false, true ]]

  /** As written, the test's expected cell (row 3, column 1) is left False: the generator writes the transpose. */
  lemma SinglePixelsTestTransposed()
    ensures TestExpected[3][1]
    ensures !PixelListed(TestColumns, TestRows, 3, 1)
    ensures PixelListed(TestColumns, TestRows, 1, 3)
  {
    assert TestColumns[0] == 1 && TestRows[0] == 3;
  }

  /** With the axes in numpy's order the generator produces exactly the mask the test expects. */
  lemma SinglePixelsTestRowMajor()
    ensures forall i, j :: 0 <= i < 6 && 0 <= j < 6 ==> (PixelListed(TestRows, TestColumns, i, j) <==> TestExpected[i][j])
  {
    forall i, j | 0 <= i < 6 && 0 <= j < 6
      ensures PixelListed(TestRows, TestColumns, i, j) <==> TestExpected[i][j]
    {
      if TestExpected[i][j] {
        var k := if i == 3 && j == 1 then 0 else if i == 1 then 1 else if i == 4 then 2
                 else if i == 0 then 3 else if i == 3 then 4 else 5;
        assert TestRows[k] == i && TestColumns[k] == j;
      }
    }
  }

  /** The two single-pixel masks are transposes of each other. */
  lemma SinglePixelsTranspose(columnIndexes: seq<int>, rowIndexes: seq<int>, i: int, j: int)
    ensures PixelListed(columnIndexes, rowIndexes, i, j) <==> PixelListed(rowIndexes, columnIndexes, j, i)
  {
  }
}
