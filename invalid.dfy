/**
 * The invalid-value masks of `mask/invalid.py`: entries off the real number
 * line are rejected. An entry is a finite real, one of the two infinities or
 * NaN; the data array is flattened to a sequence of entries.
 */
module InvalidMasks {
  import opened Outcomes

  /** An IEEE floating-point entry, reduced to the four kinds the masks distinguish. */
  datatype Element = Fin(value: real) | PosInf | NegInf | NaN

  /** `mask_invalid_all`: an unfinished stub that returns None for every input. */
  function MaskInvalidAll(data: seq<Element>): (r: Option<seq<bool>>)
    ensures r.None?
  {
    None
  }

  /** `mask_invalid_infinity` (numpy.isinf): True exactly at +inf and -inf. */
  function MaskInvalidInfinity(data: seq<Element>): (r: seq<bool>)
    ensures |r| == |data|
    ensures forall i :: 0 <= i < |r| ==> (r[i] <==> data[i] == PosInf || data[i] == NegInf)
  {
    seq(|data|, i requires 0 <= i < |data| => data[i].PosInf? || data[i].NegInf?)
  }

  /** `mask_invalid_nan` (numpy.isnan): True exactly at NaN. */
  function MaskInvalidNan(data: seq<Element>): (r: seq<bool>)
    ensures |r| == |data|
    ensures forall i :: 0 <= i < |r| ==> (r[i] <==> data[i] == NaN)
  {
    seq(|data|, i requires 0 <= i < |data| => data[i].NaN?)
  }

  /**
   * The two masks never flag the same entry, never flag a finite entry, and
   * together flag exactly the entries that are not finite.
   */
  lemma InvalidMasksPartition(data: seq<Element>, i: int)
    requires 0 <= i < |data|
    ensures !(MaskInvalidInfinity(data)[i] && MaskInvalidNan(data)[i])
    ensures data[i].Fin? ==> !MaskInvalidInfinity(data)[i] && !MaskInvalidNan(data)[i]
    ensures MaskInvalidInfinity(data)[i] || MaskInvalidNan(data)[i] <==> !data[i].Fin?
  {
  }

  /** The stub is not the union of the other two masks it describes, for any input. */
  lemma InvalidAllIsNotUnion(data: seq<Element>)
    ensures MaskInvalidAll(data) != Some(seq(|data|, i requires 0 <= i < |data| =>
                                               MaskInvalidInfinity(data)[i] || MaskInvalidNan(data)[i]))
  {
  }

  /**
   * The infinity scenario of the library's tests, with the 6x6 array
   * flattened row by row: True exactly where an infinity sits.
   */
  lemma InfinityScenario(data: seq<Element>)
    requires data == [Fin(0.0), NegInf, Fin(0.0), Fin(0.0), Fin(0.0), NegInf,
                      Fin(0.0), PosInf, Fin(0.0), Fin(0.0), Fin(0.0), Fin(0.0),
                      Fin(0.0), Fin(0.0), NegInf, Fin(0.0), Fin(0.0), Fin(0.0),
                      Fin(0.0), Fin(0.0), Fin(0.0), Fin(0.0), PosInf, Fin(0.0),
                      PosInf, Fin(0.0), Fin(0.0), Fin(0.0), Fin(0.0), Fin(0.0),
                      Fin(0.0), Fin(0.0), Fin(0.0), PosInf, Fin(0.0), Fin(0.0)]
    ensures MaskInvalidInfinity(data) == [false, true,  false, false, false, true,
                                          false, true,  false, false, false, false,
                                          false, false, true,  false, false, false,
                                          false, false, false, false, true,  false,
                                          true,  false, false, false, false, false,
                                          false, false, false, true,  false, false]
    ensures MaskInvalidNan(data) == seq(36, _ => false)
  {
  }
}
