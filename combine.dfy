/**
 * The mask combinators of `mask/common.py`: `combine_masks_lor` and
 * `combine_masks_land` fold any number of same-shaped boolean masks into one.
 *
 * A mask is its shape together with its cells in row-major order. Keyword
 * arguments (rejected by the source with a DevelopmentError) cannot be
 * expressed here.
 */
module MaskCombine {
  import opened Outcomes

  /** A boolean mask: its shape (numpy's `.shape`) and its cells, flattened. */
  datatype Mask = Mask(shape: seq<nat>, cells: seq<bool>)

  /** numpy's `.size`: the product of the dimensions (1 for a 0-d array). */
  function Size(shape: seq<nat>): nat {
    if shape == [] then 1 else shape[0] * Size(shape[1..])
  }

  /** The cells fill the shape exactly, as they do in every numpy array. */
  predicate WellFormed(m: Mask) {
    |m.cells| == Size(m.shape)
  }

  /** Elementwise `np.logical_or`. */
  function LogicalOr(a: seq<bool>, b: seq<bool>): (r: seq<bool>)
    requires |a| == |b|
    ensures |r| == |a|
    ensures forall j :: 0 <= j < |r| ==> (r[j] <==> a[j] || b[j])
  {
    seq(|a|, j requires 0 <= j < |a| => a[j] || b[j])
  }

  /** Elementwise `np.logical_and`. */
  function LogicalAnd(a: seq<bool>, b: seq<bool>): (r: seq<bool>)
    requires |a| == |b|
    ensures |r| == |a|
    ensures forall j :: 0 <= j < |r| ==> (r[j] <==> a[j] && b[j])
  {
    seq(|a|, j requires 0 <= j < |a| => a[j] && b[j])
  }

  /** Cell `j` is set in at least one of the masks. */
  predicate SomeMaskSets(masks: seq<Mask>, j: int) {
    exists t :: 0 <= t < |masks| && 0 <= j < |masks[t].cells| && masks[t].cells[j]
  }

  /** Cell `j` is set in every one of the masks. */
  predicate EveryMaskSets(masks: seq<Mask>, j: int) {
    forall t :: 0 <= t < |masks| ==> 0 <= j < |masks[t].cells| && masks[t].cells[j]
  }

  /** Every mask has the shape of the first one. */
  predicate AllShaped(masks: seq<Mask>) {
    forall t :: 0 <= t < |masks| ==> masks[t].shape == masks[0].shape
  }

  /** `k` is the first position, scanning in argument order, whose shape differs from that of mask 0. */
  predicate FirstMismatch(masks: seq<Mask>, k: int) {
    && 0 < k < |masks|
    && masks[k].shape != masks[0].shape
    && forall t :: 0 <= t < k ==> masks[t].shape == masks[0].shape
  }

  /**
   * `combine_masks_lor`. No masks: the failure is only logged and None is
   * returned. One mask: the source calls `np.as_array`, which numpy does not
   * define. Otherwise the first mask whose shape differs from mask 0 raises
   * DataError naming its index, and when all agree a cell is set exactly
   * when some mask sets it.
   */
  method CombineMasksLor(masks: seq<Mask>) returns (r: Result<Option<Mask>>)
    requires forall t :: 0 <= t < |masks| ==> WellFormed(masks[t])
    ensures |masks| == 0 ==> r == Ok(None)
    ensures |masks| == 1 ==> r == Err(AttributeError)
    ensures |masks| >= 2 ==> (r.Ok? <==> AllShaped(masks))
    ensures |masks| >= 2 && r.Err? ==> r.fault.ShapeMismatch? && FirstMismatch(masks, r.fault.index)
    ensures |masks| >= 2 && r.Ok? ==>
              && r.value.Some?
              && r.value.value.shape == masks[0].shape
              && |r.value.value.cells| == |masks[0].cells|
              && forall j :: 0 <= j < |masks[0].cells| ==> (r.value.value.cells[j] <==> SomeMaskSets(masks, j))
  {
    if |masks| == 0 {
      return Ok(None);
    } else if |masks| == 1 {
      return Err(AttributeError);
    }
    var shape0 := masks[0].shape;
    var combined := seq(|masks[0].cells|, _ => false);  // np.zeros_like(args[0])
    var k := 0;
    while k < |masks|
      invariant 0 <= k <= |masks|
      invariant forall t :: 0 <= t < k ==> masks[t].shape == shape0
      invariant |combined| == |masks[0].cells|
      invariant forall j :: 0 <= j < |combined| ==>
                  (combined[j] <==> exists t :: 0 <= t < k && j < |masks[t].cells| && masks[t].cells[j])
    {
      var m := masks[k];
      if m.shape != shape0 {
        return Err(ShapeMismatch(k));
      }
      if |m.cells| != |combined| {
        // The size check that follows a passed shape check: equal shapes have equal sizes.
        assert false;
      }
      combined := LogicalOr(combined, m.cells);
      k := k + 1;
    }
    return Ok(Some(Mask(shape0, combined)));
  }

  /**
   * `combine_masks_land`: the same outcomes as `CombineMasksLor`, except
   * that with two or more agreeing masks a cell is set exactly when every
   * mask sets it.
   */
  method CombineMasksLand(masks: seq<Mask>) returns (r: Result<Option<Mask>>)
    requires forall t :: 0 <= t < |masks| ==> WellFormed(masks[t])
    ensures |masks| == 0 ==> r == Ok(None)
    ensures |masks| == 1 ==> r == Err(AttributeError)
    ensures |masks| >= 2 ==> (r.Ok? <==> AllShaped(masks))
    ensures |masks| >= 2 && r.Err? ==> r.fault.ShapeMismatch? && FirstMismatch(masks, r.fault.index)
    ensures |masks| >= 2 && r.Ok? ==>
              && r.value.Some?
              && r.value.value.shape == masks[0].shape
              && |r.value.value.cells| == |masks[0].cells|
              && forall j :: 0 <= j < |masks[0].cells| ==> (r.value.value.cells[j] <==> EveryMaskSets(masks, j))
  {
    if |masks| == 0 {
      return Ok(None);
    } else if |masks| == 1 {
      return Err(AttributeError);
    }
    var shape0 := masks[0].shape;
    var combined := seq(|masks[0].cells|, _ => true);  // np.ones_like(args[0])
    var k := 0;
    while k < |masks|
      invariant 0 <= k <= |masks|
      invariant forall t :: 0 <= t < k ==> masks[t].shape == shape0
      invariant |combined| == |masks[0].cells|
      invariant forall j :: 0 <= j < |combined| ==>
                  (combined[j] <==> forall t :: 0 <= t < k ==> j < |masks[t].cells| && masks[t].cells[j])
    {
      var m := masks[k];
      if m.shape != shape0 {
        return Err(ShapeMismatch(k));
      }
      if |m.cells| != |combined| {
        // The size check that follows a passed shape check: equal shapes have equal sizes.
        assert false;
      }
      combined := LogicalAnd(combined, m.cells);
      k := k + 1;
    }
    return Ok(Some(Mask(shape0, combined)));
  }

  /** The OR and AND of a collection depend only on which masks occur in it, not on their order or repetition. */
  lemma CombineOrderIrrelevant(a: seq<Mask>, b: seq<Mask>, j: int)
    requires forall m :: m in a <==> m in b
    ensures SomeMaskSets(a, j) <==> SomeMaskSets(b, j)
    ensures EveryMaskSets(a, j) <==> EveryMaskSets(b, j)
  {
    if SomeMaskSets(a, j) {
      var t :| 0 <= t < |a| && 0 <= j < |a[t].cells| && a[t].cells[j];
      assert a[t] in b;
    }
    if SomeMaskSets(b, j) {
      var t :| 0 <= t < |b| && 0 <= j < |b[t].cells| && b[t].cells[j];
      assert b[t] in a;
    }
    if EveryMaskSets(a, j) {
      forall t | 0 <= t < |b| ensures 0 <= j < |b[t].cells| && b[t].cells[j] {
        assert b[t] in a;
      }
    }
    if EveryMaskSets(b, j) {
      forall t | 0 <= t < |a| ensures 0 <= j < |a[t].cells| && a[t].cells[j] {
        assert a[t] in b;
      }
    }
  }

  /** Adding an all-False mask never changes the OR; adding an all-True mask never changes the AND. */
  lemma CombineIdentities(masks: seq<Mask>, nothing: Mask, everything: Mask, j: int)
    requires 0 <= j < |nothing.cells| && 0 <= j < |everything.cells|
    requires forall i :: 0 <= i < |nothing.cells| ==> !nothing.cells[i]
    requires forall i :: 0 <= i < |everything.cells| ==> everything.cells[i]
    ensures SomeMaskSets(masks + [nothing], j) <==> SomeMaskSets(masks, j)
    ensures EveryMaskSets(masks + [everything], j) <==> EveryMaskSets(masks, j)
  {
    var withNothing := masks + [nothing];
    if SomeMaskSets(withNothing, j) {
      var t :| 0 <= t < |withNothing| && 0 <= j < |withNothing[t].cells| && withNothing[t].cells[j];
      assert t < |masks| && withNothing[t] == masks[t];
    }
    if SomeMaskSets(masks, j) {
      var t :| 0 <= t < |masks| && 0 <= j < |masks[t].cells| && masks[t].cells[j];
      assert withNothing[t] == masks[t];
    }
    var withEverything := masks + [everything];
    if EveryMaskSets(masks, j) {
      forall t | 0 <= t < |withEverything| ensures 0 <= j < |withEverything[t].cells| && withEverything[t].cells[j] {
        if t < |masks| {
          assert withEverything[t] == masks[t];
        }
      }
    }
    if EveryMaskSets(withEverything, j) {
      forall t | 0 <= t < |masks| ensures 0 <= j < |masks[t].cells| && masks[t].cells[j] {
        assert withEverything[t] == masks[t];
      }
    }
  }
}
