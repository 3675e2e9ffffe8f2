/** Selecting the positions at which a boolean mask holds, as indexing a
    pandas Series with a boolean Series does. */
module Masks {

  /** The positions, in ascending order, at which `mask` is true. */
  function Keep(mask: seq<bool>): (r: seq<nat>)
    ensures |r| <= |mask|
    ensures forall k :: 0 <= k < |r| ==> r[k] < |mask| && mask[r[k]]
    ensures forall k, l :: 0 <= k < l < |r| ==> r[k] < r[l]
    decreases |mask|
  {
    if mask == [] then []
    else
      var init := Keep(mask[..|mask| - 1]);
      if mask[|mask| - 1] then init + [|mask| - 1] else init
  }

  /** Every position at which the mask holds is selected. */
  lemma {:induction false} KeepComplete(mask: seq<bool>, i: nat)
    requires i < |mask| && mask[i]
    ensures i in Keep(mask)
    decreases |mask|
  {
    if i < |mask| - 1 {
      KeepComplete(mask[..|mask| - 1], i);
    }
  }

  /** Extending the mask by one entry extends the selection by at most that entry. */
  lemma KeepSnoc(mask: seq<bool>, b: bool)
    ensures Keep(mask + [b]) == Keep(mask) + (if b then [|mask|] else [])
  {
    assert (mask + [b])[..|mask|] == mask;
  }

  /** An all-false mask selects nothing. */
  lemma {:induction false} KeepNone(mask: seq<bool>)
    requires forall i :: 0 <= i < |mask| ==> !mask[i]
    ensures Keep(mask) == []
    decreases |mask|
  {
    if mask != [] {
      KeepNone(mask[..|mask| - 1]);
    }
  }

  /** A strictly increasing sequence of naturals below `bound` has at most `bound` entries. */
  lemma {:induction false} IncreasingBelow(r: seq<nat>, bound: nat)
    requires forall k, l :: 0 <= k < l < |r| ==> r[k] < r[l]
    requires forall k :: 0 <= k < |r| ==> r[k] < bound
    ensures |r| <= bound
  {
    if r != [] {
      var last := r[|r| - 1];
      IncreasingBelow(r[..|r| - 1], last);
    }
  }
}
