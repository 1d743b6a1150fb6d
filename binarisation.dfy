/**
 * Lines 88-89 of utils/dataset.py: the mask tensor is made two-level by two masked
 * assignments, `mask[mask > 0.5] = 1` and then `mask[mask <= 0.5] = 0`. The tensor is
 * modelled as its entries in an array; each assignment is one pass over it.
 */
module Binarisation {

  /** The threshold of lines 88-89. */
  const Cut: real := 0.5

  /** What one entry becomes. */
  function Threshold(v: real): real
  {
    if v > Cut then 1.0 else 0.0
  }

  /** All entries are 0 or 1. */
  ghost predicate IsBinary(s: seq<real>)
  {
    forall i :: 0 <= i < |s| ==> s[i] == 0.0 || s[i] == 1.0
  }

  /**
   * The mask after binarisation: same number of entries, each one 1 exactly when the
   * entry it replaces was above the cut and 0 exactly when it was at or below it.
   */
  function Binarised(s: seq<real>): (r: seq<real>)
    ensures |r| == |s|
    ensures forall i :: 0 <= i < |s| ==> (r[i] == 1.0 <==> s[i] > Cut) && (r[i] == 0.0 <==> s[i] <= Cut)
    ensures IsBinary(r)
  {
    seq(|s|, i requires 0 <= i < |s| => Threshold(s[i]))
  }

  /** The masks binarisation leaves unchanged are exactly the two-level ones. */
  lemma BinarisedFixesExactlyBinary(s: seq<real>)
    ensures Binarised(s) == s <==> IsBinary(s)
  {
    if IsBinary(s) {
      forall i | 0 <= i < |s|
        ensures Binarised(s)[i] == s[i]
      {
        assert s[i] == 0.0 || s[i] == 1.0;
      }
    }
  }

  /** Binarising twice is binarising once. */
  lemma BinarisedIdempotent(s: seq<real>)
    ensures Binarised(Binarised(s)) == Binarised(s)
  {
    BinarisedFixesExactlyBinary(Binarised(s));
  }

  /**
   * The two passes of lines 88-89, in place. The first sets entries above the cut to 1;
   * the second sets entries at or below the cut to 0, and leaves the ones just set to 1
   * alone because 1 is above the cut. Together they binarise the mask.
   */
  method Binarise(mask: array<real>)
    modifies mask
    ensures mask[..] == Binarised(old(mask[..]))
  {
    var i := 0;
    while i < mask.Length
      invariant 0 <= i <= mask.Length
      invariant forall k :: 0 <= k < i ==> mask[k] == (if old(mask[k]) > Cut then 1.0 else old(mask[k]))
      invariant forall k :: i <= k < mask.Length ==> mask[k] == old(mask[k])
    {
      if mask[i] > Cut {
        mask[i] := 1.0;
      }
      i := i + 1;
    }
    i := 0;
    while i < mask.Length
      invariant 0 <= i <= mask.Length
      invariant forall k :: 0 <= k < i ==> mask[k] == Threshold(old(mask[k]))
      invariant forall k :: i <= k < mask.Length ==> mask[k] == (if old(mask[k]) > Cut then 1.0 else old(mask[k]))
    {
      if mask[i] <= Cut {
        mask[i] := 0.0;
      }
      i := i + 1;
    }
  }
}
