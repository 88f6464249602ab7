/** Vector and word masks as the sets of their lanes or bits, taken lowest first. */
module LaneMasks {
  predicate IsLowest(mask: set<nat>, l: nat) {
    l in mask && forall m | m in mask :: l <= m
  }

  lemma {:induction false} LowestExists(mask: set<nat>)
    requires mask != {}
    ensures exists l :: IsLowest(mask, l)
    decreases mask
  {
    var l :| l in mask;
    if y :| y in mask && y < l {
      var below := mask - {l};
      assert y in below;
      LowestExists(below);
      var x :| IsLowest(below, x);
      assert forall m | m in mask :: m == l || m in below;
      assert IsLowest(mask, x);
    } else {
      assert IsLowest(mask, l);
    }
  }

  /** The lowest lane or bit of a mask that is not empty. */
  function TrailingZeroCount(mask: set<nat>): (l: nat)
    requires mask != {}
    ensures l in mask && IsLowest(mask, l)
  {
    LowestExists(mask);
    var l :| IsLowest(mask, l);
    l
  }

  function ResetLowestSetBit(mask: set<nat>): set<nat>
    requires mask != {}
  {
    mask - {TrailingZeroCount(mask)}
  }

  lemma ResetShrinks(mask: set<nat>)
    requires mask != {}
    ensures ResetLowestSetBit(mask) < mask
  {
  }
}
