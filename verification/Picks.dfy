/** Which elements of a sequence a filter has kept: their positions, in order. */
module Picks {
  predicate ArePicks(picks: seq<int>, all: nat, kept: nat) {
    && |picks| == kept
    && (forall k | 0 <= k < kept :: 0 <= picks[k] < all)
    && forall k, l | 0 <= k < l < kept :: picks[k] < picks[l]
  }
}
