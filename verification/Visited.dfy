/** The epoch-stamped visited set of include/toyvdb/hnsw_index.hpp. */
module Visited {

  const EPOCHS: nat := 0x1_0000_0000

  class Visited {
    var stamp: seq<nat>
    var cur: nat

    /** No stamp is from a later epoch than the current one. */
    ghost predicate Valid()
      reads this
    {
      cur < EPOCHS && forall i | 0 <= i < |stamp| :: stamp[i] <= cur
    }

    /** The marked ids; `ensure` and `bump` come before the first use. */
    ghost function Marked(): set<nat>
      reads this
    {
      set i: nat | i < |stamp| && stamp[i] == cur
    }

    constructor ()
      ensures Valid() && stamp == [] && cur == 0
    {
      stamp, cur := [], 0;
    }

    /** Grows with zero stamps: in any epoch but the first of all, nothing becomes marked. */
    method Ensure(n: nat)
      requires Valid()
      modifies this`stamp
      ensures Valid() && |stamp| == (if |old(stamp)| < n then n else |old(stamp)|)
      ensures cur > 0 ==> Marked() == old(Marked())
    {
      if |stamp| < n { stamp := stamp + seq(n - |stamp|, _ => 0); }
    }

    /** A fresh, empty set, also when the 32-bit epoch counter wraps. */
    method Bump()
      requires Valid()
      modifies this
      ensures Valid() && Marked() == {} && cur > 0 && |stamp| == |old(stamp)|
    {
      cur := (cur + 1) % EPOCHS;
      if cur == 0 {
        stamp := seq(|stamp|, _ => 0);
        cur := 1;
      }
    }

    method TestSet(id: nat) returns (seen: bool)
      requires Valid() && id < |stamp|
      modifies this`stamp
      ensures Valid() && |stamp| == |old(stamp)|
      ensures seen == (id in old(Marked())) && Marked() == old(Marked()) + {id}
    {
      if stamp[id] == cur { return true; }
      stamp := stamp[id := cur];
      assert forall i | 0 <= i < |stamp| && i != id :: stamp[i] == old(stamp)[i];
      return false;
    }
  }
}
