/** The allowed-set of include/toyvdb/bitset.hpp: bit i is bit i % 64 of word i / 64. */
module Bitset {

  /** A 64-bit word as its bits, least significant first. */
  type Word64 = w: seq<bool> | |w| == 64 witness NoBits()

  function NoBits(): seq<bool> { seq(64, _ => false) }

  function Both(a: Word64, b: Word64): Word64 { seq(64, i requires 0 <= i < 64 => a[i] && b[i]) }

  class Bitset {
    var words: seq<Word64>
    var size: nat

    predicate Bit(i: nat)
      reads this
      requires i / 64 < |words|
    {
      words[i / 64][i % 64]
    }

    ghost predicate Valid()
      reads this
    {
      |words| == (size + 63) / 64
    }

    /** Every set bit, also those of the last word that lie beyond the size. */
    ghost function Bits(): set<nat>
      reads this
    {
      set i: nat | i < 64 * |words| && Bit(i)
    }

    /** The indices that test() finds. */
    ghost function Members(): set<nat>
      reads this
      requires Valid()
    {
      set i: nat | i < size && Bit(i)
    }

    constructor (n: nat)
      ensures Valid() && size == n && Members() == {}
    {
      size := n;
      words := seq((n + 63) / 64, _ => NoBits());
    }

    method Set(i: nat)
      requires Valid() && i < 64 * |words|
      modifies this`words
      ensures Valid() && Bits() == old(Bits()) + {i}
      ensures Members() == if i < size then old(Members()) + {i} else old(Members())
    {
      words := words[i / 64 := words[i / 64][i % 64 := true]];
      assert forall j: nat | j < 64 * |words| :: Bit(j) == (old(Bit(j)) || j == i);
    }

    method Reset(i: nat)
      requires Valid() && i < 64 * |words|
      modifies this`words
      ensures Valid() && Bits() == old(Bits()) - {i} && Members() == old(Members()) - {i}
    {
      words := words[i / 64 := words[i / 64][i % 64 := false]];
      assert forall j: nat | j < 64 * |words| :: Bit(j) == (old(Bit(j)) && j != i);
    }

    method Test(i: nat) returns (b: bool)
      requires Valid()
      ensures b == (i in Members())
    {
      if i >= size { return false; }
      b := words[i / 64][i % 64];
    }

    /**
     In place, word by word; words that the other set does not have are cleared.  Bits of the
     other set beyond its size count too.
     */
    method Intersect(other: Bitset)
      requires Valid() && other.Valid()
      modifies this`words
      ensures Valid() && Bits() == old(Bits()) * old(other.Bits())
      ensures Members() == old(Members()) * old(other.Bits())
    {
      var n := if |words| <= |other.words| then |words| else |other.words|;
      for i := 0 to n
        invariant |words| == |old(words)| && |other.words| == |old(other.words)|
        invariant forall j | i <= j < n :: other.words[j] == old(other.words)[j]
        invariant forall j | 0 <= j < i :: words[j] == Both(old(words)[j], old(other.words)[j])
        invariant forall j | i <= j < |words| :: words[j] == old(words)[j]
      {
        words := words[i := Both(words[i], other.words[i])];
      }
      for i := n to |words|
        invariant |words| == |old(words)|
        invariant forall j | 0 <= j < n :: words[j] == Both(old(words)[j], old(other.words)[j])
        invariant forall j | n <= j < i :: words[j] == NoBits()
      {
        words := words[i := NoBits()];
      }
      assert forall j: nat | j < 64 * |words| ::
          Bit(j) == (old(Bit(j)) && j < 64 * |old(other.words)| && old(other.Bit(j)));
    }
  }
}
