/** One bit per two bytes of the segment, as seen_get and seen_set keep it. */
module Bitmap {

  /** `(b >> k) & 1`. */
  predicate Bit(b: bv8, k: nat)
    requires k < 8
  {
    (b >> k) & 1 == 1
  }

  /** Bit 0 is the lowest: the first halfword of a byte's sixteen bytes of code. */
  lemma BitOfMask(k: nat, j: nat)
    requires k < 8 && j < 8
    ensures Bit([1, 2, 4, 8, 16, 32, 64, 128][k], j) <==> j == k
  {
    assert j == 0 || j == 1 || j == 2 || j == 3 || j == 4 || j == 5 || j == 6 || j == 7;
    assert k == 0 || k == 1 || k == 2 || k == 3 || k == 4 || k == 5 || k == 6 || k == 7;
  }

  function WithBit(b: bv8, k: nat): bv8
    requires k < 8
  {
    b | (1 << k)
  }

  lemma WithBitSets(b: bv8, k: nat, j: nat)
    requires k < 8 && j < 8
    ensures Bit(WithBit(b, k), j) <==> j == k || Bit(b, j)
  {
    assert j == 0 || j == 1 || j == 2 || j == 3 || j == 4 || j == 5 || j == 6 || j == 7;
    assert k == 0 || k == 1 || k == 2 || k == 3 || k == 4 || k == 5 || k == 6 || k == 7;
  }

  class Marks {
    const bits: array<bv8>
    /** The halfwords marked. */
    ghost var marked: set<nat>

    ghost predicate Valid()
      reads this, bits
    {
      && (forall i :: i in marked ==> i < 8 * bits.Length)
      && (forall i: nat :: i < 8 * bits.Length ==> (Bit(bits[i / 8], i % 8) <==> i in marked))
    }

    constructor (halfwords: nat)
      ensures Valid() && marked == {} && fresh(bits) && 8 * bits.Length > halfwords
    {
      bits := new bv8[(halfwords + 7) / 8 + 1](_ => 0);
      marked := {};
    }

    /** `seen_get`. */
    method Get(off: nat) returns (r: bool)
      requires Valid() && off / 2 < 8 * bits.Length
      ensures r <==> off / 2 in marked
    {
      var i := off / 2;
      r := Bit(bits[i / 8], i % 8);
    }

    /** `seen_set`. */
    method Set(off: nat)
      requires Valid() && off / 2 < 8 * bits.Length
      modifies this, bits
      ensures Valid() && marked == old(marked) + {off / 2}
    {
      hide Bit, WithBit;
      var i := off / 2;
      ghost var was := bits[..];
      bits[i / 8] := WithBit(bits[i / 8], i % 8);
      marked := marked + {i};
      forall j: nat | j < 8 * bits.Length ensures Bit(bits[j / 8], j % 8) <==> j in marked {
        if j / 8 == i / 8 {
          WithBitSets(was[i / 8], i % 8, j % 8);
          assert j % 8 == i % 8 <==> j == i;
        }
      }
    }
  }
}
