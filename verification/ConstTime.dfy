/** The branch-free comparisons of bsl/include/bsl_bytes.h on 32-bit words. */
module ConstTime {

  const ALL_ONES: bv32 := 0xffff_ffff

  /** All ones for true, zero for false. */
  function Mask(b: bool): bv32 {
    if b then ALL_ONES else 0
  }

  function Msb(a: bv32): bv32 { 0 - (a >> 31) }

  function IsZero(a: bv32): bv32 { Msb(!a & (a - 1)) }

  function Equal(a: bv32, b: bv32): bv32 { IsZero(a ^ b) }

  function Select(mask: bv32, a: bv32, b: bv32): bv32 { (mask & a) | (!mask & b) }

  function Lt(a: bv32, b: bv32): bv32 { Msb(a ^ ((a ^ b) | ((a - b) ^ a))) }

  function Ge(a: bv32, b: bv32): bv32 { !Lt(a, b) }

  function Gt(a: bv32, b: bv32): bv32 { Lt(b, a) }

  function Le(a: bv32, b: bv32): bv32 { Ge(b, a) }

  lemma MsbIsMask(a: bv32)
    ensures Msb(a) == Mask(a >= 0x8000_0000)
  {
  }

  lemma ZeroBorrows(a: bv32)
    ensures !a & (a - 1) >= 0x8000_0000 <==> a == 0
  {
  }

  lemma IsZeroIsMask(a: bv32)
    ensures IsZero(a) == Mask(a == 0)
  {
    ZeroBorrows(a);
    MsbIsMask(!a & (a - 1));
  }

  lemma XorIsZero(a: bv32, b: bv32)
    ensures a ^ b == 0 <==> a == b
  {
  }

  lemma EqualIsMask(a: bv32, b: bv32)
    ensures Equal(a, b) == Mask(a == b)
  {
    XorIsZero(a, b);
    IsZeroIsMask(a ^ b);
  }

  /** The borrow of the subtraction, corrected for operands of different sign. */
  lemma BorrowIsLess(a: bv32, b: bv32)
    ensures a ^ ((a ^ b) | ((a - b) ^ a)) >= 0x8000_0000 <==> a < b
  {
  }

  lemma LtIsMask(a: bv32, b: bv32)
    ensures Lt(a, b) == Mask(a < b)
  {
    BorrowIsLess(a, b);
    MsbIsMask(a ^ ((a ^ b) | ((a - b) ^ a)));
  }

  lemma GeIsMask(a: bv32, b: bv32)
    ensures Ge(a, b) == Mask(a >= b)
  {
    LtIsMask(a, b);
  }

  lemma GtIsMask(a: bv32, b: bv32)
    ensures Gt(a, b) == Mask(a > b)
  {
    LtIsMask(b, a);
  }

  lemma LeIsMask(a: bv32, b: bv32)
    ensures Le(a, b) == Mask(a <= b)
  {
    GeIsMask(b, a);
  }

  lemma OnesSelectFirst(a: bv32, b: bv32)
    ensures Select(ALL_ONES, a, b) == a
  {
  }

  lemma ZeroSelectsSecond(a: bv32, b: bv32)
    ensures Select(0, a, b) == b
  {
  }

  lemma SelectChooses(c: bool, a: bv32, b: bv32)
    ensures c ==> Select(Mask(c), a, b) == a
    ensures !c ==> Select(Mask(c), a, b) == b
  {
    OnesSelectFirst(a, b);
    ZeroSelectsSecond(a, b);
  }

  /** The union of the differing bits of two buffers. */
  function Difference(a: seq<bv8>, b: seq<bv8>, l: nat): bv8
    requires l <= |a| && l <= |b|
  {
    if l == 0 then 0 else Difference(a, b, l - 1) | (a[l - 1] ^ b[l - 1])
  }

  lemma {:induction false} DifferenceIsZero(a: seq<bv8>, b: seq<bv8>, l: nat)
    requires l <= |a| && l <= |b|
    ensures Difference(a, b, l) == 0 <==> a[..l] == b[..l]
  {
    if l > 0 {
      DifferenceIsZero(a, b, l - 1);
      assert a[..l] == a[..l - 1] + [a[l - 1]] && b[..l] == b[..l - 1] + [b[l - 1]];
    }
  }

  /** ConstTimeMemcmp: all ones exactly when the buffers agree on the first l bytes. */
  method ConstTimeMemcmp(a: seq<bv8>, b: seq<bv8>, l: nat) returns (mask: bv32)
    requires l <= |a| && l <= |b|
    ensures mask == Mask(a[..l] == b[..l])
  {
    var r: bv8 := 0;
    for i := 0 to l
      invariant r == Difference(a, b, i)
    {
      r := r | (a[i] ^ b[i]);
    }
    DifferenceIsZero(a, b, l);
    IsZeroIsMask(r as bv32);
    mask := IsZero(r as bv32);
  }
}
