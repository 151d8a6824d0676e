/** Byte strings as the bit vectors that the constant-time comparison works on. */
module Octets {
  import opened Bytes
  import ConstTime

  /** The bit pattern of a byte. */
  function ToBits(x: byte): (b: bv8)
    ensures b as int == x
  {
    if x == 0 then 0 else ToBits(x - 1) + 1
  }

  function Bits(b: seq<byte>): (r: seq<bv8>)
    ensures |r| == |b|
    ensures forall i :: 0 <= i < |b| ==> r[i] == ToBits(b[i])
  {
    seq(|b|, i requires 0 <= i < |b| => ToBits(b[i]))
  }

  lemma BitsInjective(a: seq<byte>, b: seq<byte>)
    ensures Bits(a) == Bits(b) <==> a == b
  {
    if Bits(a) == Bits(b) {
      forall i | 0 <= i < |a| ensures a[i] == b[i] {
        assert ToBits(a[i]) == Bits(a)[i] == Bits(b)[i] == ToBits(b[i]);
      }
    }
  }

  lemma BitsPrefix(a: seq<byte>, l: nat)
    requires l <= |a|
    ensures Bits(a)[..l] == Bits(a[..l])
  {
  }

  /** ConstTimeMemcmp on two byte buffers. */
  method SameBytes(a: seq<byte>, b: seq<byte>, l: nat) returns (same: bool)
    requires l <= |a| && l <= |b|
    ensures same <==> a[..l] == b[..l]
  {
    var mask := ConstTime.ConstTimeMemcmp(Bits(a), Bits(b), l);
    BitsInjective(a[..l], b[..l]);
    BitsPrefix(a, l);
    BitsPrefix(b, l);
    same := mask != 0;
  }
}
