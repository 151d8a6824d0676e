/**
 Big-endian integers (bsl/include/bsl_bytes.h) and integers as they lie in memory.
 Integers are unbounded here; the width in bytes is always written out.
 */
module Bytes {

  type byte = x: int | 0 <= x < 256

  function Pow256(n: nat): nat {
    if n == 0 then 1 else 256 * Pow256(n - 1)
  }

  /** The n low-order bytes of v, most significant first. */
  function BigEndian(v: nat, n: nat): (b: seq<byte>)
    ensures |b| == n
  {
    if n == 0 then [] else BigEndian(v / 256, n - 1) + [v % 256]
  }

  function Value(b: seq<byte>): nat {
    if b == [] then 0 else 256 * Value(b[..|b| - 1]) + b[|b| - 1]
  }

  lemma {:induction false} ValueBounded(b: seq<byte>)
    ensures Value(b) < Pow256(|b|)
  {
    if b != [] {
      ValueBounded(b[..|b| - 1]);
    }
  }

  /** Reading back what was written gives the number, if it fits. */
  lemma {:induction false} ValueOfBigEndian(v: nat, n: nat)
    requires v < Pow256(n)
    ensures Value(BigEndian(v, n)) == v
  {
    if n > 0 {
      ValueOfBigEndian(v / 256, n - 1);
      assert BigEndian(v, n)[..n - 1] == BigEndian(v / 256, n - 1);
    }
  }

  /** Writing what was read gives the bytes. */
  lemma {:induction false} BigEndianOfValue(b: seq<byte>)
    ensures BigEndian(Value(b), |b|) == b
  {
    if b != [] {
      var front, last := b[..|b| - 1], b[|b| - 1];
      BigEndianOfValue(front);
      assert Value(b) / 256 == Value(front) && Value(b) % 256 == last;
      assert b == front + [last];
    }
  }

  const TWO_32: nat := 0x1_0000_0000
  const TWO_64: nat := 0x1_0000_0000_0000_0000

  lemma Widths()
    ensures Pow256(1) == 256 && Pow256(4) == TWO_32 && Pow256(8) == TWO_64
  {
  }

  /** The four stores of BSL_Uint32ToByte and the four shifts of BSL_ByteToUint32. */
  lemma Uint32Layout(v: nat, b: seq<byte>)
    requires v < TWO_32 && |b| == 4
    ensures BigEndian(v, 4) == [v / 0x100_0000, v / 0x1_0000 % 256, v / 0x100 % 256, v % 256]
    ensures Value(b) == 0x100_0000 * (b[0] as int) + 0x1_0000 * (b[1] as int) + 0x100 * (b[2] as int) + b[3]
  {
    assert BigEndian(v / 256 / 256 / 256, 1) == [v / 0x100_0000];
    assert BigEndian(v / 256 / 256, 2) == [v / 0x100_0000, v / 0x1_0000 % 256];
    assert BigEndian(v / 256, 3) == [v / 0x100_0000, v / 0x1_0000 % 256, v / 0x100 % 256];
    assert b[..3][..2] == b[..2] && b[..2][..1] == b[..1] && b[..1][..0] == [];
    assert Value(b[..1]) == b[0];
    assert Value(b[..2]) == 0x100 * (b[0] as int) + b[1];
    assert Value(b[..3]) == 0x1_0000 * (b[0] as int) + 0x100 * (b[1] as int) + b[2];
  }

  /** The eight stores of BSL_Uint64ToByte: those of the high word, then those of the low word. */
  lemma Uint64Stores(v: nat)
    requires v < TWO_64
    ensures v / TWO_32 < TWO_32
    ensures BigEndian(v, 8) ==
            BigEndian(v / TWO_32, 4) + [v / 0x100_0000 % 256, v / 0x1_0000 % 256, v / 0x100 % 256, v % 256]
  {
    var v1, v2, v3 := v / 0x100, v / 0x1_0000, v / 0x100_0000;
    assert v1 / 256 == v2 && v2 / 256 == v3 && v3 / 256 == v / TWO_32;
    assert BigEndian(v3, 5) == BigEndian(v / TWO_32, 4) + [v3 % 256];
    assert BigEndian(v2, 6) == BigEndian(v3, 5) + [v2 % 256];
    assert BigEndian(v1, 7) == BigEndian(v2, 6) + [v1 % 256];
    assert BigEndian(v, 8) == BigEndian(v1, 7) + [v % 256];
  }

  /** The eight shifts of BSL_ByteToUint64. */
  lemma Uint64Shifts(b: seq<byte>)
    requires |b| == 8
    ensures Value(b) ==
            0x100_0000_0000_0000 * (b[0] as int) + 0x1_0000_0000_0000 * (b[1] as int) +
            0x100_0000_0000 * (b[2] as int) + 0x1_0000_0000 * (b[3] as int) + 0x100_0000 * (b[4] as int) +
            0x1_0000 * (b[5] as int) + 0x100 * (b[6] as int) + b[7]
  {
    Uint32Layout(0, b[..4]);
    assert b[..5][..4] == b[..4] && b[..6][..5] == b[..5] && b[..7][..6] == b[..6];
    assert Value(b[..5]) == 256 * Value(b[..4]) + b[4];
    assert Value(b[..6]) == 256 * Value(b[..5]) + b[5];
    assert Value(b[..7]) == 256 * Value(b[..6]) + b[6];
  }

  // ------------------------------------------------------------ machine words

  datatype Host = LittleEndianHost | BigEndianHost

  function Reversed(b: seq<byte>): (r: seq<byte>)
    ensures |r| == |b|
    ensures forall i :: 0 <= i < |b| ==> r[i] == b[|b| - 1 - i]
  {
    seq(|b|, i requires 0 <= i < |b| => b[|b| - 1 - i])
  }

  /** How a host lays out v in an n-byte variable. */
  function Store(host: Host, v: nat, n: nat): (b: seq<byte>)
    ensures |b| == n
  {
    match host
    case BigEndianHost => BigEndian(v, n)
    case LittleEndianHost => Reversed(BigEndian(v, n))
  }

  /** What a host reads from an n-byte variable. */
  function Load(host: Host, b: seq<byte>): nat {
    match host
    case BigEndianHost => Value(b)
    case LittleEndianHost => Value(Reversed(b))
  }

  lemma LoadStore(host: Host, v: nat, n: nat)
    requires v < Pow256(n)
    ensures Load(host, Store(host, v, n)) == v
  {
    assert Reversed(Reversed(BigEndian(v, n))) == BigEndian(v, n);
    ValueOfBigEndian(v, n);
  }

  lemma StoreLoad(host: Host, b: seq<byte>)
    ensures Store(host, Load(host, b), |b|) == b
    ensures Load(host, b) < Pow256(|b|)
  {
    assert Reversed(Reversed(b)) == b;
    BigEndianOfValue(b);
    BigEndianOfValue(Reversed(b));
    ValueBounded(b);
    ValueBounded(Reversed(b));
  }

  /** In-place conversion of a variable to network order, and back. */
  function ToNetwork(host: Host, b: seq<byte>): (r: seq<byte>)
    ensures |r| == |b|
  {
    BigEndian(Load(host, b), |b|)
  }

  function FromNetwork(host: Host, b: seq<byte>): (r: seq<byte>)
    ensures |r| == |b|
  {
    Store(host, Value(b), |b|)
  }

  /** The two conversions undo each other on every host, and network order is the same for all. */
  lemma NetworkOrder(host: Host, b: seq<byte>)
    ensures FromNetwork(host, ToNetwork(host, b)) == b
    ensures ToNetwork(host, FromNetwork(host, b)) == b
    ensures Value(ToNetwork(host, b)) == Load(host, b)
    ensures Load(host, FromNetwork(host, b)) == Value(b)
  {
    StoreLoad(host, b);
    ValueOfBigEndian(Load(host, b), |b|);
    ValueBounded(b);
    LoadStore(host, Value(b), |b|);
    BigEndianOfValue(b);
  }

  // --------------------------------------------------------------- byte buffers

  function Zeros(n: nat): (z: seq<byte>)
    ensures |z| == n && forall i :: 0 <= i < n ==> z[i] == 0
  {
    seq(n, i => 0)
  }

  /** memcpy of `src` to offset `at` of a buffer. */
  method Memcpy(buf: array<byte>, at: nat, src: seq<byte>)
    requires at + |src| <= buf.Length
    modifies buf
    ensures buf[..] == old(buf[..at]) + src + old(buf[at + |src|..])
  {
    forall i | 0 <= i < |src| {
      buf[at + i] := src[i];
    }
  }
}
