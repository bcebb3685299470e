/** The 256-bit values of the node: `U256` is four 64-bit limbs, least significant
    first; `H256` is 32 raw bytes. */
module Primitives {
  import opened LittleEndian

  const U32_MAX: nat := 0xFFFF_FFFF
  const TWO_64: nat := 0x1_0000_0000_0000_0000
  const TWO_256: nat :=
    0x1_0000_0000_0000_0000_0000_0000_0000_0000_0000_0000_0000_0000_0000_0000_0000_0000

  type Byte = x: nat | x < 256
  type u32 = x: nat | x <= U32_MAX
  type u64 = x: nat | x < TWO_64
  type H256 = s: seq<Byte> | |s| == 32 witness seq(32, _ => 0)
  type U256 = s: seq<u64> | |s| == 4 witness [0, 0, 0, 0]

  datatype Option<+T> = None | Some(value: T)

  lemma Constants()
    ensures Pow(256, 8) == TWO_64
    ensures Pow(TWO_64, 4) == TWO_256
    ensures Pow(256, 32) == TWO_256
  {
    assert Pow(256, 4) == 0x1_0000_0000;
    PowAdd(256, 4, 4);
    assert Pow(TWO_64, 2) == TWO_64 * TWO_64;
    PowAdd(TWO_64, 2, 2);
    PowAdd(256, 8, 8);
    PowAdd(256, 16, 16);
  }

  lemma TwoToTheEight()
    ensures Pow(2, 8) == 256
  {
  }

  /** The widths of the integer types, as powers of two. */
  lemma IntegerWidths()
    ensures U32_MAX + 1 == Pow(2, 32)
    ensures TWO_64 == Pow(2, 64)
    ensures TWO_256 == Pow(2, 256)
  {
    hide Pow;
    TwoToTheEight();
    PowAdd(2, 8, 8);
    PowAdd(2, 16, 16);
    PowAdd(2, 32, 32);
    PowAdd(2, 64, 64);
    PowAdd(2, 128, 128);
  }

  /** The number a U256 holds. */
  function ToNat(u: U256): (n: nat)
    ensures n < TWO_256
  {
    Constants();
    ValueBound(TWO_64, u);
    Value(TWO_64, u)
  }

  function FromNat(n: nat): (u: U256)
    requires n < TWO_256
  {
    ToDigits(TWO_64, 4, n)
  }

  /** A U256 holds every number below 2^256. */
  lemma ToNatFromNat(n: nat)
    requires n < TWO_256
    ensures ToNat(FromNat(n)) == n
  {
    Constants();
    ValueOfDigits(TWO_64, 4, n);
  }

  /** The eight little-endian bytes of a limb. */
  function LimbBytes(x: u64): (bytes: seq<Byte>)
    ensures |bytes| == 8
  {
    ToDigits(256, 8, x)
  }

  function LimbOfBytes(bytes: seq<Byte>): (x: u64)
    requires |bytes| == 8
  {
    Constants();
    ValueBound(256, bytes);
    Value(256, bytes)
  }

  lemma LimbValue(x: u64)
    ensures Value(256, LimbBytes(x)) == x
  {
    Constants();
    ValueOfDigits(256, 8, x);
  }

  lemma LimbRoundTrip(x: u64)
    ensures LimbOfBytes(LimbBytes(x)) == x
  {
    LimbValue(x);
  }

  lemma LimbBytesRoundTrip(bytes: seq<Byte>)
    requires |bytes| == 8
    ensures LimbBytes(LimbOfBytes(bytes)) == bytes
  {
    DigitsOfValue(256, bytes);
  }

  /** Four limbs out of 32 little-endian bytes. */
  function LimbsOfBytes(bytes: seq<Byte>): (u: U256)
    requires |bytes| == 32
  {
    [LimbOfBytes(bytes[0..8]), LimbOfBytes(bytes[8..16]), LimbOfBytes(bytes[16..24]), LimbOfBytes(bytes[24..32])]
  }

  /** Grouping 32 bytes into four limbs does not change the number. */
  lemma LimbsKeepValue(bytes: seq<Byte>)
    requires |bytes| == 32
    ensures ToNat(LimbsOfBytes(bytes)) == Value(256, bytes)
  {
    Constants();
    var u := LimbsOfBytes(bytes);
    assert bytes[24..32] == bytes[24..];
    ValueConcat(256, bytes[16..24], bytes[24..]);
    assert bytes[16..24] + bytes[24..] == bytes[16..];
    ValueConcat(256, bytes[8..16], bytes[16..]);
    assert bytes[8..16] + bytes[16..] == bytes[8..];
    ValueConcat(256, bytes[0..8], bytes[8..]);
    assert bytes[0..8] + bytes[8..] == bytes;
    assert u[3..] == [u[3]];
    assert u[2..] == [u[2]] + u[3..];
    assert u[1..] == [u[1]] + u[2..];
    assert u == [u[0]] + u[1..];
    assert Value(TWO_64, u[3..]) == u[3];
    assert Value(TWO_64, u[2..]) == u[2] + TWO_64 * Value(TWO_64, u[3..]);
    assert Value(TWO_64, u[1..]) == u[1] + TWO_64 * Value(TWO_64, u[2..]);
  }

  /** Reading a hash as a number is big-endian. */
  function FromBigEndian(hash: H256): (u: U256) {
    LimbsOfBytes(Reverse(hash))
  }

  lemma FromBigEndianValue(hash: H256)
    ensures ToNat(FromBigEndian(hash)) == Value(256, Reverse(hash))
  {
    LimbsKeepValue(Reverse(hash));
  }

  /** The hash whose big-endian reading is a given number. */
  function HashOfNat(n: nat): (hash: H256)
    requires n < TWO_256
  {
    Reverse(ToDigits(256, 32, n))
  }

  /** Hashes and the numbers below 2^256 are in bijection: this lemma and the next. */
  lemma HashOfNatRoundTrip(n: nat)
    requires n < TWO_256
    ensures ToNat(FromBigEndian(HashOfNat(n))) == n
  {
    Constants();
    var bytes: seq<Byte> := ToDigits(256, 32, n);
    FromBigEndianValue(HashOfNat(n));
    assert Reverse(HashOfNat(n)) == bytes;
    ValueOfDigits(256, 32, n);
  }

  lemma HashIsHashOfNat(hash: H256)
    ensures HashOfNat(ToNat(FromBigEndian(hash))) == hash
  {
    FromBigEndianValue(hash);
    DigitsOfValue(256, Reverse(hash));
    ReverseTwice(hash);
  }

  /** The nonce as a hash: 24 zero bytes, then the u64 big-endian. */
  function FromLowU64BigEndian(x: u64): (hash: H256) {
    seq(24, _ => 0) + Reverse(LimbBytes(x))
  }

  lemma LeadingZeros(low: seq<Byte>, zeros: seq<Byte>)
    requires forall i | 0 <= i < |zeros| :: zeros[i] == 0
    ensures Value(256, low + zeros) == Value(256, low)
  {
    hide Value, Pow;
    ValueConcat(256, low, zeros);
    ValueZero(256, zeros);
  }

  /** Read as a number the nonce hash is the nonce, so different nonces give different hashes. */
  lemma FromLowU64Value(x: u64)
    ensures ToNat(FromBigEndian(FromLowU64BigEndian(x))) == x
  {
    hide ToNat, FromBigEndian, LimbBytes, Value;
    var hash := FromLowU64BigEndian(x);
    var zeros: seq<Byte> := seq(24, _ => 0);
    FromBigEndianValue(hash);
    assert Reverse(hash) == LimbBytes(x) + zeros;
    LeadingZeros(LimbBytes(x), zeros);
    LimbValue(x);
  }

  lemma FromLowU64Injective(x: u64, y: u64)
    requires FromLowU64BigEndian(x) == FromLowU64BigEndian(y)
    ensures x == y
  {
    FromLowU64Value(x);
    FromLowU64Value(y);
  }
}
