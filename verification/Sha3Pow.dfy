/** The proof-of-work seal: its byte encoding, the difficulty test, and the verifier.
    The hash function is a parameter: SHA3-256 (section 6.1 of FIPS 202) is any total
    function from byte strings to 32 bytes, and no collision resistance is assumed. */
module Sha3Pow {
  import opened LittleEndian
  import opened Primitives
  import opened Multiplication

  type Hasher = seq<Byte> -> H256

  datatype Seal = Seal(difficulty: U256, work: H256, nonce: H256)
  datatype Compute = Compute(difficulty: U256, preHash: H256, nonce: H256)

  // ----- Fixed-width codec -----

  function EncodeU256(u: U256): (bytes: seq<Byte>)
    ensures |bytes| == 32
  {
    LimbBytes(u[0]) + LimbBytes(u[1]) + LimbBytes(u[2]) + LimbBytes(u[3])
  }

  function EncodeSeal(seal: Seal): (bytes: seq<Byte>)
    ensures |bytes| == 96
  {
    EncodeU256(seal.difficulty) + seal.work + seal.nonce
  }

  function EncodeCompute(compute: Compute): (bytes: seq<Byte>)
    ensures |bytes| == 96
  {
    EncodeU256(compute.difficulty) + compute.preHash + compute.nonce
  }

  /** A decoded value and the input that is left. */
  datatype Decoded<+T> = NotEnoughData | Decoded(value: T, rest: seq<Byte>) {
    predicate IsFailure() { NotEnoughData? }
    function PropagateFailure<U>(): Decoded<U> requires IsFailure() { NotEnoughData }
    function Extract(): (T, seq<Byte>) requires !IsFailure() { (value, rest) }
  }

  function DecodeU256(input: seq<Byte>): Decoded<U256> {
    if |input| < 32 then NotEnoughData else Decoded(LimbsOfBytes(input[..32]), input[32..])
  }

  function DecodeH256(input: seq<Byte>): Decoded<H256> {
    if |input| < 32 then NotEnoughData else Decoded(input[..32], input[32..])
  }

  /** The fields in declaration order; bytes after the last field are left over. */
  function DecodeSeal(input: seq<Byte>): Decoded<Seal> {
    var (difficulty, afterDifficulty) :- DecodeU256(input);
    var (work, afterWork) :- DecodeH256(afterDifficulty);
    var (nonce, rest) :- DecodeH256(afterWork);
    Decoded(Seal(difficulty, work, nonce), rest)
  }

  lemma U256RoundTrip(u: U256)
    ensures LimbsOfBytes(EncodeU256(u)) == u
  {
    hide LimbBytes;
    var bytes := EncodeU256(u);
    assert bytes[0..8] == LimbBytes(u[0]);
    assert bytes[8..16] == LimbBytes(u[1]);
    assert bytes[16..24] == LimbBytes(u[2]);
    assert bytes[24..32] == LimbBytes(u[3]);
    LimbRoundTrip(u[0]);
    LimbRoundTrip(u[1]);
    LimbRoundTrip(u[2]);
    LimbRoundTrip(u[3]);
  }

  lemma U256BytesRoundTrip(bytes: seq<Byte>)
    requires |bytes| == 32
    ensures EncodeU256(LimbsOfBytes(bytes)) == bytes
  {
    LimbBytesRoundTrip(bytes[0..8]);
    LimbBytesRoundTrip(bytes[8..16]);
    LimbBytesRoundTrip(bytes[16..24]);
    LimbBytesRoundTrip(bytes[24..32]);
  }

  /** The bytes of a U256 are its little-endian digits. */
  lemma EncodeU256IsLittleEndian(u: U256)
    ensures Value(256, EncodeU256(u)) == ToNat(u)
  {
    U256RoundTrip(u);
    LimbsKeepValue(EncodeU256(u));
  }

  /** Only one 32-byte string stands for a given U256. */
  lemma BytesOfU256(bytes: seq<Byte>, u: U256)
    requires |bytes| == 32
    ensures Value(256, bytes) == ToNat(u) <==> bytes == EncodeU256(u)
  {
    hide LimbBytes, ToNat, EncodeU256;
    EncodeU256IsLittleEndian(u);
    DigitsOfValue(256, bytes);
    DigitsOfValue(256, EncodeU256(u));
  }

  /** The raw seal, byte by byte: the difficulty little-endian, the work, the nonce. */
  lemma SealLayout(seal: Seal)
    ensures var bytes := EncodeSeal(seal);
            && |bytes| == 96
            && Value(256, bytes[..32]) == ToNat(seal.difficulty)
            && bytes[32..64] == seal.work
            && bytes[64..96] == seal.nonce
  {
    hide LimbBytes, ToNat, EncodeU256;
    EncodeU256IsLittleEndian(seal.difficulty);
    assert EncodeSeal(seal)[..32] == EncodeU256(seal.difficulty);
  }

  /** The preimage, byte by byte: the difficulty little-endian, the header hash, the nonce. */
  lemma ComputeLayout(compute: Compute)
    ensures var bytes := EncodeCompute(compute);
            && |bytes| == 96
            && Value(256, bytes[..32]) == ToNat(compute.difficulty)
            && bytes[32..64] == compute.preHash
            && bytes[64..96] == compute.nonce
  {
    hide LimbBytes, ToNat, EncodeU256;
    EncodeU256IsLittleEndian(compute.difficulty);
    assert EncodeCompute(compute)[..32] == EncodeU256(compute.difficulty);
  }

  lemma SealRoundTrip(seal: Seal, rest: seq<Byte>)
    ensures DecodeSeal(EncodeSeal(seal) + rest) == Decoded(seal, rest)
  {
    var input := EncodeSeal(seal) + rest;
    U256RoundTrip(seal.difficulty);
    assert input[..32] == EncodeU256(seal.difficulty);
    assert input[32..][..32] == seal.work;
    assert input[32..][32..][..32] == seal.nonce;
    assert input[32..][32..][32..] == rest;
  }

  /** Decoding succeeds exactly when there are 96 bytes, takes exactly those, and
      encoding what it found gives them back. */
  lemma DecodeExact(input: seq<Byte>)
    ensures DecodeSeal(input).NotEnoughData? <==> |input| < 96
    ensures |input| >= 96 ==>
              var decoded := DecodeSeal(input);
              EncodeSeal(decoded.value) == input[..96] && decoded.rest == input[96..]
  {
    hide LimbBytes, LimbOfBytes;
    if |input| >= 96 {
      var decoded := DecodeSeal(input);
      U256BytesRoundTrip(input[..32]);
      assert EncodeSeal(decoded.value) == input[..32] + input[32..][..32] + input[32..][32..][..32];
      assert EncodeSeal(decoded.value) == input[..96];
      assert input[32..][32..][32..] == input[96..];
    }
  }

  lemma EncodeSealInjective(a: Seal, b: Seal)
    requires EncodeSeal(a) == EncodeSeal(b)
    ensures a == b
  {
    SealRoundTrip(a, []);
    SealRoundTrip(b, []);
  }

  lemma EncodeComputeInjective(a: Compute, b: Compute)
    requires EncodeCompute(a) == EncodeCompute(b)
    ensures a == b
  {
    // Both types are three 32-byte fields laid out alike.
    EncodeSealInjective(Seal(a.difficulty, a.preHash, a.nonce), Seal(b.difficulty, b.preHash, b.nonce));
  }

  // ----- Difficulty -----

  /** The product of the hash, read big-endian, and the difficulty fits in 256 bits. */
  predicate HashMeetsDifficulty(hash: H256, difficulty: U256) {
    ToNat(FromBigEndian(hash)) * ToNat(difficulty) < TWO_256
  }

  /** The test as it is carried out: multiply limb by limb and look at the overflow flag. */
  method TestHashMeetsDifficulty(hash: H256, difficulty: U256) returns (meets: bool)
    ensures meets <==> HashMeetsDifficulty(hash, difficulty)
  {
    var numHash := FromBigEndian(hash);
    var _, overflowed := OverflowingMul(numHash, difficulty);
    meets := !overflowed;
  }

  // ----- Computing and verifying seals -----

  function ComputeSeal(hasher: Hasher, compute: Compute): Seal {
    Seal(compute.difficulty, hasher(EncodeCompute(compute)), compute.nonce)
  }

  /** The two algorithms of the crate; they differ in their fixed difficulty only. */
  datatype Algorithm = MinimalSha3Algorithm | Sha3Algorithm {
    function Difficulty(): U256 {
      match this
      case MinimalSha3Algorithm => FromNat(2)
      case Sha3Algorithm => FromNat(1_000_000)
    }
  }

  /** The verifier, the same code in both algorithms. */
  function Verify(hasher: Hasher, preHash: H256, raw: seq<Byte>, difficulty: U256): bool {
    match DecodeSeal(raw)
    case NotEnoughData => false
    case Decoded(seal, _) =>
      if !HashMeetsDifficulty(seal.work, difficulty) then
        false
      else
        var compute := Compute(difficulty, preHash, seal.nonce);
        if ComputeSeal(hasher, compute) != seal then false else true
  }
}
