/** Exactly which work values and which raw seals are accepted. */
module Acceptance {
  import opened LittleEndian
  import opened Primitives
  import opened Sha3Pow

  // ----- Accepted work -----

  lemma ProductBelow(n: nat, d: nat, bound: nat)
    requires d > 0 && bound > 0
    ensures n * d < bound <==> n <= (bound - 1) / d
  {
    var q := (bound - 1) / d;
    assert bound - 1 == d * q + (bound - 1) % d;
    MulMonotone(d, n, q);
    MulMonotone(d, q + 1, n);
    assert d * (q + 1) == d * q + d;
    assert n * d == d * n;
  }

  /** The largest accepted work value. */
  function MaxWork(difficulty: U256): nat {
    if ToNat(difficulty) == 0 then TWO_256 - 1 else (TWO_256 - 1) / ToNat(difficulty)
  }

  /** Accepted work is an interval starting at zero, for every difficulty, zero included. */
  lemma AcceptedWorkIsInterval(hash: H256, difficulty: U256)
    ensures HashMeetsDifficulty(hash, difficulty) <==> ToNat(FromBigEndian(hash)) <= MaxWork(difficulty)
  {
    if ToNat(difficulty) > 0 {
      ProductBelow(ToNat(FromBigEndian(hash)), ToNat(difficulty), TWO_256);
    }
  }

  /** The hashes of the numbers below `count`. */
  ghost function FirstHashes(count: nat): set<H256>
    requires count <= TWO_256
  {
    set n: nat | n < count :: HashOfNat(n)
  }

  lemma HashOfNatInjective(m: nat, n: nat)
    requires m < TWO_256 && n < TWO_256
    requires HashOfNat(m) == HashOfNat(n)
    ensures m == n
  {
    HashOfNatRoundTrip(m);
    HashOfNatRoundTrip(n);
  }

  lemma FirstHashesGrow(count: nat)
    requires count < TWO_256
    ensures FirstHashes(count + 1) == FirstHashes(count) + {HashOfNat(count)}
    ensures HashOfNat(count) !in FirstHashes(count)
  {
    forall n: nat | n < count ensures HashOfNat(n) != HashOfNat(count) {
      if HashOfNat(n) == HashOfNat(count) {
        HashOfNatInjective(n, count);
      }
    }
    forall hash: H256
      ensures hash in FirstHashes(count + 1) <==> hash in FirstHashes(count) || hash == HashOfNat(count)
    {
      if hash in FirstHashes(count + 1) {
        var n: nat :| n < count + 1 && hash == HashOfNat(n);
      }
    }
  }

  lemma {:induction false} FirstHashesSize(count: nat)
    requires count <= TWO_256
    ensures |FirstHashes(count)| == count
  {
    if count == 0 {
      assert FirstHashes(0) == {};
    } else {
      FirstHashesGrow(count - 1);
      FirstHashesSize(count - 1);
    }
  }

  lemma MaxWorkBound(difficulty: U256)
    ensures MaxWork(difficulty) + 1 <= TWO_256
  {
    var d := ToNat(difficulty);
    if d > 0 {
      ProductBelow(TWO_256, d, TWO_256);
      MulMonotone(TWO_256, 1, d);
    }
  }

  /** The accepted hashes, as a set, and how many there are. */
  lemma AcceptedHashCount(difficulty: U256)
    ensures MaxWork(difficulty) + 1 <= TWO_256
    ensures forall hash: H256 ::
              hash in FirstHashes(MaxWork(difficulty) + 1) <==> HashMeetsDifficulty(hash, difficulty)
    ensures |FirstHashes(MaxWork(difficulty) + 1)| == MaxWork(difficulty) + 1
  {
    MaxWorkBound(difficulty);
    var count := MaxWork(difficulty) + 1;
    forall hash: H256
      ensures hash in FirstHashes(count) <==> HashMeetsDifficulty(hash, difficulty)
    {
      AcceptedWorkIsInterval(hash, difficulty);
      HashIsHashOfNat(hash);
      if hash in FirstHashes(count) {
        var n: nat :| n < count && hash == HashOfNat(n);
        HashOfNatRoundTrip(n);
      }
    }
    FirstHashesSize(count);
  }

  lemma TopDigit(rest: nat, place: nat, top: nat)
    requires rest < place
    ensures 2 * (rest + place * top) < 256 * place <==> top < 128
  {
    MulMonotone(place, top, 127);
    MulMonotone(place, 128, top);
  }

  lemma SplitTopByte(hash: H256) returns (rest: nat)
    ensures rest < Pow(256, 31) && ToNat(FromBigEndian(hash)) == rest + Pow(256, 31) * hash[0]
  {
    var bytes: seq<Byte> := Reverse(hash);
    FromBigEndianValue(hash);
    ValueConcat(256, bytes[..31], bytes[31..]);
    assert bytes == bytes[..31] + bytes[31..];
    assert bytes[31..] == [hash[0]];
    assert Value(256, bytes[31..]) == hash[0];
    ValueBound(256, bytes[..31]);
    rest := Value(256, bytes[..31]);
  }

  lemma TopPlace()
    ensures 256 * Pow(256, 31) == TWO_256
  {
    Constants();
    assert Pow(256, 32) == 256 * Pow(256, 31);
  }

  /** At the minimal algorithm's difficulty the test is the top bit of the hash, and half
      of all hashes, 2^255 of them, pass. */
  lemma MinimalDifficultyIsTopBit(hash: H256)
    ensures HashMeetsDifficulty(hash, MinimalSha3Algorithm.Difficulty()) <==> hash[0] < 128
    ensures 2 * (MaxWork(MinimalSha3Algorithm.Difficulty()) + 1) == TWO_256
  {
    ToNatFromNat(2);
    TopPlace();
    var rest := SplitTopByte(hash);
    TopDigit(rest, Pow(256, 31), hash[0]);
  }

  /** A lower difficulty accepts at least as much work. */
  lemma AcceptanceNested(hash: H256, low: U256, high: U256)
    requires ToNat(low) <= ToNat(high)
    requires HashMeetsDifficulty(hash, high)
    ensures HashMeetsDifficulty(hash, low)
  {
    MulMonotone(ToNat(FromBigEndian(hash)), ToNat(low), ToNat(high));
  }

  // ----- Accepted seals -----

  /** The nonce solves the puzzle for this header hash and difficulty. */
  predicate Qualifies(hasher: Hasher, preHash: H256, difficulty: U256, nonce: H256) {
    HashMeetsDifficulty(hasher(EncodeCompute(Compute(difficulty, preHash, nonce))), difficulty)
  }

  /** The canonical seal bytes of a nonce. */
  function SealBytes(hasher: Hasher, preHash: H256, difficulty: U256, nonce: H256): (bytes: seq<Byte>)
    ensures |bytes| == 96
  {
    EncodeSeal(ComputeSeal(hasher, Compute(difficulty, preHash, nonce)))
  }

  /** The verifier accepts exactly the byte strings that start with the canonical seal
      of a qualifying nonce; whatever follows the first 96 bytes is ignored. */
  lemma VerifyExact(hasher: Hasher, preHash: H256, raw: seq<Byte>, difficulty: U256)
    ensures Verify(hasher, preHash, raw, difficulty) <==>
            |raw| >= 96 && exists nonce: H256 ::
              Qualifies(hasher, preHash, difficulty, nonce)
              && raw[..96] == SealBytes(hasher, preHash, difficulty, nonce)
  {
    DecodeExact(raw);
    if |raw| >= 96 {
      var seal := DecodeSeal(raw).value;
      if Verify(hasher, preHash, raw, difficulty) {
        assert raw[..96] == SealBytes(hasher, preHash, difficulty, seal.nonce);
        assert Qualifies(hasher, preHash, difficulty, seal.nonce);
      }
      if nonce: H256 :| Qualifies(hasher, preHash, difficulty, nonce)
                        && raw[..96] == SealBytes(hasher, preHash, difficulty, nonce)
      {
        EncodeSealInjective(seal, ComputeSeal(hasher, Compute(difficulty, preHash, nonce)));
      }
    }
  }

  /** The bytes that are hashed for a difficulty, a header hash and a nonce: 32 little-endian bytes of
      the difficulty, then the header hash, then the nonce. */
  ghost predicate IsPreimage(bytes: seq<Byte>, difficulty: U256, preHash: H256, nonce: seq<Byte>) {
    && |bytes| == 96
    && Value(256, bytes[..32]) == ToNat(difficulty)
    && bytes[32..64] == preHash
    && bytes[64..96] == nonce
  }

  lemma PreimageIsEncoding(bytes: seq<Byte>, difficulty: U256, preHash: H256, nonce: H256)
    ensures IsPreimage(bytes, difficulty, preHash, nonce)
       <==> bytes == EncodeCompute(Compute(difficulty, preHash, nonce))
  {
    hide ToNat;
    ComputeLayout(Compute(difficulty, preHash, nonce));
    if IsPreimage(bytes, difficulty, preHash, nonce) {
      BytesOfU256(bytes[..32], difficulty);
      assert bytes == bytes[..32] + bytes[32..64] + bytes[64..96];
    }
  }

  lemma SealFields(raw: seq<Byte>, seal: Seal)
    requires |raw| >= 96 && EncodeSeal(seal) == raw[..96]
    ensures raw[..32] == EncodeU256(seal.difficulty)
    ensures raw[32..64] == seal.work && raw[64..96] == seal.nonce
  {
    hide EncodeU256;
    var bytes := EncodeSeal(seal);
    assert bytes[..32] == EncodeU256(seal.difficulty) == raw[..32];
    assert bytes[32..64] == raw[32..64];
    assert bytes[64..96] == raw[64..96];
  }

  /** The verifier, told on bytes and numbers alone. It accepts exactly the strings whose first 32 bytes
      are the difficulty, little-endian; whose next 32 are the hash of the preimage made of that
      difficulty, the header hash and the last 32 of the first 96 bytes; and where that hash, read
      big-endian, times the difficulty is below 2^256. */
  lemma VerifyOnBytes(hasher: Hasher, preHash: H256, raw: seq<Byte>, difficulty: U256)
    ensures Verify(hasher, preHash, raw, difficulty) <==>
            && |raw| >= 96
            && Value(256, raw[..32]) == ToNat(difficulty)
            && Value(256, Reverse(raw[32..64])) * ToNat(difficulty) < TWO_256
            && exists preimage: seq<Byte> ::
                 IsPreimage(preimage, difficulty, preHash, raw[64..96]) && hasher(preimage) == raw[32..64]
  {
    hide ToNat, EncodeCompute, EncodeSeal, Value, IsPreimage, FromBigEndian;
    DecodeExact(raw);
    if |raw| >= 96 {
      var seal := DecodeSeal(raw).value;
      var preimage := EncodeCompute(Compute(difficulty, preHash, seal.nonce));
      SealLayout(seal);
      SealFields(raw, seal);
      FromBigEndianValue(seal.work);
      PreimageIsEncoding(preimage, difficulty, preHash, seal.nonce);
      BytesOfU256(raw[..32], seal.difficulty);
      BytesOfU256(raw[..32], difficulty);
      U256RoundTrip(difficulty);
      U256RoundTrip(seal.difficulty);
      forall bytes: seq<Byte> | IsPreimage(bytes, difficulty, preHash, seal.nonce) ensures bytes == preimage {
        PreimageIsEncoding(bytes, difficulty, preHash, seal.nonce);
      }
      assert ComputeSeal(hasher, Compute(difficulty, preHash, seal.nonce))
          == Seal(difficulty, hasher(preimage), seal.nonce);
    }
  }

  /** One accepted seal has many accepted byte strings: whatever is appended is accepted too, and cutting
      an accepted string down to 96 bytes leaves it accepted. */
  lemma TrailingBytesIgnored(hasher: Hasher, preHash: H256, raw: seq<Byte>, tail: seq<Byte>, difficulty: U256)
    ensures |raw| >= 96 ==>
              (Verify(hasher, preHash, raw + tail, difficulty) <==> Verify(hasher, preHash, raw, difficulty))
    ensures Verify(hasher, preHash, raw, difficulty) ==> Verify(hasher, preHash, raw + tail, difficulty)
  {
    hide Verify, Qualifies, SealBytes;
    VerifyExact(hasher, preHash, raw, difficulty);
    VerifyExact(hasher, preHash, raw + tail, difficulty);
    if |raw| >= 96 {
      assert (raw + tail)[..96] == raw[..96];
    }
  }

  /** The accepted 96-byte seals and the qualifying nonces are in bijection: reading the
      last 32 bytes and building the canonical seal undo each other. */
  lemma AcceptedSealsAreNonces(hasher: Hasher, preHash: H256, difficulty: U256)
    ensures forall nonce: H256 ::
              SealBytes(hasher, preHash, difficulty, nonce)[64..] == nonce
              && (Qualifies(hasher, preHash, difficulty, nonce)
                  <==> Verify(hasher, preHash, SealBytes(hasher, preHash, difficulty, nonce), difficulty))
    ensures forall raw: seq<Byte> :: |raw| == 96 && Verify(hasher, preHash, raw, difficulty) ==>
              Qualifies(hasher, preHash, difficulty, raw[64..])
              && SealBytes(hasher, preHash, difficulty, raw[64..]) == raw
  {
    forall nonce: H256
      ensures SealBytes(hasher, preHash, difficulty, nonce)[64..] == nonce
              && (Qualifies(hasher, preHash, difficulty, nonce)
                  <==> Verify(hasher, preHash, SealBytes(hasher, preHash, difficulty, nonce), difficulty))
    {
      SealRoundTrip(ComputeSeal(hasher, Compute(difficulty, preHash, nonce)), []);
      var bytes := SealBytes(hasher, preHash, difficulty, nonce);
      assert bytes + [] == bytes;
    }
    forall raw: seq<Byte> | |raw| == 96 && Verify(hasher, preHash, raw, difficulty)
      ensures Qualifies(hasher, preHash, difficulty, raw[64..])
              && SealBytes(hasher, preHash, difficulty, raw[64..]) == raw
    {
      VerifyExact(hasher, preHash, raw, difficulty);
      assert raw[..96] == raw;
      var nonce: H256 :| Qualifies(hasher, preHash, difficulty, nonce)
                         && raw[..96] == SealBytes(hasher, preHash, difficulty, nonce);
      assert SealBytes(hasher, preHash, difficulty, nonce)[64..] == nonce;
    }
  }

  /** Two different byte strings with the same hash. */
  ghost predicate Collision(hasher: Hasher, a: seq<Byte>, b: seq<Byte>) {
    a != b && hasher(a) == hasher(b)
  }

  /** A raw seal binds its difficulty and header hash: accepted under two pairs, it has one
      difficulty, and two header hashes only if they are an explicit collision. */
  lemma SealBinds(hasher: Hasher, raw: seq<Byte>, preHash1: H256, difficulty1: U256, preHash2: H256, difficulty2: U256)
    returns (a: seq<Byte>, b: seq<Byte>)
    ensures |raw| < 96 ==> !Verify(hasher, preHash1, raw, difficulty1)
    ensures Verify(hasher, preHash1, raw, difficulty1) && Verify(hasher, preHash2, raw, difficulty2) ==>
              && difficulty1 == difficulty2
              && (preHash1 == preHash2 || Collision(hasher, a, b))
              && a == EncodeCompute(Compute(difficulty1, preHash1, raw[64..96]))
              && b == EncodeCompute(Compute(difficulty2, preHash2, raw[64..96]))
  {
    a, b := [], [];
    DecodeExact(raw);
    if Verify(hasher, preHash1, raw, difficulty1) && Verify(hasher, preHash2, raw, difficulty2) {
      var seal := DecodeSeal(raw).value;
      assert raw[64..96] == raw[..96][64..] == seal.nonce;
      var compute1 := Compute(difficulty1, preHash1, seal.nonce);
      var compute2 := Compute(difficulty2, preHash2, seal.nonce);
      a, b := EncodeCompute(compute1), EncodeCompute(compute2);
      if a == b {
        EncodeComputeInjective(compute1, compute2);
      }
    }
  }

  /** No raw seal serves both algorithms of the crate, although all work good enough for
      the harder one is good enough for the minimal one. */
  lemma AlgorithmsShareWorkNotSeals(hasher: Hasher, hash: H256, raw: seq<Byte>, preHash1: H256, preHash2: H256)
    ensures ToNat(Sha3Algorithm.Difficulty()) == 1_000_000 && ToNat(MinimalSha3Algorithm.Difficulty()) == 2
    ensures HashMeetsDifficulty(hash, Sha3Algorithm.Difficulty())
        ==> HashMeetsDifficulty(hash, MinimalSha3Algorithm.Difficulty())
    ensures !(Verify(hasher, preHash1, raw, Sha3Algorithm.Difficulty())
              && Verify(hasher, preHash2, raw, MinimalSha3Algorithm.Difficulty()))
  {
    var high, low := Sha3Algorithm.Difficulty(), MinimalSha3Algorithm.Difficulty();
    ToNatFromNat(2);
    ToNatFromNat(1_000_000);
    if HashMeetsDifficulty(hash, high) {
      AcceptanceNested(hash, low, high);
    }
    if Verify(hasher, preHash1, raw, high) && Verify(hasher, preHash2, raw, low) {
      var a, b := SealBinds(hasher, raw, preHash1, high, preHash2, low);
      assert false;
    }
  }
}
