/** One mining attempt, and chains of blocks mined with it. */
module MineBlock {
  import opened LittleEndian
  import opened Primitives
  import opened Sha3Pow
  import opened Acceptance

  /** Try one nonce: compute the seal, check its work, and check its bytes again with
      the verifier. */
  function Mine(hasher: Hasher, preHash: H256, nonce: H256, difficulty: U256): Option<Seal> {
    var seal := ComputeSeal(hasher, Compute(difficulty, preHash, nonce));
    if !HashMeetsDifficulty(seal.work, difficulty) then
      None
    else
      var isValid := Verify(hasher, preHash, EncodeSeal(seal), difficulty);
      if isValid then Some(seal) else None
  }

  /** An attempt succeeds exactly when its nonce qualifies: the second check never rejects
      what the first one passed. What it returns is the canonical seal. */
  lemma MineSucceedsExactly(hasher: Hasher, preHash: H256, nonce: H256, difficulty: U256)
    ensures Mine(hasher, preHash, nonce, difficulty).Some? <==> Qualifies(hasher, preHash, difficulty, nonce)
    ensures Mine(hasher, preHash, nonce, difficulty).Some? ==>
              var seal := Mine(hasher, preHash, nonce, difficulty).value;
              EncodeSeal(seal) == SealBytes(hasher, preHash, difficulty, nonce)
              && seal.difficulty == difficulty && seal.nonce == nonce
              && Verify(hasher, preHash, EncodeSeal(seal), difficulty)
  {
    AcceptedSealsAreNonces(hasher, preHash, difficulty);
    assert Qualifies(hasher, preHash, difficulty, nonce)
      <==> Verify(hasher, preHash, SealBytes(hasher, preHash, difficulty, nonce), difficulty);
  }

  /** The same on bytes and numbers: there is one preimage, and the attempt succeeds exactly when its hash,
      read big-endian, times the difficulty is below 2^256; the seal then carries that hash. */
  lemma MineOnBytes(hasher: Hasher, preHash: H256, nonce: H256, difficulty: U256)
    ensures exists preimage: seq<Byte> :: IsPreimage(preimage, difficulty, preHash, nonce)
    ensures forall preimage: seq<Byte> :: IsPreimage(preimage, difficulty, preHash, nonce) ==>
              var attempt := Mine(hasher, preHash, nonce, difficulty);
              && (attempt.Some? <==> Value(256, Reverse(hasher(preimage))) * ToNat(difficulty) < TWO_256)
              && (attempt.Some? ==> attempt.value == Seal(difficulty, hasher(preimage), nonce))
  {
    hide IsPreimage, EncodeCompute, ToNat, Value, FromBigEndian, Verify, EncodeSeal;
    var encoding := EncodeCompute(Compute(difficulty, preHash, nonce));
    PreimageIsEncoding(encoding, difficulty, preHash, nonce);
    FromBigEndianValue(hasher(encoding));
    MineSucceedsExactly(hasher, preHash, nonce, difficulty);
    forall preimage: seq<Byte> | IsPreimage(preimage, difficulty, preHash, nonce) ensures preimage == encoding {
      PreimageIsEncoding(preimage, difficulty, preHash, nonce);
    }
  }

  /** Mining is complete for the verifier: every accepted raw seal starts with the bytes of
      a seal that some attempt returns, and every such string is accepted. */
  lemma VerifiedIsMined(hasher: Hasher, preHash: H256, raw: seq<Byte>, difficulty: U256)
    ensures Verify(hasher, preHash, raw, difficulty) <==>
            |raw| >= 96 && exists nonce: H256 ::
              Mine(hasher, preHash, nonce, difficulty).Some?
              && raw[..96] == EncodeSeal(Mine(hasher, preHash, nonce, difficulty).value)
  {
    VerifyExact(hasher, preHash, raw, difficulty);
    if Verify(hasher, preHash, raw, difficulty) {
      var nonce: H256 :| Qualifies(hasher, preHash, difficulty, nonce)
                         && raw[..96] == SealBytes(hasher, preHash, difficulty, nonce);
      MineSucceedsExactly(hasher, preHash, nonce, difficulty);
      assert raw[..96] == EncodeSeal(Mine(hasher, preHash, nonce, difficulty).value);
    }
    if |raw| >= 96 {
      if nonce: H256 :| Mine(hasher, preHash, nonce, difficulty).Some?
                        && raw[..96] == EncodeSeal(Mine(hasher, preHash, nonce, difficulty).value)
      {
        MineSucceedsExactly(hasher, preHash, nonce, difficulty);
        assert raw[..96] == SealBytes(hasher, preHash, difficulty, nonce);
      }
    }
  }

  // ----- Chains -----

  /** What consensus sees of a block: the header hash without the seal, and the seal. */
  datatype Block = Block(preHash: H256, raw: seq<Byte>)

  /** The seal was produced by an attempt at the algorithm's difficulty. */
  ghost predicate IsMined(hasher: Hasher, algorithm: Algorithm, block: Block) {
    exists nonce: H256 ::
      Mine(hasher, block.preHash, nonce, algorithm.Difficulty()).Some?
      && block.raw == EncodeSeal(Mine(hasher, block.preHash, nonce, algorithm.Difficulty()).value)
  }

  ghost predicate ChainVerifies(hasher: Hasher, algorithm: Algorithm, chain: seq<Block>) {
    forall i | 0 <= i < |chain| :: Verify(hasher, chain[i].preHash, chain[i].raw, algorithm.Difficulty())
  }

  lemma MinedBlockVerifies(hasher: Hasher, algorithm: Algorithm, block: Block)
    ensures IsMined(hasher, algorithm, block)
       <==> Verify(hasher, block.preHash, block.raw, algorithm.Difficulty()) && |block.raw| == 96
  {
    VerifiedIsMined(hasher, block.preHash, block.raw, algorithm.Difficulty());
    if |block.raw| == 96 {
      assert block.raw[..96] == block.raw;
    }
  }

  ghost predicate ChainIsMined(hasher: Hasher, algorithm: Algorithm, chain: seq<Block>) {
    forall i | 0 <= i < |chain| :: IsMined(hasher, algorithm, chain[i])
  }

  /** On every node that shares the algorithm the verified chains of 96-byte seals are
      exactly the mined ones, block by block and at any length. */
  lemma MinedChainsVerify(hasher: Hasher, algorithm: Algorithm, chain: seq<Block>)
    ensures ChainIsMined(hasher, algorithm, chain) <==>
            ChainVerifies(hasher, algorithm, chain) && forall i | 0 <= i < |chain| :: |chain[i].raw| == 96
  {
    forall i | 0 <= i < |chain|
      ensures IsMined(hasher, algorithm, chain[i])
         <==> Verify(hasher, chain[i].preHash, chain[i].raw, algorithm.Difficulty()) && |chain[i].raw| == 96
    {
      MinedBlockVerifies(hasher, algorithm, chain[i]);
    }
  }

  /** The difficulty a chain accumulates. */
  function TotalDifficulty(algorithm: Algorithm, chain: seq<Block>): nat {
    if chain == [] then 0
    else TotalDifficulty(algorithm, chain[..|chain| - 1]) + ToNat(algorithm.Difficulty())
  }

  lemma {:induction false} TotalIsLengthTimesDifficulty(algorithm: Algorithm, chain: seq<Block>)
    ensures TotalDifficulty(algorithm, chain) == ToNat(algorithm.Difficulty()) * |chain|
  {
    if chain == [] {
    } else {
      TotalIsLengthTimesDifficulty(algorithm, chain[..|chain| - 1]);
    }
  }

  /** Choosing the longest chain and choosing the heaviest one agree, because the
      difficulty is constant; under the minimal algorithm weight is twice the length. */
  lemma LongestIsHeaviest(algorithm: Algorithm, a: seq<Block>, b: seq<Block>)
    ensures TotalDifficulty(algorithm, a) < TotalDifficulty(algorithm, b) <==> |a| < |b|
    ensures TotalDifficulty(MinimalSha3Algorithm, a) == 2 * |a|
  {
    ToNatFromNat(2);
    ToNatFromNat(1_000_000);
    TotalIsLengthTimesDifficulty(MinimalSha3Algorithm, a);
    TotalIsLengthTimesDifficulty(algorithm, a);
    TotalIsLengthTimesDifficulty(algorithm, b);
    var d := ToNat(algorithm.Difficulty());
    MulMonotone(d, |a| + 1, |b|);
    MulMonotone(d, |b|, |a|);
    assert d * (|a| + 1) == d * |a| + d;
  }
}
