/** What the nonce counts, which preimages are hashed, and when a nonce is found. */
module MiningProgress {
  import opened Primitives
  import opened Sha3Pow
  import opened Acceptance
  import opened MineBlock
  import opened MiningLoop
  import opened MiningSafety

  // ----- The nonce counts failures -----

  /** Step `i` is a nonce that did not qualify or a submission that was rejected. */
  predicate IsFailure(run: Run, i: nat)
    requires i < |run.actions| && |run.states| == |run.actions| + 1
  {
    run.actions[i] == Submit(false) || (run.actions[i] == TryNonce && run.states[i + 1].pc.Top?)
  }

  /** How many of the steps from `lo` up to, not including, `hi` are failures. */
  function Failures(run: Run, lo: nat, hi: nat): nat
    requires lo <= hi && hi <= |run.actions|
    requires |run.states| == |run.actions| + 1
    decreases hi
  {
    if lo == hi then 0 else Failures(run, lo, hi - 1) + (if IsFailure(run, hi - 1) then 1 else 0)
  }

  /** `epoch` is the start of the run or just after an accepted submission, and no
      submission is accepted from there up to step `to`. */
  ghost predicate SinceAccepted(run: Run, epoch: nat, to: nat) {
    && epoch <= to <= |run.actions|
    && (epoch == 0 || run.actions[epoch - 1] == Submit(true))
    && forall k | epoch <= k < to :: run.actions[k] != Submit(true)
  }

  /** What each step does to the nonce. */
  lemma NonceStep(hasher: Hasher, run: Run, i: nat)
    requires run.Valid(hasher)
    requires i < |run.actions|
    ensures run.states[i + 1].nonce ==
            if run.actions[i] == Submit(true) then 0
            else if IsFailure(run, i) then Increment(run.states[i].nonce)
            else run.states[i].nonce
  {
    assert Step(hasher, run.states[i], run.actions[i], run.states[i + 1]);
  }

  lemma IncrementModulo(failures: nat)
    ensures Increment(failures % TWO_64) == (failures + 1) % TWO_64
  {
  }

  /** Along every run the nonce is the number of failures since the last accepted submission,
      modulo 2^64. Steps that find no metadata or a changed version do not count. */
  lemma {:induction false} NonceCountsFailures(hasher: Hasher, run: Run, epoch: nat, i: nat)
    requires run.Valid(hasher) && run.Started()
    requires SinceAccepted(run, epoch, i)
    ensures run.states[i].nonce == Failures(run, epoch, i) % TWO_64
    decreases i
  {
    hide Step;
    if epoch == i {
      if i > 0 {
        NonceStep(hasher, run, i - 1);
      }
    } else {
      NonceCountsFailures(hasher, run, epoch, i - 1);
      NonceStep(hasher, run, i - 1);
      IncrementModulo(Failures(run, epoch, i - 1));
    }
  }

  lemma {:induction false} FailuresGrow(run: Run, lo: nat, i: nat, j: nat)
    requires |run.states| == |run.actions| + 1
    requires lo <= i < j <= |run.actions|
    ensures Failures(run, lo, i) + (if IsFailure(run, i) then 1 else 0) <= Failures(run, lo, j)
  {
    if i + 1 == j {
    } else {
      FailuresGrow(run, lo, i, j - 1);
    }
  }

  /** The bytes hashed for the attempt that is under way or ends at state `s`. */
  function Preimage(s: State): seq<Byte>
    requires !s.pc.Top?
  {
    EncodeCompute(Compute(s.pc.metadata.difficulty, s.pc.metadata.preHash, FromLowU64BigEndian(s.nonce)))
  }

  /** Those are the bytes: the template's difficulty and header hash and the number in `nonce`; and the
      attempt made there succeeds exactly when their hash meets the difficulty, which its seal carries. */
  lemma AttemptHashesPreimage(hasher: Hasher, run: Run, i: nat)
    requires run.Valid(hasher)
    requires i < |run.actions| && run.actions[i] == TryNonce
    ensures run.states[i].pc.HaveVersion?
    ensures var s, t := run.states[i], run.states[i + 1];
            var metadata, bytes := s.pc.metadata, Preimage(s);
            && IsPreimage(bytes, metadata.difficulty, metadata.preHash, bytes[64..96])
            && ToNat(FromBigEndian(bytes[64..96])) == s.nonce
            && (t.pc.HaveSeal? <==> HashMeetsDifficulty(hasher(bytes), metadata.difficulty))
            && (t.pc.HaveSeal? ==> t.pc.seal == Seal(metadata.difficulty, hasher(bytes), bytes[64..96]))
            && (!t.pc.HaveSeal? ==> t.pc.Top?)
  {
    hide IsPreimage, EncodeCompute, ToNat, FromBigEndian, Verify, EncodeSeal, FromLowU64BigEndian;
    assert Step(hasher, run.states[i], run.actions[i], run.states[i + 1]);
    var metadata, nonce := run.states[i].pc.metadata, FromLowU64BigEndian(run.states[i].nonce);
    var compute := Compute(metadata.difficulty, metadata.preHash, nonce);
    ComputeLayout(compute);
    PreimageIsEncoding(EncodeCompute(compute), metadata.difficulty, metadata.preHash, nonce);
    FromLowU64Value(run.states[i].nonce);
    MineSucceedsExactly(hasher, metadata.preHash, nonce, metadata.difficulty);
  }

  lemma SamePreimage(s: State, t: State)
    requires !s.pc.Top? && !t.pc.Top?
    ensures Preimage(s) == Preimage(t) <==> s.pc.metadata == t.pc.metadata && s.nonce == t.nonce
  {
    if Preimage(s) == Preimage(t) {
      EncodeComputeInjective(
        Compute(s.pc.metadata.difficulty, s.pc.metadata.preHash, FromLowU64BigEndian(s.nonce)),
        Compute(t.pc.metadata.difficulty, t.pc.metadata.preHash, FromLowU64BigEndian(t.nonce)));
      FromLowU64Injective(s.nonce, t.nonce);
    }
  }

  lemma FailureEndsAttempt(hasher: Hasher, run: Run, i: nat)
    requires run.Valid(hasher)
    requires i < |run.actions| && IsFailure(run, i)
    ensures !run.states[i].pc.Top?
  {
    assert Step(hasher, run.states[i], run.actions[i], run.states[i + 1]);
  }

  lemma DifferentResidues(a: nat, b: nat)
    requires a < b < a + TWO_64
    ensures a % TWO_64 != b % TWO_64
  {
  }

  lemma FailureNonces(hasher: Hasher, run: Run, epoch: nat, i: nat, j: nat)
    requires run.Valid(hasher) && run.Started()
    requires i < j < |run.actions| && SinceAccepted(run, epoch, j) && epoch <= i
    requires IsFailure(run, i)
    ensures var earlier, later := Failures(run, epoch, i), Failures(run, epoch, j);
            && earlier < later
            && (run.states[i].nonce == run.states[j].nonce <==> earlier % TWO_64 == later % TWO_64)
            && (later - earlier < TWO_64 ==> run.states[i].nonce != run.states[j].nonce)
  {
    var earlier, later := Failures(run, epoch, i), Failures(run, epoch, j);
    NonceCountsFailures(hasher, run, epoch, i);
    NonceCountsFailures(hasher, run, epoch, j);
    FailuresGrow(run, epoch, i, j);
    if later - earlier < TWO_64 {
      DifferentResidues(earlier, later);
    }
  }

  /** Since the last accepted submission, any two attempts, however they end, hash the same bytes exactly
      when they work on the same template and their failure counts agree modulo 2^64. */
  lemma AttemptsHashSameBytes(hasher: Hasher, run: Run, epoch: nat, i: nat, j: nat)
    requires run.Valid(hasher) && run.Started()
    requires epoch <= i < |run.actions| && SinceAccepted(run, epoch, i)
    requires epoch <= j < |run.actions| && SinceAccepted(run, epoch, j)
    ensures run.actions[i] == TryNonce && run.actions[j] == TryNonce ==>
              && run.states[i].pc.HaveVersion? && run.states[j].pc.HaveVersion?
              && (Preimage(run.states[i]) == Preimage(run.states[j]) <==>
                    run.states[i].pc.metadata == run.states[j].pc.metadata
                    && Failures(run, epoch, i) % TWO_64 == Failures(run, epoch, j) % TWO_64)
  {
    hide Attempt, Preimage;
    if run.actions[i] == TryNonce && run.actions[j] == TryNonce {
      assert Step(hasher, run.states[i], run.actions[i], run.states[i + 1]);
      assert Step(hasher, run.states[j], run.actions[j], run.states[j + 1]);
      NonceCountsFailures(hasher, run, epoch, i);
      NonceCountsFailures(hasher, run, epoch, j);
      SamePreimage(run.states[i], run.states[j]);
    }
  }

  /** Between two accepted submissions, two failing iterations hash the same bytes exactly when
      they work on the same template and a multiple of 2^64 failures lies between them. Within
      2^64 failures all preimages are therefore distinct, however the template changes. */
  lemma FailuresHashDistinctPreimages(hasher: Hasher, run: Run, epoch: nat, i: nat, j: nat)
    requires run.Valid(hasher) && run.Started()
    requires i < j < |run.actions| && SinceAccepted(run, epoch, j) && epoch <= i
    ensures IsFailure(run, i) && IsFailure(run, j) ==>
              var earlier, later := Failures(run, epoch, i), Failures(run, epoch, j);
              && earlier < later
              && !run.states[i].pc.Top? && !run.states[j].pc.Top?
              && (Preimage(run.states[i]) == Preimage(run.states[j]) <==>
                    run.states[i].pc.metadata == run.states[j].pc.metadata && earlier % TWO_64 == later % TWO_64)
              && (later - earlier < TWO_64 ==> Preimage(run.states[i]) != Preimage(run.states[j]))
  {
    if IsFailure(run, i) && IsFailure(run, j) {
      FailureEndsAttempt(hasher, run, i);
      FailureEndsAttempt(hasher, run, j);
      FailureNonces(hasher, run, epoch, i, j);
      SamePreimage(run.states[i], run.states[j]);
    }
  }

  lemma SealNonce(hasher: Hasher, run: Run, i: nat)
    requires run.Valid(hasher) && run.Started()
    requires i < |run.states| && run.states[i].pc.Checked?
    ensures run.states[i].pc.seal.nonce == FromLowU64BigEndian(run.states[i].nonce)
  {
    SealComesFromNonce(hasher, run, i);
    var metadata := run.states[i].pc.metadata;
    MineSucceedsExactly(hasher, metadata.preHash, FromLowU64BigEndian(run.states[i].nonce), metadata.difficulty);
  }

  /** Between two accepted submissions no seal is submitted twice within 2^64 failures, the accepted
      one that ends the stretch included, however the template changes. */
  lemma SubmittedSealsDistinct(hasher: Hasher, run: Run, epoch: nat, i: nat, j: nat)
    requires run.Valid(hasher) && run.Started()
    requires i < j < |run.actions| && SinceAccepted(run, epoch, j) && epoch <= i
    ensures run.actions[i].Submit? && run.actions[j].Submit?
            && Failures(run, epoch, j) - Failures(run, epoch, i) < TWO_64 ==>
              && run.states[i].pc.Checked? && run.states[j].pc.Checked?
              && EncodeSeal(run.states[i].pc.seal) != EncodeSeal(run.states[j].pc.seal)
  {
    hide Step;
    if run.actions[i].Submit? && run.actions[j].Submit?
       && Failures(run, epoch, j) - Failures(run, epoch, i) < TWO_64
    {
      SubmittedSealVerifies(hasher, run, i);
      SubmittedSealVerifies(hasher, run, j);
      FailureNonces(hasher, run, epoch, i, j);
      SealNonce(hasher, run, i);
      SealNonce(hasher, run, j);
      if EncodeSeal(run.states[i].pc.seal) == EncodeSeal(run.states[j].pc.seal) {
        EncodeSealInjective(run.states[i].pc.seal, run.states[j].pc.seal);
        FromLowU64Injective(run.states[i].nonce, run.states[j].nonce);
      }
    }
  }

  // ----- The search with a fixed template -----

  /** The nonce tried `k` attempts after `nonce`. */
  function NonceAfter(nonce: u64, k: nat): u64 {
    (nonce + k) % TWO_64
  }

  predicate Solves(hasher: Hasher, metadata: Metadata, nonce: u64) {
    Qualifies(hasher, metadata.preHash, metadata.difficulty, FromLowU64BigEndian(nonce))
  }

  /** The run starts an iteration with this template and nobody replaces it. */
  ghost predicate FixedTemplate(hasher: Hasher, run: Run, metadata: Metadata) {
    && run.Valid(hasher)
    && run.states[0].pc.Top?
    && run.states[0].worker.template == Some(metadata)
    && forall i | 0 <= i < |run.actions| :: !run.actions[i].Replace?
  }

  /** None of the first `count` nonces from the start solves the puzzle. */
  ghost predicate NoneSolves(hasher: Hasher, metadata: Metadata, nonce: u64, count: nat) {
    forall k | 0 <= k < count :: !Solves(hasher, metadata, NonceAfter(nonce, k))
  }

  /** The `k`-th iteration takes the steps 3k to 3k + 2 and tries the `k`-th nonce in vain. */
  ghost predicate FailsInTurn(run: Run, k: nat)
    requires |run.states| == |run.actions| + 1 && 3 * k + 3 <= |run.actions|
  {
    && run.actions[3 * k..3 * k + 3] == [ReadMetadata, ReadVersion, TryNonce]
    && run.states[3 * k + 2].nonce == NonceAfter(run.states[0].nonce, k)
    && IsFailure(run, 3 * k + 2)
  }

  lemma NextNonce(nonce: u64, k: nat)
    ensures Increment(NonceAfter(nonce, k)) == NonceAfter(nonce, k + 1)
  {
  }

  lemma FailingIteration(hasher: Hasher, run: Run, metadata: Metadata, k: nat)
    requires FixedTemplate(hasher, run, metadata)
    requires 3 * k + 3 <= |run.actions|
    requires run.states[3 * k] == State(Top, NonceAfter(run.states[0].nonce, k), run.states[0].worker)
    requires !Solves(hasher, metadata, NonceAfter(run.states[0].nonce, k))
    ensures FailsInTurn(run, k)
    ensures run.states[3 * k + 3] == State(Top, NonceAfter(run.states[0].nonce, k + 1), run.states[0].worker)
  {
    var i := 3 * k;
    assert Step(hasher, run.states[i], run.actions[i], run.states[i + 1]);
    assert Step(hasher, run.states[i + 1], run.actions[i + 1], run.states[i + 2]);
    assert Step(hasher, run.states[i + 2], run.actions[i + 2], run.states[i + 3]);
    MineSucceedsExactly(hasher, metadata.preHash, FromLowU64BigEndian(run.states[i].nonce), metadata.difficulty);
    NextNonce(run.states[0].nonce, k);
  }

  /** As long as no nonce solves the puzzle the run is forced: every nonce in turn is tried
      exactly once. */
  lemma {:induction false} FailingPrefix(hasher: Hasher, run: Run, metadata: Metadata, count: nat)
    requires FixedTemplate(hasher, run, metadata)
    requires NoneSolves(hasher, metadata, run.states[0].nonce, count)
    requires 3 * count <= |run.actions|
    ensures run.states[3 * count] == State(Top, NonceAfter(run.states[0].nonce, count), run.states[0].worker)
    ensures forall k | 0 <= k < count :: FailsInTurn(run, k)
  {
    hide Step;
    if count == 0 {
    } else {
      FailingPrefix(hasher, run, metadata, count - 1);
      FailingIteration(hasher, run, metadata, count - 1);
    }
  }

  lemma NotYetSubmitting(hasher: Hasher, run: Run, i: nat, j: nat)
    requires run.Valid(hasher)
    requires i <= j < i + 4 && j < |run.actions|
    requires run.states[i].pc.Top?
    requires forall k | i <= k < j :: !run.actions[k].Replace?
    ensures !run.actions[j].Submit?
  {
    hide Attempt;
    assert Step(hasher, run.states[j], run.actions[j], run.states[j + 1]);
    if j > i {
      assert Step(hasher, run.states[i], run.actions[i], run.states[i + 1]);
    }
    if j > i + 1 {
      assert Step(hasher, run.states[i + 1], run.actions[i + 1], run.states[i + 2]);
    }
    if j > i + 2 {
      assert Step(hasher, run.states[i + 2], run.actions[i + 2], run.states[i + 3]);
    }
  }

  /** However short or long the run, nothing is submitted before step 3 * count + 4 when the first
      `count` nonces fail. */
  lemma NothingSubmittedBefore(hasher: Hasher, run: Run, metadata: Metadata, count: nat, i: nat)
    requires FixedTemplate(hasher, run, metadata)
    requires NoneSolves(hasher, metadata, run.states[0].nonce, count)
    requires i < |run.actions| && i < 3 * count + 4
    ensures !run.actions[i].Submit?
  {
    hide Step, Solves;
    var whole := if i / 3 < count then i / 3 else count;
    FailingPrefix(hasher, run, metadata, whole);
    NotYetSubmitting(hasher, run, 3 * whole, i);
  }

  /** The iteration that finds the solving nonce goes on to submit its seal. */
  lemma SolvingIteration(hasher: Hasher, run: Run, metadata: Metadata, i: nat)
    requires FixedTemplate(hasher, run, metadata)
    requires i + 5 <= |run.actions|
    requires run.states[i].pc.Top? && run.states[i].worker == run.states[0].worker
    requires Solves(hasher, metadata, run.states[i].nonce)
    ensures run.actions[i..i + 4] == [ReadMetadata, ReadVersion, TryNonce, CheckVersion]
    ensures run.actions[i + 4].Submit? && run.states[i + 4].pc.Checked?
    ensures run.states[i + 4].nonce == run.states[i].nonce
    ensures Attempt(hasher, metadata, run.states[i].nonce) == Some(run.states[i + 4].pc.seal)
  {
    assert Step(hasher, run.states[i], run.actions[i], run.states[i + 1]);
    assert Step(hasher, run.states[i + 1], run.actions[i + 1], run.states[i + 2]);
    assert Step(hasher, run.states[i + 2], run.actions[i + 2], run.states[i + 3]);
    assert Step(hasher, run.states[i + 3], run.actions[i + 3], run.states[i + 4]);
    assert Step(hasher, run.states[i + 4], run.actions[i + 4], run.states[i + 5]);
    MineSucceedsExactly(hasher, metadata.preHash, FromLowU64BigEndian(run.states[i].nonce), metadata.difficulty);
  }

  /** The search for a fixed template, from any nonce: let the `count`-th nonce be the first that
      solves the puzzle. Every earlier one is tried once, in turn, and fails; nothing is submitted
      before step 3 * count + 4; and a run that is long enough submits there the seal of the solving
      nonce. */
  lemma FirstSubmission(hasher: Hasher, run: Run, metadata: Metadata, count: nat)
    requires FixedTemplate(hasher, run, metadata)
    requires NoneSolves(hasher, metadata, run.states[0].nonce, count)
    requires Solves(hasher, metadata, NonceAfter(run.states[0].nonce, count))
    requires 3 * count + 5 <= |run.actions|
    ensures forall k | 0 <= k < count :: FailsInTurn(run, k)
    ensures forall i | 0 <= i < 3 * count + 4 :: !run.actions[i].Submit?
    ensures run.actions[3 * count + 2] == TryNonce
    ensures run.actions[3 * count + 4].Submit? && run.states[3 * count + 4].pc.Checked?
    ensures Attempt(hasher, metadata, NonceAfter(run.states[0].nonce, count))
         == Some(run.states[3 * count + 4].pc.seal)
  {
    hide Step, NonceAfter, Solves, Attempt, IsFailure;
    FailingPrefix(hasher, run, metadata, count);
    SolvingIteration(hasher, run, metadata, 3 * count);
    forall i | 0 <= i < 3 * count + 4 ensures !run.actions[i].Submit? {
      NothingSubmittedBefore(hasher, run, metadata, count, i);
    }
    assert run.actions[3 * count + 2] == run.actions[3 * count..3 * count + 4][2];
  }

  lemma NoWrap(nonce: u64, k: nat)
    requires nonce + k < TWO_64
    ensures NonceAfter(nonce, k) == nonce + k
  {
  }

  /** Without wrapping, the first submitted seal is for the least solving nonce from the
      starting one on. */
  lemma FirstSubmissionIsLeastNonce(hasher: Hasher, run: Run, metadata: Metadata, nonce: u64)
    requires FixedTemplate(hasher, run, metadata)
    requires run.states[0].nonce <= nonce
    requires Solves(hasher, metadata, nonce)
    requires forall n: u64 | run.states[0].nonce <= n < nonce :: !Solves(hasher, metadata, n)
    requires 3 * (nonce - run.states[0].nonce) + 5 <= |run.actions|
    ensures var step := 3 * (nonce - run.states[0].nonce) + 4;
            && (forall i | 0 <= i < step :: !run.actions[i].Submit?)
            && run.actions[step].Submit? && run.states[step].pc.Checked?
            && Attempt(hasher, metadata, nonce) == Some(run.states[step].pc.seal)
  {
    hide Step, NonceAfter, Solves;
    var start, count := run.states[0].nonce, nonce - run.states[0].nonce;
    forall k | 0 <= k <= count ensures NonceAfter(start, k) == start + k {
      NoWrap(start, k);
    }
    FirstSubmission(hasher, run, metadata, count);
  }

  lemma NoSubmissionWithoutSolution(hasher: Hasher, run: Run, metadata: Metadata)
    requires FixedTemplate(hasher, run, metadata)
    requires forall n: u64 :: !Solves(hasher, metadata, n)
    ensures forall i | 0 <= i < |run.actions| :: !run.actions[i].Submit?
  {
    forall i | 0 <= i < |run.actions| ensures !run.actions[i].Submit? {
      NothingSubmittedBefore(hasher, run, metadata, i, i);
    }
  }

  lemma {:induction false} FirstSolving(hasher: Hasher, metadata: Metadata, nonce: u64, k: nat) returns (count: nat)
    requires Solves(hasher, metadata, NonceAfter(nonce, k))
    ensures count <= k
    ensures NoneSolves(hasher, metadata, nonce, count)
    ensures Solves(hasher, metadata, NonceAfter(nonce, count))
    decreases k
  {
    if j :| 0 <= j < k && Solves(hasher, metadata, NonceAfter(nonce, j)) {
      count := FirstSolving(hasher, metadata, nonce, j);
    } else {
      count := k;
    }
  }

  lemma NonceComesRound(nonce: u64, target: u64)
    ensures NonceAfter(nonce, (target + TWO_64 - nonce) % TWO_64) == target
  {
  }

  /** With a fixed template a run long enough to try all 2^64 nonces submits exactly when some
      nonce solves the puzzle. */
  lemma SubmitsIffSolvable(hasher: Hasher, run: Run, metadata: Metadata)
    requires FixedTemplate(hasher, run, metadata)
    requires 3 * TWO_64 + 5 <= |run.actions|
    ensures (exists i | 0 <= i < |run.actions| :: run.actions[i].Submit?)
       <==> (exists n: u64 :: Solves(hasher, metadata, n))
  {
    if n: u64 :| Solves(hasher, metadata, n) {
      var start := run.states[0].nonce;
      NonceComesRound(start, n);
      var count := FirstSolving(hasher, metadata, start, (n + TWO_64 - start) % TWO_64);
      FirstSubmission(hasher, run, metadata, count);
    } else {
      NoSubmissionWithoutSolution(hasher, run, metadata);
    }
  }
}
