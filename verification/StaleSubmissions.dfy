/** Which runs exist: undisturbed ones of every length, and ones that submit a seal for a
    template that is gone. */
module StaleSubmissions {
  import opened Primitives
  import opened Sha3Pow
  import opened Acceptance
  import opened MineBlock
  import opened MiningLoop
  import opened MiningSafety
  import opened MiningProgress

  // ----- Undisturbed runs -----

  /** What the miner does next; a submission is answered with `answer`. */
  function NextAction(pc: Pc, answer: bool): Action {
    match pc
    case Top => ReadMetadata
    case HaveMetadata(_) => ReadVersion
    case HaveVersion(_, _) => TryNonce
    case HaveSeal(_, _, _) => CheckVersion
    case Checked(_, _, _) => Submit(answer)
  }

  /** The loop never gets stuck: with a fixed template there is a run of every length from every
      nonce, for either answer of `submit`. */
  lemma {:induction false} FixedTemplateRunsExist(
    hasher: Hasher, metadata: Metadata, version: nat, nonce: u64, length: nat, answer: bool)
    returns (run: Run)
    ensures FixedTemplate(hasher, run, metadata)
    ensures |run.actions| == length
    ensures run.states[0] == State(Top, nonce, Worker(Some(metadata), version))
    decreases length
  {
    if length == 0 {
      run := Run([State(Top, nonce, Worker(Some(metadata), version))], []);
    } else {
      var shorter := FixedTemplateRunsExist(hasher, metadata, version, nonce, length - 1, answer);
      run := Perform(hasher, shorter, NextAction(shorter.Last().pc, answer));
    }
  }

  /** The worker is never held up: wherever the miner stands, the template can be replaced by any
      other, by an equal one or by none, and the miner goes on from where it stood. */
  lemma ReplacementAnywhere(hasher: Hasher, run: Run, worker: Worker) returns (longer: Run)
    requires run.Valid(hasher)
    requires run.Last().worker.version < worker.version
    ensures longer.Valid(hasher)
    ensures longer.actions == run.actions + [Replace(worker)] && run.states <= longer.states
    ensures longer.Last() == run.Last().(worker := worker)
  {
    hide Run.Valid, Step;
    longer := Perform(hasher, run, Replace(worker));
  }

  // ----- Stale submissions -----

  /** Step `i` submits a seal mined for `before` while that is not the current template. */
  ghost predicate SubmitsStale(run: Run, i: nat, before: Metadata) {
    && i < |run.actions| < |run.states|
    && run.actions[i].Submit? && run.states[i].pc.Checked?
    && run.states[i].pc.metadata == before
    && run.states[i].worker.template != Some(before)
  }

  /** The run's last actions. */
  ghost predicate EndsIn(run: Run, last: seq<Action>) {
    |run.actions| >= |last| && run.actions[|run.actions| - |last|..] == last
  }

  /** One more pass, in which the seal is found and the template is replaced between the metadata
      read and the first version read. */
  lemma EarlyStalePass(hasher: Hasher, start: Run, before: Metadata, after: Worker, answer: bool)
    returns (run: Run)
    requires start.Valid(hasher) && start.Started() && start.Last().pc.Top?
    requires start.Last().worker.template == Some(before)
    requires MayReplace(start.Last().worker, after) && after.template != Some(before)
    requires Attempt(hasher, before, start.Last().nonce).Some?
    ensures start.states <= run.states && start.actions <= run.actions
    ensures |run.actions| == |start.actions| + 6
    ensures run.Valid(hasher) && run.Started()
    ensures run.actions != [] && SubmitsStale(run, |run.actions| - 1, before)
    ensures var last := run.states[|run.actions| - 1];
            last.nonce == start.Last().nonce && Attempt(hasher, before, last.nonce) == Some(last.pc.seal)
    ensures EndsIn(run, [ReadMetadata, Replace(after), ReadVersion, TryNonce, CheckVersion, Submit(answer)])
  {
    hide Step, Attempt, Run.Valid;
    var r1 := Perform(hasher, start, ReadMetadata);
    var r2 := Perform(hasher, r1, Replace(after));
    var r3 := Perform(hasher, r2, ReadVersion);
    var r4 := Perform(hasher, r3, TryNonce);
    var r5 := Perform(hasher, r4, CheckVersion);
    run := Perform(hasher, r5, Submit(answer));
    assert run.states[|run.actions| - 1] == r5.Last();
  }

  /** The same with the replacement after the second version read. */
  lemma LateStalePass(hasher: Hasher, start: Run, before: Metadata, after: Worker, answer: bool)
    returns (run: Run)
    requires start.Valid(hasher) && start.Started() && start.Last().pc.Top?
    requires start.Last().worker.template == Some(before)
    requires MayReplace(start.Last().worker, after) && after.template != Some(before)
    requires Attempt(hasher, before, start.Last().nonce).Some?
    ensures start.states <= run.states && start.actions <= run.actions
    ensures |run.actions| == |start.actions| + 6
    ensures run.Valid(hasher) && run.Started()
    ensures run.actions != [] && SubmitsStale(run, |run.actions| - 1, before)
    ensures var last := run.states[|run.actions| - 1];
            last.nonce == start.Last().nonce && Attempt(hasher, before, last.nonce) == Some(last.pc.seal)
    ensures EndsIn(run, [ReadMetadata, ReadVersion, TryNonce, CheckVersion, Replace(after), Submit(answer)])
  {
    hide Step, Attempt, Run.Valid;
    var r1 := Perform(hasher, start, ReadMetadata);
    var r2 := Perform(hasher, r1, ReadVersion);
    var r3 := Perform(hasher, r2, TryNonce);
    var r4 := Perform(hasher, r3, CheckVersion);
    var r5 := Perform(hasher, r4, Replace(after));
    run := Perform(hasher, r5, Submit(answer));
    assert run.states[|run.actions| - 1] == r5.Last();
  }

  lemma SolvesIsAttempt(hasher: Hasher, metadata: Metadata, nonce: u64)
    ensures Attempt(hasher, metadata, nonce).Some? <==> Solves(hasher, metadata, nonce)
  {
    MineSucceedsExactly(hasher, metadata.preHash, FromLowU64BigEndian(nonce), metadata.difficulty);
  }

  /** The run starts as the loop does, gives up the first `count` nonces in turn, one in every three
      steps, and then takes six more steps: `last`, which submit the next nonce's seal for `before`
      while that is not the current template. */
  ghost predicate SubmitsStaleAfter(hasher: Hasher, run: Run, before: Metadata, count: u64, last: seq<Action>) {
    && run.Valid(hasher) && run.Started()
    && |last| == 6 && |run.actions| == 3 * count + 6
    && (forall k | 0 <= k < count :: FailsInTurn(run, k))
    && EndsIn(run, last)
    && SubmitsStale(run, 3 * count + 5, before)
    && run.states[3 * count + 5].nonce == count
    && Attempt(hasher, before, count) == Some(run.states[3 * count + 5].pc.seal)
  }

  lemma FailsInTurnKept(shorter: Run, longer: Run, count: nat)
    requires |shorter.states| == |shorter.actions| + 1 && |longer.states| == |longer.actions| + 1
    requires shorter.states <= longer.states && shorter.actions <= longer.actions
    requires 3 * count <= |shorter.actions|
    requires forall k | 0 <= k < count :: FailsInTurn(shorter, k)
    ensures forall k | 0 <= k < count :: FailsInTurn(longer, k)
  {
    forall k | 0 <= k < count ensures FailsInTurn(longer, k) {
      assert FailsInTurn(shorter, k);
      assert longer.actions[3 * k..3 * k + 3] == shorter.actions[3 * k..3 * k + 3];
    }
  }

  /** The version check does not rule stale submissions out. Whenever some nonce solves a template,
      the miner, after failing with every nonce below the least solving one, can submit that one's
      seal when the template has been replaced or removed, in the window before the first version
      read and in the one after the second, and with either answer. */
  lemma StaleSubmissionsHappen(
    hasher: Hasher, before: Metadata, nonce: u64, after: Option<Metadata>, answer: bool)
    returns (count: u64, early: Run, late: Run)
    requires after != Some(before)
    requires Solves(hasher, before, nonce)
    ensures count <= nonce && NoneSolves(hasher, before, 0, count) && Solves(hasher, before, count)
    ensures SubmitsStaleAfter(hasher, early, before, count,
              [ReadMetadata, Replace(Worker(after, 1)), ReadVersion, TryNonce, CheckVersion, Submit(answer)])
    ensures SubmitsStaleAfter(hasher, late, before, count,
              [ReadMetadata, ReadVersion, TryNonce, CheckVersion, Replace(Worker(after, 1)), Submit(answer)])
  {
    hide Step, Attempt, Solves, Run.Valid, FailsInTurn;
    NoWrap(0, nonce);
    count := FirstSolving(hasher, before, 0, nonce);
    NoWrap(0, count);
    SolvesIsAttempt(hasher, before, count);
    var start := FixedTemplateRunsExist(hasher, before, 0, 0, 3 * count, answer);
    FailingPrefix(hasher, start, before, count);
    early := EarlyStalePass(hasher, start, before, Worker(after, 1), answer);
    late := LateStalePass(hasher, start, before, Worker(after, 1), answer);
    FailsInTurnKept(start, early, count);
    FailsInTurnKept(start, late, count);
  }

  /** Some run from the start submits a seal for `before` while that is not the current template. */
  ghost predicate StalePossible(hasher: Hasher, before: Metadata) {
    exists run: Run, i: nat :: run.Valid(hasher) && run.Started() && SubmitsStale(run, i, before)
  }

  /** A stale submission for a template is possible exactly when some u64 nonce solves it. */
  lemma StalePossibleExactly(hasher: Hasher, before: Metadata)
    ensures StalePossible(hasher, before)
       <==> (exists nonce: u64 :: Solves(hasher, before, nonce))
  {
    hide Step, Attempt, Solves, Run.Valid;
    if run: Run, i: nat :| run.Valid(hasher) && run.Started() && SubmitsStale(run, i, before) {
      SealComesFromNonce(hasher, run, i);
      SolvesIsAttempt(hasher, before, run.states[i].nonce);
    }
    if nonce: u64 :| Solves(hasher, before, nonce) {
      var count, early, late := StaleSubmissionsHappen(hasher, before, nonce, None, false);
    }
  }

  /** For the difficulty that the node mines at, under every hash function: exactly when some u64
      nonce's hash has its top bit clear. */
  lemma StaleAtMinimalDifficulty(hasher: Hasher, preHash: H256)
    ensures var before := Metadata(preHash, MinimalSha3Algorithm.Difficulty());
            (StalePossible(hasher, before)
             <==>
             (exists nonce: u64 ::
                hasher(EncodeCompute(Compute(before.difficulty, preHash, FromLowU64BigEndian(nonce))))[0] < 128))
  {
    hide StalePossible, EncodeCompute, Algorithm.Difficulty, HashMeetsDifficulty;
    var before := Metadata(preHash, MinimalSha3Algorithm.Difficulty());
    StalePossibleExactly(hasher, before);
    forall nonce: u64
      ensures Solves(hasher, before, nonce) <==>
              hasher(EncodeCompute(Compute(before.difficulty, preHash, FromLowU64BigEndian(nonce))))[0] < 128
    {
      MinimalDifficultyIsTopBit(
        hasher(EncodeCompute(Compute(before.difficulty, preHash, FromLowU64BigEndian(nonce)))));
    }
  }

  lemma StaleWhenTopBitsClear(hasher: Hasher, preHash: H256)
    requires forall bytes: seq<Byte> :: hasher(bytes)[0] < 128
    ensures StalePossible(hasher, Metadata(preHash, MinimalSha3Algorithm.Difficulty()))
  {
    hide StalePossible, EncodeCompute, Algorithm.Difficulty;
    StaleAtMinimalDifficulty(hasher, preHash);
    var difficulty := MinimalSha3Algorithm.Difficulty();
    assert hasher(EncodeCompute(Compute(difficulty, preHash, FromLowU64BigEndian(0))))[0] < 128;
  }

  lemma ZeroHashTopBit()
    ensures HashOfNat(0)[0] < 128
  {
    HashOfNatRoundTrip(0);
    MinimalDifficultyIsTopBit(HashOfNat(0));
  }

  /** There is a hash function, the constant zero, under which stale submissions are possible for
      every header. */
  lemma StaleUnderZeroHash() returns (hasher: Hasher)
    ensures forall bytes: seq<Byte> :: hasher(bytes) == HashOfNat(0)
    ensures forall preHash: H256 ::
              StalePossible(hasher, Metadata(preHash, MinimalSha3Algorithm.Difficulty()))
  {
    hide StalePossible, HashOfNat, Algorithm.Difficulty;
    ZeroHashTopBit();
    hasher := _ => HashOfNat(0);
    forall preHash: H256
      ensures StalePossible(hasher, Metadata(preHash, MinimalSha3Algorithm.Difficulty()))
    {
      StaleWhenTopBitsClear(hasher, preHash);
    }
  }
}
