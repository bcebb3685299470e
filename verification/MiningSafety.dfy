/** What holds at every submission, whatever the environment did meanwhile. */
module MiningSafety {
  import opened Primitives
  import opened Sha3Pow
  import opened Acceptance
  import opened MineBlock
  import opened MiningLoop

  // ----- The environment only moves forward -----

  lemma {:induction false} VersionsIncrease(hasher: Hasher, run: Run, i: nat, j: nat)
    requires run.Valid(hasher)
    requires i <= j < |run.states|
    ensures run.states[i].worker.version <= run.states[j].worker.version
    ensures run.states[i].worker.version == run.states[j].worker.version <==>
            forall k | i <= k < j :: !run.actions[k].Replace?
    ensures run.states[i].worker.version == run.states[j].worker.version ==>
              forall k | i <= k <= j :: run.states[k].worker == run.states[i].worker
  {
    if i == j {
    } else {
      VersionsIncrease(hasher, run, i, j - 1);
      assert Step(hasher, run.states[j - 1], run.actions[j - 1], run.states[j]);
    }
  }

  // ----- Where the data of an iteration came from -----

  /** The index of the metadata read of the iteration that is under way at `i`. */
  lemma {:induction false} MetadataRead(hasher: Hasher, run: Run, i: nat) returns (m: nat)
    requires run.Valid(hasher) && run.Started()
    requires i < |run.states| && !run.states[i].pc.Top?
    ensures m < i && run.actions[m] == ReadMetadata
    ensures run.states[m].worker.template == Some(run.states[i].pc.metadata)
    ensures forall k | m < k <= i :: !run.states[k].pc.Top? && run.states[k].pc.metadata == run.states[i].pc.metadata
  {
    assert Step(hasher, run.states[i - 1], run.actions[i - 1], run.states[i]);
    if run.actions[i - 1].ReadMetadata? {
      m := i - 1;
    } else {
      m := MetadataRead(hasher, run, i - 1);
    }
  }

  /** The index of its first version read. */
  lemma {:induction false} FirstVersionRead(hasher: Hasher, run: Run, i: nat) returns (v: nat)
    requires run.Valid(hasher) && run.Started()
    requires i < |run.states| && !run.states[i].pc.Top? && !run.states[i].pc.HaveMetadata?
    ensures v < i && run.actions[v] == ReadVersion
    ensures run.states[v].pc == HaveMetadata(run.states[i].pc.metadata)
    ensures run.states[v].worker.version == run.states[i].pc.version
    ensures forall k | v <= k <= i :: !run.states[k].pc.Top?
  {
    assert Step(hasher, run.states[i - 1], run.actions[i - 1], run.states[i]);
    if run.actions[i - 1].ReadVersion? {
      v := i - 1;
    } else {
      v := FirstVersionRead(hasher, run, i - 1);
    }
  }

  /** The index of its second version read. */
  lemma {:induction false} SecondVersionRead(hasher: Hasher, run: Run, i: nat) returns (w: nat)
    requires run.Valid(hasher) && run.Started()
    requires i < |run.states| && run.states[i].pc.Checked?
    ensures w < i && run.actions[w] == CheckVersion
    ensures run.states[w].pc == HaveSeal(run.states[i].pc.metadata, run.states[i].pc.version, run.states[i].pc.seal)
    ensures run.states[w].worker.version == run.states[i].pc.version
    ensures forall k | w <= k <= i :: !run.states[k].pc.Top?
  {
    assert Step(hasher, run.states[i - 1], run.actions[i - 1], run.states[i]);
    if run.actions[i - 1].CheckVersion? {
      w := i - 1;
    } else {
      w := SecondVersionRead(hasher, run, i - 1);
    }
  }

  // ----- Stale submissions -----

  /** Steps `m`, `v` and `w` are the metadata read and the two version reads of the
      iteration that submits at step `i`. */
  ghost predicate IterationReads(run: Run, m: nat, v: nat, w: nat, i: nat)
    requires |run.states| == |run.actions| + 1
  {
    && m < v < w < i < |run.actions|
    && run.actions[m] == ReadMetadata && run.actions[v] == ReadVersion
    && run.actions[w] == CheckVersion && run.actions[i].Submit?
    && forall k | m < k <= i :: !run.states[k].pc.Top?
  }

  /** The template was replaced at some step from `from` up to, not including, `to`. */
  ghost predicate ReplacedDuring(run: Run, from: nat, to: nat) {
    exists k | from <= k < to && k < |run.actions| :: run.actions[k].Replace?
  }

  /** The last replacement of the iteration, at step `k`, installed another template. */
  ghost predicate LastReplacedByOther(run: Run, k: nat, i: nat, template: Option<Metadata>) {
    && k < i <= |run.actions|
    && run.actions[k].Replace? && run.actions[k].worker.template != template
    && forall l | k < l < i :: !run.actions[l].Replace?
  }

  /** The template at step `i` is still the one at step `m` unless a replacement in between installed
      another one and was the last. */
  lemma {:induction false} TemplateSinceLastReplace(hasher: Hasher, run: Run, m: nat, i: nat)
    requires run.Valid(hasher)
    requires m <= i < |run.states|
    ensures run.states[i].worker.template != run.states[m].worker.template <==>
            exists k :: m <= k && LastReplacedByOther(run, k, i, run.states[m].worker.template)
    decreases i
  {
    hide Attempt;
    var template := run.states[m].worker.template;
    if m == i {
    } else {
      var j := i - 1;
      TemplateSinceLastReplace(hasher, run, m, j);
      assert Step(hasher, run.states[j], run.actions[j], run.states[j + 1]);
      forall k: nat | k < i
        ensures LastReplacedByOther(run, k, i, template) <==>
                if run.actions[j].Replace? then k == j && run.actions[j].worker.template != template
                else LastReplacedByOther(run, k, j, template)
      {
        assert k < j ==> k < j < i;
      }
      if run.actions[j].Replace? {
        assert LastReplacedByOther(run, j, i, template) <==> run.actions[j].worker.template != template;
      } else if k :| m <= k && LastReplacedByOther(run, k, j, template) {
        assert LastReplacedByOther(run, k, i, template);
      }
    }
  }

  /** In every interleaving, a submission's seal was mined for the template seen by the
      metadata read, and nothing changed between the two version reads. So the template at the
      second read is the seal's exactly when it already was at the first one.
      The version at the submission is the one at the first version read exactly when nothing was
      replaced after the second, and the one at the metadata read exactly when nothing was replaced in
      either of the two unguarded windows. The seal is stale when submitted exactly when the last
      replacement in those windows installed another template. */
  lemma SubmitWindow(hasher: Hasher, run: Run, i: nat) returns (m: nat, v: nat, w: nat)
    requires run.Valid(hasher) && run.Started()
    requires i < |run.actions| && run.actions[i].Submit?
    ensures run.states[i].pc.Checked?
    ensures IterationReads(run, m, v, w, i)
    ensures var template := Some(run.states[i].pc.metadata);
            && run.states[m].worker.template == template
            && !ReplacedDuring(run, v, w)
            && (forall k | v <= k <= w :: run.states[k].worker == run.states[v].worker)
            && (run.states[w].worker.template == template <==> run.states[v].worker.template == template)
    ensures run.states[i].worker.version == run.states[v].worker.version <==> !ReplacedDuring(run, w, i)
    ensures run.states[i].worker.version == run.states[m].worker.version <==>
            !ReplacedDuring(run, m, v) && !ReplacedDuring(run, w, i)
    ensures run.states[i].worker == run.states[m].worker <==>
            !ReplacedDuring(run, m, v) && !ReplacedDuring(run, w, i)
    ensures var template := Some(run.states[i].pc.metadata);
            run.states[i].worker.template != template <==>
            exists k :: (m <= k < v || w <= k < i) && LastReplacedByOther(run, k, i, template)
  {
    hide Attempt;
    assert Step(hasher, run.states[i], run.actions[i], run.states[i + 1]);
    w := SecondVersionRead(hasher, run, i);
    v := FirstVersionRead(hasher, run, w);
    m := MetadataRead(hasher, run, v);
    VersionsIncrease(hasher, run, v, w);
    VersionsIncrease(hasher, run, m, v);
    VersionsIncrease(hasher, run, w, i);
    VersionsIncrease(hasher, run, m, i);
    TemplateSinceLastReplace(hasher, run, m, i);
  }

  /** The second version read decides: the iteration goes on to submit exactly when nothing was replaced
      since the first one, and otherwise it ends with the nonce as it was. */
  lemma CheckPassesExactly(hasher: Hasher, run: Run, w: nat) returns (v: nat)
    requires run.Valid(hasher) && run.Started()
    requires w < |run.actions| && run.actions[w] == CheckVersion
    ensures v < w && run.actions[v] == ReadVersion && forall k | v <= k <= w :: !run.states[k].pc.Top?
    ensures run.states[w].pc.HaveSeal?
    ensures run.states[w + 1].pc ==
            if ReplacedDuring(run, v, w) then Top
            else Checked(run.states[w].pc.metadata, run.states[v].worker.version, run.states[w].pc.seal)
    ensures run.states[w + 1].nonce == run.states[w].nonce
  {
    hide Attempt;
    assert Step(hasher, run.states[w], run.actions[w], run.states[w + 1]);
    v := FirstVersionRead(hasher, run, w);
    VersionsIncrease(hasher, run, v, w);
  }

  // ----- What is submitted -----

  /** From the attempt to the end of the iteration the seal is the one the nonce gave. */
  lemma {:induction false} SealComesFromNonce(hasher: Hasher, run: Run, i: nat)
    requires run.Valid(hasher) && run.Started()
    requires i < |run.states| && (run.states[i].pc.HaveSeal? || run.states[i].pc.Checked?)
    ensures Attempt(hasher, run.states[i].pc.metadata, run.states[i].nonce) == Some(run.states[i].pc.seal)
  {
    assert Step(hasher, run.states[i - 1], run.actions[i - 1], run.states[i]);
    if run.actions[i - 1].TryNonce? {
    } else {
      SealComesFromNonce(hasher, run, i - 1);
    }
  }

  /** Every seal ever submitted passes the verifier for the template it was mined for. */
  lemma SubmittedSealVerifies(hasher: Hasher, run: Run, i: nat)
    requires run.Valid(hasher) && run.Started()
    requires i < |run.actions| && run.actions[i].Submit?
    ensures run.states[i].pc.Checked?
    ensures var metadata, seal := run.states[i].pc.metadata, run.states[i].pc.seal;
            Verify(hasher, metadata.preHash, EncodeSeal(seal), metadata.difficulty)
  {
    assert Step(hasher, run.states[i], run.actions[i], run.states[i + 1]);
    SealComesFromNonce(hasher, run, i);
    var metadata := run.states[i].pc.metadata;
    MineSucceedsExactly(hasher, metadata.preHash, FromLowU64BigEndian(run.states[i].nonce), metadata.difficulty);
  }

  /** If a submitted seal also passes for the template that is current by then, the two templates
      agree or two explicit encodings collide: a stale seal is useless short of breaking the
      hash function. */
  lemma SubmittedSealIsBound(hasher: Hasher, run: Run, i: nat, current: Metadata)
    requires run.Valid(hasher) && run.Started()
    requires i < |run.actions| && run.actions[i].Submit? && run.states[i].pc.Checked?
    requires Verify(hasher, current.preHash, EncodeSeal(run.states[i].pc.seal), current.difficulty)
    ensures var metadata, nonce := run.states[i].pc.metadata, run.states[i].pc.seal.nonce;
            || current == metadata
            || Collision(hasher,
                 EncodeCompute(Compute(metadata.difficulty, metadata.preHash, nonce)),
                 EncodeCompute(Compute(current.difficulty, current.preHash, nonce)))
  {
    SubmittedSealVerifies(hasher, run, i);
    var metadata, seal := run.states[i].pc.metadata, run.states[i].pc.seal;
    var raw := EncodeSeal(seal);
    assert raw[64..96] == seal.nonce;
    var a, b := SealBinds(hasher, raw, metadata.preHash, metadata.difficulty, current.preHash, current.difficulty);
  }
}
