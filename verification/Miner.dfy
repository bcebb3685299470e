/** The mining loop as it is written: a loop over calls to a shared worker handle, with a
    nonce that is updated in place. Every execution follows the state machine. */
module Miner {
  import opened Primitives
  import opened Sha3Pow
  import opened MiningLoop
  import opened MiningSafety
  import opened MiningProgress

  /** The handle shared with the worker that builds templates. The worker may run before any call
      takes effect. */
  class WorkerHandle {
    var worker: Worker
    ghost var submitted: seq<seq<Byte>>  // everything passed to Submit

    constructor (worker: Worker)
      ensures this.worker == worker && submitted == []
    {
      this.worker := worker;
      submitted := [];
    }

    /** The worker may replace the template any number of times, or not at all. */
    method Interfere()
      modifies `worker
      ensures worker == old(worker) || MayReplace(old(worker), worker)
    {
      var next: Worker := *;
      if MayReplace(worker, next) {
        worker := next;
      }
    }

    method Metadata() returns (metadata: Option<Metadata>)
      modifies `worker
      ensures worker == old(worker) || MayReplace(old(worker), worker)
      ensures metadata == worker.template
    {
      Interfere();
      metadata := worker.template;
    }

    method Version() returns (version: nat)
      modifies `worker
      ensures worker == old(worker) || MayReplace(old(worker), worker)
      ensures version == worker.version
    {
      Interfere();
      version := worker.version;
    }

    /** The answer to a submission is not determined here. */
    method Submit(raw: seq<Byte>) returns (accepted: bool)
      modifies this
      ensures worker == old(worker) || MayReplace(old(worker), worker)
      ensures submitted == old(submitted) + [raw]
    {
      Interfere();
      submitted := submitted + [raw];
      accepted := *;
    }
  }

  /** How one pass through the loop ended. */
  datatype Outcome = NoMetadata | Failed | Stale | Accepted | Rejected

  /** The action that a pass with this outcome ends with. */
  function LastAction(outcome: Outcome): Action {
    match outcome
    case NoMetadata => Action.ReadMetadata
    case Failed => Action.TryNonce
    case Stale => Action.CheckVersion
    case Accepted => Action.Submit(true)
    case Rejected => Action.Submit(false)
  }

  /** The nonce after a pass that started with `nonce`. */
  function AfterPass(outcome: Outcome, nonce: u64): u64 {
    match outcome
    case NoMetadata => nonce
    case Failed => Increment(nonce)
    case Stale => nonce
    case Accepted => 0
    case Rejected => Increment(nonce)
  }

  predicate VerifiesFor(hasher: Hasher, template: Option<Metadata>, raw: seq<Byte>) {
    template.Some? && Verify(hasher, template.value.preHash, raw, template.value.difficulty)
  }

  /** The bytes pass the verifier for a template that was current at some moment of the run. */
  ghost predicate SolvesHeldTemplate(hasher: Hasher, run: Run, raw: seq<Byte>) {
    exists k :: 0 <= k < |run.states| && VerifiesFor(hasher, run.states[k].worker.template, raw)
  }

  lemma {:induction false} SubmissionsVerify(hasher: Hasher, run: Run)
    requires run.Valid(hasher) && run.Started()
    ensures forall raw | raw in Submissions(run) :: SolvesHeldTemplate(hasher, run, raw)
    decreases |run.actions|
  {
    if run.actions == [] {
    } else {
      var n, front := |run.actions| - 1, run.Front();
      FrontValid(hasher, run);
      SubmissionsVerify(hasher, front);
      forall raw | raw in Submissions(front) ensures SolvesHeldTemplate(hasher, run, raw) {
        var k :| 0 <= k < |front.states| && VerifiesFor(hasher, front.states[k].worker.template, raw);
        assert run.states[k] == front.states[k];
      }
      if run.actions[n].Submit? {
        SubmittedSealVerifies(hasher, run, n);
        var m, v, w := SubmitWindow(hasher, run, n);
        assert VerifiesFor(hasher, run.states[m].worker.template, EncodeSeal(run.states[n].pc.seal));
      }
    }
  }

  class NonceMiner {
    const hasher: Hasher
    const handle: WorkerHandle
    var nonce: u64
    ghost var run: Run  // the steps taken so far, the worker's among them

    /** What happened so far is a run of the state machine that submitted the same bytes and in
        which the miner now stands at `pc`. */
    ghost predicate At(pc: Pc)
      reads this, handle
    {
      && run.Valid(hasher) && run.Started()
      && run.Last() == State(pc, nonce, handle.worker)
      && handle.submitted == Submissions(run)
    }

    /** The miner stands at the top of its loop. */
    ghost predicate Valid()
      reads this, handle
    {
      At(Top)
    }

    constructor (hasher: Hasher, handle: WorkerHandle)
      requires handle.submitted == []
      ensures Valid()
      ensures this.hasher == hasher && this.handle == handle
      ensures nonce == 0 && run.actions == []
    {
      this.hasher := hasher;
      this.handle := handle;
      nonce := 0;
      run := Run([State(Top, 0, handle.worker)], []);
    }

    /** Records an action of the miner, after whatever the worker did meanwhile. */
    ghost method Record(action: Action)
      requires run.Valid(hasher) && run.Started() && !action.Replace?
      requires handle.worker == run.Last().worker || MayReplace(run.Last().worker, handle.worker)
      requires Enabled(run.Last(), action)
      modifies `run
      ensures run.Valid(hasher) && run.Started()
      ensures run.Last() == Apply(hasher, old(run).Last().(worker := handle.worker), action)
      ensures Continues(old(run), run, if run.Last().pc.Top? then 1 else 0)
      ensures run.EndsWith(action)
      ensures Submissions(run)
           == Submissions(old(run)) + if action.Submit? then [EncodeSeal(old(run).Last().pc.seal)] else []
    {
      hide Step, Run.Valid;
      var start := run;
      if handle.worker != run.Last().worker {
        var replace := Replace(handle.worker);
        ExtendRun(hasher, run, replace);
        run := run.Extend(replace, Apply(hasher, run.Last(), replace));
      }
      var middle := run;
      ExtendRun(hasher, run, action);
      run := run.Extend(action, Apply(hasher, run.Last(), action));
      ContinuesTransitive(start, middle, run, 0, if run.Last().pc.Top? then 1 else 0);
    }

    method ReadMetadata() returns (metadata: Option<Metadata>)
      requires At(Top)
      modifies `run, handle`worker
      ensures At(if metadata.None? then Top else HaveMetadata(metadata.value))
      ensures Continues(old(run), run, if metadata.None? then 1 else 0)
      ensures run.EndsWith(Action.ReadMetadata)
    {
      metadata := handle.Metadata();
      Record(Action.ReadMetadata);
    }

    method ReadVersion(ghost metadata: Metadata) returns (version: nat)
      requires At(HaveMetadata(metadata))
      modifies `run, handle`worker
      ensures At(HaveVersion(metadata, version))
      ensures Continues(old(run), run, 0)
    {
      version := handle.Version();
      Record(Action.ReadVersion);
    }

    /** The template to mine, and then the version. */
    method ReadTemplate() returns (template: Option<(Metadata, nat)>)
      requires At(Top)
      modifies `run, handle`worker
      ensures At(if template.None? then Top else HaveVersion(template.value.0, template.value.1))
      ensures Continues(old(run), run, if template.None? then 1 else 0)
      ensures template.None? ==> run.EndsWith(Action.ReadMetadata)
    {
      hide Step, Run.Valid;
      ghost var start := run;
      var metadata := ReadMetadata();
      if metadata.None? {
        return None;
      }
      ghost var middle := run;
      var version := ReadVersion(metadata.value);
      ContinuesTransitive(start, middle, run, 0, 0);
      template := Some((metadata.value, version));
    }

    /** Hashes once; a nonce that does not qualify is given up. */
    method TryNonce(metadata: Metadata, ghost version: nat) returns (seal: Option<Seal>)
      requires At(HaveVersion(metadata, version))
      modifies `run, `nonce
      ensures nonce == if seal.None? then Increment(old(nonce)) else old(nonce)
      ensures At(if seal.None? then Top else HaveSeal(metadata, version, seal.value))
      ensures Continues(old(run), run, if seal.None? then 1 else 0)
      ensures run.EndsWith(Action.TryNonce)
    {
      seal := Attempt(hasher, metadata, nonce);
      Record(Action.TryNonce);
      if seal.None? {
        nonce := Increment(nonce);
      }
    }

    method CheckVersion(ghost metadata: Metadata, version: nat, ghost seal: Seal) returns (same: bool)
      requires At(HaveSeal(metadata, version, seal))
      modifies `run, handle`worker
      ensures At(if same then Checked(metadata, version, seal) else Top)
      ensures Continues(old(run), run, if same then 0 else 1)
      ensures run.EndsWith(Action.CheckVersion)
    {
      var currentVersion := handle.Version();
      same := currentVersion == version;
      Record(Action.CheckVersion);
    }

    /** Submits; the nonce restarts after success and moves on otherwise. */
    method SubmitSeal(ghost metadata: Metadata, ghost version: nat, seal: Seal) returns (accepted: bool)
      requires At(Checked(metadata, version, seal))
      modifies `run, `nonce, handle
      ensures At(Top)
      ensures nonce == if accepted then 0 else Increment(old(nonce))
      ensures |handle.submitted| == |old(handle.submitted)| + 1
      ensures Continues(old(run), run, 1)
      ensures run.EndsWith(Action.Submit(accepted))
    {
      accepted := handle.Submit(EncodeSeal(seal));
      Record(Action.Submit(accepted));
      if accepted {
        nonce := 0;
      } else {
        nonce := Increment(nonce);
      }
    }

    /** Submits the seal if the version is still the one read before mining. */
    method SubmitIfCurrent(ghost metadata: Metadata, version: nat, seal: Seal) returns (outcome: Outcome)
      requires At(HaveSeal(metadata, version, seal))
      modifies `run, `nonce, handle
      ensures At(Top)
      ensures outcome.Stale? || outcome.Accepted? || outcome.Rejected?
      ensures nonce == AfterPass(outcome, old(nonce))
      ensures |handle.submitted| == |old(handle.submitted)| + if outcome.Stale? then 0 else 1
      ensures Continues(old(run), run, 1)
      ensures run.EndsWith(LastAction(outcome))
    {
      hide Step, Run.Valid;
      ghost var start := run;
      var same := CheckVersion(metadata, version, seal);
      if same {
        ghost var middle := run;
        var accepted := SubmitSeal(metadata, version, seal);
        ContinuesTransitive(start, middle, run, 0, 1);
        outcome := if accepted then Accepted else Rejected;
      } else {
        outcome := Stale;
      }
    }

    /** One pass through the loop. */
    method Iterate() returns (outcome: Outcome)
      requires Valid()
      modifies this, handle
      ensures Valid()
      ensures Continues(old(run), run, 1)
      ensures nonce == AfterPass(outcome, old(nonce))
      ensures |handle.submitted|
           == |old(handle.submitted)| + if outcome.Accepted? || outcome.Rejected? then 1 else 0
      ensures run.EndsWith(LastAction(outcome))
    {
      hide Step, Run.Valid;
      ghost var start := run;
      var template := ReadTemplate();
      if template.None? {
        return NoMetadata;
      }
      var (metadata, version) := template.value;
      ghost var middle := run;
      var seal := TryNonce(metadata, version);
      ContinuesTransitive(start, middle, run, 0, if seal.None? then 1 else 0);
      if seal.None? {
        return Failed;
      }
      middle := run;
      outcome := SubmitIfCurrent(metadata, version, seal.value);
      ContinuesTransitive(start, middle, run, 0, 1);
    }

    /** Any number of passes. The nonce ends up as the number of failures since the last accepted
        submission, and everything submitted on the way passes the verifier for a template that the
        worker held. */
    method Loop(passes: nat)
      requires Valid()
      modifies this, handle
      ensures Valid()
      ensures Continues(old(run), run, passes)
      ensures old(run).states <= run.states && old(run).actions <= run.actions
      ensures forall epoch :: SinceAccepted(run, epoch, |run.actions|) ==>
                nonce == Failures(run, epoch, |run.actions|) % TWO_64
      ensures forall raw | raw in handle.submitted :: SolvesHeldTemplate(hasher, run, raw)
    {
      for pass := 0 to passes
        invariant Valid()
        invariant Continues(old(run), run, pass)
      {
        ghost var middle := run;
        var outcome := Iterate();
        ContinuesTransitive(old(run), middle, run, pass, 1);
      }
      ContinuesIsPrefix(old(run), run, passes);
      forall epoch: nat | SinceAccepted(run, epoch, |run.actions|)
        ensures nonce == Failures(run, epoch, |run.actions|) % TWO_64
      {
        NonceCountsFailures(hasher, run, epoch, |run.actions|);
      }
      SubmissionsVerify(hasher, run);
    }
  }
}
