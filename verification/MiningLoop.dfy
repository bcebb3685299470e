/** The mining loop as a state machine over its reads, interleaved with an environment
    that may replace or remove the block template between any two of its steps. */
module MiningLoop {
  import opened Primitives
  import opened Sha3Pow
  import opened MineBlock

  datatype Metadata = Metadata(preHash: H256, difficulty: U256)

  /** What the worker handle shows: the current template, if any, and its version. */
  datatype Worker = Worker(template: Option<Metadata>, version: nat)

  /** Where one pass through the loop stands, and what it has read so far. */
  datatype Pc =
    | Top
    | HaveMetadata(metadata: Metadata)
    | HaveVersion(metadata: Metadata, version: nat)
    | HaveSeal(metadata: Metadata, version: nat, seal: Seal)
    | Checked(metadata: Metadata, version: nat, seal: Seal)

  datatype State = State(pc: Pc, nonce: u64, worker: Worker)

  datatype Action =
    | Replace(worker: Worker)
    | ReadMetadata
    | ReadVersion
    | TryNonce
    | CheckVersion
    | Submit(accepted: bool)

  /** `nonce += 1` on a u64, in the wrapping build. */
  function Increment(nonce: u64): u64 {
    (nonce + 1) % TWO_64
  }

  function Attempt(hasher: Hasher, metadata: Metadata, nonce: u64): Option<Seal> {
    Mine(hasher, metadata.preHash, FromLowU64BigEndian(nonce), metadata.difficulty)
  }

  /** The environment assumption: the version strictly increases whenever the template is
      installed, removed or replaced. */
  predicate MayReplace(before: Worker, after: Worker) {
    before.version < after.version
  }

  /** Which actions can be next: the miner's own ones in program order, and a replacement
      at any time. */
  predicate Enabled(s: State, action: Action) {
    match action
    case Replace(worker) => MayReplace(s.worker, worker)
    case ReadMetadata => s.pc.Top?
    case ReadVersion => s.pc.HaveMetadata?
    case TryNonce => s.pc.HaveVersion?
    case CheckVersion => s.pc.HaveSeal?
    case Submit(_) => s.pc.Checked?
  }

  function Apply(hasher: Hasher, s: State, action: Action): State
    requires Enabled(s, action)
  {
    match action
    case Replace(worker) =>
      s.(worker := worker)
    case ReadMetadata =>
      (match s.worker.template
       case None => s
       case Some(metadata) => s.(pc := HaveMetadata(metadata)))
    case ReadVersion =>
      s.(pc := HaveVersion(s.pc.metadata, s.worker.version))
    case TryNonce =>
      (match Attempt(hasher, s.pc.metadata, s.nonce)
       case None => s.(pc := Top, nonce := Increment(s.nonce))
       case Some(seal) => s.(pc := HaveSeal(s.pc.metadata, s.pc.version, seal)))
    case CheckVersion =>
      if s.worker.version == s.pc.version then
        s.(pc := Checked(s.pc.metadata, s.pc.version, s.pc.seal))
      else
        s.(pc := Top)
    case Submit(accepted) =>
      s.(pc := Top, nonce := if accepted then 0 else Increment(s.nonce))
  }

  predicate Step(hasher: Hasher, s: State, action: Action, t: State) {
    Enabled(s, action) && t == Apply(hasher, s, action)
  }

  /** A finite run: the states passed through and the actions between them. */
  datatype Run = Run(states: seq<State>, actions: seq<Action>) {
    ghost predicate Valid(hasher: Hasher): (valid: bool)
      ensures valid ==> |states| == |actions| + 1
    {
      |states| == |actions| + 1
      && forall i | 0 <= i < |actions| :: Step(hasher, states[i], actions[i], states[i + 1])
    }

    /** Starts as the loop does. */
    ghost predicate Started() {
      states != [] && states[0].pc.Top? && states[0].nonce == 0
    }

    function Last(): State
      requires states != []
    {
      states[|states| - 1]
    }

    predicate EndsWith(action: Action) {
      actions != [] && actions[|actions| - 1] == action
    }

    function Extend(action: Action, state: State): Run {
      Run(states + [state], actions + [action])
    }

    /** The run without its last step. */
    function Front(): Run
      requires states != [] && actions != []
    {
      Run(states[..|states| - 1], actions[..|actions| - 1])
    }
  }

  lemma FrontValid(hasher: Hasher, run: Run)
    requires run.Valid(hasher) && run.actions != []
    ensures run.Front().Valid(hasher)
    ensures run.Started() ==> run.Front().Started()
  {
    var front := run.Front();
    forall i | 0 <= i < |front.actions| ensures Step(hasher, front.states[i], front.actions[i], front.states[i + 1]) {
      assert Step(hasher, run.states[i], run.actions[i], run.states[i + 1]);
    }
  }

  /** The last step completes a pass through the loop. */
  predicate EndsPass(run: Run)
    requires |run.states| == |run.actions| + 1 && run.actions != []
  {
    !run.actions[|run.actions| - 1].Replace? && run.Last().pc.Top?
  }

  /** `later` goes on from `earlier`, with so many more passes complete. */
  predicate Continues(earlier: Run, later: Run, passes: int)
    requires |later.states| == |later.actions| + 1
    decreases |later.actions|
  {
    || (earlier == later && passes == 0)
    || (later.actions != [] && Continues(earlier, later.Front(), passes - if EndsPass(later) then 1 else 0))
  }

  /** The bytes submitted along a run, in order. */
  function Submissions(run: Run): seq<seq<Byte>>
    requires |run.states| == |run.actions| + 1
    decreases |run.actions|
  {
    if run.actions == [] then []
    else
      var n := |run.actions| - 1;
      var here := if run.actions[n].Submit? && run.states[n].pc.Checked?
                  then [EncodeSeal(run.states[n].pc.seal)] else [];
      Submissions(run.Front()) + here
  }

  /** Taking one more enabled action, and what that adds to the run. */
  lemma ExtendRun(hasher: Hasher, run: Run, action: Action)
    requires run.Valid(hasher)
    requires Enabled(run.Last(), action)
    ensures var state := Apply(hasher, run.Last(), action);
            var longer := run.Extend(action, state);
            && longer.Valid(hasher) && longer.Last() == state
            && (run.Started() ==> longer.Started())
            && Continues(run, longer, if !action.Replace? && state.pc.Top? then 1 else 0)
            && Submissions(longer)
               == Submissions(run) + (if action.Submit? then [EncodeSeal(run.Last().pc.seal)] else [])
  {
    hide Apply;
    var longer := run.Extend(action, Apply(hasher, run.Last(), action));
    assert longer.Front() == run;
    assert longer.states[|run.actions|] == run.Last();
    forall i | 0 <= i < |longer.actions|
      ensures Step(hasher, longer.states[i], longer.actions[i], longer.states[i + 1])
    {
      if i < |run.actions| {
        assert Step(hasher, run.states[i], run.actions[i], run.states[i + 1]);
      }
    }
  }

  lemma {:induction false} ContinuesTransitive(a: Run, b: Run, c: Run, m: int, n: int)
    requires |b.states| == |b.actions| + 1 && |c.states| == |c.actions| + 1
    requires Continues(a, b, m) && Continues(b, c, n)
    ensures Continues(a, c, m + n)
    decreases |c.actions|
  {
    if b == c && n == 0 {
    } else {
      ContinuesTransitive(a, b, c.Front(), m, n - if EndsPass(c) then 1 else 0);
    }
  }

  /** What continuing means: the earlier run is a prefix, and passes only add up. */
  lemma {:induction false} ContinuesIsPrefix(earlier: Run, later: Run, passes: int)
    requires |later.states| == |later.actions| + 1
    requires Continues(earlier, later, passes)
    ensures earlier.states <= later.states && earlier.actions <= later.actions
    ensures passes >= 0
    decreases |later.actions|
  {
    if earlier == later && passes == 0 {
    } else {
      ContinuesIsPrefix(earlier, later.Front(), passes - if EndsPass(later) then 1 else 0);
    }
  }

  /** The run with one more enabled action. */
  lemma Perform(hasher: Hasher, run: Run, action: Action) returns (longer: Run)
    requires run.Valid(hasher)
    requires Enabled(run.Last(), action)
    ensures longer.Valid(hasher)
    ensures longer.Last() == Apply(hasher, run.Last(), action)
    ensures longer.actions == run.actions + [action]
    ensures longer.states == run.states + [longer.Last()]
    ensures run.Started() ==> longer.Started()
  {
    hide Apply, Step;
    ExtendRun(hasher, run, action);
    longer := run.Extend(action, Apply(hasher, run.Last(), action));
  }
}
