/** The template pallet: one stored value and an event log. */
module TemplatePallet {
  import opened Primitives

  datatype Origin = Signed(who: nat) | Root | Unsigned

  datatype Event = SomethingStored(something: u32, who: nat)

  datatype Error = BadOrigin | NoneValue | StorageOverflow

  datatype DispatchResult = Ok | Err(error: Error)

  datatype Call = DoSomething(origin: Origin, something: u32) | CauseError(origin: Origin)

  datatype Storage = Storage(something: Option<u32>, events: seq<Event>)

  /** What a call answers. */
  function Answer(storage: Storage, call: Call): DispatchResult {
    if !call.origin.Signed? then Err(BadOrigin)
    else
      match call
      case DoSomething(_, _) => Ok
      case CauseError(_) =>
        match storage.something
        case None => Err(NoneValue)
        case Some(value) => if value == U32_MAX then Err(StorageOverflow) else Ok
  }

  /** What a call leaves behind. */
  function After(storage: Storage, call: Call): Storage {
    if Answer(storage, call).Err? then storage
    else
      match call
      case DoSomething(origin, something) =>
        Storage(Some(something), storage.events + [SomethingStored(something, origin.who)])
      case CauseError(_) =>
        storage.(something := Some(storage.something.value + 1))
  }

  class Pallet {
    var something: Option<u32>
    var events: seq<Event>

    constructor ()
      ensures State() == Storage(None, [])
    {
      something := None;
      events := [];
    }

    function State(): Storage
      reads this
    {
      Storage(something, events)
    }

    method DoSomething(origin: Origin, value: u32) returns (result: DispatchResult)
      modifies this
      ensures result == Answer(old(State()), Call.DoSomething(origin, value))
      ensures State() == After(old(State()), Call.DoSomething(origin, value))
    {
      if !origin.Signed? {
        return Err(BadOrigin);
      }
      something := Some(value);
      events := events + [SomethingStored(value, origin.who)];
      result := Ok;
    }

    method CauseError(origin: Origin) returns (result: DispatchResult)
      modifies this
      ensures result == Answer(old(State()), Call.CauseError(origin))
      ensures State() == After(old(State()), Call.CauseError(origin))
    {
      if !origin.Signed? {
        return Err(BadOrigin);
      }
      match something
      case None => result := Err(NoneValue);
      case Some(value) =>
        if value == U32_MAX {
          return Err(StorageOverflow);
        }
        something := Some(value + 1);
        result := Ok;
    }
  }

  // ----- Whole runs -----

  /** The storage after a sequence of calls on a fresh pallet. */
  function Execute(calls: seq<Call>): Storage {
    if calls == [] then Storage(None, [])
    else After(Execute(calls[..|calls| - 1]), calls[|calls| - 1])
  }

  predicate Succeeds(calls: seq<Call>, i: nat)
    requires i < |calls|
  {
    Answer(Execute(calls[..i]), calls[i]).Ok?
  }

  /** The successful increments among the calls from `lo` up to, not including, `hi`. */
  function Increments(calls: seq<Call>, lo: nat, hi: nat): nat
    requires lo <= hi && hi <= |calls|
    decreases hi
  {
    if lo == hi then 0
    else Increments(calls, lo, hi - 1) + (if calls[hi - 1].CauseError? && Succeeds(calls, hi - 1) then 1 else 0)
  }

  /** The events of the successful stores among the first `n` calls. */
  function StoreEvents(calls: seq<Call>, n: nat): seq<Event>
    requires n <= |calls|
  {
    if n == 0 then []
    else
      StoreEvents(calls, n - 1)
      + (match calls[n - 1]
         case DoSomething(origin, something) =>
           if Succeeds(calls, n - 1) && origin.Signed? then [SomethingStored(something, origin.who)] else []
         case CauseError(_) => [])
  }

  /** Call `i` is the last one before `n` that stored a value. */
  ghost predicate IsLastStore(calls: seq<Call>, i: nat, n: nat) {
    && i < n <= |calls|
    && calls[i].DoSomething? && Succeeds(calls, i)
    && forall j | i < j < n :: !(calls[j].DoSomething? && Succeeds(calls, j))
  }

  lemma ExecuteStep(calls: seq<Call>, n: nat)
    requires n < |calls|
    ensures Execute(calls[..n + 1]) == After(Execute(calls[..n]), calls[n])
  {
    assert calls[..n + 1][..n] == calls[..n];
  }

  /** As long as no value was stored, nothing is. */
  lemma {:induction false} NothingBeforeFirstStore(calls: seq<Call>, n: nat)
    requires n <= |calls|
    requires forall j | 0 <= j < n :: !(calls[j].DoSomething? && Succeeds(calls, j))
    ensures Execute(calls[..n]) == Storage(None, [])
  {
    if n == 0 {
    } else {
      NothingBeforeFirstStore(calls, n - 1);
      ExecuteStep(calls, n - 1);
      assert !(calls[n - 1].DoSomething? && Succeeds(calls, n - 1));
    }
  }

  /** Over every sequence of calls with any origins: after a store the value is the one in the last
      event plus the successful increments since, and stays within a u32. */
  lemma {:induction false} ValueIsLastEventPlusIncrements(calls: seq<Call>, i: nat, n: nat)
    requires IsLastStore(calls, i, n)
    ensures var storage := Execute(calls[..n]);
            && storage.something.Some? && storage.events != []
            && var last := storage.events[|storage.events| - 1];
            && last == SomethingStored(calls[i].something, calls[i].origin.who)
            && storage.something.value == last.something + Increments(calls, i + 1, n)
            && last.something + Increments(calls, i + 1, n) <= U32_MAX
    decreases n
  {
    hide Execute;
    ExecuteStep(calls, n - 1);
    if i + 1 == n {
    } else {
      ValueIsLastEventPlusIncrements(calls, i, n - 1);
      assert !(calls[n - 1].DoSomething? && Succeeds(calls, n - 1));
    }
  }

  /** The last of the first `n` calls that stored a value, if any did. */
  lemma {:induction false} FindLastStore(calls: seq<Call>, n: nat) returns (i: nat)
    requires n <= |calls|
    ensures i < n ==> IsLastStore(calls, i, n)
    ensures i >= n ==> forall j | 0 <= j < n :: !(calls[j].DoSomething? && Succeeds(calls, j))
  {
    if n == 0 {
      i := 0;
    } else if calls[n - 1].DoSomething? && Succeeds(calls, n - 1) {
      i := n - 1;
    } else {
      i := FindLastStore(calls, n - 1);
      if i >= n - 1 {
        i := n;
      }
    }
  }

  /** Before call `n` a value was last stored by call `i`, and there is room to increment it. */
  ghost predicate RoomToIncrement(calls: seq<Call>, i: nat, n: nat) {
    IsLastStore(calls, i, n) && calls[i].something + Increments(calls, i + 1, n) < U32_MAX
  }

  lemma LastStoreUnique(calls: seq<Call>, i: nat, j: nat, n: nat)
    requires IsLastStore(calls, i, n) && IsLastStore(calls, j, n)
    ensures i == j
  {
    hide Succeeds;
  }

  lemma ValueHasRoom(calls: seq<Call>, n: nat)
    requires n <= |calls|
    ensures var something := Execute(calls[..n]).something;
            something.Some? && something.value < U32_MAX <==> exists i: nat :: RoomToIncrement(calls, i, n)
  {
    hide Succeeds, Execute, Increments;
    var i := FindLastStore(calls, n);
    if i < n {
      ValueIsLastEventPlusIncrements(calls, i, n);
      assert RoomToIncrement(calls, i, n) <==> Execute(calls[..n]).something.value < U32_MAX;
      if k: nat :| RoomToIncrement(calls, k, n) {
        LastStoreUnique(calls, i, k, n);
      }
    } else {
      NothingBeforeFirstStore(calls, n);
    }
  }

  /** When a call succeeds, told by what happened before it: a store needs a signature; an increment
      needs a signature, an earlier store, and the last stored event's value plus the increments
      since to be below u32::MAX. */
  lemma CallSucceedsExactly(calls: seq<Call>, n: nat)
    requires n < |calls|
    ensures Succeeds(calls, n) <==>
            calls[n].origin.Signed?
            && (calls[n].CauseError? ==> exists i: nat :: RoomToIncrement(calls, i, n))
  {
    hide RoomToIncrement, Execute;
    ValueHasRoom(calls, n);
  }

  /** Before call `n` a value was last stored by call `i`, and it has been incremented to the maximum. */
  ghost predicate AtMaximum(calls: seq<Call>, i: nat, n: nat) {
    IsLastStore(calls, i, n) && calls[i].something + Increments(calls, i + 1, n) == U32_MAX
  }

  lemma ValueIsMaximum(calls: seq<Call>, n: nat)
    requires n <= |calls|
    ensures Execute(calls[..n]).something == Some(U32_MAX) <==> exists i: nat :: AtMaximum(calls, i, n)
    ensures Execute(calls[..n]).something == None <==>
            forall j | 0 <= j < n :: !(calls[j].DoSomething? && Succeeds(calls, j))
  {
    hide Succeeds, Execute, Increments;
    var i := FindLastStore(calls, n);
    if i < n {
      ValueIsLastEventPlusIncrements(calls, i, n);
      assert AtMaximum(calls, i, n) <==> Execute(calls[..n]).something == Some(U32_MAX);
      if k: nat :| AtMaximum(calls, k, n) {
        LastStoreUnique(calls, i, k, n);
      }
    } else {
      NothingBeforeFirstStore(calls, n);
    }
  }

  /** The answer to call `n` of a run. */
  function AnswerTo(calls: seq<Call>, n: nat): DispatchResult
    requires n < |calls|
  {
    Answer(Execute(calls[..n]), calls[n])
  }

  /** Which error a failing call gives, told by what happened before it: BadOrigin exactly without a
      signature; NoneValue exactly for a signed increment before any successful store; StorageOverflow
      exactly for a signed increment when the last stored value and the increments since add up to u32::MAX. */
  lemma ErrorsExactly(calls: seq<Call>, n: nat)
    requires n < |calls|
    ensures AnswerTo(calls, n) == Err(BadOrigin) <==> !calls[n].origin.Signed?
    ensures AnswerTo(calls, n) == Err(NoneValue) <==>
            && calls[n].CauseError? && calls[n].origin.Signed?
            && forall j | 0 <= j < n :: !(calls[j].DoSomething? && Succeeds(calls, j))
    ensures AnswerTo(calls, n) == Err(StorageOverflow) <==>
            && calls[n].CauseError? && calls[n].origin.Signed?
            && exists i: nat :: AtMaximum(calls, i, n)
  {
    hide Execute, AtMaximum, Succeeds;
    ValueIsMaximum(calls, n);
  }

  /** Failing calls change neither the value nor the events; so the log holds one event for every
      successful store, in order. */
  lemma {:induction false} FailedCallsLeaveNoTrace(calls: seq<Call>, n: nat)
    requires n <= |calls|
    ensures Execute(calls[..n]).events == StoreEvents(calls, n)
    ensures n < |calls| && !Succeeds(calls, n) ==> Execute(calls[..n + 1]) == Execute(calls[..n])
  {
    if n < |calls| {
      ExecuteStep(calls, n);
    }
    if n == 0 {
    } else {
      FailedCallsLeaveNoTrace(calls, n - 1);
      ExecuteStep(calls, n - 1);
    }
  }
}
