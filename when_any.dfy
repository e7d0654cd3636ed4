/** The completion bookkeeping of `when_any`.

    The shared block (`when_any_block_base` and a derived block) holds an
    exception slot, an atomic resumption handle and one payload slot: the
    winner's index in `when_any_block_void`, the winner's result in
    `when_any_block_value<T>`. The two derived blocks differ only in that
    slot's type, so one generic block `WhenAnyBlock<R>` stands for both
    (`R` is `size_t` for the void block and `T` for the value block).

    `await_suspend` stores the waiter's handle before starting any task.
    Every report loads the handle and, when it is not null, exchanges it
    with null; only the report that gets a non-null handle back writes the
    payload or exception and resumes the waiter.

    Here each report is one indivisible step; `WhenAnyRace` splits a report
    into its load and its exchange. */
module WhenAny {
  import opened Outcomes

  // ---------------------------------------------------------------------
  // The shared block and its steps
  // ---------------------------------------------------------------------

  /** The exception, the handle (null before `await_suspend` and after the
      claim), the payload slot, and every invocation of a claimed handle. */
  datatype BlockState<R> = BlockState(exception: Option<Exc>, resume: Handle, payload: Option<R>, resumptions: seq<Handle>)

  /** A freshly made block: nothing stored, the handle null. */
  function InitialBlock<R>(): BlockState<R>
  {
    BlockState(None, Null, None, [])
  }

  /** The first statement of `await_suspend`: store the waiter's handle. */
  function BlockSuspend<R>(s: BlockState<R>, h: Handle): BlockState<R>
  {
    s.(resume := h)
  }

  /** `finished(index)` / `finished(result)`: load; if non-null, exchange to
      null, and the caller that got a non-null handle writes the payload and
      invokes the handle. */
  function StepFinished<R>(s: BlockState<R>, r: R): BlockState<R>
  {
    if s.resume != Null then
      var value := s.resume;
      var s' := s.(resume := Null);
      if value != Null then s'.(payload := Some(r), resumptions := s.resumptions + [value]) else s'
    else s
  }

  /** `finished_exception`: the same claim, writing the exception instead. */
  function StepFinishedException<R>(s: BlockState<R>, e: Exc): BlockState<R>
  {
    if s.resume != Null then
      var value := s.resume;
      var s' := s.(resume := Null);
      if value != Null then s'.(exception := Some(e), resumptions := s.resumptions + [value]) else s'
    else s
  }

  /** One report made by a helper coroutine. */
  datatype Completion<R> = Finished(r: R) | FinishedException(e: Exc)

  function AnyStep<R>(s: BlockState<R>, c: Completion<R>): BlockState<R>
  {
    match c
    case Finished(r) => StepFinished(s, r)
    case FinishedException(e) => StepFinishedException(s, e)
  }

  /** The block after the reports `cs`, in that order. */
  function AnyRun<R>(s: BlockState<R>, cs: seq<Completion<R>>): BlockState<R>
    decreases |cs|
  {
    if cs == [] then s else AnyRun(AnyStep(s, cs[0]), cs[1..])
  }

  /** What a report hands the waiter when it wins. */
  function Reported<R>(c: Completion<R>): Result<R, Exc>
  {
    match c
    case Finished(r) => Success(r)
    case FinishedException(e) => Failure(e)
  }

  /** `await_resume`: rethrow the stored exception, or return the payload. */
  function AnyAwaitResume<R>(s: BlockState<R>): Result<R, Exc>
    requires s.exception.Some? || s.payload.Some?
  {
    if s.exception.Some? then Failure(s.exception.value) else Success(s.payload.value)
  }

  /** Once the handle is null every report is a no-op: payload, exception,
      handle and resumptions stay as they are. This covers the losers, and
      also any report arriving before `await_suspend` stored the handle,
      which would be lost; hence the store comes before the tasks start. */
  lemma {:induction false} LaterCompletionsAreNoOps<R>(s: BlockState<R>, cs: seq<Completion<R>>)
    requires s.resume == Null
    ensures AnyRun(s, cs) == s
  {
    if cs != [] {
      LaterCompletionsAreNoOps(AnyStep(s, cs[0]), cs[1..]);
    }
  }

  /** After `await_suspend(h)`, the first report wins, success or failure:
      the waiter is resumed exactly once, with that report's outcome, and
      every later report changes nothing. */
  lemma FirstCompletionWins<R>(h: Handle, cs: seq<Completion<R>>)
    requires h != Null && |cs| >= 1
    ensures var s := AnyRun(BlockSuspend(InitialBlock<R>(), h), cs);
      && s == AnyStep(BlockSuspend(InitialBlock<R>(), h), cs[0])
      && s.resume == Null
      && s.resumptions == [h]
      && (s.exception.Some? || s.payload.Some?)
      && AnyAwaitResume(s) == Reported(cs[0])
  {
    var s1 := AnyStep(BlockSuspend(InitialBlock<R>(), h), cs[0]);
    LaterCompletionsAreNoOps(s1, cs[1..]);
  }

  /** The reports of `when_any` over actions, when the tasks complete in the
      order `order` and task `i` yields `outcomes[i]`: task `i` reports
      `finished(i)` or `finished_exception()`. */
  function IndexCompletions(order: seq<nat>, outcomes: seq<TaskOutcome<()>>): (cs: seq<Completion<nat>>)
    requires forall k :: 0 <= k < |order| ==> order[k] < |outcomes|
    ensures |cs| == |order|
  {
    seq(|order|, k requires 0 <= k < |order| =>
      match outcomes[order[k]]
      case Returned(_) => Finished(order[k])
      case Threw(e) => FinishedException(e))
  }

  /** The reports of `when_any` over operations of `T`: task `i` reports
      `finished(v)` or `finished_exception()`; the value carries no index. */
  function ValueCompletions<T>(order: seq<nat>, outcomes: seq<TaskOutcome<T>>): (cs: seq<Completion<T>>)
    requires forall k :: 0 <= k < |order| ==> order[k] < |outcomes|
    ensures |cs| == |order|
  {
    seq(|order|, k requires 0 <= k < |order| =>
      match outcomes[order[k]]
      case Returned(v) => Finished(v)
      case Threw(e) => FinishedException(e))
  }

  /** `when_any` over actions: whatever the order, the waiter receives the
      index of the task that completed first, or that task's exception. */
  lemma WhenAnyVoidYieldsFirstIndex(h: Handle, order: seq<nat>, outcomes: seq<TaskOutcome<()>>)
    requires h != Null && |order| >= 1
    requires forall k :: 0 <= k < |order| ==> order[k] < |outcomes|
    ensures var s := AnyRun(BlockSuspend(InitialBlock<nat>(), h), IndexCompletions(order, outcomes));
      && s.resumptions == [h]
      && (s.exception.Some? || s.payload.Some?)
      && AnyAwaitResume(s) == match outcomes[order[0]]
                               case Returned(_) => Success(order[0])
                               case Threw(e) => Failure(e)
  {
    FirstCompletionWins(h, IndexCompletions(order, outcomes));
  }

  /** `when_any` over operations: whatever the order, the waiter receives
      the value of the task that completed first, or that task's exception. */
  lemma WhenAnyValueYieldsFirstResult<T>(h: Handle, order: seq<nat>, outcomes: seq<TaskOutcome<T>>)
    requires h != Null && |order| >= 1
    requires forall k :: 0 <= k < |order| ==> order[k] < |outcomes|
    ensures var s := AnyRun(BlockSuspend(InitialBlock<T>(), h), ValueCompletions(order, outcomes));
      && s.resumptions == [h]
      && (s.exception.Some? || s.payload.Some?)
      && AnyAwaitResume(s) == match outcomes[order[0]]
                               case Returned(v) => Success(v)
                               case Threw(e) => Failure(e)
  {
    FirstCompletionWins(h, ValueCompletions(order, outcomes));
  }

  // ---------------------------------------------------------------------
  // The block and the awaitable, as objects updated in place
  // ---------------------------------------------------------------------

  /** Nothing has been claimed, or exactly one claim resumed the waiter and
      left exactly one of exception and payload written. */
  predicate Coherent<R>(s: BlockState<R>)
  {
    || (s.resumptions == [] && s.exception.None? && s.payload.None?)
    || (|s.resumptions| == 1 && s.resume == Null && (s.exception.Some? <==> s.payload.None?))
  }

  /** `when_any_block_void` / `when_any_block_value<T>`, shared by the
      awaitable and every helper coroutine. */
  class WhenAnyBlock<R> {
    var exception: Option<Exc>
    var resume: Handle
    var payload: Option<R>
    /** Every invocation of a claimed handle, in order. */
    var resumptions: seq<Handle>

    function State(): BlockState<R>
      reads this
    {
      BlockState(exception, resume, payload, resumptions)
    }

    ghost predicate Valid()
      reads this
    {
      Coherent(State()) && (resumptions == [] || resume == Null)
    }

    constructor ()
      ensures Valid() && State() == InitialBlock()
    {
      exception, resume, payload, resumptions := None, Null, None, [];
    }

    method Finished(r: R)
      requires Valid()
      modifies this
      ensures Valid() && State() == StepFinished(old(State()), r)
    {
      var loaded := resume;
      if loaded != Null {
        var value := resume;
        resume := Null;
        if value != Null {
          payload := Some(r);
          resumptions := resumptions + [value];
        }
      }
    }

    method FinishedException(e: Exc)
      requires Valid()
      modifies this
      ensures Valid() && State() == StepFinishedException(old(State()), e)
    {
      var loaded := resume;
      if loaded != Null {
        var value := resume;
        resume := Null;
        if value != Null {
          exception := Some(e);
          resumptions := resumptions + [value];
        }
      }
    }
  }

  /** The `when_any_awaitable` struct of both `when_any_impl` overloads: it
      owns a reference to the shared block. */
  class WhenAnyAwaitable<R> {
    const ptr: WhenAnyBlock<R>

    constructor ()
      ensures fresh(ptr) && ptr.Valid() && ptr.State() == InitialBlock()
    {
      ptr := new WhenAnyBlock<R>();
    }

    /** The waiter always suspends. */
    method AwaitReady() returns (ready: bool)
      ensures !ready
    {
      ready := false;
    }

    /** Stores the handle before any task starts; starting the tasks, which
        then report through the block, is outside this model. */
    method AwaitSuspend(h: Handle)
      requires ptr.State() == InitialBlock() && h != Null
      modifies ptr
      ensures ptr.Valid() && ptr.State() == BlockSuspend(old(ptr.State()), h)
    {
      ptr.resume := h;
    }

    /** Runs once the waiter has been resumed: the winner's exception is
        rethrown, otherwise the winner's index or result is returned. */
    method AwaitResume() returns (r: Result<R, Exc>)
      requires ptr.Valid() && |ptr.resumptions| == 1
      ensures r.Failure? <==> ptr.exception.Some?
      ensures r.Failure? ==> r.error == ptr.exception.value
      ensures r.Success? ==> ptr.payload == Some(r.value)
    {
      if ptr.exception.Some? {
        r := Failure(ptr.exception.value);
      } else {
        r := Success(ptr.payload.value);
      }
    }
  }
}
