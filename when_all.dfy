/** The completion bookkeeping of `when_all`.

    `when_all_awaitable_base` holds a counter started at the number of
    awaitables, the first exception, and the waiter's handle. Every helper
    coroutine reports its task exactly once: `finished()` (void variant),
    `finished<Index>(v)` (value variant, which also fills results slot
    `Index`) or `finished_exception()`. Each report goes through
    `check_resume`, and the report that takes the counter from 1 to 0
    resumes the waiter.

    Each report is one indivisible step here; the state after a sequence of
    reports is a fold of the step functions below, and the classes' methods
    are proved to perform exactly those steps. */
module WhenAll {
  import opened Outcomes
  import opened Schedules

  // ---------------------------------------------------------------------
  // The shared state of when_all_awaitable_base and its steps
  // ---------------------------------------------------------------------

  /** The first exception, the countdown, the waiter's handle, and every
      invocation of that handle so far (the abstract "resume" events). */
  datatype BaseState = BaseState(exception: Option<Exc>, counter: int, resume: Handle, resumptions: seq<Handle>)

  /** The state the constructor leaves for `n` awaitables. */
  function InitialBase(n: nat): BaseState
  {
    BaseState(None, n, Null, [])
  }

  /** `check_resume`: `fetch_sub(1)` yields the value before the decrement,
      and the caller for whom that value minus one is 0 invokes the handle. */
  function StepCheckResume(s: BaseState): BaseState
  {
    var previous := s.counter;
    var s' := s.(counter := previous - 1);
    if 0 == previous - 1 then s'.(resumptions := s.resumptions + [s.resume]) else s'
  }

  /** `finished_exception`: store the exception only into an empty slot, then
      `check_resume`. */
  function StepFinishedException(s: BaseState, e: Exc): BaseState
  {
    StepCheckResume(if s.exception.None? then s.(exception := Some(e)) else s)
  }

  /** The first statement of `await_suspend`: remember the waiter. */
  function StepSuspend(s: BaseState, h: Handle): BaseState
  {
    s.(resume := h)
  }

  // ---------------------------------------------------------------------
  // Void variant: reports carry no payload
  // ---------------------------------------------------------------------

  datatype VoidEvent = VoidFinished | VoidException(e: Exc)

  function VoidStep(s: BaseState, ev: VoidEvent): BaseState
  {
    match ev
    case VoidFinished => StepCheckResume(s)
    case VoidException(e) => StepFinishedException(s, e)
  }

  /** The state after the reports `evs`, in that order. */
  function VoidRun(s: BaseState, evs: seq<VoidEvent>): BaseState
    decreases |evs|
  {
    if evs == [] then s else VoidStep(VoidRun(s, evs[..|evs| - 1]), evs[|evs| - 1])
  }

  /** `await_resume` of the void variant: rethrow, or return normally. */
  function VoidAwaitResume(s: BaseState): Result<(), Exc>
  {
    if s.exception.Some? then Failure(s.exception.value) else Success(())
  }

  /** Report `k` is the first failing report of `evs`. */
  predicate FirstVoidException(evs: seq<VoidEvent>, k: int)
  {
    0 <= k < |evs| && evs[k].VoidException? && forall j :: 0 <= j < k ==> evs[j].VoidFinished?
  }

  /** Every report, success or failure, lowers the counter by exactly one and
      leaves the handle alone. */
  lemma {:induction false} VoidRunCountsDown(s: BaseState, evs: seq<VoidEvent>)
    ensures VoidRun(s, evs).counter == s.counter - |evs|
    ensures VoidRun(s, evs).resume == s.resume
  {
    if evs != [] {
      VoidRunCountsDown(s, evs[..|evs| - 1]);
    }
  }

  /** Starting from a positive counter `c` and no resumption, the handle is
      invoked once, by report number `c`, and never again, whatever the mix
      of successes and failures. */
  lemma {:induction false} VoidRunResumesOnce(s: BaseState, evs: seq<VoidEvent>)
    requires s.counter >= 1 && s.resumptions == []
    ensures VoidRun(s, evs).resumptions == if |evs| >= s.counter then [s.resume] else []
  {
    if evs != [] {
      VoidRunResumesOnce(s, evs[..|evs| - 1]);
      VoidRunCountsDown(s, evs[..|evs| - 1]);
    }
  }

  /** First error wins: the stored exception is that of the first failing
      report, and the slot stays empty exactly when no report failed. */
  lemma {:induction false} VoidRunKeepsFirstException(s: BaseState, evs: seq<VoidEvent>)
    requires s.exception.None?
    ensures VoidRun(s, evs).exception.None? <==> forall k :: 0 <= k < |evs| ==> evs[k].VoidFinished?
    ensures forall k :: FirstVoidException(evs, k) ==> VoidRun(s, evs).exception == Some(evs[k].e)
  {
    if evs != [] {
      var n := |evs|;
      var init := evs[..n - 1];
      VoidRunKeepsFirstException(s, init);
      assert forall j :: 0 <= j < n - 1 ==> init[j] == evs[j];
      forall k | FirstVoidException(evs, k)
        ensures VoidRun(s, evs).exception == Some(evs[k].e)
      {
        if k < n - 1 {
          assert FirstVoidException(init, k);
        }
      }
    }
  }

  /** The void variant under any `n` reports: the waiter is not resumed by
      the first `n - 1` of them, is resumed exactly once by the last, and then
      sees success exactly when no task failed, or else the first failure. */
  lemma WhenAllVoidCompletes(n: nat, h: Handle, evs: seq<VoidEvent>)
    requires n >= 1 && |evs| == n
    ensures var s0 := StepSuspend(InitialBase(n), h);
      && (forall k :: 0 <= k < n ==> VoidRun(s0, evs[..k]).resumptions == [])
      && VoidRun(s0, evs).resumptions == [h]
      && VoidRun(s0, evs).counter == 0
      && (VoidAwaitResume(VoidRun(s0, evs)).Success? <==> forall k :: 0 <= k < n ==> evs[k].VoidFinished?)
      && (forall k :: FirstVoidException(evs, k) ==> VoidAwaitResume(VoidRun(s0, evs)) == Failure(evs[k].e))
  {
    var s0 := StepSuspend(InitialBase(n), h);
    forall k | 0 <= k < n
      ensures VoidRun(s0, evs[..k]).resumptions == []
    {
      VoidRunResumesOnce(s0, evs[..k]);
    }
    VoidRunResumesOnce(s0, evs);
    VoidRunCountsDown(s0, evs);
    VoidRunKeepsFirstException(s0, evs);
  }

  // ---------------------------------------------------------------------
  // Value variant: reports fill positional result slots
  // ---------------------------------------------------------------------

  /** The base state plus the results tuple; `None` is a slot still holding
      its default-constructed value. */
  datatype ValueState<V> = ValueState(base: BaseState, results: seq<Option<V>>)

  datatype ValueEvent<V> = ValueFinished(index: nat, value: V) | ValueException(e: Exc)

  function InitialValue<V>(n: nat): ValueState<V>
  {
    ValueState(InitialBase(n), seq(n, _ => None))
  }

  function ValueSuspend<V>(s: ValueState<V>, h: Handle): ValueState<V>
  {
    s.(base := StepSuspend(s.base, h))
  }

  /** Every successful report names a slot of a tuple of size `n`. */
  predicate FitsIn<V>(evs: seq<ValueEvent<V>>, n: nat)
  {
    forall k :: 0 <= k < |evs| && evs[k].ValueFinished? ==> evs[k].index < n
  }

  /** `finished<index>(v)` writes slot `index` then runs `check_resume`;
      `finished_exception` is the base's. */
  function ValueStep<V>(s: ValueState<V>, ev: ValueEvent<V>): (r: ValueState<V>)
    requires ev.ValueFinished? ==> ev.index < |s.results|
    ensures |r.results| == |s.results|
  {
    match ev
    case ValueFinished(i, v) => ValueState(StepCheckResume(s.base), s.results[i := Some(v)])
    case ValueException(e) => s.(base := StepFinishedException(s.base, e))
  }

  /** The state after the reports `evs`; the tuple keeps its arity. */
  function ValueRun<V>(s: ValueState<V>, evs: seq<ValueEvent<V>>): (r: ValueState<V>)
    requires FitsIn(evs, |s.results|)
    ensures |r.results| == |s.results|
    decreases |evs|
  {
    if evs == [] then s else ValueStep(ValueRun(s, evs[..|evs| - 1]), evs[|evs| - 1])
  }

  /** `await_resume` of the value variant: rethrow, or return the tuple. */
  function ValueAwaitResume<V>(s: ValueState<V>): Result<seq<Option<V>>, Exc>
  {
    if s.base.exception.Some? then Failure(s.base.exception.value) else Success(s.results)
  }

  /** The reports as the base sees them: a value report is a plain one. */
  function Erase<V>(evs: seq<ValueEvent<V>>): (r: seq<VoidEvent>)
    ensures |r| == |evs|
    ensures forall k :: 0 <= k < |evs| ==>
      r[k] == match evs[k] case ValueFinished(_, _) => VoidFinished case ValueException(e) => VoidException(e)
  {
    seq(|evs|, k requires 0 <= k < |evs| =>
      match evs[k]
      case ValueFinished(_, _) => VoidFinished
      case ValueException(e) => VoidException(e))
  }

  /** The counter, exception and handle of the value variant evolve exactly
      as in the void variant; the results tuple is the only extra state. */
  lemma {:induction false} ValueRunBase<V>(s: ValueState<V>, evs: seq<ValueEvent<V>>)
    requires FitsIn(evs, |s.results|)
    ensures ValueRun(s, evs).base == VoidRun(s.base, Erase(evs))
  {
    if evs != [] {
      var init := evs[..|evs| - 1];
      ValueRunBase(s, init);
      assert Erase(evs)[..|evs| - 1] == Erase(init);
    }
  }

  /** The reports the helper coroutines make when the tasks complete in the
      order `order` and task `i` produces `outcomes[i]`: `finished<i>(v)` for a
      value, `finished_exception()` for an exception. */
  function Completions<V>(order: seq<nat>, outcomes: seq<TaskOutcome<V>>): (evs: seq<ValueEvent<V>>)
    requires forall k :: 0 <= k < |order| ==> order[k] < |outcomes|
    ensures |evs| == |order|
    ensures FitsIn(evs, |outcomes|)
  {
    seq(|order|, k requires 0 <= k < |order| =>
      match outcomes[order[k]]
      case Returned(v) => ValueFinished(order[k], v)
      case Threw(e) => ValueException(e))
  }

  /** `finished<index>` writes only slot `index`: after the reports of
      distinct tasks, the slot of each task that returned holds its value and
      every other slot is as before. */
  lemma {:induction false} ValueRunResults<V>(s: ValueState<V>, order: seq<nat>, outcomes: seq<TaskOutcome<V>>)
    requires |s.results| == |outcomes|
    requires Distinct(order) && forall k :: 0 <= k < |order| ==> order[k] < |outcomes|
    ensures forall i :: 0 <= i < |outcomes| ==>
      ValueRun(s, Completions(order, outcomes)).results[i]
        == if i in order && outcomes[i].Returned? then Some(outcomes[i].value) else s.results[i]
  {
    if order != [] {
      var m := |order|;
      var init := order[..m - 1];
      var last := order[m - 1];
      ValueRunResults(s, init, outcomes);
      assert Completions(order, outcomes)[..m - 1] == Completions(init, outcomes);
      assert last !in init by {
        forall j | 0 <= j < m - 1
          ensures init[j] != last
        {
          assert init[j] == order[j];
        }
      }
      forall i | 0 <= i < |outcomes|
        ensures i in order <==> i in init || i == last
      {
        assert order == init + [last];
      }
    }
  }

  /** The state of the value variant after its `n` tasks, suspended on `h`,
      report in the order `order` with the outcomes `outcomes`. */
  function AfterReports<V>(n: nat, h: Handle, order: seq<nat>, outcomes: seq<TaskOutcome<V>>, count: nat): ValueState<V>
    requires |outcomes| == n && IsSchedule(order, n) && count <= n
  {
    ValueRun(ValueSuspend(InitialValue<V>(n), h), Completions(order, outcomes)[..count])
  }

  /** Under any completion order of the `n` tasks the waiter of the value
      variant is not resumed by the first `n - 1` reports and is resumed
      exactly once by the last. */
  lemma WhenAllValueResumesOnLast<V>(n: nat, h: Handle, order: seq<nat>, outcomes: seq<TaskOutcome<V>>)
    requires n >= 1 && |outcomes| == n && IsSchedule(order, n)
    ensures forall k :: 0 <= k < n ==> AfterReports(n, h, order, outcomes, k).base.resumptions == []
    ensures AfterReports(n, h, order, outcomes, n).base.resumptions == [h]
  {
    var s0 := ValueSuspend(InitialValue<V>(n), h);
    var evs := Completions(order, outcomes);
    var erased := Erase(evs);
    WhenAllVoidCompletes(n, h, erased);
    forall k | 0 <= k <= n
      ensures AfterReports(n, h, order, outcomes, k).base == VoidRun(s0.base, erased[..k])
    {
      ValueRunBase(s0, evs[..k]);
      assert Erase(evs[..k]) == erased[..k];
    }
    assert erased[..n] == erased;
  }

  /** Under any completion order, the waiter of the value variant receives
      the tuple exactly when every task returned, and then each slot holds
      its own task's value. */
  lemma WhenAllValueReturnsAll<V>(n: nat, h: Handle, order: seq<nat>, outcomes: seq<TaskOutcome<V>>)
    requires n >= 1 && |outcomes| == n && IsSchedule(order, n)
    ensures ValueAwaitResume(AfterReports(n, h, order, outcomes, n)).Success?
      <==> forall i :: 0 <= i < n ==> outcomes[i].Returned?
    ensures forall i :: 0 <= i < n && outcomes[i].Returned? ==>
      AfterReports(n, h, order, outcomes, n).results[i] == Some(outcomes[i].value)
  {
    var s0 := ValueSuspend(InitialValue<V>(n), h);
    var evs := Completions(order, outcomes);
    assert evs[..n] == evs;
    var erased := Erase(evs);
    ValueRunBase(s0, evs);
    VoidRunKeepsFirstException(s0.base, erased);
    ScheduleCovers(order, n);
    ValueRunResults(s0, order, outcomes);
    if forall k :: 0 <= k < n ==> erased[k].VoidFinished? {
      forall i | 0 <= i < n
        ensures outcomes[i].Returned?
      {
        assert i in order;
        var k :| 0 <= k < n && order[k] == i;
        assert erased[k].VoidFinished?;
      }
    }
  }

  /** Under any completion order, if a task failed the waiter of the value
      variant receives the exception of the first task to fail, never a
      partial tuple. */
  lemma WhenAllValueFirstFailure<V>(n: nat, h: Handle, order: seq<nat>, outcomes: seq<TaskOutcome<V>>, k: nat)
    requires n >= 1 && |outcomes| == n && IsSchedule(order, n)
    requires k < n && outcomes[order[k]].Threw?
    requires forall j :: 0 <= j < k ==> outcomes[order[j]].Returned?
    ensures ValueAwaitResume(AfterReports(n, h, order, outcomes, n)) == Failure(outcomes[order[k]].error)
  {
    var s0 := ValueSuspend(InitialValue<V>(n), h);
    var evs := Completions(order, outcomes);
    assert evs[..n] == evs;
    var erased := Erase(evs);
    ValueRunBase(s0, evs);
    VoidRunKeepsFirstException(s0.base, erased);
    assert FirstVoidException(erased, k);
  }

  // ---------------------------------------------------------------------
  // The awaitables, as objects updated in place
  // ---------------------------------------------------------------------

  /** `when_all_awaitable_base`. */
  class Base {
    var exception: Option<Exc>
    var counter: int
    var resume: Handle
    /** Every invocation of `resume()`, in order. */
    var resumptions: seq<Handle>

    function State(): BaseState
      reads this
    {
      BaseState(exception, counter, resume, resumptions)
    }

    /** The counter starts at the number of awaitables `n`. */
    constructor (n: nat)
      ensures State() == InitialBase(n)
    {
      exception, counter, resume, resumptions := None, n, Null, [];
    }

    method FinishedException(e: Exc)
      modifies this
      ensures State() == StepFinishedException(old(State()), e)
    {
      if exception.None? {
        exception := Some(e);
      }
      CheckResume();
    }

    method CheckResume()
      modifies this
      ensures State() == StepCheckResume(old(State()))
    {
      var previous := counter;
      counter := counter - 1;
      if 0 == previous - 1 {
        resumptions := resumptions + [resume];
      }
    }

    /** The waiter always suspends. */
    method AwaitReady() returns (ready: bool)
      ensures !ready
    {
      ready := false;
    }
  }

  /** `when_all_awaitable_void`: the base part and nothing else. */
  class WhenAllVoid {
    const base: Base

    constructor (n: nat)
      ensures fresh(base) && base.State() == InitialBase(n)
    {
      base := new Base(n);
    }

    method Finished()
      modifies base
      ensures base.State() == VoidStep(old(base.State()), VoidFinished)
    {
      base.CheckResume();
    }

    method FinishedException(e: Exc)
      modifies base
      ensures base.State() == VoidStep(old(base.State()), VoidException(e))
    {
      base.FinishedException(e);
    }

    /** Stores the handle; starting the tasks, which then report through
        `Finished` and `FinishedException`, is outside this model. */
    method AwaitSuspend(h: Handle)
      modifies base
      ensures base.State() == StepSuspend(old(base.State()), h)
    {
      base.resume := h;
    }

    method AwaitResume() returns (r: Result<(), Exc>)
      ensures r.Failure? <==> base.exception.Some?
      ensures r.Failure? ==> r.error == base.exception.value
    {
      if base.exception.Some? {
        r := Failure(base.exception.value);
      } else {
        r := Success(());
      }
    }
  }

  /** `when_all_awaitable_value`: the base part and the results tuple. */
  class WhenAllValue<V> {
    const base: Base
    var results: seq<Option<V>>

    function State(): ValueState<V>
      reads this, base
    {
      ValueState(base.State(), results)
    }

    constructor (n: nat)
      ensures fresh(base) && State() == InitialValue(n)
    {
      base := new Base(n);
      results := seq(n, _ => None);
    }

    method Finished(index: nat, value: V)
      requires index < |results|
      modifies this, base
      ensures State() == ValueStep(old(State()), ValueFinished(index, value))
    {
      results := results[index := Some(value)];
      base.CheckResume();
    }

    method FinishedException(e: Exc)
      modifies base
      ensures State() == ValueStep(old(State()), ValueException(e))
    {
      base.FinishedException(e);
    }

    method AwaitSuspend(h: Handle)
      modifies base
      ensures State() == ValueSuspend(old(State()), h)
    {
      base.resume := h;
    }

    method AwaitResume() returns (r: Result<seq<Option<V>>, Exc>)
      ensures r.Failure? <==> base.exception.Some?
      ensures r.Failure? ==> r.error == base.exception.value
      ensures r.Success? ==> r.value == results
    {
      if base.exception.Some? {
        r := Failure(base.exception.value);
      } else {
        r := Success(results);
      }
    }
  }
}
