/** `when_all` reports under an arbitrary interleaving of their steps.

    The counter is a `std::atomic<int>`, so `check_resume`'s `fetch_sub` and
    the test of its result are one indivisible step, and the handle is called
    only by the report that took the counter from 1 to 0. The exception slot
    is a plain `std::exception_ptr`: `finished_exception` reads it
    (`if (!exception)`) and writes it as two separate steps, and two failing
    reports can interleave between them.

    `atomicStore` selects the slot's behaviour: `false` is the code as
    written (read, then write); `true` stores the exception into an empty
    slot in one indivisible step, which is what "only the first exception is
    kept" needs under concurrent failures. */
module WhenAllRace {
  import opened Outcomes
  import opened WhenAll

  /** Where a task's report stands: not started; (as written only) saw an
      empty slot and has not written it yet; done with the slot and about to
      `check_resume`; returned. */
  datatype Phase = Running | SawEmpty | Checked | Done

  datatype Race = Race(base: BaseState, phase: seq<Phase>)

  /** One step of task `p`, whose report is `reports[p]`. */
  function Step(st: Race, reports: seq<VoidEvent>, p: nat, atomicStore: bool): (r: Race)
    requires |st.phase| == |reports| && p < |reports|
    ensures |r.phase| == |st.phase|
  {
    match st.phase[p]
    case Running =>
      (match reports[p]
       case VoidFinished =>
         Race(StepCheckResume(st.base), st.phase[p := Done])
       case VoidException(e) =>
         if atomicStore then
           Race(if st.base.exception.None? then st.base.(exception := Some(e)) else st.base, st.phase[p := Checked])
         else
           // `if (!exception)`: a plain read of the slot
           st.(phase := st.phase[p := if st.base.exception.None? then SawEmpty else Checked]))
    case SawEmpty =>
      // `exception = std::current_exception()`: a plain write of the slot
      (match reports[p]
       case VoidException(e) => Race(st.base.(exception := Some(e)), st.phase[p := Checked])
       case VoidFinished => st)
    case Checked =>
      Race(StepCheckResume(st.base), st.phase[p := Done])
    case Done => st
  }

  predicate InRange(schedule: seq<nat>, n: nat)
  {
    forall k :: 0 <= k < |schedule| ==> schedule[k] < n
  }

  /** The race after the steps `schedule`, in that order. */
  function Run(st: Race, reports: seq<VoidEvent>, schedule: seq<nat>, atomicStore: bool): (r: Race)
    requires |st.phase| == |reports| && InRange(schedule, |reports|)
    ensures |r.phase| == |st.phase|
    decreases |schedule|
  {
    if schedule == [] then st
    else Step(Run(st, reports, schedule[..|schedule| - 1], atomicStore), reports, schedule[|schedule| - 1], atomicStore)
  }

  /** `await_suspend(h)` has stored the handle and started `n` tasks. */
  function Start(n: nat, h: Handle): Race
  {
    Race(StepSuspend(InitialBase(n), h), seq(n, _ => Running))
  }

  /** How many reports have returned. */
  function CountDone(phase: seq<Phase>): (c: nat)
    ensures c <= |phase|
  {
    if phase == [] then 0 else (if phase[0] == Done then 1 else 0) + CountDone(phase[1..])
  }

  lemma {:induction false} CountDoneUpdate(phase: seq<Phase>, p: nat, x: Phase)
    requires p < |phase|
    ensures CountDone(phase[p := x]) ==
      CountDone(phase) - (if phase[p] == Done then 1 else 0) + (if x == Done then 1 else 0)
  {
    if p > 0 {
      CountDoneUpdate(phase[1..], p - 1, x);
      assert phase[p := x][1..] == phase[1..][p - 1 := x];
    } else {
      assert phase[p := x][1..] == phase[1..];
    }
  }

  lemma {:induction false} CountDoneAll(phase: seq<Phase>)
    ensures CountDone(phase) == |phase| <==> forall p :: 0 <= p < |phase| ==> phase[p] == Done
  {
    if phase != [] {
      CountDoneAll(phase[1..]);
      assert forall p :: 1 <= p < |phase| ==> phase[p] == phase[1..][p - 1];
    }
  }

  /** The counter is `n` minus the reports that returned, the handle is
      still `h`, and it has been called once if all `n` returned, else never. */
  predicate CountInv(st: Race, n: nat, h: Handle)
  {
    && |st.phase| == n
    && st.base.counter == n - CountDone(st.phase)
    && st.base.resume == h
    && st.base.resumptions == if CountDone(st.phase) == n then [h] else []
  }

  lemma CountInvStep(st: Race, reports: seq<VoidEvent>, n: nat, h: Handle, p: nat, atomicStore: bool)
    requires n >= 1 && |reports| == n && p < n && CountInv(st, n, h)
    ensures CountInv(Step(st, reports, p, atomicStore), n, h)
  {
    var st' := Step(st, reports, p, atomicStore);
    CountDoneUpdate(st.phase, p, st'.phase[p]);
    assert st'.phase == st.phase[p := st'.phase[p]];
  }

  /** Every schedule, in either form of the slot: each report decrements the
      counter once, and the waiter is resumed exactly once, when the last of
      the `n` reports returns, and never before. */
  lemma {:induction false} ResumesOnceUnderAnySchedule(n: nat, h: Handle, reports: seq<VoidEvent>, schedule: seq<nat>, atomicStore: bool)
    requires n >= 1 && |reports| == n && InRange(schedule, n)
    ensures var st := Run(Start(n, h), reports, schedule, atomicStore);
      && st.base.counter >= 0
      && st.base.resumptions == if forall p :: 0 <= p < n ==> st.phase[p] == Done then [h] else []
  {
    ResumesOnceInv(n, h, reports, schedule, atomicStore);
    CountDoneAll(Run(Start(n, h), reports, schedule, atomicStore).phase);
  }

  lemma {:induction false} ResumesOnceInv(n: nat, h: Handle, reports: seq<VoidEvent>, schedule: seq<nat>, atomicStore: bool)
    requires n >= 1 && |reports| == n && InRange(schedule, n)
    ensures CountInv(Run(Start(n, h), reports, schedule, atomicStore), n, h)
  {
    if schedule == [] {
      assert CountDone(Start(n, h).phase) == 0 by {
        CountDoneNone(Start(n, h).phase);
      }
    } else {
      var m := |schedule| - 1;
      ResumesOnceInv(n, h, reports, schedule[..m], atomicStore);
      CountInvStep(Run(Start(n, h), reports, schedule[..m], atomicStore), reports, n, h, schedule[m], atomicStore);
    }
  }

  lemma {:induction false} CountDoneNone(phase: seq<Phase>)
    requires forall p :: 0 <= p < |phase| ==> phase[p] == Running
    ensures CountDone(phase) == 0
  {
    if phase != [] {
      CountDoneNone(phase[1..]);
    }
  }

  /** As written, a stored exception can be replaced: two failing tasks both
      read the empty slot, the first writes its exception, and the second
      then overwrites it, so the waiter rethrows the second exception although
      the first had already been kept. */
  lemma ExceptionOverwritten()
    ensures var reports := [VoidException(Exc(0)), VoidException(Exc(1))];
      && Run(Start(2, Coroutine(0)), reports, [0, 1, 0], false).base.exception == Some(Exc(0))
      && Run(Start(2, Coroutine(0)), reports, [0, 1, 0, 1, 0, 1], false).base.exception == Some(Exc(1))
      && Run(Start(2, Coroutine(0)), reports, [0, 1, 0, 1, 0, 1], false).base.resumptions == [Coroutine(0)]
  {
    var reports := [VoidException(Exc(0)), VoidException(Exc(1))];
    var st0 := Start(2, Coroutine(0));
    assert st0.phase == [Running, Running];
    // task 0 reads the empty slot
    var st1 := Step(st0, reports, 0, false);
    assert [0][..0] == [];
    assert Run(st0, reports, [0], false) == st1;
    assert st1.base.exception.None? && st1.phase == [SawEmpty, Running];
    // task 1 reads the empty slot too
    var st2 := Step(st1, reports, 1, false);
    assert [0, 1][..1] == [0];
    assert st2.base.exception.None? && st2.phase == [SawEmpty, SawEmpty];
    // task 0 writes its exception
    var st3 := Step(st2, reports, 0, false);
    assert [0, 1, 0][..2] == [0, 1];
    assert st3.base.exception == Some(Exc(0)) && st3.phase == [Checked, SawEmpty];
    // task 1 overwrites it
    var st4 := Step(st3, reports, 1, false);
    assert [0, 1, 0, 1][..3] == [0, 1, 0];
    assert st4.base.exception == Some(Exc(1)) && st4.phase == [Checked, Checked];
    // both decrement; the second resumes the waiter
    var st5 := Step(st4, reports, 0, false);
    assert [0, 1, 0, 1, 0][..4] == [0, 1, 0, 1];
    assert st5.base.counter == 1 && st5.base.resumptions == [];
    assert [0, 1, 0, 1, 0, 1][..5] == [0, 1, 0, 1, 0];
  }

  /** With an indivisible store-if-empty, an exception once stored stays the
      stored exception under every later step of every task. */
  lemma {:induction false} StoredExceptionIsKept(n: nat, h: Handle, reports: seq<VoidEvent>, schedule: seq<nat>, i: nat, j: nat)
    requires |reports| == n && InRange(schedule, n) && i <= j <= |schedule|
    requires Run(Start(n, h), reports, schedule[..i], true).base.exception.Some?
    ensures Run(Start(n, h), reports, schedule[..j], true).base.exception
         == Run(Start(n, h), reports, schedule[..i], true).base.exception
    decreases j
  {
    if j > i {
      StoredExceptionIsKept(n, h, reports, schedule, i, j - 1);
      assert schedule[..j][..j - 1] == schedule[..j - 1];
      NeverHalfStored(n, h, reports, schedule[..j - 1]);
    }
  }

  /** With the indivisible store no report is ever between its read and its
      write of the slot. */
  lemma {:induction false} NeverHalfStored(n: nat, h: Handle, reports: seq<VoidEvent>, schedule: seq<nat>)
    requires |reports| == n && InRange(schedule, n)
    ensures forall p :: 0 <= p < n ==> Run(Start(n, h), reports, schedule, true).phase[p] != SawEmpty
  {
    if schedule != [] {
      var m := |schedule| - 1;
      NeverHalfStored(n, h, reports, schedule[..m]);
      var before := Run(Start(n, h), reports, schedule[..m], true);
      var after := Run(Start(n, h), reports, schedule, true);
      forall p | 0 <= p < n
        ensures after.phase[p] != SawEmpty
      {
        if p != schedule[m] {
          assert after.phase[p] == before.phase[p];
        }
      }
    }
  }

  /** With the indivisible store, a report run without interference is
      exactly the report the sequential `WhenAll` model performs. */
  lemma UninterruptedReportIsOneStep(st: Race, reports: seq<VoidEvent>, p: nat)
    requires |st.phase| == |reports| && p < |reports| && st.phase[p] == Running
    ensures var once := Step(st, reports, p, true);
      var whole := if reports[p].VoidFinished? then once else Step(once, reports, p, true);
      whole.base == VoidStep(st.base, reports[p]) && whole.phase[p] == Done
  {
  }
}
