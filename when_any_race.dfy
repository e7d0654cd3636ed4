/** `when_any` reports under an arbitrary interleaving of their atomic
    operations.

    A report (`finished` or `finished_exception`) does two atomic operations
    on the handle: a load, and, when the load saw a non-null handle, an
    exchange with null. Reports of different tasks interleave freely between
    those operations. The writes after a successful exchange, and the call of
    the handle, are made only by the one report that got the handle, so they
    belong to that report's exchange step. A schedule lists, step by step,
    which task's report moves next. */
module WhenAnyRace {
  import opened Outcomes
  import opened WhenAny

  /** Where a task's report stands: not started, loaded a non-null handle,
      or returned. */
  datatype Phase = Running | Loaded | Done

  /** The shared block, each task's phase, and (for the proofs) which task's
      exchange got the handle. */
  datatype Race<R> = Race(block: BlockState<R>, phase: seq<Phase>, claimedBy: Option<nat>)

  /** The winner's writes and its call of the handle it got. */
  function Record<R>(s: BlockState<R>, c: Completion<R>, value: Handle): BlockState<R>
  {
    match c
    case Finished(r) => s.(payload := Some(r), resumptions := s.resumptions + [value])
    case FinishedException(e) => s.(exception := Some(e), resumptions := s.resumptions + [value])
  }

  /** One atomic step of task `p`'s report `outcomes[p]`. */
  function RaceStep<R>(st: Race<R>, outcomes: seq<Completion<R>>, p: nat): (r: Race<R>)
    requires |st.phase| == |outcomes| && p < |outcomes|
    ensures |r.phase| == |st.phase|
    ensures forall q :: 0 <= q < |st.phase| && q != p ==> r.phase[q] == st.phase[q]
  {
    match st.phase[p]
    case Running =>
      // resume.load(): a null handle ends the report
      st.(phase := st.phase[p := if st.block.resume != Null then Loaded else Done])
    case Loaded =>
      // resume.exchange(nullptr), then the winner's writes and call
      var value := st.block.resume;
      var b := st.block.(resume := Null);
      if value != Null then Race(Record(b, outcomes[p], value), st.phase[p := Done], Some(p))
      else st.(block := b, phase := st.phase[p := Done])
    case Done => st
  }

  predicate InRange(schedule: seq<nat>, n: nat)
  {
    forall k :: 0 <= k < |schedule| ==> schedule[k] < n
  }

  /** The race after the steps `schedule`, in that order. */
  function RaceRun<R>(st: Race<R>, outcomes: seq<Completion<R>>, schedule: seq<nat>): (r: Race<R>)
    requires |st.phase| == |outcomes| && InRange(schedule, |outcomes|)
    ensures |r.phase| == |st.phase|
    decreases |schedule|
  {
    if schedule == [] then st
    else RaceStep(RaceRun(st, outcomes, schedule[..|schedule| - 1]), outcomes, schedule[|schedule| - 1])
  }

  /** `await_suspend(h)` has stored the handle and started `n` tasks. */
  function Start<R>(n: nat, h: Handle): Race<R>
  {
    Race(BlockSuspend(InitialBlock<R>(), h), seq(n, _ => Running), None)
  }

  predicate NoneDone(phase: seq<Phase>)
  {
    forall p :: 0 <= p < |phase| ==> phase[p] != Done
  }

  predicate AllDone(phase: seq<Phase>)
  {
    forall p :: 0 <= p < |phase| ==> phase[p] == Done
  }

  /** The block holds exactly what the report `c` writes when it wins. */
  ghost predicate Written<R>(b: BlockState<R>, c: Completion<R>)
  {
    match c
    case Finished(r) => b.payload == Some(r) && b.exception.None?
    case FinishedException(e) => b.exception == Some(e) && b.payload.None?
  }

  /** Either no report has returned and the block is as `await_suspend` left
      it, or one task's exchange got the handle: the handle is null, the
      waiter was resumed once, and the block holds that task's outcome. */
  ghost predicate RaceInv<R>(st: Race<R>, outcomes: seq<Completion<R>>, h: Handle)
  {
    && |st.phase| == |outcomes|
    && (|| (st.block == BlockSuspend(InitialBlock<R>(), h) && st.claimedBy.None? && NoneDone(st.phase))
        || (&& st.block.resume == Null
            && st.block.resumptions == [h]
            && st.claimedBy.Some?
            && st.claimedBy.value < |outcomes|
            && st.phase[st.claimedBy.value] == Done
            && Written(st.block, outcomes[st.claimedBy.value])))
  }

  lemma RaceStepKeepsInv<R>(st: Race<R>, outcomes: seq<Completion<R>>, h: Handle, p: nat)
    requires h != Null && RaceInv(st, outcomes, h) && p < |outcomes|
    ensures RaceInv(RaceStep(st, outcomes, p), outcomes, h)
  {
    var st' := RaceStep(st, outcomes, p);
    if st.claimedBy.Some? {
      assert st'.claimedBy == st.claimedBy && st'.block == st.block;
      assert st'.phase[st.claimedBy.value] == Done;
    } else if st.phase[p] == Running {
      assert NoneDone(st'.phase) by {
        forall q | 0 <= q < |st'.phase|
          ensures st'.phase[q] != Done
        {
          if q != p {
            assert st'.phase[q] == st.phase[q];
          }
        }
      }
    }
  }

  /** Any schedule keeps the invariant: in particular the waiter is resumed
      at most once, and only with the handle `await_suspend` stored. */
  lemma {:induction false} RaceRunKeepsInv<R>(n: nat, h: Handle, outcomes: seq<Completion<R>>, schedule: seq<nat>)
    requires h != Null && |outcomes| == n && InRange(schedule, n)
    ensures RaceInv(RaceRun(Start(n, h), outcomes, schedule), outcomes, h)
  {
    if schedule == [] {
      assert NoneDone(Start<R>(n, h).phase);
    } else {
      var m := |schedule| - 1;
      RaceRunKeepsInv(n, h, outcomes, schedule[..m]);
      RaceStepKeepsInv(RaceRun(Start(n, h), outcomes, schedule[..m]), outcomes, h, schedule[m]);
    }
  }

  /** Once some exchange got the handle, no later step of any task changes
      the block or the winner: the losers' reports are no-ops. */
  lemma {:induction false} ClaimIsFinal<R>(n: nat, h: Handle, outcomes: seq<Completion<R>>, schedule: seq<nat>, i: nat, j: nat)
    requires h != Null && |outcomes| == n && InRange(schedule, n)
    requires i <= j <= |schedule|
    requires RaceRun(Start(n, h), outcomes, schedule[..i]).claimedBy.Some?
    ensures RaceRun(Start(n, h), outcomes, schedule[..j]).block == RaceRun(Start(n, h), outcomes, schedule[..i]).block
    ensures RaceRun(Start(n, h), outcomes, schedule[..j]).claimedBy == RaceRun(Start(n, h), outcomes, schedule[..i]).claimedBy
    decreases j
  {
    if j > i {
      ClaimIsFinal(n, h, outcomes, schedule, i, j - 1);
      RaceRunKeepsInv(n, h, outcomes, schedule[..j - 1]);
      assert schedule[..j][..j - 1] == schedule[..j - 1];
    }
  }

  /** Under every schedule in which all `n >= 1` reports have returned, the
      waiter was resumed exactly once, with the handle `await_suspend`
      stored, and `await_resume` yields the winning task's outcome. */
  lemma WhenAnyRaceResumesOnce<R>(n: nat, h: Handle, outcomes: seq<Completion<R>>, schedule: seq<nat>)
    requires n >= 1 && h != Null && |outcomes| == n && InRange(schedule, n)
    requires AllDone(RaceRun(Start(n, h), outcomes, schedule).phase)
    ensures var st := RaceRun(Start(n, h), outcomes, schedule);
      && st.block.resumptions == [h]
      && st.claimedBy.Some? && st.claimedBy.value < n
      && (st.block.exception.Some? || st.block.payload.Some?)
      && AnyAwaitResume(st.block) == Reported(outcomes[st.claimedBy.value])
  {
    var st := RaceRun(Start(n, h), outcomes, schedule);
    RaceRunKeepsInv(n, h, outcomes, schedule);
    assert st.phase[0] == Done;
  }

  /** The first report to return wins: if step `k` is the first after which
      some report has returned, the task that moved at step `k` got the
      handle, and the final block holds its outcome whatever happens after. */
  lemma FirstFinisherWins<R>(n: nat, h: Handle, outcomes: seq<Completion<R>>, schedule: seq<nat>, k: nat)
    requires h != Null && |outcomes| == n && InRange(schedule, n) && k < |schedule|
    requires NoneDone(RaceRun(Start(n, h), outcomes, schedule[..k]).phase)
    requires !NoneDone(RaceRun(Start(n, h), outcomes, schedule[..k + 1]).phase)
    ensures var st := RaceRun(Start(n, h), outcomes, schedule);
      && st.claimedBy == Some(schedule[k])
      && st.block.resumptions == [h]
      && (st.block.exception.Some? || st.block.payload.Some?)
      && AnyAwaitResume(st.block) == Reported(outcomes[schedule[k]])
  {
    var before := RaceRun(Start(n, h), outcomes, schedule[..k]);
    RaceRunKeepsInv(n, h, outcomes, schedule[..k]);
    assert schedule[..k + 1][..k] == schedule[..k];
    var after := RaceRun(Start(n, h), outcomes, schedule[..k + 1]);
    assert after == RaceStep(before, outcomes, schedule[k]);
    assert before.claimedBy.None?;
    var p := schedule[k];
    var q :| 0 <= q < |after.phase| && after.phase[q] == Done;
    assert q == p;
    ClaimIsFinal(n, h, outcomes, schedule, k + 1, |schedule|);
    assert schedule[..|schedule|] == schedule;
  }

  /** A report made without interference, its load immediately followed by
      its exchange, is exactly one step of the sequential model `AnyStep`
      that the block's methods perform. */
  lemma LoadThenExchangeIsOneReport<R>(st: Race<R>, outcomes: seq<Completion<R>>, p: nat)
    requires |st.phase| == |outcomes| && p < |outcomes| && st.phase[p] == Running
    ensures RaceStep(RaceStep(st, outcomes, p), outcomes, p).block == AnyStep(st.block, outcomes[p])
    ensures RaceStep(RaceStep(st, outcomes, p), outcomes, p).phase[p] == Done
  {
  }
}
