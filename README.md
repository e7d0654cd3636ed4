# cppwinrt_ex fan-in combinators in Dafny

This project models the completion bookkeeping of the two fan-in combinators of
`cppwinrt_ex`, `when_all` and `when_any`. It also models the compile-time result-type
traits that choose each combinator's variant and reject bad argument lists.

- **`when_all`** (`when_all_awaitable_base`, `_void`, `_value`). A counter starts at the
  number of awaitables N. Each helper coroutine reports its task once:
  `finished()`, `finished<Index>(v)` or `finished_exception()`. Every report
  decrements the counter through `check_resume`. The report that takes the counter
  from 1 to 0 resumes the waiter. Only the first exception is kept.
  `await_resume` rethrows that exception, or returns the results tuple
  (value variant) or nothing (void variant).
- **`when_any`** (`when_any_block_base`, `_void`, `_value<T>`, and the two
  `when_any_awaitable` structs). `await_suspend` stores the waiter's handle before
  starting any task. Every report loads the handle and, if it is non-null,
  exchanges it with null. Only the report that gets the handle back writes
  the index, result or exception, and resumes the waiter. Every later report
  is a no-op.
- **Result-type traits**. An action maps to `void_type` and an operation of `T`
  to `result_type<T>`. The variant comes from the first awaitable only.
  `when_any` requires equal result types. Both combinators reject an empty pack.

Layout:

| file | module | contents |
|---|---|---|
| `outcomes.dfy` | `Outcomes` | `Option`, `Result`, opaque exceptions `Exc`, coroutine handles `Handle`, task outcomes |
| `result_types.dfy` | `ResultTypes` | the traits as functions; which packs compile and which variant they select |
| `schedules.dfy` | `Schedules` | completion orders (each task exactly once) and the pigeonhole lemma behind them |
| `when_all.dfy` | `WhenAll` | step and run functions of the when_all state, the classes `Base`, `WhenAllVoid`, `WhenAllValue<V>`, and the any-order lemmas |
| `when_all_race.dfy` | `WhenAllRace` | when_all reports split into their individual steps under arbitrary interleavings |
| `when_any.dfy` | `WhenAny` | step and run functions of the when_any block, the classes `WhenAnyBlock<R>` and `WhenAnyAwaitable<R>`, and the first-wins lemmas |
| `when_any_race.dfy` | `WhenAnyRace` | when_any reports split into load and exchange under arbitrary interleavings |

How the model is built:

- The classes change their fields in place, as the C++ structs do.
- Each method is proved to perform one step of a pure step function:
  `State() == Step(old(State()), report)`.
- A sequence of reports is a fold of those steps. The lemmas quantify over every
  sequence and every completion order.
- Calling a coroutine handle is not executed. Each call is appended to a
  `resumptions` field, so "resumed exactly once" reads `resumptions == [h]`.
- C++ inheritance (`when_all_awaitable_void : when_all_awaitable_base`) becomes
  composition through a `const base: Base` field.
- `when_any_block_void::index` and `when_any_block_value<T>::result` become one
  payload slot of `WhenAnyBlock<R>`. `R` is `size_t` in one case and `T` in the
  other.
- The two local `when_any_awaitable` structs differ only in that type, so they
  become one class `WhenAnyAwaitable<R>`.
- A slot that still holds its default-constructed or indeterminate value is
  `None`.
- The `*Race` modules split each report into the atomic operations and plain
  reads and writes it is made of, and let tasks interleave between them.

Where the code differs from the usual description of these combinators, the model
follows the code:

- `when_any` over operations returns only the winner's value, not a pair of value
  and index. Only the void variant returns the index (`core.h:333-339`, `391-397`).
- `when_all` has no placeholder slot for a task without a payload. A first action
  selects the void variant, which discards every payload. A first operation selects
  the value variant, whose results tuple needs `result_type<T>::type` for every
  awaitable, so a later action does not compile (`core.h:172-181`, `221-226`).
- The counter decrement is `memory_order_relaxed`, not a release/acquire boundary
  (`core.h:122`). See "Left out".

## Model

| member | source | states |
|---|---|---|
| `ResultTypes.GetResultTypeInjective` | include/cppwinrt_ex/core.h:22-31 | an action maps to `void_type`, an operation of `T` to `result_type<T>`, and the result type identifies the awaitable |
| `ResultTypes.AreAllSamePairwise` | include/cppwinrt_ex/core.h:403-412 | the conjunction of `is_same<first, T>` holds exactly when all result types are pairwise equal |
| `ResultTypes.WhenAll` | include/cppwinrt_ex/core.h:162-226 | an empty pack is rejected; the variant is void exactly when the first awaitable is an action; the value variant's tuple has one slot per awaitable, typed by that awaitable's result; it compiles exactly when the first is an action or all are operations |
| `ResultTypes.WhenAny` | include/cppwinrt_ex/core.h:403-421 | accepted exactly when the pack is non-empty and all result types are equal; the variant picked from the first awaitable then yields every awaitable's result type |
| `WhenAll.VoidRunCountsDown` | include/cppwinrt_ex/core.h:113-124 | every report, success or failure, lowers the counter by exactly one and leaves the handle unchanged |
| `WhenAll.VoidRunResumesOnce` | include/cppwinrt_ex/core.h:120-124 | from a counter `c >= 1`, the handle is called exactly once, by report number `c`, and never before or after |
| `WhenAll.VoidRunKeepsFirstException` | include/cppwinrt_ex/core.h:113-118 | the stored exception is the first failing report's; the slot stays empty exactly when no report failed |
| `WhenAll.WhenAllVoidCompletes` | include/cppwinrt_ex/core.h:143-159 | for any N reports: no resumption after the first N-1, exactly one after the last, counter 0, and `await_resume` succeeds exactly when nothing failed, else rethrows the first failure |
| `WhenAll.ValueRun` | include/cppwinrt_ex/core.h:181-197 | the results tuple keeps its arity under any sequence of reports |
| `WhenAll.ValueRunBase` | include/cppwinrt_ex/core.h:192-197 | the counter, exception and handle of the value variant evolve exactly as in the void variant |
| `WhenAll.ValueRunResults` | include/cppwinrt_ex/core.h:192-197 | `finished<index>` writes only slot `index`: after reports of distinct tasks, a returning task's slot holds its value and every other slot is unchanged |
| `WhenAll.WhenAllValueResumesOnLast` | include/cppwinrt_ex/core.h:192-204 | under any completion order of the N tasks, the waiter is not resumed by the first N-1 reports and is resumed exactly once by the last |
| `WhenAll.WhenAllValueReturnsAll` | include/cppwinrt_ex/core.h:192-212 | under any completion order, `await_resume` returns the tuple exactly when every task returned, with each task's own value in that task's slot |
| `WhenAll.WhenAllValueFirstFailure` | include/cppwinrt_ex/core.h:206-212 | under any completion order, if a task failed, `await_resume` rethrows the exception of the first task to fail and never returns a partial tuple |
| `WhenAll.Base.constructor` | include/cppwinrt_ex/core.h:101-104 | the counter starts at the number of awaitables; no exception, null handle, no resumption |
| `WhenAll.Base.FinishedException` | include/cppwinrt_ex/core.h:113-118 | stores the exception only into an empty slot, then runs `check_resume` |
| `WhenAll.Base.CheckResume` | include/cppwinrt_ex/core.h:120-124 | decrements the counter by one and calls the handle exactly when the value before the decrement was 1 |
| `WhenAll.Base.AwaitReady` | include/cppwinrt_ex/core.h:126-129 | always false: the waiter always suspends |
| `WhenAll.WhenAllVoid.constructor` | include/cppwinrt_ex/core.h:135-137 | a fresh base with the counter at N |
| `WhenAll.WhenAllVoid.Finished` | include/cppwinrt_ex/core.h:143-146 | one `check_resume` and nothing else |
| `WhenAll.WhenAllVoid.FinishedException` | include/cppwinrt_ex/core.h:113-118 | the base's first-exception-wins report |
| `WhenAll.WhenAllVoid.AwaitSuspend` | include/cppwinrt_ex/core.h:148-153 | stores the handle and changes nothing else |
| `WhenAll.WhenAllVoid.AwaitResume` | include/cppwinrt_ex/core.h:155-159 | rethrows exactly when an exception is stored, and then that exception |
| `WhenAll.WhenAllValue.constructor` | include/cppwinrt_ex/core.h:184-186 | a fresh base with the counter at N and N default slots |
| `WhenAll.WhenAllValue.Finished` | include/cppwinrt_ex/core.h:192-197 | writes slot `index` only, then runs `check_resume` |
| `WhenAll.WhenAllValue.FinishedException` | include/cppwinrt_ex/core.h:113-118 | the base's report; the tuple is untouched |
| `WhenAll.WhenAllValue.AwaitSuspend` | include/cppwinrt_ex/core.h:199-204 | stores the handle and changes nothing else |
| `WhenAll.WhenAllValue.AwaitResume` | include/cppwinrt_ex/core.h:206-212 | rethrows the stored exception if there is one, otherwise returns the tuple |
| `WhenAllRace.ResumesOnceUnderAnySchedule` | include/cppwinrt_ex/core.h:120-124 | with reports interleaved arbitrarily, the atomic decrement calls the handle exactly once, when the last of the N reports returns, and never before; the counter never goes below 0 |
| `WhenAllRace.ExceptionOverwritten` | include/cppwinrt_ex/core.h:113-118 | as written, two failing tasks that both read the empty slot end with the second exception replacing the first one already stored |
| `WhenAllRace.StoredExceptionIsKept` | include/cppwinrt_ex/core.h:113-118 | with an indivisible store-if-empty, a stored exception never changes under any later step of any task |
| `WhenAllRace.UninterruptedReportIsOneStep` | include/cppwinrt_ex/core.h:113-124 | a report whose steps run back to back is exactly one report of the sequential `WhenAll` model |
| `WhenAny.LaterCompletionsAreNoOps` | include/cppwinrt_ex/core.h:236-285 | once the handle is null, any sequence of `finished`/`finished_exception` leaves index or result, exception, handle and resumptions unchanged |
| `WhenAny.FirstCompletionWins` | include/cppwinrt_ex/core.h:236-266 | after `await_suspend(h)`, the first report, success or failure, alone decides the state: the handle is null, `h` was called exactly once, and `await_resume` yields that report's outcome |
| `WhenAny.WhenAnyVoidYieldsFirstIndex` | include/cppwinrt_ex/core.h:288-339 | over actions, in any completion order, the waiter is resumed once and receives the index of the first task to complete, or its exception |
| `WhenAny.WhenAnyValueYieldsFirstResult` | include/cppwinrt_ex/core.h:346-397 | over operations, in any completion order, the waiter is resumed once and receives the value of the first task to complete, or its exception |
| `WhenAny.WhenAnyBlock.constructor` | include/cppwinrt_ex/core.h:231-234 | null handle, empty exception and payload slots, no resumption |
| `WhenAny.WhenAnyBlock.Finished` | include/cppwinrt_ex/core.h:255-285 | load, then exchange with null; only a caller that gets a non-null handle writes the payload and calls the handle; the block stays coherent |
| `WhenAny.WhenAnyBlock.FinishedException` | include/cppwinrt_ex/core.h:236-247 | the same claim, writing the exception instead of the payload |
| `WhenAny.WhenAnyAwaitable.constructor` | include/cppwinrt_ex/core.h:316-319 | a fresh shared block in its initial state |
| `WhenAny.WhenAnyAwaitable.AwaitReady` | include/cppwinrt_ex/core.h:321-324 | always false: the waiter always suspends |
| `WhenAny.WhenAnyAwaitable.AwaitSuspend` | include/cppwinrt_ex/core.h:326-331 | stores the non-null handle into the untouched block before any task starts, and changes nothing else |
| `WhenAny.WhenAnyAwaitable.AwaitResume` | include/cppwinrt_ex/core.h:333-339 | after the resumption, rethrows the winner's exception, otherwise returns the winner's index or result |
| `WhenAnyRace.RaceStepKeepsInv` | include/cppwinrt_ex/core.h:236-285 | one load or exchange step of any task keeps the block either untouched or claimed once, with the claimer's outcome |
| `WhenAnyRace.RaceRunKeepsInv` | include/cppwinrt_ex/core.h:236-285 | under every interleaving the handle is called at most once, and only with the stored handle |
| `WhenAnyRace.ClaimIsFinal` | include/cppwinrt_ex/core.h:255-266 | once an exchange has taken the handle, no later load or exchange of any task changes the block or the winner |
| `WhenAnyRace.WhenAnyRaceResumesOnce` | include/cppwinrt_ex/core.h:236-285 | once every report has returned, the waiter was resumed exactly once, and `await_resume` yields the winning task's outcome |
| `WhenAnyRace.FirstFinisherWins` | include/cppwinrt_ex/core.h:236-285 | the task whose report returns first is the one whose exchange took the handle, and the final block holds its outcome whatever follows |
| `WhenAnyRace.LoadThenExchangeIsOneReport` | include/cppwinrt_ex/core.h:255-266 | a load followed immediately by the same task's exchange is exactly one step of the sequential block model |

## Findings

| source | as written | input that shows it | evidently intended | confidence | as-written member | corrected member |
|---|---|---|---|---|---|---|
| include/cppwinrt_ex/core.h:113-118 | `finished_exception` reads the plain `std::exception_ptr` slot (`if (!exception)`) and then assigns it, as two separate steps | two tasks fail concurrently: both read the empty slot, task 0 stores its exception, then task 1 overwrites it (steps 0,1,0,1,0,1), and the waiter rethrows task 1's exception | only the first exception is kept: store-if-empty as one indivisible step | medium, not executed | `WhenAllRace.ExceptionOverwritten` | `WhenAllRace.StoredExceptionIsKept` |

The sequential `WhenAll` model, and the classes, use the corrected one-step
store. `WhenAllRace.UninterruptedReportIsOneStep` connects the corrected
interleaving model to them. The concurrent read and write in the code are also
a data race on a non-atomic object.

## Left out

- The coroutine machinery is not modelled: the `fire_and_forget` helper
  coroutines, `coroutine_handle` invocation, and the index-sequence fan-out in
  `when_all_helper*` and `when_any_helper*` (`core.h:53-90`, `288-306`,
  `346-363`). Starting a task is outside the model. Its report is an input
  event, and calling a handle is recorded in `resumptions`.
- Memory ordering is not modelled. Each atomic operation (`fetch_sub`, `load`,
  `exchange`, `store`) is one sequentially consistent step. With
  `memory_order_relaxed` the code does not order the other tasks' result writes
  before the resumed waiter's reads. The model does not capture that.
- `std::exception_ptr`, `std::current_exception` and `std::rethrow_exception`
  are not modelled as C++ mechanisms. Exceptions are opaque `Exc` values, and a
  rethrow is a `Failure` result.
- The WinRT glue is not modelled: `await_adapter`, `async_action`,
  `async_operation` and the `coroutine_traits` specialisations
  (`core.h:423-499`). They are thin wrappers over a foreign ABI.
- The move constructors (`core.h:106-111`, `139-141`, `188-190`) are not
  modelled. They copy fields before first use, and line 189 names a base class
  that does not exist.
- The tuple of awaitables each combinator stores is not modelled, and neither
  is object lifetime (the `shared_ptr` that keeps the when_any block alive for
  losing tasks, or the references the when_all helpers hold). Only each task's
  outcome is an input.
- `WhenAll.WhenAllValue.constructor`: the heterogeneous results tuple is a
  sequence of one payload type `V`. The per-slot C++ types are kept only in
  `ResultTypes.WhenAll`.
- `WhenAll.Base.constructor`: the counter is an unbounded integer, not a 32-bit
  `int`. N is a compile-time pack size far below the range, so no wrap-around
  can occur.
- `WhenAny.WhenAnyAwaitable.AwaitResume`: the value is returned, not moved out
  of the block (`std::move`); the block keeps it.
- `sample/main.cpp` is not modelled. It is a driver built on timers, `Sleep`,
  Win32 events and macro-based ABI registration, with no logic of its own.
- The future, cancellable timer, timeout overlay and timed I/O wrappers are not
  part of this model. Their source is not among the files modelled here.
