# Hand-lowered coroutines: a Dafny model

This project models the runtime of *generator-rewrite-examples*. That C++17
library lowers C++20 coroutines by hand into explicit state machines.

- A coroutine becomes a frame object.
  - Its locals live in storage cells (`coro_storage`).
  - It remembers its suspension point (`suspendIdx_`), its active try block (`currentTryBlock_`) and whether it is done.
- A step function (`doStepImpl`) jumps to the label of the suspension point and runs to the next one.
- A per-index cleanup table (`destroySuspendedCoro`) destroys exactly the locals that are alive at each suspension point.
- Frames live either on the heap (`stackless_coro_crtp`, reached through a `stackless_coroutine_handle`) or by value (`stackful_coro_crtp`, held by an `InlineHandle`).
- Heap frames hand control to one another by symmetric transfer. The handle's `resume()` is a trampoline that keeps resuming the handles the steps return.

The model has one Dafny module per component.

- **Wrappers**: `Option`, and `Outcome`, which is `Ok` or `Fault(Defect)`.
  - A `Defect` is a protocol violation that the C++ leaves undefined or asserts against: double construct, double destroy, resume after done, use after free, a failed `assert(!h)`.
  - C++ exceptions are ordinary data (`Exception`).
- **Storage**: `coro_storage` cells (owning and referencing), and their view as a set of engaged locals.
- **Handles, Trampoline**: `HandleFrame`, done-ness, `from_promise`/`promise()`, the no-op coroutine, and the symmetric-transfer loop.
  - The loop is generic over the world the frames live in and over each frame's resume function.
- **Awaiters**: `CO_AWAIT_IMPL_IMPL`'s decision for `void`, `bool` and handle-returning `await_suspend`; `SuspendAlways` and `SuspendNever`.
- **Frames**: the frame record and the macros: `CO_INIT(_EX)`, `DESTROY_*`, `TRY_*`, `CO_YIELD`/`CO_AWAIT`, `CO_RETURN_*`. Also:
  - `destroy()` and the unhandled-exception path of both bases;
  - the re-step after a caught exception;
  - the ramps.
- **Generators, Tasks, Maybe**: the promises, awaiters, iterators and result holders of the three client kinds.
- **Ownership**: the move-only owners of frames (`task`, both generators, `InlineHandle`). Whatever sequence of moves a program performs, every created frame is destroyed exactly once.
- **Iota, ParseInts, TaskExample, MaybeExample**: the concrete lowered bodies. Each body is proved to deliver what its un-lowered C++20 original, or its hand-written twin, computes:
  - iota: the sequence `start … end-1`;
  - `throwing_parse_ints`: the parsed values, with `continue`/`break`/rethrow semantics;
  - `add_values`: a closed form modulo 2^64, over a whole trampoline run;
  - `chained_calculation` and `with_exceptions`: agreement with their `_no_coro` versions.

  Each body is also proved to destroy cleanly from every state a consumer can observe.

## Model

| member | source | states |
|---|---|---|
| Storage.Construct | src/util/coro_storage.h:59-64 | constructing an owning cell succeeds exactly when it is empty, and afterwards `get()` yields the constructed object whatever the rest of memory holds |
| Storage.ConstructRef | src/util/coro_storage.h:65-67 | a referencing cell stores only the address it was given, and `get()` reads whatever object is at that address |
| Storage.Destroy | src/util/coro_storage.h:40-42 | destroying succeeds exactly when the cell is engaged; it empties the cell and tears down exactly what was stored, which for a referencing cell is the pointer and never the referent |
| Storage.ReuseAfterDestroy | src/util/coro_storage.h:40-42 | construct then destroy hands back the object and leaves an empty cell that can be constructed again (how one awaiter cell serves every `co_yield`) |
| Storage.ReferenceSeesReferent | src/util/coro_storage.h:28-35 | lifetime extension: a read through a referencing cell sees the referent's value at the time of the read, and destroying the cell yields only the pointer |
| Storage.Engage | src/util/macros.h:134 | engaging a local fails iff it is already engaged, otherwise adds exactly that local |
| Storage.Release | src/util/macros.h:57-59 | releasing a local fails iff it is not engaged, otherwise removes exactly that local |
| Storage.EngageReleaseMirrorCells | src/util/coro_storage.h:40-69 | the set view fails exactly when the cell operation fails, and after either operation the set still tracks which cells are engaged |
| Storage.ReleaseAll | src/util/coroutine_frame.h:134-135 | running a list of destroys succeeds iff the list has no repeats and names only engaged locals, and then removes exactly the listed ones |
| Storage.CleanupEmptiesIff | src/util/coroutine_frame.h:131-143 | a cleanup list empties the frame without a double destroy iff it names every engaged local exactly once |
| Handles.NewHandleFrame | src/util/coroutine_frame.h:146-150 | a newly constructed heap frame is not done |
| Handles.NoopFrame | src/util/coroutine_handle.h:90-99 | the no-op coroutine is never done and its destroy function does nothing |
| Handles.SetDone | src/util/coroutine_frame.h:56-58 | `setDone()` makes the frame done and keeps its destroy function; on a frame that is already done it changes nothing |
| Handles.DoneIsSticky | src/util/coroutine_frame.h:56-58 | once `setDone()` ran the handle reports done, a second `setDone()` changes nothing, and the no-op handle is never done |
| Handles.PromiseOffset | src/util/coroutine_handle.h:54-55 | the promise offset is a multiple of the promise's alignment, at least the header size and less than header size plus alignment |
| Handles.FromPromise | src/util/coroutine_handle.h:57-61 | `from_promise(p)` is a frame pointer whose header lies entirely before `p` |
| Handles.PromiseAddr | src/util/coroutine_handle.h:63-70 | `promise()` lies after the frame's header |
| Handles.PromiseRoundTrip | src/util/coroutine_handle.h:54-70 | `from_promise(p).promise() == p`, and a frame's handle is recovered from its promise's address |
| Awaiters.AwaitImpl | src/util/macros.h:7-50 | with the `bool` rule the macro's comment states: a step falls through iff the awaiter is ready or `await_suspend` returned `false`; otherwise it hands the trampoline the returned handle, or a null handle for `void`/`true` |
| Awaiters.RampAwait | src/util/macros.h:7-50 | with the same rule: in a ramp the body runs first iff the awaiter does not suspend, and a transfer happens iff a suspending `await_suspend` returned a handle |
| Awaiters.AwaitImplAsWritten | src/util/macros.h:26-32 | the macro's `bool` branch as written: a step falls through iff the awaiter is ready or `await_suspend` returned `true`, and parks with a null handle when it returned `false` |
| Awaiters.RampAwaitAsWritten | src/util/macros.h:26-32 | the ramp form as written: the body runs first iff the awaiter is ready or a `bool` `await_suspend` returned `true` |
| Awaiters.AsWrittenNegatesBool | src/util/macros.h:7-32 | the macro as written decides for every awaiter as the stated rule does for that awaiter with its `bool` result negated; the two agree exactly on ready awaiters and on `void` and handle results, which every awaiter of the library returns |
| Awaiters.RampAgreesWithStep | src/util/macros.h:11-17 | the ramp form and the step form of the macro decide alike: same fall-through, and the ramp resumes exactly the handle the step would return |
| Awaiters.SuspendAlways | src/util/suspend.h:7-14 | never ready and suspends without a transfer |
| Awaiters.SuspendNever | src/util/suspend.h:16-23 | always ready, so it never suspends |
| Awaiters.StandardAwaiters | src/util/suspend.h:7-23 | awaiting `SuspendAlways` parks with a null handle (a ramp returns at once); awaiting `SuspendNever` falls through (a ramp runs the body) |
| Trampoline.ResumeOnce | src/util/coroutine_handle.h:90 | resuming the no-op coroutine changes nothing and returns a null handle |
| Trampoline.Chain | src/util/coroutine_handle.h:81-86 | a finished run made at least one and at most `budget` resume calls |
| Trampoline.Resume | src/util/coroutine_handle.h:81-86 | the iterative trampoline loop computes exactly the recursive reference chain of transfers |
| Trampoline.NoopStopsAtOnce | src/util/coroutine_handle.h:90-99 | resuming the no-op handle stops the trampoline after one call that changes nothing |
| Trampoline.ChainBudgetMonotone | src/util/coroutine_handle.h:81-86 | a run that finishes within a budget finishes identically under any larger budget, so the budget is only a bound |
| Frames.NewFrame | src/util/coroutine_frame.h:37-43 | a new frame is at index 0, in no try block, not done, with no engaged cell and its flags at their initial values |
| Frames.Init | src/util/macros.h:134 | `CO_INIT` fails iff the cell is engaged; otherwise it engages exactly that cell and changes neither the control state nor the flags |
| Frames.Drop | src/util/macros.h:57-59 | destroying fails iff the cell is empty; otherwise it releases exactly that cell and nothing else changes |
| Frames.InitEx | src/util/macros.h:137 | `CO_INIT_EX` also sets exactly that cell's constructed-flag |
| Frames.DestroyUnconditionally | src/util/macros.h:113-116 | destroys the cell and clears exactly its flag; fails iff the cell is empty |
| Frames.DestroyIfConstructed | src/util/macros.h:117-121 | the flag is clear afterwards and nothing but that cell and flag changes; it fails only by destroying an empty cell whose flag was set, so while every set flag belongs to an engaged cell it always succeeds and keeps that so |
| Frames.FlagOpsKeepSoundness | src/util/macros.h:113-137 | while every set flag belongs to an engaged cell, `DESTROY_IF_CONSTRUCTED` never fails, and every flag macro keeps that soundness |
| Frames.TryBegin | src/util/macros.h:123-125 | enters the given try block and changes nothing else |
| Frames.TryEnd | src/util/macros.h:126-128 | returns to the parent try block and changes nothing else |
| Frames.TryBlocksNest | src/util/macros.h:123-128 | `TRY_END` with the enclosing try block undoes `TRY_BEGIN` exactly, and `TRY_BEGIN` overrides whichever try block was current |
| Frames.AwaitAt | src/util/macros.h:71-76 | the awaiter cell is engaged and the index recorded before awaiting; the step falls through iff the awaiter does not suspend under the stated `bool` rule; fails iff the cell was engaged |
| Frames.AwaitThenResumeRestores | src/util/macros.h:57-59 | awaiting then resuming gives the engaged cells back exactly as before, with the index recorded |
| Frames.YieldPark | src/util/macros.h:63-68 | a generator's `co_yield` always parks with a null handle at its index |
| Frames.AwaitTransfer | src/util/macros.h:33-46 | awaiting a non-ready awaiter whose `await_suspend` returns a handle parks and hands that handle to the trampoline |
| Frames.RunCleanup | src/util/coroutine_frame.h:135 | a cleanup entry succeeds iff it names distinct engaged cells, and then releases exactly those |
| Frames.DestroyFrame | src/util/coroutine_frame.h:131-143 | a frame that is not done runs its cleanup entry for the current index; a done frame destroys only its final awaiter, which must be engaged; the control state is unchanged |
| Frames.DestroyEmpties | src/util/coroutine_frame.h:131-143 | when the cleanup entry lists every engaged cell once (or a done frame holds only its final awaiter), `destroy()` succeeds and leaves nothing engaged |
| Frames.CoReturn | src/util/macros.h:81-94 | `co_return` cleans up its entry, sets done, keeps the index, and then either parks at the final awaiter with that awaiter's handle or, iff the awaiter does not suspend under the stated `bool` rule, has already destroyed the frame |
| Frames.CoReturnAsWritten | src/util/macros.h:81-86 | with the await macro as written, `co_return` acts as `CoReturn` does for the final awaiter with its `bool` result negated, destroying the frame iff the awaiter is ready or `await_suspend` returned `true` |
| Frames.UnhandledException | src/util/coroutine_frame.h:86-114 | sets done and captures the exception before building the final awaiter from the updated promise; the frame is reported destroyed iff that awaiter does not suspend, and otherwise is kept with the awaiter's handle |
| Frames.UnhandledMatchesReturn | src/util/coroutine_frame.h:86-114 | under the stated `bool` rule, the unhandled-exception path leaves the same frame, destroys in the same cases and returns the same handle as a `co_return` with nothing to clean up |
| Frames.ReturnAsWrittenDisagreesWithUnhandled | src/util/coroutine_frame.h:97-101 | with the await macro as written, a final awaiter whose `bool` `await_suspend` returns `true` makes `co_return` destroy the frame that the unhandled-exception path keeps, and `false` the other way round |
| Frames.HeapAfterDispatch | src/util/coroutine_frame.h:162-179 | after a caught exception the heap frame steps again iff it was not destroyed, is not done, and the handler returned a null handle; a non-null handle there is the failed `assert(!handle)` |
| Frames.InlineStepIsOneHeapResume | src/util/inline_coroutine_frame.h:56-68 | an inline step is accepted exactly when the same step, resumed through a heap handle, would end the trampoline after that one call: the inline base admits no symmetric transfer |
| Frames.InlineAfterDispatch | src/util/inline_coroutine_frame.h:109-114 | the dispatcher's result becomes the suspension index, and the frame steps again iff it is not done |
| Frames.AfterDispatchAlike | src/util/coroutine_frame.h:162-179 | after a caught exception (a kept frame and a null handle) the heap `doStep` steps again or returns exactly as the inline `handleException` does on the frame with the index its dispatcher returned |
| Frames.RampStart | src/util/coroutine_frame.h:185-202 | the ramp engages the initial awaiter of a new frame and runs the body first iff that awaiter does not suspend under the stated `bool` rule |
| Generators.NewUnifiedPromise | src/unified_generator.h:34-39 | values are stored by value iff the type is trivially copyable, at most 16 bytes and not a reference |
| Generators.YieldValue | src/unified_generator.h:54-66 | `yield_value` stores a copy in by-value mode and the object's address otherwise, and leaves the exception alone |
| Generators.YieldThenValue | src/unified_generator.h:56-78 | `value()` returns the yielded value; if the object changes before the read, a by-value slot still returns the copy and a pointer slot returns the changed object |
| Generators.UnifiedUnhandled | src/unified_generator.h:68-71 | records the exception, keeps the value slot, and is a double construct when an exception is already held |
| Generators.RethrowIfException | src/unified_generator.h:84-91 | throws exactly the stored exception and clears it |
| Generators.RethrowOnce | src/unified_generator.h:84-91 | a second `rethrow_if_exception()` throws nothing and changes nothing; a captured exception comes back out unchanged |
| Generators.LegacyYieldValue | src/generator.h:36-46 | the older promise always stores the yielded object's address |
| Generators.LegacyUnhandled | src/generator.h:48 | the older promise records the exception and keeps the value pointer |
| Generators.RethrowPolicies | src/generator.h:48-65 | the older promise rethrows the same exception every time, the unified one only once; the older one reads the yielded object through its address |
| Generators.SentinelsAgree | src/unified_generator.h:122-125 | an iterator is at the end iff it has no handle, its handle is false, or the frame is done, which matches the older iterator's test |
| Generators.UnifiedAfterResume | src/unified_generator.h:142-148 | after a resume, a done frame rethrows its stored exception and clears it; a live frame throws nothing and changes nothing |
| Generators.LegacyAfterResume | src/generator.h:119-126 | after a resume the older iterator throws the stored exception iff the frame is done |
| Generators.LegacyIncrement | src/generator.h:119-126 | the older `++it` ends, faults or runs out exactly as the trampoline run from its handle does, with the same number of resume calls; it keeps its handle and the world the run left, and throws the promise's exception iff the frame is done |
| Generators.LegacyBegin | src/generator.h:173-182 | the older `begin()` checks the handle for every generator: a null handle gives an iterator on that null handle, at the end, after no resume call; any other handle is `++it` |
| Generators.LegacyBeginMatchesUnified | src/generator.h:173-182 | the older and the unified heap `begin()` make the same run: they finish, fault or run out together, after the same number of resume calls, and are at the end together; each throws the exception its promise held after the run, and only the older promise still holds it afterwards |
| Generators.ResumeThenRethrow | src/unified_generator.h:142-148 | `++it` ends, faults or runs out exactly as the trampoline run from the handle does, with the same number of resume calls; afterwards the iterator refers to the handle, and iff the frame is done the exception the promise held is thrown and cleared from it |
| Generators.Begin | src/unified_generator.h:232-241 | `begin()` on a null heap generator returns the end iterator after no resume call; on any other handle it is `++it` |
| Generators.BeginStepsOnce | src/unified_generator.h:232-241 | when the frame's step parks without a transfer, `begin()` makes exactly one resume call; the iterator is then at the end iff the frame is done, in which case the stored exception is thrown and cleared, and otherwise nothing is thrown |
| ParseInts.AdvanceIsBegin | src/unified_generator.h:232-241 | the parse generator's `begin()`/`++it` from any observable unfinished state is the generic `begin()` and `++it` of a heap generator with one resume call |
| Ownership.HeapMoveConstruct | src/task.h:147-149 | the new owner takes the handle and the moved-from owner is null |
| Ownership.HeapMoveAssign | src/task.h:154-163 | move assignment destroys the target's frame iff its handle was non-null, takes the source's handle and nulls the source |
| Ownership.HeapDestruct | src/task.h:165-169 | the destructor destroys a frame iff the handle is non-null |
| Ownership.HeapOwnersRefine | src/unified_generator.h:202-230 | the heap owners perform the abstract move/assign/destroy operations, and the older generator's assignment by swap has exactly the effect of the move assignment |
| Ownership.NewInlineOwner | src/inline_handle.h:10-12 | a freshly constructed `InlineHandle` is valid and owns its frame |
| Ownership.InlineMoveConstruct | src/inline_handle.h:15-18 | the move constructor transfers the frame and validity and invalidates the source |
| Ownership.InlineMoveAssign | src/inline_handle.h:20-28 | move assignment destroys the target's frame iff it was valid, then takes the source's validity and invalidates the source |
| Ownership.InlineDestruct | src/inline_handle.h:31-33 | the destructor destroys the frame iff the handle is valid |
| Ownership.InlineOwnersRefine | src/inline_handle.h:15-33 | `InlineHandle` performs the same abstract operations as the heap owners, with validity in place of a non-null pointer |
| Ownership.OwnerMoveDestroysOnce | src/inline_handle.h:15-34 | from any accounted state, moving a held frame to a new owner keeps every frame accounted for, and once all owners are gone that frame has been destroyed exactly once |
| Ownership.StackfulMoveDestroysTwice | src/util/coroutine_handle.h:104-130 | for the reference instantiation `stackful_coroutine_handle<Frame&>`, the defaulted move leaves two true handles on one frame, so destroying them by "destroy iff true" logs that frame at least twice |
| Ownership.StackfulHandleIsNoOwner | src/util/coroutine_handle.h:104-130 | in any accounted state, a frame moved with the owners' move is destroyed exactly once; moved with the defaulted move of a `stackful_coroutine_handle<Frame&>` it is destroyed twice under "destroy iff true" and never with the stackful destructor |
| Ownership.ApplyKeepsAccounted | src/task.h:147-169 | each create, move, move assignment or destruction keeps every created frame held by exactly one owner or destroyed exactly once |
| Ownership.RunKeepsAccounted | src/task.h:147-169 | any sequence of owner operations keeps every frame accounted for |
| Ownership.DestructAllEmpties | src/task.h:165-169 | once every owner has gone out of scope no frame is still held |
| Ownership.DestroyedExactlyOnce | src/task.h:147-169 | for every program of creations and moves, when all owners are gone each created frame has been destroyed exactly once |
| Iota.IotaSpec | src/generator/iota_unified.h:40-43 | the values promised are `start, start+1, …, end-1`, and none when `start >= end` |
| Iota.IotaRamp | src/generator/iota_unified.h:59-64 | the ramp parks at index 0 with only the initial awaiter engaged, on either base |
| Iota.StepKeepsObservable | src/generator/iota_unified.h:30-45 | a step from a parked state never faults, returns a null handle and parks at index 1 with the next value, or is done exactly when that value reaches `end` |
| Iota.DestroyIsSafe | src/generator/iota_unified.h:47-57 | every observable state, including a mid-iteration one, is destroyed by the cleanup table with nothing left engaged |
| Iota.Resume | src/util/inline_coroutine_frame.h:56-68 | resuming a live frame through either base performs exactly one step |
| Iota.HeapAndInlineStepAlike | src/generator/iota_unified.h:11-13 | the heap and inline frames run the identical step: same handle, value and cells |
| Iota.Consume | src/unified_generators_test.cpp:18-53 | a range-for ending in `if (++count >= limit) break;` sees exactly the first `limit` (at least one) values of `start … end-1`; when it breaks, the frame is parked on the last value read, and when it never breaks the frame is finished; the destructor then cleans up safely |
| ParseInts.ParseRamp | src/generator/throwing_parse_ints.h:50-61 | the ramp parks at index 0 with the initial awaiter engaged and only its constructed-flag set |
| ParseInts.Body | src/generator/throwing_parse_ints.h:69-116 | `doStepImpl` keeps the arguments; when it throws, it does so from inside try block 0, at the string under `it_`, further on than where it started |
| ParseInts.LoopTest | src/generator/throwing_parse_ints.h:96-101 | the loop head yields exactly the converted value of the current string, or throws exactly the exception `stoi` raised for it inside try block 0 |
| ParseInts.LoopExit | src/generator/throwing_parse_ints.h:112-115 | leaving the loop always ends in the `co_return` |
| ParseInts.Dispatch | src/generator/throwing_parse_ints.h:120-187 | a frame that survives dispatch had a caught exception inside try block 0 with `catch_errors`, and continues at 20 after an invalid argument or 21 after out of range, with a null handle |
| ParseInts.EntersLoop | src/generator/throwing_parse_ints.h:90-96 | from the initial suspension, the `co_yield` or a catch label, the body reaches the loop head with only `it_` and `end_` engaged |
| ParseInts.BreakDelivers | src/generator/throwing_parse_ints.h:169-176 | after a caught out-of-range the next step finishes the generator normally with nothing more to yield |
| ParseInts.ExhaustedDelivers | src/generator/throwing_parse_ints.h:112-115 | with no string left the step finishes the generator with nothing more to yield |
| ParseInts.YieldDelivers | src/generator/throwing_parse_ints.h:100-101 | a string that converts is yielded next, and the rest still follows the reference |
| ParseInts.UncaughtDelivers | src/generator/throwing_parse_ints.h:163-166 | without `catch_errors` a parse error is rethrown, stored in the promise, and the generator finishes with it |
| ParseInts.CaughtStepsAgain | src/generator/throwing_parse_ints.h:161-176 | with `catch_errors` a parse error is caught and the frame is stepped again with the same values still to come and less work left |
| ParseInts.StepMatchesSpec | src/generator/throwing_parse_ints.h:14-26 | one `resume()` never faults and delivers exactly what the un-lowered coroutine does next: the next value, or the end with the exception that ended it |
| ParseInts.DestroyIsSafe | src/generator/throwing_parse_ints.h:189-205 | every observable state has sound flags and is destroyed with nothing left engaged |
| ParseInts.AdvanceMatchesSpec | src/unified_generator.h:142-148 | `++it` either ends the iteration with every value read and the reference's exception rethrown, or offers one more value with the rest agreeing with the reference |
| ParseInts.Consume | src/generator/throwing_parse_ints.h:11-26 | a consumer of the model's own that checks its count before each read and stops at `limit` values reads exactly the values the un-lowered coroutine yields (or their first `limit`), and receives its exception iff it read them all |
| Tasks.NewTaskPromise | src/task.h:69-73 | a new promise has no value, no exception and a null continuation |
| Tasks.FinalAwaiterHandsBack | src/task.h:19-31 | finishing always suspends and hands the trampoline a true handle: the continuation if there is one, the no-op coroutine otherwise |
| Tasks.ReturnValue | src/task.h:47-49 | stores the value and keeps the exception and continuation |
| Tasks.TaskUnhandled | src/task.h:51-53 | stores the exception and keeps the value and continuation |
| Tasks.Result | src/task.h:55-67 | a stored exception is rethrown; otherwise the value is returned, and reading an unset value is a defect |
| Tasks.VoidResult | src/task.h:96-100 | the void promise raises iff it stored an exception, raises exactly that one, and otherwise completes without reading any value |
| Tasks.ResultRoundTrip | src/task.h:47-67 | a returned value comes back out of `result()`, an exception wins over any value, and the void promise rethrows exactly when and what the value promise would, completing normally where the value promise would need a value |
| Tasks.TaskAwaiter | src/task.h:117 | awaiting a task is ready iff the task is done |
| Tasks.SetContinuation | src/task.h:122-125 | `await_suspend` records the caller as continuation and keeps the task's results |
| Tasks.AwaitRoundTrip | src/task.h:110-133 | awaiting a task that is not done transfers to it; once the caller is recorded the task's final awaiter transfers straight back |
| TaskExample.IterationsCount | src/task/task_example.h:99-111 | the loop runs `(b - a + 1) / 2` times when `a < b`, and not at all otherwise |
| TaskExample.AddLoopClosedForm | src/task/task_example.h:98-116 | the result is `2 (a + b)` times the number of iterations, modulo 2^64 |
| TaskExample.ComputeRamp | src/task/task_example.h:50 | `compute_value` is parked at its initial suspension with only the initial awaiter engaged |
| TaskExample.AddRamp | src/task/task_example.h:139 | `add_values` is parked at its initial suspension with only the initial awaiter engaged |
| TaskExample.FreshTaskNotReady | src/task.h:117 | a freshly ramped task is never ready, so awaiting it transfers to it |
| TaskExample.StartAwaitParks | src/task/task_example.h:102-103 | starting an await parks `add_values` at the given index with task and awaiter cells engaged, and allocates a new `compute_value` whose continuation is `add_values` |
| TaskExample.ComputeReturns | src/task/task_example.h:31-35 | an awaited `compute_value` finishes in one step holding `2x` and transfers back to its caller, changing no other frame |
| TaskExample.FinishAwaitFrees | src/task/task_example.h:103-104 | resuming after the inner task finished reads `2x` and frees the inner frame and both cells |
| TaskExample.AwaitRoundTrip | src/task/task_example.h:102-104 | one `co_await compute_value(x)` is two resume calls that leave `add_values` parked on a finished inner frame holding `2x` |
| TaskExample.FirstHalf | src/task/task_example.h:102-104 | the first await stores `2a` in `va_` and starts the second await after two resume calls |
| TaskExample.SecondHalf | src/task/task_example.h:106-111 | the second await adds both values to the result, steps `a` up and `b` down, and returns to the loop head after two resume calls |
| TaskExample.Iteration | src/task/task_example.h:99-112 | one iteration is four resume calls, and `a` and `b` move by one without wrapping |
| TaskExample.LoopEnds | src/task/task_example.h:115-116 | with `a >= b` the loop head returns the result and the run ends with one call of the no-op coroutine |
| TaskExample.LoopRuns | src/task/task_example.h:98-116 | from the loop head the run takes exactly four calls per iteration plus one, never faults, frees every inner frame and ends with the reference result |
| TaskExample.StartRunsToEnd | src/task.h:172-174 | `start()` on a fresh `add_values(a, b)` runs the whole computation within one trampoline loop |
| TaskExample.EndedRunResults | src/task.h:180-182 | after such a run `result()` gives the result and the destructor's `destroy()` succeeds |
| TaskExample.RunAddValues | src/task/task_example.h:61-140 | `add_values(a, b)` started and read gives `2 (a + b)` times the number of iterations modulo 2^64, and its destructor leaves no frame allocated |
| Maybe.MakeHolder | src/optional_monad/return_object_holder.h:20 | a new holder's stage is empty and the back-pointer designates it |
| Maybe.MoveHolder | src/optional_monad/return_object_holder.h:25-27 | a move transfers the stage, re-points the back-pointer at the new holder and leaves other holders alone |
| Maybe.Emplace | src/optional_monad/return_object_holder.h:37-39 | `emplace` sets exactly the stage of the holder the back-pointer designates |
| Maybe.Convert | src/optional_monad/return_object_holder.h:41-43 | conversion yields the staged value, and needs a stage that was emplaced |
| Maybe.HolderRoundTrip | src/optional_monad/return_object_holder.h:20-43 | what is emplaced comes out of the conversion, whether the holder moved before or after; the last emplace wins; an un-emplaced holder cannot be converted |
| Maybe.MaybeAwaiter | src/optional_monad/maybe.h:32-42 | awaiting an optional is ready iff it has a value; an empty one suspends with a null handle |
| Maybe.MaybeAwaitResume | src/optional_monad/maybe.h:45-47 | `await_resume` returns the optional's value |
| Maybe.MaybeSuspend | src/optional_monad/maybe.h:63-69 | the initial and final awaiters never suspend, so the coroutine is eager |
| Maybe.PromiseOutcomes | src/optional_monad/maybe.h:72-83 | a returned value reaches the caller as present; `nullopt`, an exception or a short circuit reaches it as absent |
| Maybe.MaybeAwait | src/optional_monad/maybe.h:38-42 | a present value continues with that value and the holder untouched; an absent one stages "absent" and destroys the frame through its cleanup table |
| MaybeExample.TruncDivIsDivision | src/optional_monad/maybe_example.cpp:15 | C++ `/` is a division whose remainder is smaller than the divisor and has the dividend's sign |
| MaybeExample.SafeDivide | src/optional_monad/maybe_example.cpp:9-16 | absent iff the divisor is zero, otherwise the truncated quotient |
| MaybeExample.IsqrtUnique | src/optional_monad/maybe_example.h:23 | the floor square root is the only number whose square is at most `x` and whose successor's square exceeds it |
| MaybeExample.Isqrt | src/optional_monad/maybe_example.h:23 | the integer square root is the floor of the real one: its square is at most the argument, and the next integer's square exceeds it |
| MaybeExample.SafeSqrt | src/optional_monad/maybe_example.h:18-24 | absent iff the argument is negative, otherwise the non-negative floor square root |
| MaybeExample.HelperExamples | src/optional_monad/maybe_test.cpp:51-95 | the documented results: 10/2 = 5, 10/0 absent, -10/2 = -5, sqrt 16 = 4, 0 = 0, 100 = 10, 5 = 2, -4 absent |
| MaybeExample.LoopCount | src/optional_monad/maybe_example.cpp:21 | the loop runs `reps` times for a non-negative `reps`, and `reps + 2^64` times for a negative one |
| MaybeExample.NoCoroClosedForm | src/optional_monad/maybe_example.cpp:18-32 | the hand-written loop is absent iff it runs and `b` is zero or `c` negative, and otherwise adds `a/b + sqrt c` per iteration |
| MaybeExample.ChainedLoopAgrees | src/optional_monad/maybe_example.cpp:91-101 | the coroutine loop delivers through the holder exactly what the hand-written loop returns; it finishes iff the result is present, and it stops at index 1 for a zero divisor and at index 2 for a negative radicand |
| MaybeExample.ChainedAgrees | src/optional_monad/maybe_test.cpp:101-125 | the coroutine agrees with `chained_calculation_no_coro` on presence and value for every input, and with the corrected cleanup table leaves nothing engaged |
| MaybeExample.ShortCircuitOrder | src/optional_monad/maybe_example.cpp:94-97 | a zero divisor ends the computation at the divide before the root is taken; a negative radicand ends it at the root |
| MaybeExample.ChainedExamples | src/optional_monad/maybe_test.cpp:10-24 | (10, 2, 16) gives 9; (10, 0, 16) and (10, 2, -4) give absent |
| MaybeExample.AsWrittenLeavesAwaiterEngaged | src/optional_monad/maybe_example.cpp:110-120 | with the table as written, the short circuit of (10, 0, 16) destroys the frame at index 1 and leaves the awaiter cell engaged |
| MaybeExample.WithExceptionsAgrees | src/optional_monad/maybe_example.cpp:142-206 | with the dispatcher handing the exception to the base's unhandled path, `with_exceptions` agrees with `with_exceptions_no_coro` for every input, and its frame is deleted before the ramp returns |
| MaybeExample.WithExceptionsAsWrittenLeaks | src/optional_monad/maybe_example.cpp:189-202 | with the dispatcher as written the caller still gets the right optional for every input, but the frame outlives the ramp exactly when `x` is negative |
| MaybeExample.WithExceptionsExamples | src/optional_monad/maybe_test.cpp:30-45 | -1 gives absent, 5 gives 10, 0 gives 0 |

## Left out

- Raw memory is not modelled: placement new, `std::launder`, `reinterpret_cast`, `offsetof` checks, ASAN poisoning and the choice of `operator delete`. Cells are modelled as engaged or empty, and frames as present in or absent from a map. Deleting a heap frame is removing it.
- The type traits (`has_return_void`, `return_object_is_stackless`, trivially-copyable and size tests) are compile-time. Their outcomes are parameters (`TypeTraits`).
- Which object the inline ramp returns (the promise's return object when `return_object_is_stackless`, otherwise the frame) is a choice of C++ return type. The model has no return-object values to compare, so it does not model it.
- `CO_RETURN_VOID` calls `return_void()` only when the promise has one. Every `return_void` here is empty, so the model omits the call.
- `std::sqrt` is floating point. `safe_sqrt` is modelled as the integer floor square root, which is what its tests expect.
- `std::stoi` is a parameter: a function from a string to a converted value or one of its two exceptions.
- C++ exceptions are values of `Exception`. A `throw;` rethrow returns the same value.
- `int` overflow is not modelled; `int` is unbounded. This covers `++start_` in iota, `x_ * 2` in `with_exceptions`, the sums of `chained_calculation`, and `INT_MIN / -1` in `safe_divide`. `size_t` is modelled exactly, as arithmetic modulo 2^64.
- Several files would not compile as written. The model follows the intent of the current bases.
  - The `static doStepImpl(void*)` bodies use `this->` through the macros; they are modelled as member functions.
  - `dispatchExceptionHandling` has three signatures. `throwing_parse_ints`' dispatcher returns a plain handle, and with no try block active it ends in `this->await_final_suspend()` (src/generator/throwing_parse_ints.h:134), which no base defines. The model (`ParseInts.Dispatch`, no-try-block branch) puts the promise's `unhandled_exception()` (`UnifiedUnhandled`) followed by the heap base's `unhandled_exception` path (`Frames.UnhandledException`) in its place, and returns the heap base's `ExceptionResult`. `with_exceptions`' dispatcher returns a `size_t` and never awaits the final awaiter. The model reads its result as a kept frame and a null handle (`WithExceptionsAsWritten`), and takes the base's unhandled-exception path as the corrected one (see Findings).
  - `compute_value` and `add_values` are written against an older base (`CoroImpl`, `curState`); they are modelled on the current heap base.
  - The tests call `chained_calculation` with three arguments, but the header declares three and the definition takes four. The documented examples use `reps = 1`.
- `add_values`' dispatcher calls `std::terminate`. This is modelled as `Fault(Terminate)`, which the proofs show is never reached, because `compute_value` does not throw.
- The comment on `add_values` shows two awaits and no loop. The code loops while `a < b`, and the model follows the code.
- `CO_RETURN_*` carries an index but does not store it in `suspendIdx_`. A finished frame keeps its last index, and `destroy()` of a done frame never reads it.
- The trampoline's chain of transfers need not end. The reference definition `Chain` follows it for a bounded number of resume calls. Every run the model proves about finishes within the bound it names.
- Moves of a `return_object_holder` after the ramp has returned (copy elision) are not part of the `chained_calculation` and `with_exceptions` runs. The holder stays at one address; `Maybe.HolderRoundTrip` covers moves.
- The `__constructed` flags of `throwing_parse_ints` without an initialiser start false rather than indeterminate.
- Awaiters.AwaitImpl: follows the `bool` rule that the comment above the macro states, suspending when `await_suspend` returns `true`. The macro as written is `Awaiters.AwaitImplAsWritten` (see Findings). No awaiter of the library returns `bool`, so the two agree on every awaiter the model uses.
- Awaiters.RampAwait: follows the same stated `bool` rule; the ramp form as written is `Awaiters.RampAwaitAsWritten`.
- Frames.AwaitAt: awaits with `AwaitImpl`, so it follows the stated `bool` rule, not the macro as written.
- Frames.CoReturn: awaits the final awaiter with the stated `bool` rule; `Frames.CoReturnAsWritten` is the form as written.
- Frames.RampStart: awaits the initial awaiter with the stated `bool` rule.
- Frames.UnhandledMatchesReturn: holds for the stated `bool` rule only. With the macro as written, a `bool` final awaiter makes the two paths disagree (`Frames.ReturnAsWrittenDisagreesWithUnhandled`).
- MaybeExample.WithExceptionsAgrees: uses the corrected dispatcher, which hands the exception to the base's unhandled path and so deletes the frame. The dispatcher as written returns a `size_t` and leaves the frame alive (`MaybeExample.WithExceptionsAsWrittenLeaks`); the model reads that `size_t` as a kept frame and a null handle.
- Iota.Resume: states only that resuming a live frame performs one step. Resuming a done inline frame is left unspecified, because the source would re-run the body from its last index.
- Several members that model source code carry no contract of their own; the lemma named after each states what it does:
  - Tasks.FinalAwaiter → `FinalAwaiterHandsBack`; Maybe.MaybeReturnValue and Maybe.MaybeAbsent → `PromiseOutcomes`;
  - Iota.IotaStep and Iota.IotaLoop (src/unified_generators_test.cpp:18-53) → `StepKeepsObservable`; Iota.IotaCleanup → `Iota.DestroyIsSafe`;
  - ParseInts.ParseIntsSpec (the reference for src/generator/throwing_parse_ints.h:11-26) → `StepMatchesSpec`; ParseInts.ParseCleanup → `ParseInts.DestroyIsSafe`; ParseInts.Resume and ParseInts.Advance → `AdvanceIsBegin` and `AdvanceMatchesSpec`;
  - TaskExample.Step → `LoopRuns`; TaskExample.AddLoop → `AddLoopClosedForm` and `RunAddValues`; TaskExample.ComputeStep → `ComputeReturns`; TaskExample.AddStep → `FirstHalf`, `SecondHalf` and `LoopEnds`; TaskExample.StartAwait → `StartAwaitParks`; TaskExample.FinishAwait and TaskExample.ComputeCleanup → `FinishAwaitFrees`; TaskExample.AddCleanup → `LoopEnds` and `EndedRunResults`;
  - MaybeExample.TruncDiv (src/optional_monad/maybe_example.cpp:15) → `TruncDivIsDivision`; MaybeExample.NoCoroLoop and MaybeExample.ChainedNoCoro (18-32) → `NoCoroClosedForm`; MaybeExample.ChainedLoop (91-101) → `ChainedLoopAgrees`; MaybeExample.ChainedCalculation (52-136) and MaybeExample.ChainedCleanup → `ChainedAgrees`; MaybeExample.ChainedCleanupAsWritten (110-120) → `AsWrittenLeavesAwaiterEngaged`;
  - MaybeExample.WithExceptions, MaybeExample.WithExceptionsNoCoro and MaybeExample.WithExceptionsCleanup (142-206) → `WithExceptionsAgrees`; MaybeExample.WithExceptionsAsWritten → `WithExceptionsAsWrittenLeaks`;
  - Ownership.LegacySwapAssign (src/generator.h:168-171) → `HeapOwnersRefine`.
- The benchmarks, assembly-analysis files, demo mains and older snapshots of the frame, macro and handle headers are not modelled. The current headers supersede the snapshots.

## Findings

| source | as written | input that shows it | evidently intended | confidence | as-written member | corrected member |
|---|---|---|---|---|---|---|
| src/optional_monad/maybe_example.cpp:110-120 | `destroySuspendedCoro` of `chained_calculation` has cases only for 0 and 3. A short circuit destroys the frame at index 1 or 2, where `awaiter_storage_` is engaged, and the awaiter is never destroyed | `chained_calculation(10, 0, 16)` with one repetition: the divide is absent, and the frame is destroyed at index 1 with the awaiter still constructed | cases 1 and 2 destroy `awaiter_storage_`, as the cleanup tables of the other bodies do for their awaiter cells | not executed | MaybeExample.AsWrittenLeavesAwaiterEngaged | MaybeExample.ChainedAgrees |
| src/util/macros.h:26-32 | the `bool` branch of `CO_AWAIT_IMPL_IMPL` returns when `await_suspend` returns `false`, so a result of `true` falls through to the resume half | an awaiter whose `await_ready()` is false and whose `bool` `await_suspend` returns `true`, used as a final awaiter: `co_return` destroys the frame, while `unhandled_exception` keeps it | suspend (return) when `await_suspend` returns `true`, as the comment at macros.h:7-9 says and coroutine_frame.h:97-101 does | not executed | Frames.ReturnAsWrittenDisagreesWithUnhandled | Frames.UnhandledMatchesReturn |
| src/optional_monad/maybe_example.cpp:189-202 | `with_exceptions`' dispatcher stores the exception, sets done and returns 1, but never awaits the final awaiter or deletes the frame | `with_exceptions(-1)`: the caller gets an empty optional and the frame is never deleted | hand the exception to the base's `unhandled_exception()`, which awaits the `suspend_never` final awaiter and deletes the frame | not executed | MaybeExample.WithExceptionsAsWrittenLeaks | MaybeExample.WithExceptionsAgrees |
