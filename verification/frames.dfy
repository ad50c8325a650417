/**
  The coroutine frame and the protocols it follows: the lowering macros of
  src/util/macros.h and the two frame bases, `stackless_coro_crtp`
  (src/util/coroutine_frame.h, a heap frame reached through a handle) and
  `stackful_coro_crtp` (src/util/inline_coroutine_frame.h, a frame held by
  value).

  A frame is modelled by its control state — the suspension index, the
  active try block and the done flag — and by which of its storage cells are
  engaged (`live`) and which carry a set "constructed" flag
  (`constructed`). The values inside the cells belong to the concrete
  coroutine bodies, which keep them next to the frame.
 */
module Frames {
  import opened Wrappers
  import opened Storage
  import opened Handles
  import opened Awaiters
  import opened Trampoline

  /** The storage cells of the modelled frames: the awaiter buffers of the
      base, and the locals of the concrete bodies. */
  datatype Local =
    | InitialAwaiter   // `initial_awaiter_`, reused by the generators for every `co_yield`
    | FinalAwaiter     // `final_awaiter_`
    | Iter             // `it_` of throwing_parse_ints
    | EndIter          // `end_` of throwing_parse_ints
    | Parsed           // `parsed_` of throwing_parse_ints
    | TaskStorage      // `task_storage_` of add_values
    | AwaiterStorage   // `awaiter_storage_` of add_values and chained_calculation

  /** `currentTryBlock_`: `CO_NO_TRY_BLOCK` or the index of a try block. */
  datatype TryBlock = NoTryBlock | InTry(index: nat)

  /** Which base the frame derives from. */
  datatype Strategy = Heap | Inline

  datatype Frame = Frame(
    strategy: Strategy,
    suspendIdx: nat,
    tryBlock: TryBlock,
    done: bool,
    live: set<Local>,
    constructed: set<Local>)

  /** Two frames agree on everything but their cells. */
  predicate SameControl(a: Frame, b: Frame)
  {
    a.strategy == b.strategy && a.suspendIdx == b.suspendIdx
    && a.tryBlock == b.tryBlock && a.done == b.done
  }

  /** A freshly constructed frame: index 0, no active try block, not done, no
      cell engaged, and the constructed-flags at their declared initial
      values `flags` (the model starts flags without an initialiser at
      false). */
  function NewFrame(strategy: Strategy, flags: set<Local>): (f: Frame)
    ensures f.strategy == strategy && f.suspendIdx == 0 && f.tryBlock == NoTryBlock
    ensures !f.done && f.live == {} && f.constructed == flags
  {
    Frame(strategy, 0, NoTryBlock, false, {}, flags)
  }

  // ----- Cells and their flags -----

  /** `CO_INIT(mem, ...)`: engage a cell. */
  function Init(f: Frame, l: Local): (r: Outcome<Frame>)
    ensures r.Ok? <==> l !in f.live
    ensures r.Ok? ==> SameControl(r.value, f) && r.value.live == f.live + {l}
    ensures r.Ok? ==> r.value.constructed == f.constructed
  {
    var live :- Engage(f.live, l);
    Ok(f.(live := live))
  }

  /** The destroy half of `CO_RESUME`, and every plain `mem.destroy()`. */
  function Drop(f: Frame, l: Local): (r: Outcome<Frame>)
    ensures r.Ok? <==> l in f.live
    ensures r.Ok? ==> SameControl(r.value, f) && r.value.live == f.live - {l}
    ensures r.Ok? ==> r.value.constructed == f.constructed
  {
    var live :- Release(f.live, l);
    Ok(f.(live := live))
  }

  /** `CO_INIT_EX(mem, ...)`: engage a cell and set its flag. */
  function InitEx(f: Frame, l: Local): (r: Outcome<Frame>)
    ensures r.Ok? <==> l !in f.live
    ensures r.Ok? ==> SameControl(r.value, f) && r.value.live == f.live + {l}
    ensures r.Ok? ==> r.value.constructed == f.constructed + {l}
  {
    var g :- Init(f, l);
    Ok(g.(constructed := g.constructed + {l}))
  }

  /** `DESTROY_UNCONDITIONALLY(mem)`: destroy the cell and clear its flag. */
  function DestroyUnconditionally(f: Frame, l: Local): (r: Outcome<Frame>)
    ensures r.Ok? <==> l in f.live
    ensures r.Ok? ==> SameControl(r.value, f) && r.value.live == f.live - {l}
    ensures r.Ok? ==> r.value.constructed == f.constructed - {l}
  {
    var g :- Drop(f, l);
    Ok(g.(constructed := g.constructed - {l}))
  }

  /** `DESTROY_IF_CONSTRUCTED(mem)`: the same, but only when the flag is set.
      Whichever way it goes the flag ends up clear, and while the flags are
      sound it never destroys an empty cell. */
  function DestroyIfConstructed(f: Frame, l: Local): (r: Outcome<Frame>)
    ensures l !in f.constructed ==> r == Ok(f)
    ensures r.Ok? <==> l !in f.constructed || l in f.live
    ensures FlagsSound(f) ==> r.Ok? && FlagsSound(r.value)
    ensures r.Ok? ==> SameControl(r.value, f) && l !in r.value.constructed
    ensures r.Ok? ==> r.value.constructed == f.constructed - {l}
    ensures r.Ok? ==> r.value.live == f.live - (f.constructed * {l})
  {
    if l in f.constructed then DestroyUnconditionally(f, l) else Ok(f)
  }

  /** Every set flag belongs to an engaged cell. */
  predicate FlagsSound(f: Frame)
  {
    f.constructed <= f.live
  }

  /** The flag macros keep the flags sound, and while they are sound
      `DESTROY_IF_CONSTRUCTED` never destroys an empty cell: the flags are
      exactly what makes exception cleanup safe. A plain `CO_INIT` keeps them
      sound too, although it sets no flag. */
  lemma FlagOpsKeepSoundness(f: Frame, l: Local)
    requires FlagsSound(f)
    ensures DestroyIfConstructed(f, l).Ok?
    ensures FlagsSound(DestroyIfConstructed(f, l).value)
    ensures InitEx(f, l).Ok? ==> FlagsSound(InitEx(f, l).value)
    ensures Init(f, l).Ok? ==> FlagsSound(Init(f, l).value)
    ensures DestroyUnconditionally(f, l).Ok? ==> FlagsSound(DestroyUnconditionally(f, l).value)
  {
  }

  /** `TRY_BEGIN(i)`. */
  function TryBegin(f: Frame, i: nat): (r: Frame)
    ensures r.tryBlock == InTry(i) && r.live == f.live && r.constructed == f.constructed
    ensures r.suspendIdx == f.suspendIdx && r.done == f.done && r.strategy == f.strategy
  {
    f.(tryBlock := InTry(i))
  }

  /** `TRY_END(parent, label)`: back to the enclosing try block. */
  function TryEnd(f: Frame, parent: TryBlock): (r: Frame)
    ensures r.tryBlock == parent && r.live == f.live && r.constructed == f.constructed
    ensures r.suspendIdx == f.suspendIdx && r.done == f.done && r.strategy == f.strategy
  {
    f.(tryBlock := parent)
  }

  /** A try block entered from inside `parent` and left again restores the
      frame exactly, and entering a try block does not depend on which one
      the frame was in before. */
  lemma TryBlocksNest(f: Frame, i: nat, j: nat)
    ensures TryEnd(TryBegin(f, i), f.tryBlock) == f
    ensures TryBegin(TryBegin(f, j), i) == TryBegin(f, i)
    ensures TryBegin(TryEnd(f, NoTryBlock), i) == TryBegin(f, i)
  {
  }

  // ----- The await protocol -----

  /** The first half of `CO_YIELD(index, mem, ...)` and `CO_AWAIT(index, mem, ...)`:
      engage the awaiter cell, record the suspension index, then await. */
  function AwaitAt(f: Frame, l: Local, index: nat, a: Awaiter): (r: Outcome<(Frame, AwaitOutcome)>)
    ensures r.Ok? <==> l !in f.live
    ensures r.Ok? ==> r.value.0.suspendIdx == index && r.value.0.live == f.live + {l}
    ensures r.Ok? ==> r.value.0.done == f.done && r.value.0.tryBlock == f.tryBlock
    ensures r.Ok? ==> r.value.0.constructed == f.constructed && r.value.0.strategy == f.strategy
    ensures r.Ok? ==> (r.value.1.Proceed? <==> !Suspends(a))
  {
    var g :- Init(f, l);
    Ok((g.(suspendIdx := index), AwaitImpl(a)))
  }

  /** Awaiting and then resuming (`CO_RESUME`: `await_resume`, then destroy
      the awaiter) gives the cells back exactly as they were, which is what
      lets a loop reuse one awaiter cell at every iteration. */
  lemma AwaitThenResumeRestores(f: Frame, l: Local, index: nat, a: Awaiter)
    requires l !in f.live
    ensures var g := AwaitAt(f, l, index, a).value.0;
            Drop(g, l).Ok? && Drop(g, l).value.live == f.live
            && Drop(g, l).value.suspendIdx == index
  {
  }

  /** `CO_YIELD` in a generator body: both generator promises return
      `SuspendAlways` from `yield_value`, so the step always parks and hands
      the trampoline a null handle. */
  function YieldPark(f: Frame, l: Local, index: nat): (r: Outcome<Frame>)
    ensures r.Ok? <==> l !in f.live
    ensures r.Ok? ==> AwaitAt(f, l, index, SuspendAlways()) == Ok((r.value, Park(Null)))
  {
    StandardAwaiters();
    var p :- AwaitAt(f, l, index, SuspendAlways());
    Ok(p.0)
  }

  /** `CO_AWAIT` on an awaiter that is not ready and whose `await_suspend`
      returns the handle `next`: the step parks and hands `next` to the
      trampoline (symmetric transfer). */
  function AwaitTransfer(f: Frame, l: Local, index: nat, next: Handle): (r: Outcome<Frame>)
    ensures r.Ok? <==> l !in f.live
    ensures r.Ok? ==> AwaitAt(f, l, index, Awaiter(false, ReturnsHandle(next))) == Ok((r.value, Park(next)))
  {
    var p :- AwaitAt(f, l, index, Awaiter(false, ReturnsHandle(next)));
    Ok(p.0)
  }

  // ----- The destroy protocol -----

  /** A `destroySuspendedCoro` switch: the cells destroyed for each index, in
      order. An index without a case destroys nothing. */
  type CleanupTable = nat -> seq<Local>

  /** `destroySuspendedCoro(ops)` with the table entry already selected. */
  function RunCleanup(f: Frame, ops: seq<Local>): (r: Outcome<Frame>)
    ensures r.Ok? <==> Distinct(ops) && Elems(ops) <= f.live
    ensures r.Ok? ==> SameControl(r.value, f) && r.value.live == f.live - Elems(ops)
    ensures r.Ok? ==> r.value.constructed == f.constructed
  {
    var live :- ReleaseAll(f.live, ops);
    Ok(f.(live := live))
  }

  /** `destroy()` of both bases, without the deallocation: a frame that is
      not done runs the cleanup table for its current suspension index; a
      done frame resumes and destroys its final awaiter. Only a heap frame is
      then deleted (`Deallocates`); that is the owner's business. */
  function DestroyFrame(f: Frame, table: CleanupTable): (r: Outcome<Frame>)
    ensures !f.done ==> r == RunCleanup(f, table(f.suspendIdx))
    ensures f.done ==> (r.Ok? <==> FinalAwaiter in f.live)
    ensures f.done && r.Ok? ==> r.value.live == f.live - {FinalAwaiter}
    ensures r.Ok? ==> SameControl(r.value, f)
  {
    if !f.done then RunCleanup(f, table(f.suspendIdx)) else Drop(f, FinalAwaiter)
  }

  /** `stackless_coro_crtp::destroy` deletes the frame; the inline
      `stackful_coro_crtp::destroy` never deallocates. */
  predicate Deallocates(f: Frame)
  {
    f.strategy == Heap
  }

  /** A frame whose engaged cells are exactly its table entry, each listed
      once, is left with no engaged cell by `destroy()`; so is a done frame
      whose only engaged cell is the final awaiter. */
  lemma DestroyEmpties(f: Frame, table: CleanupTable)
    requires !f.done ==> Distinct(table(f.suspendIdx)) && Elems(table(f.suspendIdx)) == f.live
    requires f.done ==> f.live == {FinalAwaiter}
    ensures DestroyFrame(f, table).Ok? && DestroyFrame(f, table).value.live == {}
  {
    if !f.done {
      CleanupEmptiesIff(f.live, table(f.suspendIdx));
    }
  }

  // ----- The return protocol -----

  /** Where a `co_return` leaves the step: parked at the final awaiter with a
      handle for the trampoline, or with the frame already destroyed. */
  datatype ReturnOutcome = Suspended(next: Handle) | Destroyed

  /** `CO_RETURN_IMPL(index, final_awaiter_)` after the promise has received
      the value: run the cleanup for `index` (`ops`), set done, construct the
      final awaiter `fa` and await it; if it does not suspend, destroy the
      frame at once. The index is not stored in `suspendIdx_`. */
  function CoReturn(f: Frame, ops: seq<Local>, fa: Awaiter): (r: Outcome<(Frame, ReturnOutcome)>)
    ensures r.Ok? <==> Distinct(ops) && Elems(ops) <= f.live && FinalAwaiter !in f.live - Elems(ops)
    ensures r.Ok? ==> r.value.0.done && r.value.0.suspendIdx == f.suspendIdx
    ensures r.Ok? ==> r.value.0.strategy == f.strategy && r.value.0.tryBlock == f.tryBlock
    ensures r.Ok? ==> (r.value.1.Destroyed? <==> !Suspends(fa))
    ensures r.Ok? && r.value.1.Suspended? ==>
              r.value.0.live == f.live - Elems(ops) + {FinalAwaiter} && r.value.1.next == AwaitImpl(fa).next
    ensures r.Ok? && r.value.1.Destroyed? ==> r.value.0.live == f.live - Elems(ops)
  {
    var g :- RunCleanup(f, ops);
    var h :- Init(g.(done := true), FinalAwaiter);
    match AwaitImpl(fa)
    case Park(next) => Ok((h, Suspended(next)))
    case Proceed =>
      Ok((DestroyFrame(h, _ => []).value, Destroyed))
  }

  /** `CO_RETURN_IMPL` with the await macro's `bool` branch as written: it
      takes the decision `CoReturn` takes for the final awaiter with its
      `bool` result negated. */
  function CoReturnAsWritten(f: Frame, ops: seq<Local>, fa: Awaiter): (r: Outcome<(Frame, ReturnOutcome)>)
    ensures r == CoReturn(f, ops, FlipBool(fa))
    ensures r.Ok? ==> (r.value.1.Destroyed? <==> fa.ready || fa.onSuspend == ReturnsBool(true))
  {
    AsWrittenNegatesBool(fa);
    var g :- RunCleanup(f, ops);
    var h :- Init(g.(done := true), FinalAwaiter);
    match AwaitImplAsWritten(fa)
    case Park(next) => Ok((h, Suspended(next)))
    case Proceed =>
      Ok((DestroyFrame(h, _ => []).value, Destroyed))
  }

  // ----- Exceptions in a heap frame -----

  /** `ExceptionResult`: the handle for the trampoline, and whether the frame
      has already been deleted. */
  datatype ExceptionResult = ExceptionResult(handle: Handle, frameDestroyed: bool)

  /** `stackless_coro_crtp::unhandled_exception()`: set done, let the promise
      capture the exception (`capture`), and only then construct the final
      awaiter from the updated promise and await it. A suspending final
      awaiter keeps the frame; otherwise the awaiter is resumed and destroyed
      and the frame deleted. */
  function UnhandledException<P>(f: Frame, p: P, capture: P -> P, finalSuspend: P -> Awaiter): (r: Outcome<(Frame, P, ExceptionResult)>)
    ensures r.Ok? <==> FinalAwaiter !in f.live
    ensures r.Ok? ==> r.value.0.done && r.value.1 == capture(p)
    ensures r.Ok? ==> r.value.0.suspendIdx == f.suspendIdx && r.value.0.strategy == f.strategy
    ensures r.Ok? ==> (r.value.2.frameDestroyed <==> !Suspends(finalSuspend(capture(p))))
    ensures r.Ok? && r.value.2.frameDestroyed ==> r.value.2.handle == Null && r.value.0.live == f.live
    ensures r.Ok? && !r.value.2.frameDestroyed ==>
              r.value.2.handle == AwaitImpl(finalSuspend(capture(p))).next
              && r.value.0.live == f.live + {FinalAwaiter}
  {
    var p1 := capture(p);
    var fa := finalSuspend(p1);
    var g :- Init(f.(done := true), FinalAwaiter);
    if !fa.ready && fa.onSuspend.ReturnsVoid? then
      Ok((g, p1, ExceptionResult(Null, false)))
    else if !fa.ready && fa.onSuspend == ReturnsBool(true) then
      Ok((g, p1, ExceptionResult(Null, false)))
    else if !fa.ready && fa.onSuspend.ReturnsHandle? then
      Ok((g, p1, ExceptionResult(fa.onSuspend.next, false)))
    else
      Ok((Drop(g, FinalAwaiter).value, p1, ExceptionResult(Null, true)))
  }

  /** With the await rule the macro's comment states, the unhandled-exception
      path is the final-suspend half of `co_return` with nothing left to
      clean up: both mark the frame done, construct the same final awaiter,
      destroy the frame in the same cases, and hand the trampoline the same
      handle. */
  lemma UnhandledMatchesReturn<P>(f: Frame, p: P, capture: P -> P, finalSuspend: P -> Awaiter)
    requires FinalAwaiter !in f.live
    ensures var u := UnhandledException(f, p, capture, finalSuspend);
            var c := CoReturn(f, [], finalSuspend(capture(p)));
            u.Ok? && c.Ok? && u.value.0 == c.value.0
            && (u.value.2.frameDestroyed <==> c.value.1.Destroyed?)
            && (c.value.1.Suspended? ==> u.value.2.handle == c.value.1.next)
  {
    assert Elems<Local>([]) == {};
  }

  /** With the await macro as written the two paths part on a final awaiter
      that is not ready and whose `await_suspend` returns `bool`: a
      `co_return` destroys the frame exactly when `await_suspend` asks to
      suspend, and the unhandled-exception path exactly when it declines. */
  lemma ReturnAsWrittenDisagreesWithUnhandled(f: Frame, suspend: bool)
    requires FinalAwaiter !in f.live
    ensures var fa := Awaiter(false, ReturnsBool(suspend));
            var u := UnhandledException(f, 0, (x: int) => x, (_: int) => fa);
            var c := CoReturnAsWritten(f, [], fa);
            && u.Ok? && c.Ok?
            && (c.value.1.Destroyed? <==> suspend)
            && (u.value.2.frameDestroyed <==> !suspend)
  {
    assert Elems<Local>([]) == {};
  }

  /** What `stackless_coro_crtp::doStep` does after the exception handler
      returned: it returns at once when the frame is gone or done, and
      otherwise steps the frame once more, which requires the handler to
      have returned a null handle (`assert(!handle)`). */
  datatype AfterCatch = ReturnHandle(handle: Handle) | StepAgain

  function HeapAfterDispatch(f: Frame, er: ExceptionResult): (r: Outcome<AfterCatch>)
    ensures r.Ok? && r.value.StepAgain? <==> !er.frameDestroyed && !f.done && er.handle == Null
    ensures r.Fault? <==> !er.frameDestroyed && !f.done && er.handle != Null
    ensures r.Ok? && r.value.ReturnHandle? ==> r.value.handle == er.handle
  {
    if er.frameDestroyed then Ok(ReturnHandle(er.handle))
    else if !f.done then
      if er.handle == Null then Ok(StepAgain) else Fault(TransferAfterCatch)
    else Ok(ReturnHandle(er.handle))
  }

  // ----- Inline frames -----

  /** `stackful_coro_crtp::doStep`: a step of an inline frame must not hand a
      handle to a trampoline (`assert(!h)`); an inline frame has none. */
  function InlineStepResult(h: Handle): (r: Outcome<()>)
    ensures r.Ok? <==> h == Null
  {
    if h == Null then Ok(()) else Fault(TransferFromInline)
  }

  /** An inline frame is stepped by a direct call rather than through the
      trampoline, so it accepts exactly the steps that need no symmetric
      transfer: those that, resumed through a heap handle, would end the
      trampoline after that single call. */
  lemma InlineStepIsOneHeapResume<W>(step: (W, nat) -> Outcome<(W, Handle)>, w: W, a: nat, budget: nat)
    requires 1 <= budget && step(w, a).Ok?
    ensures InlineStepResult(step(w, a).value.1).Ok?
            <==> Chain(step, w, Ptr(a), budget) == Finished(step(w, a).value.0, 1)
  {
    var (w', next) := step(w, a).value;
    if next != Null {
      var rest := Chain(step, w', next, budget - 1);
      assert Chain(step, w, Ptr(a), budget) == Then(rest);
    }
  }

  /** `stackful_coro_crtp::handleException`: the dispatcher's result becomes
      the suspension index, and the frame is stepped again iff it is not
      done. */
  function InlineAfterDispatch(f: Frame, nextState: nat): (r: (Frame, AfterCatch))
    ensures r.0.suspendIdx == nextState && r.0.done == f.done && r.0.live == f.live
    ensures r.1.StepAgain? <==> !f.done
    ensures r.1.ReturnHandle? ==> r.1.handle == Null
  {
    (f.(suspendIdx := nextState), if f.done then ReturnHandle(Null) else StepAgain)
  }

  /** After a caught exception the two bases decide alike. The heap
      dispatcher sets the index itself and reports a kept frame with a null
      handle; the heap `doStep` then steps again exactly when the inline base
      does on the frame with the index its dispatcher returned, and a frame
      the handler finished returns a null handle in both. */
  lemma AfterDispatchAlike(f: Frame, nextState: nat)
    ensures var (g, act) := InlineAfterDispatch(f, nextState);
            HeapAfterDispatch(g, ExceptionResult(Null, false)) == Ok(act)
  {
  }

  // ----- The ramp -----

  /** The first half of both `ramp` functions: construct the initial awaiter
      in a new frame and await it. The action says whether the body runs
      before the ramp returns. */
  function RampStart(f: Frame, ia: Awaiter): (r: Outcome<(Frame, RampAction)>)
    ensures r.Ok? <==> InitialAwaiter !in f.live
    ensures r.Ok? ==> SameControl(r.value.0, f) && r.value.0.live == f.live + {InitialAwaiter}
    ensures r.Ok? ==> (r.value.1.RunBodyFirst? <==> !Suspends(ia))
  {
    var g :- Init(f, InitialAwaiter);
    Ok((g, RampAwait(ia)))
  }
}
