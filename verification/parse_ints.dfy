/**
  `throwing_parse_ints(strings, catch_errors)`
  (src/generator/throwing_parse_ints.h): a heap generator of `int` that
  converts each string with `std::stoi` and yields the result. Inside the
  loop body a try block catches the two exceptions `stoi` throws: with
  `catch_errors` an invalid argument skips the string (`continue`) and an
  out-of-range value ends the loop (`break`); without it both escape the
  body, are stored in the promise, and reach the consumer.

  `std::stoi` is a parameter of the model (`Stoi`). The iterator `it_` is
  modelled by the position `pos` in the range of strings.

  The frame derives from the heap base with exceptions enabled, so an
  exception that leaves `doStepImpl` is caught by `doStep`, which asks the
  frame's dispatcher what to do and then, unless the frame is done, steps
  it again: that is how the `continue` and `break` of the catch clauses,
  which live outside `doStepImpl`, come back into the loop (through the
  suspension indices 20 and 21).
 */
module ParseInts {
  import opened Wrappers
  import opened Storage
  import opened Handles
  import opened Awaiters
  import opened Frames
  import opened Generators
  import opened Trampoline

  /** What `std::stoi` does with one string. */
  datatype StoiResult = Converted(n: int) | Throws(e: Exception)

  type Stoi = string -> StoiResult

  datatype ParseFrame = ParseFrame(
    frame: Frame,
    promise: UnifiedPromise<int>,
    strings: seq<string>,
    catchErrors: bool,
    pos: nat,       // `it_`, as an index into `strings`
    parsed: int)    // the value in `parsed_`

  /** What the consumer of the generator sees: the values in order, and the
      exception that ends the iteration, if any. */
  datatype Run = Run(values: seq<int>, thrown: Option<Exception>)

  /** The source coroutine's behaviour from the string at `i` on, read off
      the range-for and its two catch clauses. */
  function ParseIntsSpec(strings: seq<string>, catchErrors: bool, stoi: Stoi, i: nat): (r: Run)
    decreases |strings| - i
  {
    if i >= |strings| then Run([], None)
    else
      match stoi(strings[i])
      case Converted(n) =>
        var rest := ParseIntsSpec(strings, catchErrors, stoi, i + 1);
        Run([n] + rest.values, rest.thrown)
      case Throws(e) =>
        if !catchErrors then Run([], Some(e))
        else if e == InvalidArgument then ParseIntsSpec(strings, catchErrors, stoi, i + 1)
        else Run([], None)
  }

  /** `destroySuspendedCoro`: index 1 is the `co_yield` inside the try
      block, with the awaiter, `parsed_`, `it_` and `end_` engaged. */
  function ParseCleanup(index: nat): seq<Local>
  {
    match index
    case 0 => [InitialAwaiter]
    case 1 => [InitialAwaiter, Parsed, Iter, EndIter]
    case 2 => []
    case _ => []
  }

  /** `ramp(strings, catch_errors)` on the heap base: only the initial
      awaiter's constructed-flag starts out set. */
  function ParseRamp(strings: seq<string>, catchErrors: bool): (r: ParseFrame)
    ensures r.frame.suspendIdx == 0 && !r.frame.done && r.frame.strategy == Heap
    ensures r.frame.tryBlock == NoTryBlock
    ensures r.frame.live == {InitialAwaiter} && r.frame.constructed == {InitialAwaiter}
    ensures r.strings == strings && r.catchErrors == catchErrors
    ensures r.promise == NewUnifiedPromise(IntTraits)
  {
    var (f, _) := RampStart(NewFrame(Heap, {InitialAwaiter}), SuspendAlways()).value;
    ParseFrame(f, NewUnifiedPromise(IntTraits), strings, catchErrors, 0, 0)
  }

  /** How `doStepImpl` leaves: parked at the `co_yield`, finished by the
      `co_return` with a handle for the trampoline, or by an exception. */
  datatype BodyExit =
    | Yielded(s: ParseFrame)
    | Returned(s: ParseFrame, next: Handle)
    | Threw(s: ParseFrame, e: Exception)

  /** The position the loop tests first when `doStepImpl` is entered at the
      frame's suspension index: after `++it_` for the labels inside the loop
      body, the beginning otherwise. */
  function LoopPos(s: ParseFrame): nat
  {
    if s.frame.suspendIdx in {1, 12, 20} then s.pos + 1 else 0
  }

  /** A bound on the number of `doStepImpl` calls one `doStep` can make: each
      caught exception either moves the loop one string on or ends it. */
  function Measure(s: ParseFrame): nat
  {
    var n := |s.strings|;
    if s.frame.suspendIdx in {1, 12, 20} then (if s.pos < n then n - s.pos else 0)
    else if s.frame.suspendIdx == 21 then 0
    else n + 1
  }

  /** `doStepImpl`: jump to the label of the suspension index; index 0, and
      any index the switch does not list, runs the body from its entry. */
  function Body(s: ParseFrame, stoi: Stoi): (r: Outcome<BodyExit>)
    ensures r.Ok? ==> r.value.s.strings == s.strings && r.value.s.catchErrors == s.catchErrors
    ensures r.Ok? && r.value.Threw? ==>
              && r.value.s.pos == LoopPos(s) < |s.strings|
              && stoi(s.strings[r.value.s.pos]) == Throws(r.value.e)
              && |s.strings| - r.value.s.pos < Measure(s)
              && r.value.s.frame.tryBlock == InTry(0)
  {
    match s.frame.suspendIdx
    case 1 =>
      // label_1: resume and destroy the awaiter, destroy `parsed_`, leave
      // the try block, then `++it_`.
      var f1 :- Drop(s.frame, InitialAwaiter);
      var f2 :- DestroyUnconditionally(f1, Parsed);
      LoopTest(s.(frame := TryEnd(f2, NoTryBlock), pos := s.pos + 1), stoi)
    case 12 => LoopTest(s.(pos := s.pos + 1), stoi)   // try_end
    case 20 => LoopTest(s.(pos := s.pos + 1), stoi)   // for_continue
    case 21 => LoopExit(s)                            // for_break
    case _ =>
      var f1 :- DestroyUnconditionally(s.frame, InitialAwaiter);
      var f2 :- InitEx(f1, Iter);
      var f3 :- InitEx(f2, EndIter);
      LoopTest(s.(frame := f3, pos := 0), stoi)
  }

  /** The loop condition and, while it holds, the try block up to the
      `co_yield`: `stoi` either throws, or its value is stored in `parsed_`
      and yielded at index 1. Reading `it_` and `end_` needs both cells. */
  function LoopTest(s: ParseFrame, stoi: Stoi): (r: Outcome<BodyExit>)
    ensures r.Ok? ==> r.value.s.strings == s.strings && r.value.s.catchErrors == s.catchErrors
    ensures r.Ok? && r.value.Threw? ==>
              && r.value.s.pos == s.pos < |s.strings| && r.value.s.frame.tryBlock == InTry(0)
              && stoi(s.strings[s.pos]) == Throws(r.value.e)
    ensures r.Ok? && r.value.Yielded? ==>
              && s.pos < |s.strings| && stoi(s.strings[s.pos]) == Converted(r.value.s.parsed)
              && r.value.s.pos == s.pos
  {
    if Iter !in s.frame.live || EndIter !in s.frame.live then Fault(UseAfterFree)
    else if s.pos < |s.strings| then
      var f := TryBegin(s.frame, 0);
      match stoi(s.strings[s.pos])
      case Throws(e) => Ok(Threw(s.(frame := f), e))
      case Converted(n) =>
        var f1 :- InitEx(f, Parsed);
        var f2 :- YieldPark(f1, InitialAwaiter, 1);
        Ok(Yielded(s.(frame := f2, parsed := n, promise := YieldValue(s.promise, n, 0))))
    else
      LoopExit(s)
  }

  /** `for_break`: destroy `end_` and `it_`, then `CO_RETURN_VOID(2, ...)`. */
  function LoopExit(s: ParseFrame): (r: Outcome<BodyExit>)
    ensures r.Ok? ==> r.value.Returned? && r.value.s.strings == s.strings && r.value.s.catchErrors == s.catchErrors
  {
    var f1 :- DestroyUnconditionally(s.frame, EndIter);
    var f2 :- DestroyUnconditionally(f1, Iter);
    var (f3, out) :- CoReturn(f2, ParseCleanup(2), SuspendAlways());
    match out
    case Suspended(h) => Ok(Returned(s.(frame := f3), h))
    case Destroyed => Ok(Returned(s.(frame := f3), Null))
  }

  /** `dispatchExceptionHandling` with `handleCatchClause_0`. Inside try
      block 0 the clause leaves the block, destroys `parsed_` if it was
      constructed, and either records where the body continues (20 for
      `continue`, 21 for `break`) or rethrows to the enclosing level. With
      no try block, the remaining locals are destroyed by their flags and the
      exception is unhandled. */
  function Dispatch(s: ParseFrame, e: Exception): (r: Outcome<(ParseFrame, ExceptionResult)>)
    ensures r.Ok? ==> r.value.0.strings == s.strings && r.value.0.catchErrors == s.catchErrors
    ensures r.Ok? ==> r.value.0.pos == s.pos
    ensures r.Ok? && !r.value.0.frame.done ==>
              && r.value.0.frame.suspendIdx == (if e == InvalidArgument then 20 else 21)
              && s.catchErrors && s.frame.tryBlock == InTry(0)
              && r.value.1 == ExceptionResult(Null, false)
    decreases if s.frame.tryBlock == InTry(0) then 1 else 0
  {
    match s.frame.tryBlock
    case InTry(0) =>
      var f1 := TryEnd(s.frame, NoTryBlock);
      var f2 :- DestroyIfConstructed(f1, Parsed);
      var f3 := f2.(suspendIdx := 12);
      if !s.catchErrors then
        Dispatch(s.(frame := f3), e)
      else
        var next := if e == InvalidArgument then 20 else 21;
        Ok((s.(frame := f3.(suspendIdx := next)), ExceptionResult(Null, false)))
    case InTry(i) =>
      Fault(UnknownIndex(i))
    case NoTryBlock =>
      var f1 :- DestroyIfConstructed(s.frame, EndIter);
      var f2 :- DestroyIfConstructed(f1, Iter);
      var f3 :- DestroyIfConstructed(f2, InitialAwaiter);
      var p1 :- UnifiedUnhandled(s.promise, e);
      var (g, _, er) :- UnhandledException(f3, s.promise, _ => p1, _ => SuspendAlways());
      Ok((s.(frame := g, promise := p1), er))
  }

  /** `stackless_coro_crtp::doStep` with exceptions enabled. */
  function DoStep(s: ParseFrame, stoi: Stoi): (r: Outcome<(ParseFrame, Handle)>)
    ensures r.Ok? ==> r.value.0.strings == s.strings && r.value.0.catchErrors == s.catchErrors
    decreases Measure(s)
  {
    var exit :- Body(s, stoi);
    match exit
    case Yielded(t) => Ok((t, Null))
    case Returned(t, h) => Ok((t, h))
    case Threw(t, e) =>
      var (u, er) :- Dispatch(t, e);
      // The dispatcher hands back a null handle whenever the frame lives on,
      // so the `assert(!handle)` before the second step holds.
      match HeapAfterDispatch(u.frame, er).value
      case ReturnHandle(h) => Ok((u, h))
      case StepAgain => DoStep(u, stoi)
  }

  /** The heap handle's `resume()`: the resume function of a done frame is
      null. */
  function Resume(s: ParseFrame, stoi: Stoi): Outcome<(ParseFrame, Handle)>
  {
    if s.frame.done then Fault(ResumeAfterDone) else DoStep(s, stoi)
  }

  /** The states a consumer can observe: parked at the initial suspension,
      parked at the `co_yield` inside the try block with the converted value
      in `parsed_` and in the promise, or done at the final awaiter. */
  predicate Observable(s: ParseFrame, stoi: Stoi)
  {
    && s.promise.byValue && s.frame.strategy == Heap
    && (|| (&& !s.frame.done && s.frame.suspendIdx == 0 && s.frame.tryBlock == NoTryBlock
            && s.frame.live == {InitialAwaiter} && s.frame.constructed == {InitialAwaiter}
            && s.promise.exception == None)
        || (&& !s.frame.done && s.frame.suspendIdx == 1 && s.frame.tryBlock == InTry(0)
            && s.frame.live == {InitialAwaiter, Iter, EndIter, Parsed}
            && s.frame.constructed == {Iter, EndIter, Parsed}
            && s.pos < |s.strings| && stoi(s.strings[s.pos]) == Converted(s.parsed)
            && s.promise.slot == ByValue(s.parsed) && s.promise.exception == None)
        || (s.frame.done && s.frame.live == {FinalAwaiter} && s.frame.constructed == {}))
  }

  /** The states between a caught exception and the next `doStepImpl` call:
      the catch clause has recorded 20 or 21, and only `it_` and `end_` are
      engaged. */
  predicate Caught(s: ParseFrame)
  {
    && s.promise.byValue && s.frame.strategy == Heap && s.promise.exception == None
    && !s.frame.done && s.frame.suspendIdx in {20, 21} && s.frame.tryBlock == NoTryBlock
    && s.frame.live == {Iter, EndIter} && s.frame.constructed == {Iter, EndIter}
    && s.pos < |s.strings|
  }

  /** What is still to come from a state, by the reference definition. */
  function Remaining(s: ParseFrame, stoi: Stoi): Run
  {
    if s.frame.suspendIdx == 21 then Run([], None)
    else ParseIntsSpec(s.strings, s.catchErrors, stoi, LoopPos(s))
  }

  /** The loop head, reached from an observable or caught state, with only
      `it_` and `end_` engaged and no try block active. */
  lemma {:induction false} EntersLoop(s: ParseFrame, stoi: Stoi)
    requires (Observable(s, stoi) && !s.frame.done) || Caught(s)
    requires s.frame.suspendIdx != 21
    ensures Body(s, stoi) == LoopTest(Head(s), stoi)
  {
    if s.frame.suspendIdx == 0 {
      var f1 := DestroyUnconditionally(s.frame, InitialAwaiter).value;
      assert f1.live == {} && f1.constructed == {};
      var f3 := InitEx(InitEx(f1, Iter).value, EndIter).value;
      assert f3.live == {Iter, EndIter} && f3.constructed == {Iter, EndIter};
    } else if s.frame.suspendIdx == 1 {
      assert {InitialAwaiter, Iter, EndIter, Parsed} - {InitialAwaiter} - {Parsed} == {Iter, EndIter};
      assert {Iter, EndIter, Parsed} - {Parsed} == {Iter, EndIter};
    }
  }

  /** The loop head `EntersLoop` reaches. */
  function Head(s: ParseFrame): ParseFrame
  {
    s.(frame := s.frame.(live := {Iter, EndIter}, constructed := {Iter, EndIter}, tryBlock := NoTryBlock),
       pos := LoopPos(s))
  }

  /** What one `resume()` from `s` must achieve: no protocol violation, a
      null handle for the trampoline, an observable state, and exactly what
      the reference definition says comes next: one more value, or the end
      of the iteration with the exception that ended it. */
  predicate StepDelivers(s: ParseFrame, stoi: Stoi)
  {
    && DoStep(s, stoi).Ok?
    && var (t, h) := DoStep(s, stoi).value;
    && h == Null && Observable(t, stoi)
    && (t.frame.done ==> Remaining(s, stoi) == Run([], t.promise.exception))
    && (!t.frame.done ==>
          var rest := Remaining(t, stoi);
          Remaining(s, stoi) == Run([t.parsed] + rest.values, rest.thrown))
  }

  /** The loop ends by the `break` a caught `out_of_range` recorded (index
      21): the `co_return` parks the frame at its final awaiter. */
  lemma BreakDelivers(s: ParseFrame, stoi: Stoi)
    requires Caught(s) && s.frame.suspendIdx == 21
    ensures StepDelivers(s, stoi)
  {
    StandardAwaiters();
    assert {Iter, EndIter} - {EndIter} - {Iter} == {};
    assert Elems(ParseCleanup(2)) == {};
  }

  /** The loop ends with no string left: the `co_return` parks the frame at
      its final awaiter. */
  lemma ExhaustedDelivers(s: ParseFrame, stoi: Stoi)
    requires (Observable(s, stoi) && !s.frame.done) || Caught(s)
    requires s.frame.suspendIdx != 21 && LoopPos(s) >= |s.strings|
    ensures StepDelivers(s, stoi)
  {
    StandardAwaiters();
    assert {Iter, EndIter} - {EndIter} - {Iter} == {};
    assert Elems(ParseCleanup(2)) == {};
    EntersLoop(s, stoi);
  }

  /** The string at the loop head converts: it is yielded at index 1. */
  lemma YieldDelivers(s: ParseFrame, stoi: Stoi)
    requires (Observable(s, stoi) && !s.frame.done) || Caught(s)
    requires s.frame.suspendIdx != 21 && LoopPos(s) < |s.strings|
    requires stoi(s.strings[LoopPos(s)]).Converted?
    ensures StepDelivers(s, stoi)
  {
    StandardAwaiters();
    EntersLoop(s, stoi);
    var t := DoStep(s, stoi).value.0;
    assert t.frame.live == {Iter, EndIter} + {Parsed} + {InitialAwaiter};
  }

  /** The string at the loop head throws and `catch_errors` is false: the
      catch clause rethrows, the exception is unhandled and stored, and the
      frame parks at its final awaiter. */
  lemma UncaughtDelivers(s: ParseFrame, stoi: Stoi)
    requires (Observable(s, stoi) && !s.frame.done) || Caught(s)
    requires s.frame.suspendIdx != 21 && LoopPos(s) < |s.strings|
    requires stoi(s.strings[LoopPos(s)]).Throws? && !s.catchErrors
    ensures StepDelivers(s, stoi)
  {
    StandardAwaiters();
    EntersLoop(s, stoi);
    var head := Head(s);
    var e := stoi(s.strings[LoopPos(s)]).e;
    var t := head.(frame := TryBegin(head.frame, 0));
    assert Body(s, stoi) == Ok(Threw(t, e));
    var f3 := TryEnd(t.frame, NoTryBlock).(suspendIdx := 12);
    assert DestroyIfConstructed(TryEnd(t.frame, NoTryBlock), Parsed) == Ok(TryEnd(t.frame, NoTryBlock));
    assert Dispatch(t, e) == Dispatch(t.(frame := f3), e);
    var g := DestroyIfConstructed(DestroyIfConstructed(f3, EndIter).value, Iter).value;
    assert g.live == {} && g.constructed == {};
    assert DestroyIfConstructed(g, InitialAwaiter) == Ok(g);
  }

  /** The string at the loop head throws and `catch_errors` is true: the
      catch clause records `continue` or `break`, and `doStep` steps the
      frame again from there, with the same values still to come. */
  lemma CaughtStepsAgain(s: ParseFrame, stoi: Stoi) returns (u: ParseFrame)
    requires (Observable(s, stoi) && !s.frame.done) || Caught(s)
    requires s.frame.suspendIdx != 21 && LoopPos(s) < |s.strings|
    requires stoi(s.strings[LoopPos(s)]).Throws? && s.catchErrors
    ensures Caught(u) && Measure(u) < Measure(s)
    ensures DoStep(s, stoi) == DoStep(u, stoi) && Remaining(s, stoi) == Remaining(u, stoi)
  {
    EntersLoop(s, stoi);
    var head := Head(s);
    var e := stoi(s.strings[LoopPos(s)]).e;
    var t := head.(frame := TryBegin(head.frame, 0));
    assert Body(s, stoi) == Ok(Threw(t, e));
    u := Dispatch(t, e).value.0;
  }

  /** One `resume()` from an observable, unfinished state (or from a caught
      state, on the way) delivers what the reference definition says comes
      next; a caught exception costs a further `doStepImpl` call, which
      the induction covers. */
  lemma {:induction false} StepMatchesSpec(s: ParseFrame, stoi: Stoi)
    requires (Observable(s, stoi) && !s.frame.done) || Caught(s)
    ensures StepDelivers(s, stoi)
    decreases Measure(s)
  {
    if s.frame.suspendIdx == 21 {
      BreakDelivers(s, stoi);
    } else if LoopPos(s) >= |s.strings| {
      ExhaustedDelivers(s, stoi);
    } else if stoi(s.strings[LoopPos(s)]).Converted? {
      YieldDelivers(s, stoi);
    } else if !s.catchErrors {
      UncaughtDelivers(s, stoi);
    } else {
      var u := CaughtStepsAgain(s, stoi);
      StepMatchesSpec(u, stoi);
    }
  }

  /** Every state a consumer can observe is destroyed without a double or
      missing destroy and leaves no cell engaged, and its constructed-flags
      are sound, so an exception at any point could be cleaned up by them. */
  lemma DestroyIsSafe(s: ParseFrame, stoi: Stoi)
    requires Observable(s, stoi)
    ensures FlagsSound(s.frame)
    ensures DestroyFrame(s.frame, ParseCleanup).Ok?
    ensures DestroyFrame(s.frame, ParseCleanup).value.live == {}
  {
    if !s.frame.done {
      var ops := ParseCleanup(s.frame.suspendIdx);
      if s.frame.suspendIdx == 1 {
        assert ops[0] == InitialAwaiter && ops[1] == Parsed && ops[2] == Iter && ops[3] == EndIter;
        assert Elems(ops) == {InitialAwaiter, Iter, EndIter, Parsed};
      } else {
        assert ops[0] == InitialAwaiter;
        assert Elems(ops) == {InitialAwaiter};
      }
    }
    DestroyEmpties(s.frame, ParseCleanup);
  }

  /** `begin()` or `++it` as the range-for sees it: one `resume()`, then a
      stored exception is rethrown once the frame is done. */
  function Advance(s: ParseFrame, stoi: Stoi): Outcome<(ParseFrame, Option<Exception>)>
  {
    var (t, _) :- Resume(s, stoi);
    var after := UnifiedAfterResume(t.frame.done, t.promise);
    Ok((t.(promise := after.0), after.1))
  }

  /** The generator as the iterator sees it: done-ness and promise live in
      the frame. */
  function ParseView(): GenView<ParseFrame, int>
  {
    GenView((s: ParseFrame) => s.frame.done, (s: ParseFrame) => s.promise,
            (s: ParseFrame, p: UnifiedPromise<int>) => s.(promise := p))
  }

  /** `Advance` is the generic `begin()` (and `++it`) of a heap generator
      whose resume function is this frame's `Resume`: from an observable,
      unfinished state it is one resume call without a transfer, the
      iterator refers to the handle, and the exception the promise holds is
      thrown once the frame is done. */
  lemma AdvanceIsBegin(s: ParseFrame, stoi: Stoi, a: nat, budget: nat)
    requires Observable(s, stoi) && !s.frame.done && 1 <= budget
    ensures Advance(s, stoi).Ok?
    ensures var (u, thrown) := Advance(s, stoi).value;
            && Begin((t: ParseFrame, _: nat) => Resume(t, stoi), ParseView(), true, s, Ptr(a), budget)
               == Finished((u, ToHandle(true), thrown), 1)
            && ResumeThenRethrow((t: ParseFrame, _: nat) => Resume(t, stoi), ParseView(), s, Ptr(a), budget)
               == Finished((u, ToHandle(true), thrown), 1)
  {
    StepMatchesSpec(s, stoi);
    BeginStepsOnce((t: ParseFrame, _: nat) => Resume(t, stoi), ParseView(), true, s, a, budget);
  }

  /** A range-for that has read `ys` and holds state `s` with `thrown`
      pending agrees with the reference `spec`: once the frame is done it
      has read every value and the exception that ended the iteration is
      pending; otherwise nothing is pending and the value on offer and
      those after it complete `spec`. */
  predicate ReadSoFar(s: ParseFrame, stoi: Stoi, ys: seq<int>, thrown: Option<Exception>, spec: Run)
  {
    && Observable(s, stoi)
    && (s.frame.done ==> ys == spec.values && thrown == spec.thrown)
    && (!s.frame.done ==>
          && thrown == None
          && var rest := Remaining(s, stoi);
          spec == Run(ys + [s.parsed] + rest.values, rest.thrown))
  }

  /** Advancing from an observable, unfinished state, after the consumer has
      read `pre`: either the iteration ends with everything the reference
      definition promises read and its exception rethrown, or one more
      value is on offer and the rest still agrees with the reference. */
  lemma AdvanceMatchesSpec(s: ParseFrame, stoi: Stoi, pre: seq<int>, spec: Run)
    requires Observable(s, stoi) && !s.frame.done
    requires spec == Run(pre + Remaining(s, stoi).values, Remaining(s, stoi).thrown)
    ensures Advance(s, stoi).Ok?
    ensures var (u, thrown) := Advance(s, stoi).value;
            && ReadSoFar(u, stoi, pre, thrown, spec)
            && u.strings == s.strings && u.catchErrors == s.catchErrors
            && |pre| <= |spec.values|
  {
    StepMatchesSpec(s, stoi);
  }

  /** Where the range-for leaves the loop: with every value read and the
      reference's exception pending when the frame is done, and with
      exactly the first `limit` values read when it broke early. */
  lemma LeavesLoop(s: ParseFrame, stoi: Stoi, ys: seq<int>, thrown: Option<Exception>, spec: Run, limit: nat)
    requires ReadSoFar(s, stoi, ys, thrown, spec) && |ys| <= limit
    requires s.frame.done || |ys| >= limit
    ensures limit >= |spec.values| ==> ys == spec.values && thrown == spec.thrown && s.frame.done
    ensures limit < |spec.values| ==> ys == spec.values[..limit] && thrown == None
  {
    if !s.frame.done {
      assert spec.values[..|ys|] == ys;
    }
  }

  /** A range-for over `throwing_parse_ints(strings, catch_errors)` that
      breaks before reading a value once it has `limit` of them: `begin()`,
      then the value under the iterator and `++it` until the sentinel, where
      `begin()` and `++it` rethrow an exception the promise holds once the
      frame is done. Returns the values read, the exception that left the
      loop, and the frame as the generator's destructor finds it. */
  method Consume(strings: seq<string>, catchErrors: bool, stoi: Stoi, limit: nat)
    returns (ys: seq<int>, thrown: Option<Exception>, s: ParseFrame)
    ensures var spec := ParseIntsSpec(strings, catchErrors, stoi, 0);
            && (limit >= |spec.values| ==> ys == spec.values && thrown == spec.thrown && s.frame.done)
            && (limit < |spec.values| ==> ys == spec.values[..limit] && thrown == None)
    ensures DestroyFrame(s.frame, ParseCleanup).Ok? && DestroyFrame(s.frame, ParseCleanup).value.live == {}
  {
    var spec := ParseIntsSpec(strings, catchErrors, stoi, 0);
    s := ParseRamp(strings, catchErrors);
    AdvanceMatchesSpec(s, stoi, [], spec);
    s, thrown := Advance(s, stoi).value.0, Advance(s, stoi).value.1;
    ys := [];
    while thrown == None && !UnifiedAtEnd(ToHandle(true), s.frame.done)
      invariant ReadSoFar(s, stoi, ys, thrown, spec) && s.strings == strings && s.catchErrors == catchErrors
      invariant |ys| <= limit && |ys| <= |spec.values|
      decreases |spec.values| - |ys|, !s.frame.done
    {
      if |ys| >= limit {
        break;
      }
      ys := ys + [Value(s.promise, map[])];
      AdvanceMatchesSpec(s, stoi, ys, spec);
      s, thrown := Advance(s, stoi).value.0, Advance(s, stoi).value.1;
    }
    LeavesLoop(s, stoi, ys, thrown, spec, limit);
    DestroyIsSafe(s, stoi);
  }
}
