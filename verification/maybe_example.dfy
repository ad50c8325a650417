/**
  The maybe coroutines of src/optional_monad/maybe_example.cpp next to the
  hand-written functions they are meant to agree with:

  - `chained_calculation(a, b, c, reps)`: an inline frame that, `reps`
    times, awaits `safe_divide(a, b)` and then `safe_sqrt(c)` and adds both
    to its result; an absent value short-circuits the whole computation.
  - `with_exceptions(x)`: a heap frame that throws for a negative `x`, which
    the promise turns into an absent result, and returns `2x` otherwise.

  `int` arithmetic is unbounded here; the loop counter is a `size_t`, and
  the comparison `i < reps` converts `reps` to `size_t`, which is modelled
  exactly.
 */
module MaybeExample {
  import opened Wrappers
  import opened Storage
  import opened Handles
  import opened Awaiters
  import opened Frames
  import opened Maybe

  // ----- safe_divide and safe_sqrt -----

  function Abs(n: int): nat
  {
    if n < 0 then -n else n
  }

  /** C++ `/` on `int`: the quotient truncated toward zero. */
  function TruncDiv(n: int, d: int): int
    requires d != 0
  {
    var q := Abs(n) / Abs(d);
    if (n < 0) == (d < 0) then q else -q
  }

  /** The truncated quotient is a division whose remainder is smaller than
      the divisor and takes the sign of the dividend (C++'s rule), unlike
      Dafny's own `/`. */
  lemma TruncDivIsDivision(n: int, d: int)
    requires d != 0
    ensures var r := n - d * TruncDiv(n, d);
            Abs(r) < Abs(d) && (r == 0 || (r < 0) == (n < 0))
  {
    var q, m := Abs(n) / Abs(d), Abs(n) % Abs(d);
    assert Abs(n) == Abs(d) * q + m;
    if (n < 0) == (d < 0) {
      assert n - d * q == if n < 0 then -m else m;
    } else {
      assert n - d * -q == if n < 0 then -m else m;
    }
  }

  /** `safe_divide(numerator, denominator)`. */
  function SafeDivide(n: int, d: int): (r: Option<int>)
    ensures r.None? <==> d == 0
    ensures r.Some? ==> r.value == TruncDiv(n, d)
  {
    if d == 0 then None else Some(TruncDiv(n, d))
  }

  /** The integer square root, the floor of `std::sqrt` on an `int`. */
  function Isqrt(x: nat): (r: nat)
    ensures r * r <= x < (r + 1) * (r + 1)
  {
    if x == 0 then 0
    else
      var s := Isqrt(x - 1);
      if (s + 1) * (s + 1) <= x then s + 1 else s
  }

  lemma SquareMonotone(a: nat, b: nat)
    requires a <= b
    ensures a * a <= b * b
  {
  }

  /** The floor square root is the only number whose square is at most `x`
      and whose successor's square exceeds `x`. */
  lemma IsqrtUnique(x: nat, r: nat)
    requires r * r <= x < (r + 1) * (r + 1)
    ensures Isqrt(x) == r
  {
    var s := Isqrt(x);
    if s < r {
      SquareMonotone(s + 1, r);
    } else if r < s {
      SquareMonotone(r + 1, s);
    }
  }

  /** `safe_sqrt(x)`. */
  function SafeSqrt(x: int): (r: Option<int>)
    ensures r.None? <==> x < 0
    ensures r.Some? ==> r.value >= 0 && r.value * r.value <= x < (r.value + 1) * (r.value + 1)
  {
    if x < 0 then None else Some(Isqrt(x))
  }

  /** The examples the helpers are documented with. */
  lemma HelperExamples()
    ensures SafeDivide(10, 2) == Some(5) && SafeDivide(10, 0) == None && SafeDivide(-10, 2) == Some(-5)
    ensures SafeSqrt(16) == Some(4) && SafeSqrt(0) == Some(0) && SafeSqrt(100) == Some(10)
    ensures SafeSqrt(5) == Some(2) && SafeSqrt(-4) == None
  {
    IsqrtUnique(16, 4);
    IsqrtUnique(100, 10);
    IsqrtUnique(5, 2);
  }

  // ----- chained_calculation_no_coro -----

  const SizeModulus: int := 0x1_0000_0000_0000_0000

  /** The number of iterations of `for (size_t i = 0; i < reps; ++i)`:
      `reps` converted to `size_t`. */
  function LoopCount(reps: int): (n: nat)
    ensures 0 <= reps < SizeModulus ==> n == reps
    ensures -SizeModulus <= reps < 0 ==> n == reps + SizeModulus
  {
    reps % SizeModulus
  }

  /** The loop of `chained_calculation_no_coro` with `n` iterations left:
      each divides, then takes the root, and returns absent at the first
      failure. */
  function NoCoroLoop(a: int, b: int, c: int, n: nat, result: int): Option<int>
    decreases n
  {
    if n == 0 then Some(result)
    else
      match SafeDivide(a, b)
      case None => None
      case Some(r1) =>
        match SafeSqrt(c)
        case None => None
        case Some(r2) => NoCoroLoop(a, b, c, n - 1, result + (r1 + r2))
  }

  /** `chained_calculation_no_coro(a, b, c, reps)`. */
  function ChainedNoCoro(a: int, b: int, c: int, reps: int): Option<int>
  {
    NoCoroLoop(a, b, c, LoopCount(reps), 0)
  }

  lemma Distribute(n: int, k: int, result: int)
    ensures result + k + (n - 1) * k == result + n * k
  {
  }

  /** The loop adds the same quotient and root every time: without any
      iteration the result is 0, otherwise it is absent iff `b` is 0 or `c`
      is negative, and present `n (a/b + sqrt c)` otherwise. */
  lemma {:induction false} NoCoroClosedForm(a: int, b: int, c: int, n: nat, result: int)
    ensures NoCoroLoop(a, b, c, n, result) ==
              if n == 0 then Some(result)
              else if b == 0 || c < 0 then None
              else Some(result + n * (TruncDiv(a, b) + Isqrt(c)))
    decreases n
  {
    if n > 0 && b != 0 && c >= 0 {
      var k := TruncDiv(a, b) + Isqrt(c);
      NoCoroClosedForm(a, b, c, n - 1, result + k);
      Distribute(n, k, result);
    }
  }

  // ----- chained_calculation -----

  /** `destroySuspendedCoro` as written: index 0 destroys the initial
      awaiter, index 3 nothing, and the awaits at indices 1 and 2 have no
      case. */
  function ChainedCleanupAsWritten(index: nat): seq<Local>
  {
    match index
    case 0 => [InitialAwaiter]
    case 3 => []
    case _ => []
  }

  /** The cleanup table the frame needs: the awaiter engaged at indices 1
      and 2 is destroyed as well. */
  function ChainedCleanup(index: nat): seq<Local>
  {
    match index
    case 0 => [InitialAwaiter]
    case 1 => [AwaiterStorage]
    case 2 => [AwaiterStorage]
    case _ => []
  }

  /** The frame, the result holders and `result_`. */
  datatype ChainedRun = ChainedRun(frame: Frame, holders: Holders<Option<int>>, result: int)

  /** The loop of `doStepImpl` from iteration `i` of `n` on, up to the end
      of the step: a short circuit, or the `co_return`. */
  function ChainedLoop(s: ChainedRun, a: int, b: int, c: int, n: nat, i: nat, table: CleanupTable): Outcome<ChainedRun>
    decreases n - i
  {
    if i < n then
      // CO_AWAIT(1, awaiter_storage_, safe_divide(a_, b_), result1_ =)
      var (f1, h1, r1) :- MaybeAwait(s.frame, s.holders, SafeDivide(a, b), 1, table);
      match r1
      case ShortCircuit => Ok(ChainedRun(f1, h1, s.result))
      case Continue(result1) =>
        // CO_AWAIT(2, awaiter_storage_, safe_sqrt(c_), result2_ =)
        var (f2, h2, r2) :- MaybeAwait(f1, h1, SafeSqrt(c), 2, table);
        match r2
        case ShortCircuit => Ok(ChainedRun(f2, h2, s.result))
        case Continue(result2) => ChainedLoop(ChainedRun(f2, h2, s.result + (result1 + result2)), a, b, c, n, i + 1, table)
    else
      // CO_RETURN_VALUE(3, final_awaiter_, result_)
      var h :- MaybeReturnValue(s.holders, s.result);
      var (f, _) :- CoReturn(s.frame, table(3), MaybeSuspend());
      Ok(ChainedRun(f, h, s.result))
  }

  /** `chained_calculation(a, b, c, reps)` with the cleanup table `table`:
      the inline ramp constructs the return object (the holder at address
      0), awaits the initial `SuspendNever` and runs the single step at
      once; then the holder is converted into the caller's optional. Also
      gives the frame as it is left when the ramp returns. */
  function ChainedCalculation(a: int, b: int, c: int, reps: int, table: CleanupTable): Outcome<(Option<int>, Frame)>
  {
    var h0 := MakeHolder<Option<int>>(0);
    var f0 := RampStart(NewFrame(Inline, {}), MaybeSuspend()).value.0;
    // doStep: resume the initial awaiter and destroy it; `result_ = 0`.
    var f1 := Drop(f0, InitialAwaiter).value;
    var run :- ChainedLoop(ChainedRun(f1, h0, 0), a, b, c, LoopCount(reps), 0, table);
    var v :- Convert(run.holders, 0);
    Ok((v, run.frame))
  }

  /** The tables whose await entries destroy at most the awaiter, and whose
      return entry destroys nothing: both tables above. */
  predicate AwaitEntriesAtMostAwaiter(table: CleanupTable)
  {
    && (table(1) == [] || table(1) == [AwaiterStorage])
    && (table(2) == [] || table(2) == [AwaiterStorage])
    && table(3) == []
  }

  /** The loop of the coroutine computes what the hand-written loop
      computes, through the holder, and stops at the await that failed: a
      zero divisor at index 1 before the root is taken, a negative radicand
      at index 2. The frame finishes iff the result is present; a short
      circuit leaves at most the awaiter engaged, and none when the table
      destroys it. */
  lemma {:induction false} ChainedLoopAgrees(s: ChainedRun, a: int, b: int, c: int, n: nat, i: nat, table: CleanupTable)
    requires i <= n && AwaitEntriesAtMostAwaiter(table)
    requires !s.frame.done && s.frame.live == {}
    requires s.holders.back == 0 && s.holders.at.Keys == {0}
    ensures ChainedLoop(s, a, b, c, n, i, table).Ok?
    ensures var t := ChainedLoop(s, a, b, c, n, i, table).value;
            && t.holders.back == 0 && t.holders.at.Keys == {0}
            && Convert(t.holders, 0) == Ok(NoCoroLoop(a, b, c, n - i, s.result))
            && (t.frame.done <==> NoCoroLoop(a, b, c, n - i, s.result).Some?)
            && (t.frame.done ==> t.frame.live == {})
            && (!t.frame.done ==> t.frame.live <= {AwaiterStorage} && (t.frame.suspendIdx == 1 || t.frame.suspendIdx == 2))
            && (!t.frame.done && table(t.frame.suspendIdx) == [AwaiterStorage] ==> t.frame.live == {})
            && (i < n && b == 0 ==> !t.frame.done && t.frame.suspendIdx == 1)
            && (i < n && b != 0 && c < 0 ==> !t.frame.done && t.frame.suspendIdx == 2)
    decreases n - i
  {
    StandardAwaiters();
    if i < n {
      var g1 := s.frame.(suspendIdx := 1, live := {AwaiterStorage});
      if b == 0 {
        assert Elems(table(1)) <= g1.live by {
          if table(1) != [] { assert table(1)[0] == AwaiterStorage; }
        }
      } else {
        var f1 := s.frame.(suspendIdx := 1);
        var g2 := f1.(suspendIdx := 2, live := {AwaiterStorage});
        if c < 0 {
          assert Elems(table(2)) <= g2.live by {
            if table(2) != [] { assert table(2)[0] == AwaiterStorage; }
          }
        } else {
          var r := SafeDivide(a, b).value + SafeSqrt(c).value;
          ChainedLoopAgrees(ChainedRun(f1.(suspendIdx := 2), s.holders, s.result + r), a, b, c, n, i + 1, table);
        }
      }
    } else {
      assert Elems(table(3)) == {};
    }
  }

  /** The coroutine agrees with `chained_calculation_no_coro` on presence
      and value, whichever of the two tables it runs with; with the
      corrected table the ramp leaves no cell of the frame engaged. */
  lemma ChainedAgrees(a: int, b: int, c: int, reps: int)
    ensures ChainedCalculation(a, b, c, reps, ChainedCleanup).Ok?
    ensures ChainedCalculation(a, b, c, reps, ChainedCleanupAsWritten).Ok?
    ensures ChainedCalculation(a, b, c, reps, ChainedCleanup).value.0 == ChainedNoCoro(a, b, c, reps)
    ensures ChainedCalculation(a, b, c, reps, ChainedCleanupAsWritten).value.0 == ChainedNoCoro(a, b, c, reps)
    ensures ChainedCalculation(a, b, c, reps, ChainedCleanup).value.1.live == {}
  {
    StandardAwaiters();
    var f1 := Drop(RampStart(NewFrame(Inline, {}), MaybeSuspend()).value.0, InitialAwaiter).value;
    var h0 := MakeHolder<Option<int>>(0);
    ChainedLoopAgrees(ChainedRun(f1, h0, 0), a, b, c, LoopCount(reps), 0, ChainedCleanup);
    ChainedLoopAgrees(ChainedRun(f1, h0, 0), a, b, c, LoopCount(reps), 0, ChainedCleanupAsWritten);
  }

  /** Short-circuit ordering: with at least one iteration, a zero divisor
      ends the computation at the divide (index 1) before the root is taken,
      and a negative radicand ends it at the root (index 2); otherwise the
      frame runs to its `co_return`. */
  lemma ShortCircuitOrder(a: int, b: int, c: int, reps: int)
    requires LoopCount(reps) > 0
    ensures ChainedCalculation(a, b, c, reps, ChainedCleanup).Ok?
    ensures var f := ChainedCalculation(a, b, c, reps, ChainedCleanup).value.1;
            && (b == 0 ==> !f.done && f.suspendIdx == 1)
            && (b != 0 && c < 0 ==> !f.done && f.suspendIdx == 2)
            && (b != 0 && c >= 0 ==> f.done)
  {
    StandardAwaiters();
    var f1 := Drop(RampStart(NewFrame(Inline, {}), MaybeSuspend()).value.0, InitialAwaiter).value;
    ChainedLoopAgrees(ChainedRun(f1, MakeHolder(0), 0), a, b, c, LoopCount(reps), 0, ChainedCleanup);
    NoCoroClosedForm(a, b, c, LoopCount(reps), 0);
  }

  /** The documented results, with one iteration. */
  lemma ChainedExamples()
    ensures ChainedCalculation(10, 2, 16, 1, ChainedCleanup).Ok?
            && ChainedCalculation(10, 2, 16, 1, ChainedCleanup).value.0 == Some(9)
    ensures ChainedCalculation(10, 0, 16, 1, ChainedCleanup).Ok?
            && ChainedCalculation(10, 0, 16, 1, ChainedCleanup).value.0 == None
    ensures ChainedCalculation(10, 2, -4, 1, ChainedCleanup).Ok?
            && ChainedCalculation(10, 2, -4, 1, ChainedCleanup).value.0 == None
  {
    ChainedAgrees(10, 2, 16, 1);
    ChainedAgrees(10, 0, 16, 1);
    ChainedAgrees(10, 2, -4, 1);
    HelperExamples();
    NoCoroClosedForm(10, 2, 16, 1, 0);
  }

  /** With the table as written, a short circuit leaves the awaiter cell
      engaged when the frame is destroyed: `chained_calculation(10, 0, 16)`
      destroys its frame at index 1, where the table has no case. */
  lemma AsWrittenLeavesAwaiterEngaged()
    ensures ChainedCalculation(10, 0, 16, 1, ChainedCleanupAsWritten).Ok?
    ensures var f := ChainedCalculation(10, 0, 16, 1, ChainedCleanupAsWritten).value.1;
            !f.done && f.suspendIdx == 1 && AwaiterStorage in f.live
  {
    StandardAwaiters();
    var f1 := Drop(RampStart(NewFrame(Inline, {}), MaybeSuspend()).value.0, InitialAwaiter).value;
    var h0 := MakeHolder<Option<int>>(0);
    ChainedLoopAgrees(ChainedRun(f1, h0, 0), 10, 0, 16, 1, 0, ChainedCleanupAsWritten);
    assert Elems(ChainedCleanupAsWritten(1)) == {};
  }

  // ----- with_exceptions -----

  /** `with_exceptions_no_coro(x)`: the `throw` for a negative `x` lands in
      `catch (...)`, which returns absent. */
  function WithExceptionsNoCoro(x: int): Option<int>
  {
    if x < 0 then None else Some(x * 2)
  }

  /** `destroySuspendedCoro` of `with_exceptions`. */
  function WithExceptionsCleanup(index: nat): seq<Local>
  {
    match index
    case 0 => [InitialAwaiter]
    case _ => []
  }

  /** `unhandled_exception()` of the maybe promise, as the promise update the
      base's unhandled-exception path applies. */
  function CaptureAbsent(p: Outcome<Holders<Option<int>>>): Outcome<Holders<Option<int>>>
  {
    match p
    case Ok(h) => MaybeAbsent(h)
    case Fault(e) => Fault(e)
  }

  /** `with_exceptions(x)`: a heap frame whose ramp runs the single step
      through the handle at once. A negative `x` throws outside any try
      block, so `doStep` catches it, and here the dispatcher hands it to the
      base's unhandled path (the body's own dispatcher does not; see
      `WithExceptionsAsWritten`): the promise stages absent, the final
      `SuspendNever` does not suspend, and the frame is deleted. Otherwise
      `CO_RETURN_VALUE(1, final_awaiter_, x_ * 2)` stages the value and
      deletes the frame the same way. Gives the caller's optional and
      whether the frame was deleted before the ramp returned. */
  function WithExceptions(x: int): (Option<int>, bool)
  {
    StandardAwaiters();
    var h0 := MakeHolder<Option<int>>(0);
    var f0 := RampStart(NewFrame(Heap, {}), MaybeSuspend()).value.0;
    var f1 := Drop(f0, InitialAwaiter).value;
    if x < 0 then
      var (f2, p, er) := UnhandledException(f1, Ok(h0), CaptureAbsent, _ => MaybeSuspend()).value;
      var after := HeapAfterDispatch(f2, er).value;
      (Convert(p.value, 0).value, er.frameDestroyed && after == ReturnHandle(Null) && Deallocates(f2))
    else
      var h1 := MaybeReturnValue(h0, x * 2).value;
      var (f2, out) := CoReturn(f1, WithExceptionsCleanup(1), MaybeSuspend()).value;
      (Convert(h1, 0).value, out.Destroyed? && Deallocates(f2))
  }

  /** The coroutine agrees with `with_exceptions_no_coro` for every input,
      and never outlives its ramp. */
  lemma WithExceptionsAgrees(x: int)
    ensures WithExceptions(x) == (WithExceptionsNoCoro(x), true)
  {
    StandardAwaiters();
    if x >= 0 {
      assert Elems(WithExceptionsCleanup(1)) == {};
    }
  }

  /** `with_exceptions(x)` with its dispatcher as written. For a negative
      `x`, `dispatchExceptionHandling` lets the promise stage absent and sets
      done, but awaits no final awaiter and deletes nothing. The heap
      `doStep` finds the frame kept and done and returns a null handle, and
      the ramp returns only the holder, so nothing holds the frame's handle
      any more. Gives the caller's optional and whether the frame was deleted
      before the ramp returned. */
  function WithExceptionsAsWritten(x: int): (Option<int>, bool)
  {
    StandardAwaiters();
    if x < 0 then
      var h0 := MakeHolder<Option<int>>(0);
      var f0 := RampStart(NewFrame(Heap, {}), MaybeSuspend()).value.0;
      var f1 := Drop(f0, InitialAwaiter).value;
      var p := MaybeAbsent(h0).value;
      var f2 := f1.(done := true);
      var er := ExceptionResult(Null, false);
      var after := HeapAfterDispatch(f2, er).value;
      (Convert(p, 0).value, er.frameDestroyed && after == ReturnHandle(Null) && Deallocates(f2))
    else
      WithExceptions(x)
  }

  /** As written, the caller still receives the right optional for every
      input, but the heap frame outlives the ramp exactly when `x` is
      negative: the frame of `with_exceptions(-1)` is never deleted. */
  lemma WithExceptionsAsWrittenLeaks(x: int)
    ensures WithExceptionsAsWritten(x).0 == WithExceptionsNoCoro(x)
    ensures !WithExceptionsAsWritten(x).1 <==> x < 0
    ensures WithExceptionsAsWritten(-1) == (None, false)
  {
    WithExceptionsAgrees(x);
    WithExceptionsAgrees(-1);
  }

  /** The documented results. */
  lemma WithExceptionsExamples()
    ensures WithExceptions(-1).0 == None && WithExceptions(5).0 == Some(10) && WithExceptions(0).0 == Some(0)
  {
    WithExceptionsAgrees(-1);
    WithExceptionsAgrees(5);
    WithExceptionsAgrees(0);
  }
}
