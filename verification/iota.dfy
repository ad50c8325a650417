/**
  `iota_unified(start, end)` (src/generator/iota_unified.h): a generator of
  `int` that yields `start, start + 1, ..., end - 1`, lowered by hand into a
  frame that runs on either base. `int` is trivially copyable and four bytes
  wide, so the promise stores the yielded values by value.

  The frame keeps the two arguments next to the base's state. Its step
  (`doStepImpl`) and its cleanup table do not depend on the base; only the
  way a step is entered does: through the handle's resume function for a
  heap frame, and by a direct call that asserts a null result for an inline
  frame.
 */
module Iota {
  import opened Wrappers
  import opened Storage
  import opened Handles
  import opened Awaiters
  import opened Frames
  import opened Generators

  datatype IotaFrame = IotaFrame(frame: Frame, promise: UnifiedPromise<int>, start: int, end: int)

  /** The values the generator promises: `start` up to, not including, `end`. */
  function IotaSpec(start: int, end: int): (ys: seq<int>)
    ensures |ys| == if start < end then end - start else 0
    ensures forall k | 0 <= k < |ys| :: ys[k] == start + k
    decreases end - start
  {
    if start < end then [start] + IotaSpec(start + 1, end) else []
  }

  /** `destroySuspendedCoro`: indices 0 and 1 (which falls through into 2)
      destroy the awaiter cell; index 2 destroys nothing; the switch has no
      other case. */
  function IotaCleanup(index: nat): seq<Local>
  {
    match index
    case 0 => [InitialAwaiter]
    case 1 => [InitialAwaiter]
    case 2 => []
    case _ => []
  }

  /** `ramp(start, end)`: construct the frame, construct the initial
      awaiter (`SuspendAlways`) and park at index 0 without running the body. */
  function IotaRamp(strategy: Strategy, start: int, end: int): (r: IotaFrame)
    ensures r.frame.suspendIdx == 0 && !r.frame.done
    ensures r.frame.live == {InitialAwaiter} && r.frame.strategy == strategy
    ensures r.start == start && r.end == end
    ensures r.promise == NewUnifiedPromise(IntTraits)
  {
    StandardAwaiters();
    var (f, _) := RampStart(NewFrame(strategy, {}), SuspendAlways()).value;
    IotaFrame(f, NewUnifiedPromise(IntTraits), start, end)
  }

  /** `doStepImpl`: resume from the suspension index, then run the loop
      until the next `co_yield` or the `co_return`. */
  function IotaStep(s: IotaFrame): (r: Outcome<(IotaFrame, Handle)>)
  {
    if s.frame.suspendIdx == 1 then
      // label_1: await_resume, destroy the awaiter, then `++start_`.
      var f :- Drop(s.frame, InitialAwaiter);
      IotaLoop(s.(frame := f, start := s.start + 1))
    else
      // case 0, and any index the switch does not list, falls to the entry.
      var f :- Drop(s.frame, InitialAwaiter);
      IotaLoop(s.(frame := f))
  }

  /** The loop head: `co_yield start_` while `start_ < end_`, then
      `CO_RETURN_VOID(2, final_awaiter_)`. */
  function IotaLoop(s: IotaFrame): (r: Outcome<(IotaFrame, Handle)>)
  {
    if s.start < s.end then
      var p := YieldValue(s.promise, s.start, 0);
      var f :- YieldPark(s.frame, InitialAwaiter, 1);
      Ok((s.(frame := f, promise := p), Null))
    else
      var (f, out) :- CoReturn(s.frame, IotaCleanup(2), SuspendAlways());
      match out
      case Suspended(h) => Ok((s.(frame := f), h))
      case Destroyed => Ok((s.(frame := f), Null))
  }

  /** The states a consumer can observe between steps: parked at the initial
      suspension, parked at the `co_yield` with the current value in the
      promise, or finished and parked at the final awaiter. */
  predicate Observable(s: IotaFrame)
  {
    && s.promise.byValue
    && (|| (!s.frame.done && s.frame.suspendIdx == 0 && s.frame.live == {InitialAwaiter})
       || (!s.frame.done && s.frame.suspendIdx == 1 && s.frame.live == {InitialAwaiter}
           && s.start < s.end && s.promise.slot == ByValue(s.start))
       || (s.frame.done && s.frame.live == {FinalAwaiter} && s.frame.suspendIdx <= 1))
  }

  /** A step from an observable, unfinished state never violates the
      protocol, hands the trampoline a null handle, and lands in an
      observable state: either parked at index 1 with the next value in the
      promise, or done once that value reaches `end`. */
  lemma StepKeepsObservable(s: IotaFrame)
    requires Observable(s) && !s.frame.done
    ensures IotaStep(s).Ok?
    ensures var t, h := IotaStep(s).value.0, IotaStep(s).value.1;
            var next := if s.frame.suspendIdx == 1 then s.start + 1 else s.start;
            && h == Null && Observable(t) && t.end == s.end && t.frame.strategy == s.frame.strategy
            && t.start == next && t.promise.byValue == s.promise.byValue
            && (t.frame.done <==> next >= s.end)
            && (!t.frame.done ==> t.frame.suspendIdx == 1 && t.promise.slot == ByValue(next))
            && (t.frame.done ==> t.frame.suspendIdx == s.frame.suspendIdx)
  {
    var next := if s.frame.suspendIdx == 1 then s.start + 1 else s.start;
    var f := Drop(s.frame, InitialAwaiter).value;
    assert f.live == {};
    if next >= s.end {
      assert Elems(IotaCleanup(2)) == {};
      StandardAwaiters();
    }
  }

  /** Every observable state can be destroyed without a double or missing
      destroy, and the destroy leaves no cell engaged; this covers a
      consumer that breaks out of the loop mid-iteration. */
  lemma DestroyIsSafe(s: IotaFrame)
    requires Observable(s)
    ensures DestroyFrame(s.frame, IotaCleanup).Ok?
    ensures DestroyFrame(s.frame, IotaCleanup).value.live == {}
  {
    if !s.frame.done {
      assert Elems(IotaCleanup(s.frame.suspendIdx)) == {InitialAwaiter} by {
        assert IotaCleanup(s.frame.suspendIdx)[0] == InitialAwaiter;
      }
    }
    DestroyEmpties(s.frame, IotaCleanup);
  }

  /** Entering a step through the handle: the heap trampoline calls the
      frame's resume function, which is null once the frame is done; the
      inline handle calls `doStep` directly and asserts the returned handle
      is null. */
  function Resume(s: IotaFrame): (r: Outcome<IotaFrame>)
    requires Observable(s)
    ensures !s.frame.done ==> r.Ok? && r.value == IotaStep(s).value.0
  {
    if s.frame.strategy == Heap && s.frame.done then Fault(ResumeAfterDone)
    else
      StepKeepsObservableIfLive(s);
      var (t, h) :- IotaStep(s);
      if s.frame.strategy == Inline then
        var _ :- InlineStepResult(h);
        Ok(t)
      else
        Ok(t)
  }

  lemma StepKeepsObservableIfLive(s: IotaFrame)
    requires Observable(s)
    ensures !s.frame.done ==> IotaStep(s).Ok? && IotaStep(s).value.1 == Null
  {
    if !s.frame.done {
      StepKeepsObservable(s);
    }
  }

  /** The heap and the inline frame run the identical step: switching the
      base changes nothing but the recorded strategy. */
  lemma HeapAndInlineStepAlike(s: IotaFrame)
    ensures var heap := s.(frame := s.frame.(strategy := Heap));
            var inline := s.(frame := s.frame.(strategy := Inline));
            IotaStep(heap).Ok? <==> IotaStep(inline).Ok?
    ensures var heap := s.(frame := s.frame.(strategy := Heap));
            var inline := s.(frame := s.frame.(strategy := Inline));
            IotaStep(heap).Ok? ==>
              var (a, ha) := IotaStep(heap).value;
              var (b, hb) := IotaStep(inline).value;
              ha == hb && a.start == b.start && a.promise == b.promise
              && a.frame.(strategy := Inline) == b.frame
  {
  }

  /** A range-for over `iota_unified(start, end)` whose body ends in
      `if (++count >= limit) break;`: `begin()`, then the value under the
      iterator and, unless that was the `limit`-th value read, `++it`, until
      the iterator reaches the sentinel. A `limit` of 0 breaks after the
      first value. Returns the values seen, and the frame as the generator's
      destructor finds it. */
  method Consume(strategy: Strategy, start: int, end: int, limit: nat) returns (ys: seq<int>, s: IotaFrame)
    ensures ys == IotaSpec(start, end)[..Min(Reads(limit), |IotaSpec(start, end)|)]
    ensures Observable(s) && s.frame.strategy == strategy
    ensures Reads(limit) > |IotaSpec(start, end)| ==> s.frame.done
    ensures !s.frame.done ==> ys != [] && s.promise.slot == ByValue(ys[|ys| - 1])
    ensures DestroyFrame(s.frame, IotaCleanup).Ok? && DestroyFrame(s.frame, IotaCleanup).value.live == {}
  {
    s := IotaRamp(strategy, start, end);
    // begin(): resume once; the iota promise never holds an exception.
    StepKeepsObservable(s);
    s := Resume(s).value;
    ys := [];
    while !UnifiedAtEnd(ToHandle(true), s.frame.done)
      invariant Observable(s) && s.frame.strategy == strategy && s.end == end
      invariant start <= s.start || start >= end
      invariant s.frame.done ==> ys == IotaSpec(start, end)
      invariant !s.frame.done ==>
                  (s.frame.suspendIdx == 1 && s.promise.slot == ByValue(s.start)
                   && start <= s.start < end && ys == IotaSpec(start, end)[..s.start - start])
      invariant |ys| < Reads(limit)
      decreases end - s.start, !s.frame.done
    {
      ys := ys + [Value(s.promise, map[])];
      assert ys == IotaSpec(start, end)[..s.start + 1 - start];
      if |ys| >= limit {
        break;
      }
      StepKeepsObservable(s);
      s := Resume(s).value;
    }
    DestroyIsSafe(s);
  }

  /** How many values a consumer breaking at `limit` reads at most. */
  function Reads(limit: nat): nat
  {
    if limit == 0 then 1 else limit
  }

  function Min(a: nat, b: nat): nat
  {
    if a <= b then a else b
  }
}
