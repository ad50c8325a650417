/**
  `compute_value(x)` and `add_values(a, b)` (src/task/task_example.h): two
  heap tasks over `size_t`, where `add_values` awaits `compute_value` twice
  per loop iteration.

  The frames live in a `World`: a map from addresses to frames and the next
  free address. Each frame's resume function is `Step`, so a whole run is
  the trampoline of the Trampoline module following the transfers: from
  `add_values` into a fresh `compute_value`, back to `add_values` through
  the continuation, and finally to the no-op coroutine.

  `size_t` arithmetic wraps modulo 2^64 and is written out; the loop
  counters are shown never to wrap.
 */
module TaskExample {
  import opened Wrappers
  import opened Storage
  import opened Handles
  import opened Awaiters
  import opened Frames
  import opened Tasks
  import opened Trampoline

  // ----- size_t -----

  const Modulus: int := 0x1_0000_0000_0000_0000

  type U64 = x: int | 0 <= x < Modulus

  function Add64(x: U64, y: U64): U64
  {
    (x + y) % Modulus
  }

  /** `x * 2`. */
  function Double64(x: U64): U64
  {
    (2 * x) % Modulus
  }

  /** `++x`. */
  function Inc64(x: U64): U64
  {
    if x == Modulus - 1 then 0 else x + 1
  }

  /** `--x`. */
  function Dec64(x: U64): U64
  {
    if x == 0 then Modulus - 1 else x - 1
  }

  // ----- The reference results -----

  /** The loop of `add_values` on plain values: while `a < b`, add the two
      computed values to the result, then step `a` up and `b` down. */
  function AddLoop(a: U64, b: U64, res: U64): U64
    decreases b - a
  {
    if a < b then AddLoop(a + 1, b - 1, Add64(res, Add64(Double64(a), Double64(b)))) else res
  }

  /** The number of iterations of that loop. */
  function Iterations(a: int, b: int): nat
    decreases b - a
  {
    if a < b then 1 + Iterations(a + 1, b - 1) else 0
  }

  /** The loop runs half the distance from `a` to `b`, rounded up. */
  lemma {:induction false} IterationsCount(a: int, b: int)
    ensures a < b ==> Iterations(a, b) == (b - a + 1) / 2
    ensures a >= b ==> Iterations(a, b) == 0
    decreases b - a
  {
    if a + 1 < b - 1 {
      IterationsCount(a + 1, b - 1);
    }
  }

  lemma ModAdd(x: int, y: int)
    ensures (x % Modulus + y) % Modulus == (x + y) % Modulus
  {
  }

  /** One iteration of the loop, modulo 2^64, adds `2a + 2b`. */
  lemma IterationAdds(a: U64, b: U64, res: U64, k: int)
    ensures (Add64(res, Add64(Double64(a), Double64(b))) + k) % Modulus == (res + 2 * a + 2 * b + k) % Modulus
  {
    ModAdd(res + Add64(Double64(a), Double64(b)), k);
    ModAdd(Double64(a) + Double64(b), res + k);
    ModAdd(2 * a, Double64(b) + res + k);
    ModAdd(2 * b, 2 * a + res + k);
  }

  lemma Distribute(s: int, n: int)
    ensures 2 * s * (n + 1) == 2 * s + 2 * s * n
  {
  }

  /** The closed form after one more iteration: if it holds from
      `(a + 1, b - 1)` and the result after the first iteration, it holds
      from `(a, b)` and `res`. */
  lemma ClosedFormStep(a: U64, b: U64, res: U64, step: U64)
    requires a < b && step == Add64(res, Add64(Double64(a), Double64(b)))
    requires AddLoop(a + 1, b - 1, step)
             == (step + 2 * ((a + 1) + (b - 1)) * Iterations(a + 1, b - 1)) % Modulus
    ensures AddLoop(a, b, res) == (res + 2 * (a + b) * Iterations(a, b)) % Modulus
  {
    var s, n := a + b, Iterations(a + 1, b - 1);
    assert AddLoop(a, b, res) == AddLoop(a + 1, b - 1, step);
    assert Iterations(a, b) == n + 1;
    assert 2 * ((a + 1) + (b - 1)) * n == 2 * s * n by {
      assert 2 * ((a + 1) + (b - 1)) == 2 * s;
    }
    IterationAdds(a, b, res, 2 * s * n);
    Distribute(s, n);
  }

  /** The closed form when the loop does not run. */
  lemma ClosedFormEmpty(a: U64, b: U64, res: U64)
    requires a >= b
    ensures AddLoop(a, b, res) == (res + 2 * (a + b) * Iterations(a, b)) % Modulus
  {
    assert 2 * (a + b) * Iterations(a, b) == 0 by {
      assert Iterations(a, b) == 0;
    }
  }

  /** Every iteration adds `2a + 2b` for the original `a` and `b`, since
      their sum does not change: the result is `2 (a + b)` times the number
      of iterations, modulo 2^64. */
  lemma {:induction false} AddLoopClosedForm(a: U64, b: U64, res: U64)
    ensures AddLoop(a, b, res) == (res + 2 * (a + b) * Iterations(a, b)) % Modulus
    decreases b - a
  {
    if a < b {
      var step := Add64(res, Add64(Double64(a), Double64(b)));
      AddLoopClosedForm(a + 1, b - 1, step);
      ClosedFormStep(a, b, res, step);
    } else {
      ClosedFormEmpty(a, b, res);
    }
  }

  // ----- Frames -----

  datatype ComputeState = ComputeState(frame: Frame, promise: TaskPromise<U64>, x: U64)

  /** The frame of `add_values`: the arguments, `res_`, `va_`, `vb_`, and the
      address of the inner frame held by `task_storage_`. */
  datatype AddState = AddState(
    frame: Frame, promise: TaskPromise<U64>,
    a: U64, b: U64, res: U64, va: U64, vb: U64,
    inner: nat)

  datatype TaskFrame = Compute(c: ComputeState) | Add(d: AddState)

  function FrameOf(tf: TaskFrame): Frame
  {
    match tf
    case Compute(c) => c.frame
    case Add(d) => d.frame
  }

  datatype World = World(frames: map<nat, TaskFrame>, nextAddr: nat)

  /** Every frame lies below the next free address. */
  predicate WellFormed(w: World)
  {
    forall k | k in w.frames :: k < w.nextAddr
  }

  /** `destroySuspendedCoro` of `compute_value`. */
  function ComputeCleanup(index: nat): seq<Local>
  {
    match index
    case 0 => [InitialAwaiter]
    case _ => []
  }

  /** `destroySuspendedCoro` of `add_values`. */
  function AddCleanup(index: nat): seq<Local>
  {
    match index
    case 0 => [InitialAwaiter]
    case 1 => [AwaiterStorage, TaskStorage]
    case 2 => [AwaiterStorage, TaskStorage]
    case _ => []
  }

  /** The ramp of `compute_value(x)`: parked at its initial `SuspendAlways`. */
  function ComputeRamp(x: U64): (c: ComputeState)
    ensures c.x == x && c.promise == NewTaskPromise()
    ensures c.frame.strategy == Heap && c.frame.suspendIdx == 0 && !c.frame.done
    ensures c.frame.live == {InitialAwaiter} && c.frame.constructed == {}
  {
    var (f, _) := RampStart(NewFrame(Heap, {}), SuspendAlways()).value;
    ComputeState(f, NewTaskPromise(), x)
  }

  /** The ramp of `add_values(a, b)`. The uninitialised `res_`, `va_` and
      `vb_` start at zero. */
  function AddRamp(a: U64, b: U64): (d: AddState)
    ensures d.a == a && d.b == b && d.promise == NewTaskPromise()
    ensures d.frame.strategy == Heap && d.frame.suspendIdx == 0 && !d.frame.done
    ensures d.frame.live == {InitialAwaiter} && d.frame.constructed == {}
  {
    var (f, _) := RampStart(NewFrame(Heap, {}), SuspendAlways()).value;
    AddState(f, NewTaskPromise(), a, b, 0, 0, 0, 0)
  }

  // ----- The resume function -----

  /** The resume function of the frame at `addr`: null once the frame is
      done, the body's step otherwise. */
  function Step(w: World, addr: nat): Outcome<(World, Handle)>
  {
    if addr !in w.frames then Fault(UseAfterFree)
    else if FrameOf(w.frames[addr]).done then Fault(ResumeAfterDone)
    else
      match w.frames[addr]
      case Compute(c) => ComputeStep(w, addr, c)
      case Add(d) => AddStep(w, addr, d)
  }

  /** `compute_value`'s `doStepImpl`: the switch lists only index 0, so every
      index runs the body, which is `CO_RETURN_VALUE(1, final_awaiter_, x_ * 2)`.
      The final awaiter transfers to the continuation. */
  function ComputeStep(w: World, self: nat, c: ComputeState): Outcome<(World, Handle)>
  {
    var f1 :- Drop(c.frame, InitialAwaiter);
    var p := ReturnValue(c.promise, Double64(c.x));
    var (f2, out) :- CoReturn(f1, ComputeCleanup(1), Tasks.FinalAwaiter(p));
    match out
    case Suspended(next) => Ok((w.(frames := w.frames[self := Compute(c.(frame := f2, promise := p))]), next))
    case Destroyed => Ok((w.(frames := w.frames - {self}), Null))
  }

  /** `add_values`'s `doStepImpl`. */
  function AddStep(w: World, self: nat, d: AddState): Outcome<(World, Handle)>
  {
    match d.frame.suspendIdx
    case 1 =>
      // label_1: `va_ = co_await ...` is complete; await `compute_value(b_)`.
      var (w1, d1, v) :- FinishAwait(w, d);
      StartAwait(w1, self, d1.(va := v), d1.b, 2)
    case 2 =>
      // label_2: `vb_ = co_await ...` is complete; finish the iteration.
      var (w1, d1, v) :- FinishAwait(w, d);
      var d2 := d1.(vb := v, res := Add64(d1.res, Add64(d1.va, v)), a := Inc64(d1.a), b := Dec64(d1.b));
      LoopHead(w1, self, d2)
    case _ =>
      var f :- Drop(d.frame, InitialAwaiter);
      LoopHead(w, self, d.(frame := f, res := 0))
  }

  /** The `while (a_ < b_)` test: start the first await of an iteration, or
      `CO_RETURN_VALUE(3, final_awaiter_, res_)`. */
  function LoopHead(w: World, self: nat, d: AddState): Outcome<(World, Handle)>
  {
    if d.a < d.b then StartAwait(w, self, d, d.a, 1)
    else
      var p := ReturnValue(d.promise, d.res);
      var (f, out) :- CoReturn(d.frame, AddCleanup(3), Tasks.FinalAwaiter(p));
      match out
      case Suspended(next) => Ok((w.(frames := w.frames[self := Add(d.(frame := f, promise := p))]), next))
      case Destroyed => Ok((w.(frames := w.frames - {self}), Null))
  }

  /** `CO_INIT(task_storage_, compute_value(x))` and then
      `CO_AWAIT(index, awaiter_storage_, ...)`: the ramp allocates the inner
      frame at the next free address. The task awaiter is ready iff the
      task is done, which a freshly ramped task never is, so the step
      records the caller as the task's continuation and transfers to it. */
  function StartAwait(w: World, self: nat, d: AddState, x: U64, index: nat): Outcome<(World, Handle)>
  {
    var addr := w.nextAddr;
    var inner := ComputeRamp(x);
    var f1 :- Init(d.frame, TaskStorage);
    var f2 :- AwaitTransfer(f1, AwaiterStorage, index, Ptr(addr));
    var frames := w.frames[self := Add(d.(frame := f2, inner := addr))];
    var c := inner.(promise := SetContinuation(inner.promise, Ptr(self)));
    Ok((World(frames[addr := Compute(c)], w.nextAddr + 1), Ptr(addr)))
  }

  /** The resume half of the await: `await_resume` reads the task's
      `result()`, then the awaiter and the task are destroyed, and the
      task's destructor destroys and frees the inner frame. A rethrown
      exception would reach `add_values`' dispatcher, which terminates. */
  function FinishAwait(w: World, d: AddState): Outcome<(World, AddState, U64)>
  {
    if d.inner !in w.frames || !w.frames[d.inner].Compute? then Fault(UseAfterFree)
    else
      var c := w.frames[d.inner].c;
      var r :- Result(c.promise);
      match r
      case Raised(_) => Fault(Terminate)
      case Value(v) =>
        var f1 :- Drop(d.frame, AwaiterStorage);
        var f2 :- Drop(f1, TaskStorage);
        var _ :- DestroyFrame(c.frame, ComputeCleanup);
        Ok((w.(frames := w.frames - {d.inner}), d.(frame := f2), v))
  }

  /** A freshly ramped task is never ready to be awaited, so the await in
      `StartAwait` is the generic task await with the readiness the task
      reports. */
  lemma FreshTaskNotReady(x: U64, h: Handle)
    ensures TaskAwaiter(ComputeRamp(x).frame.done, h) == Awaiter(false, ReturnsHandle(h))
  {
  }

  // ----- The run -----

  /** `add_values` at its loop head, the inner frame freed, with the values
      the loop test will see. */
  predicate LoopReady(w: World, self: nat, d: AddState)
  {
    && WellFormed(w) && w.frames.Keys == {self}
    && !d.frame.done && d.frame.strategy == Heap && d.frame.live == {}
    && d.promise == NewTaskPromise()
  }

  /** A `compute_value` frame that has just been awaited by `caller`. */
  predicate AwaitedCompute(tf: TaskFrame, x: U64, caller: nat)
  {
    && tf.Compute? && tf.c.x == x
    && tf.c.frame.strategy == Heap && tf.c.frame.suspendIdx == 0 && !tf.c.frame.done
    && tf.c.frame.live == {InitialAwaiter}
    && tf.c.promise == TaskPromise(None, None, Ptr(caller))
  }

  /** A `compute_value` frame parked at its final awaiter with `2x`. */
  predicate FinishedCompute(tf: TaskFrame, x: U64)
  {
    && tf.Compute? && tf.c.frame.done && tf.c.frame.live == {FinalAwaiter}
    && tf.c.promise.value == Some(Double64(x)) && tf.c.promise.exception == None
  }

  /** `add_values` parked at `index` on an inner frame computing `2x`. */
  predicate Parked(w: World, self: nat, index: nat, d: AddState)
  {
    && WellFormed(w) && self in w.frames && w.frames[self] == Add(d)
    && d.inner != self && w.frames.Keys == {self, d.inner}
    && d.frame.suspendIdx == index && !d.frame.done && d.frame.strategy == Heap
    && d.frame.live == {TaskStorage, AwaiterStorage}
    && d.promise == NewTaskPromise()
  }

  /** Starting an await from the loop head parks `add_values` and transfers
      to a new `compute_value` frame that will hand control back. */
  lemma StartAwaitParks(w: World, self: nat, d: AddState, x: U64, index: nat)
    requires LoopReady(w, self, d)
    ensures StartAwait(w, self, d, x, index).Ok?
    ensures var (w1, next) := StartAwait(w, self, d, x, index).value;
            && next == Ptr(w.nextAddr) && w1.nextAddr == w.nextAddr + 1
            && Parked(w1, self, index, w1.frames[self].d)
            && w1.frames[self].d == d.(frame := w1.frames[self].d.frame, inner := w.nextAddr)
            && AwaitedCompute(w1.frames[w.nextAddr], x, self)
  {
    var f1 := Init(d.frame, TaskStorage).value;
    var f2 := AwaitTransfer(f1, AwaiterStorage, index, Ptr(w.nextAddr)).value;
    assert f2.live == {TaskStorage, AwaiterStorage};
  }

  /** A `compute_value` frame that was awaited runs to its final awaiter in
      one step and transfers back to its caller; nothing else changes. */
  lemma ComputeReturns(w: World, c: nat, x: U64, caller: nat)
    requires c in w.frames && AwaitedCompute(w.frames[c], x, caller)
    ensures Step(w, c).Ok?
    ensures var (w1, next) := Step(w, c).value;
            && next == Ptr(caller) && w1.nextAddr == w.nextAddr && w1.frames.Keys == w.frames.Keys
            && FinishedCompute(w1.frames[c], x)
            && forall k | k in w.frames && k != c :: w1.frames[k] == w.frames[k]
  {
    var cs := w.frames[c].c;
    var f1 := Drop(cs.frame, InitialAwaiter).value;
    assert f1.live == {};
    assert Elems(ComputeCleanup(1)) == {};
    Tasks.FinalAwaiterHandsBack(ReturnValue(cs.promise, Double64(x)));
  }

  /** Resuming `add_values` after the inner frame finished reads its value
      and frees it. */
  lemma FinishAwaitFrees(w: World, self: nat, index: nat, d: AddState, x: U64)
    requires Parked(w, self, index, d) && FinishedCompute(w.frames[d.inner], x)
    ensures FinishAwait(w, d).Ok?
    ensures var (w1, d1, v) := FinishAwait(w, d).value;
            && v == Double64(x) && d1 == d.(frame := d1.frame)
            && d1.frame.live == {} && d1.frame.suspendIdx == index && !d1.frame.done
            && d1.frame.strategy == Heap
            && w1.nextAddr == w.nextAddr && w1.frames.Keys == {self} && WellFormed(w1)
  {
    var c := w.frames[d.inner].c;
    assert c.frame.done;
    var f2 := Drop(Drop(d.frame, AwaiterStorage).value, TaskStorage).value;
    assert f2.live == {};
    var w1 := w.(frames := w.frames - {d.inner});
    assert w1.frames.Keys == {self};
  }

  /** The rest of a run from the loop head of `add_values`: the step that
      reached the loop head is not counted. */
  function FromLoopHead(w: World, self: nat, d: AddState, budget: nat): RunResult<World>
  {
    match LoopHead(w, self, d)
    case Fault(e) => Faulted(e)
    case Ok((w1, next)) => if next == Null then Finished(w1, 0) else Chain(Step, w1, next, budget)
  }

  /** One `co_await compute_value(x)` from the loop head: two resume calls
      (into the task, and back through its continuation) leave `add_values`
      parked on a finished inner frame holding `2x`. */
  lemma AwaitRoundTrip(w: World, self: nat, d: AddState, x: U64, index: nat, budget: nat) returns (w2: World, d1: AddState)
    requires LoopReady(w, self, d) && budget >= 1
    ensures StartAwait(w, self, d, x, index).Ok?
    ensures var (w1, next) := StartAwait(w, self, d, x, index).value;
            IsTrue(next) && Chain(Step, w1, next, budget) == Then(Chain(Step, w2, Ptr(self), budget - 1))
    ensures Parked(w2, self, index, d1) && FinishedCompute(w2.frames[d1.inner], x)
    ensures d1 == d.(frame := d1.frame, inner := d1.inner) && w2.nextAddr == w.nextAddr + 1
  {
    StartAwaitParks(w, self, d, x, index);
    var (w1, c) := StartAwait(w, self, d, x, index).value;
    d1 := w1.frames[self].d;
    ComputeReturns(w1, c.addr, x, self);
    w2 := Step(w1, c.addr).value.0;
    assert Parked(w2, self, index, d1);
  }

  /** The rest of a run from the second `co_await` of an iteration, whose
      first value is already in `va_`. */
  function FromSecondAwait(w: World, self: nat, d: AddState, budget: nat): RunResult<World>
  {
    match StartAwait(w, self, d, d.b, 2)
    case Fault(e) => Faulted(e)
    case Ok((w1, next)) => Chain(Step, w1, next, budget)
  }

  /** `va_ = co_await compute_value(a_)`: two resume calls around the
      inner task and one back into `add_values`, which stores `2a` and
      starts the second await. */
  lemma FirstHalf(w: World, self: nat, d: AddState, budget: nat) returns (w3: World, d3: AddState)
    requires LoopReady(w, self, d) && d.a < d.b && budget >= 4
    ensures LoopReady(w3, self, d3)
    ensures d3.a == d.a && d3.b == d.b && d3.res == d.res && d3.va == Double64(d.a)
    ensures FromLoopHead(w, self, d, budget) == ThenN(FromSecondAwait(w3, self, d3, budget - 2), 2)
  {
    var w2, d1 := AwaitRoundTrip(w, self, d, d.a, 1, budget);
    FinishAwaitFrees(w2, self, 1, d1, d.a);
    var (w3', d2, va) := FinishAwait(w2, d1).value;
    w3, d3 := w3', d2.(va := va);
    assert Step(w2, self) == StartAwait(w3, self, d3, d3.b, 2);
  }

  /** `vb_ = co_await compute_value(b_)` and the rest of the loop body:
      the inner task's run and the resume back into `add_values`, which adds
      both values to the result, steps `a_` up and `b_` down, and is back
      at the loop head. */
  lemma SecondHalf(w3: World, self: nat, d3: AddState, budget: nat) returns (w6: World, d7: AddState)
    requires LoopReady(w3, self, d3) && budget >= 2
    ensures LoopReady(w6, self, d7)
    ensures d7.a == Inc64(d3.a) && d7.b == Dec64(d3.b)
    ensures d7.res == Add64(d3.res, Add64(d3.va, Double64(d3.b)))
    ensures FromSecondAwait(w3, self, d3, budget) == ThenN(FromLoopHead(w6, self, d7, budget - 2), 2)
  {
    var w5, d4 := AwaitRoundTrip(w3, self, d3, d3.b, 2, budget);
    FinishAwaitFrees(w5, self, 2, d4, d3.b);
    var (w6', d6, vb) := FinishAwait(w5, d4).value;
    w6 := w6';
    d7 := d6.(vb := vb, res := Add64(d6.res, Add64(d6.va, vb)), a := Inc64(d6.a), b := Dec64(d6.b));
    assert Step(w5, self) == LoopHead(w6, self, d7);
  }

  /** One whole iteration of the loop is four resume calls and returns to
      the loop head with `a` one up, `b` one down (neither wraps) and the
      two computed values added to the result. */
  lemma Iteration(w: World, self: nat, d: AddState, budget: nat) returns (w6: World, d7: AddState)
    requires LoopReady(w, self, d) && d.a < d.b && budget >= 4
    ensures LoopReady(w6, self, d7)
    ensures d7.a == d.a + 1 && d7.b == d.b - 1
    ensures d7.res == Add64(d.res, Add64(Double64(d.a), Double64(d.b)))
    ensures FromLoopHead(w, self, d, budget) == ThenN(FromLoopHead(w6, self, d7, budget - 4), 4)
  {
    var w3, d3 := FirstHalf(w, self, d, budget);
    w6, d7 := SecondHalf(w3, self, d3, budget - 2);
    ThenNAdds(FromLoopHead(w6, self, d7, budget - 4), 2, 2);
  }

  /** A run that ended after `calls` resume calls with `add_values` done at
      its final awaiter holding `res`, and every inner frame freed. */
  predicate EndsWith(r: RunResult<World>, self: nat, calls: nat, res: U64)
  {
    && r.Finished? && r.calls == calls
    && r.world.frames.Keys == {self} && r.world.frames[self].Add?
    && var e := r.world.frames[self].d;
    && e.frame.done && e.frame.live == {FinalAwaiter} && e.frame.strategy == Heap
    && e.promise.value == Some(res) && e.promise.exception == None
  }

  /** Resume calls in front of a finished run only add to its count. */
  lemma EndsWithThenN(r: RunResult<World>, self: nat, calls: nat, res: U64, k: nat)
    requires EndsWith(r, self, calls, res)
    ensures EndsWith(ThenN(r, k), self, calls + k, res)
  {
  }

  /** The loop head with nothing left to do returns the result and finishes
      the run with one call of the no-op coroutine. */
  lemma LoopEnds(w: World, self: nat, d: AddState, budget: nat)
    requires LoopReady(w, self, d) && d.a >= d.b && budget >= 1
    ensures EndsWith(FromLoopHead(w, self, d, budget), self, 1, d.res)
  {
    var p := ReturnValue(d.promise, d.res);
    assert Elems(AddCleanup(3)) == {};
    Tasks.FinalAwaiterHandsBack(p);
    var (w1, next) := LoopHead(w, self, d).value;
    assert next == Noop;
    NoopStopsAtOnce(Step, w1, budget);
  }

  /** From the loop head, the rest of `add_values` is a chain of exactly
      four resume calls per remaining iteration and one last call of the
      no-op coroutine, never violates the protocol, frees every inner
      frame, and leaves `add_values` done with the reference result. */
  lemma {:induction false} LoopRuns(w: World, self: nat, d: AddState, budget: nat)
    requires LoopReady(w, self, d)
    requires budget >= 4 * Iterations(d.a, d.b) + 1
    ensures EndsWith(FromLoopHead(w, self, d, budget), self, 4 * Iterations(d.a, d.b) + 1, AddLoop(d.a, d.b, d.res))
    decreases d.b - d.a
  {
    if d.a >= d.b {
      LoopEnds(w, self, d, budget);
    } else {
      var w6, d7 := Iteration(w, self, d, budget);
      LoopRuns(w6, self, d7, budget - 4);
      assert AddLoop(d.a, d.b, d.res) == AddLoop(d7.a, d7.b, d7.res);
      EndsWithThenN(FromLoopHead(w6, self, d7, budget - 4), self, 4 * Iterations(d7.a, d7.b) + 1, AddLoop(d.a, d.b, d.res), 4);
    }
  }

  /** `t.start()` on a freshly ramped `add_values(a, b)` at address 0:
      exactly four resume calls per iteration and two more run it to its
      final awaiter, with the reference result and every inner frame
      freed. */
  lemma StartRunsToEnd(a: U64, b: U64)
    ensures var n := 4 * Iterations(a, b) + 2;
            EndsWith(Chain(Step, World(map[0 := Add(AddRamp(a, b))], 1), Ptr(0), n), 0, n, AddLoop(a, b, 0))
  {
    var d := AddRamp(a, b);
    var w0 := World(map[0 := Add(d)], 1);
    var budget := 4 * Iterations(a, b) + 2;
    var d0 := d.(frame := Drop(d.frame, InitialAwaiter).value, res := 0);
    assert LoopReady(w0, 0, d0);
    LoopRuns(w0, 0, d0, budget - 1);
    assert Step(w0, 0) == LoopHead(w0, 0, d0);
    EndsWithThenN(FromLoopHead(w0, 0, d0, budget - 1), 0, budget - 1, AddLoop(a, b, 0), 1);
  }

  /** After a run that ended with `add_values` done holding `res`:
      `result()` gives `res`, and the destructor's `destroy()` succeeds and
      leaves no frame allocated. */
  lemma EndedRunResults(run: RunResult<World>, calls: nat, res: U64)
    requires EndsWith(run, 0, calls, res)
    ensures 0 in run.world.frames && run.world.frames[0].Add?
    ensures Result(run.world.frames[0].d.promise) == Ok(Value(res))
    ensures DestroyFrame(run.world.frames[0].d.frame, AddCleanup).Ok?
    ensures run.world.frames - {0} == map[]
  {
    assert run.world.frames.Keys - {0} == {};
  }

  /** `auto t = add_values(a, b); t.start(); t.result();` and the task's
      destructor: the trampoline runs the whole computation within one
      `start()`, `result()` is the reference result, and the destructor
      leaves no frame allocated. */
  method RunAddValues(a: U64, b: U64) returns (r: Outcome<Completion<U64>>, w: World)
    ensures r == Ok(Value(AddLoop(a, b, 0)))
    ensures r.Ok? && r.value.Value? && r.value.v == (2 * (a + b) * Iterations(a, b)) % Modulus
    ensures w.frames == map[]
  {
    var w0 := World(map[0 := Add(AddRamp(a, b))], 1);
    var calls := 4 * Iterations(a, b) + 2;
    var res := AddLoop(a, b, 0);
    // t.start()
    StartRunsToEnd(a, b);
    var run := Resume(Step, w0, Ptr(0), calls);
    EndedRunResults(run, calls, res);
    w := run.world;
    // t.result()
    var e := w.frames[0].d;
    r := Result(e.promise);
    AddLoopClosedForm(a, b, 0);
    // ~task(): destroy() at the final awaiter, then delete.
    var _ := DestroyFrame(e.frame, AddCleanup).value;
    w := w.(frames := w.frames - {0});
  }
}
