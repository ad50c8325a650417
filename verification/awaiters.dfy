/**
  The await protocol (`CO_AWAIT_IMPL_IMPL` in src/util/macros.h) and the two
  standard awaiters of src/util/suspend.h.

  An awaiter is seen through the two calls the macro makes before the
  suspension point: `await_ready()`, and, when that is false,
  `await_suspend(handle)`. The declared result type of `await_suspend`
  decides what the macro does with it: `void` always suspends, `bool`
  suspends when true, and a handle is the next coroutine to run (symmetric
  transfer). Side effects of `await_suspend` on other frames belong to the
  client that defines the awaiter and are modelled there; here only its
  result matters.

  That is the rule the comment above the macro states and the heap base's
  `unhandled_exception` follows, and `AwaitImpl` and `RampAwait` model it.
  The macro's `bool` branch as written negates it (`AwaitImplAsWritten`,
  `RampAwaitAsWritten`); no awaiter of the library returns `bool`, so the
  concrete coroutine bodies are the same under either.
 */
module Awaiters {
  import opened Handles

  /** The result of `await_suspend(handle)`, by its declared type. */
  datatype SuspendResult = ReturnsVoid | ReturnsBool(suspend: bool) | ReturnsHandle(next: Handle)

  datatype Awaiter = Awaiter(ready: bool, onSuspend: SuspendResult)

  /** What a step does at an await inside `doStepImpl`: fall through to the
      resume half, or return a handle to the trampoline (`Park(Null)` is a
      plain suspension, anything else a symmetric transfer). */
  datatype AwaitOutcome = Proceed | Park(next: Handle)

  /** A suspension actually happens. */
  predicate Suspends(a: Awaiter)
  {
    !a.ready && a.onSuspend != ReturnsBool(false)
  }

  /** `CO_AWAIT_IMPL_IMPL(awaiter, handle)` with no extra arguments, with the
      `bool` rule the macro's comment states. */
  function AwaitImpl(a: Awaiter): (r: AwaitOutcome)
    ensures r.Proceed? <==> a.ready || a.onSuspend == ReturnsBool(false)
    ensures r.Park? && a.onSuspend.ReturnsHandle? ==> r.next == a.onSuspend.next
    ensures r.Park? && !a.onSuspend.ReturnsHandle? ==> r.next == Null
  {
    if a.ready then Proceed
    else match a.onSuspend
      case ReturnsVoid => Park(Null)
      case ReturnsBool(s) => if s then Park(Null) else Proceed
      case ReturnsHandle(h) => Park(h)
  }

  /** What the ramp does after awaiting the initial awaiter: return the
      return object at once, first resume the handle that `await_suspend`
      transferred to and then return, or run the body before returning. */
  datatype RampAction = ReturnToCaller | TransferThenReturn(next: Handle) | RunBodyFirst

  /** `CO_AWAIT_IMPL_IMPL(awaiter, handle, ret)` inside a ramp, with the
      `bool` rule the macro's comment states. */
  function RampAwait(a: Awaiter): (r: RampAction)
    ensures r.RunBodyFirst? <==> !Suspends(a)
    ensures r.TransferThenReturn? <==> Suspends(a) && a.onSuspend.ReturnsHandle?
  {
    if a.ready then RunBodyFirst
    else match a.onSuspend
      case ReturnsVoid => ReturnToCaller
      case ReturnsBool(s) => if s then ReturnToCaller else RunBodyFirst
      case ReturnsHandle(h) => TransferThenReturn(h)
  }

  /** `CO_AWAIT_IMPL_IMPL(awaiter, handle)` with its `bool` branch as
      written: the macro returns when the result of `await_suspend` is
      false, so a `bool` awaiter that asks to suspend falls through and one
      that declines parks. */
  function AwaitImplAsWritten(a: Awaiter): (r: AwaitOutcome)
    ensures r.Proceed? <==> a.ready || a.onSuspend == ReturnsBool(true)
    ensures r.Park? && a.onSuspend.ReturnsHandle? ==> r.next == a.onSuspend.next
    ensures r.Park? && !a.onSuspend.ReturnsHandle? ==> r.next == Null
  {
    if a.ready then Proceed
    else match a.onSuspend
      case ReturnsVoid => Park(Null)
      case ReturnsBool(s) => if !s then Park(Null) else Proceed
      case ReturnsHandle(h) => Park(h)
  }

  /** `CO_AWAIT_IMPL_IMPL(awaiter, handle, ret)` inside a ramp, with the
      `bool` branch as written. */
  function RampAwaitAsWritten(a: Awaiter): (r: RampAction)
    ensures r.RunBodyFirst? <==> a.ready || a.onSuspend == ReturnsBool(true)
    ensures r.TransferThenReturn? <==> !a.ready && a.onSuspend.ReturnsHandle?
  {
    if a.ready then RunBodyFirst
    else match a.onSuspend
      case ReturnsVoid => ReturnToCaller
      case ReturnsBool(s) => if !s then ReturnToCaller else RunBodyFirst
      case ReturnsHandle(h) => TransferThenReturn(h)
  }

  /** The awaiter with the result of a `bool` `await_suspend` negated. */
  function FlipBool(a: Awaiter): Awaiter
  {
    match a.onSuspend
    case ReturnsBool(s) => a.(onSuspend := ReturnsBool(!s))
    case _ => a
  }

  /** The macro as written takes, for every awaiter, the decision the
      intended rule takes for the awaiter with its `bool` result negated. The
      two therefore differ exactly on awaiters that are not ready and return
      `bool`, and agree on every `void` and handle-returning awaiter, which
      are all the awaiters the library defines. */
  lemma AsWrittenNegatesBool(a: Awaiter)
    ensures AwaitImplAsWritten(a) == AwaitImpl(FlipBool(a))
    ensures RampAwaitAsWritten(a) == RampAwait(FlipBool(a))
    ensures AwaitImplAsWritten(a) == AwaitImpl(a) <==> a.ready || !a.onSuspend.ReturnsBool?
    ensures RampAwaitAsWritten(a) == RampAwait(a) <==> a.ready || !a.onSuspend.ReturnsBool?
  {
  }

  /** The two forms of the macro take the same decision: the ramp runs the
      body exactly when a step would fall through, and it resumes exactly the
      handle a step would hand to the trampoline. */
  lemma RampAgreesWithStep(a: Awaiter)
    ensures RampAwait(a).RunBodyFirst? <==> AwaitImpl(a).Proceed?
    ensures RampAwait(a).TransferThenReturn? ==> AwaitImpl(a) == Park(RampAwait(a).next)
    ensures RampAwait(a).ReturnToCaller? <==> AwaitImpl(a) == Park(Null) && !a.onSuspend.ReturnsHandle?
  {
  }

  /** `SuspendAlways`: never ready; `await_suspend` does nothing and returns
      `void`. */
  function SuspendAlways(): (a: Awaiter)
    ensures Suspends(a) && !a.onSuspend.ReturnsHandle?
  {
    Awaiter(false, ReturnsVoid)
  }

  /** `SuspendNever`: always ready, so `await_suspend` is never reached. */
  function SuspendNever(): (a: Awaiter)
    ensures !Suspends(a)
  {
    Awaiter(true, ReturnsVoid)
  }

  /** Awaiting `SuspendAlways` parks the frame without a transfer, and
      awaiting `SuspendNever` falls straight through; a ramp that awaits them
      returns at once, or runs the body first, respectively. */
  lemma StandardAwaiters()
    ensures AwaitImpl(SuspendAlways()) == Park(Null)
    ensures AwaitImpl(SuspendNever()) == Proceed
    ensures RampAwait(SuspendAlways()) == ReturnToCaller
    ensures RampAwait(SuspendNever()) == RunBodyFirst
  {
  }
}
