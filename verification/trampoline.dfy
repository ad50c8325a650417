/**
  The symmetric-transfer trampoline (`stackless_handle_base::resume` in
  src/util/coroutine_handle.h).

  `resume()` calls the frame's resume function, which runs one step and
  returns the handle of the coroutine to run next, or a null handle. The
  trampoline keeps calling resume functions until it gets a null handle, so
  a chain of transfers (a task finishing and handing control back to its
  awaiting parent, say) runs in a loop rather than in nested calls.

  The model is generic over the state of the world `W` that the frames live
  in, and over `step(w, a)`, the resume function of the heap frame at
  address `a`. A chain of transfers need not end, so the reference
  definition `Chain` follows it for at most `budget` resume calls.
 */
module Trampoline {
  import opened Wrappers
  import opened Handles

  /** The end of a run: the world when a resume function returned a null
      handle, with the number of resume calls made; a protocol violation; or
      a chain longer than the budget. */
  datatype RunResult<W> = Finished(world: W, calls: nat) | Faulted(defect: Defect) | OutOfBudget

  /** One call through the `resumeFunc` of a non-null handle. The no-op
      coroutine's resume function returns a null handle and changes nothing. */
  function ResumeOnce<W>(step: (W, nat) -> Outcome<(W, Handle)>, w: W, h: Handle): (r: Outcome<(W, Handle)>)
    requires IsTrue(h)
    ensures h.Noop? ==> r == Ok((w, Null))
  {
    if h.Noop? then Ok((w, Null)) else step(w, h.addr)
  }

  /** Reference semantics of `resume()`: follow the transfers from `h`. */
  function Chain<W>(step: (W, nat) -> Outcome<(W, Handle)>, w: W, h: Handle, budget: nat): (r: RunResult<W>)
    requires IsTrue(h)
    ensures r.Finished? ==> 1 <= r.calls <= budget
    decreases budget
  {
    if budget == 0 then OutOfBudget
    else
      match ResumeOnce(step, w, h)
      case Fault(d) => Faulted(d)
      case Ok((w', next)) =>
        if next == Null then Finished(w', 1)
        else Then(Chain(step, w', next, budget - 1))
  }

  /** One more resume call in front of a run. */
  function Then<W>(r: RunResult<W>): (s: RunResult<W>)
    ensures r.Finished? <==> s.Finished?
    ensures r.Finished? ==> s == Finished(r.world, r.calls + 1)
    ensures !r.Finished? ==> s == r
  {
    if r.Finished? then Finished(r.world, r.calls + 1) else r
  }

  /** `k` more resume calls in front of a run. */
  function ThenN<W>(r: RunResult<W>, k: nat): (s: RunResult<W>)
    ensures r.Finished? ==> s == Finished(r.world, r.calls + k)
    ensures !r.Finished? ==> s == r
  {
    if r.Finished? then Finished(r.world, r.calls + k) else r
  }

  /** Resume calls in front of a run add up. */
  lemma ThenNAdds<W>(r: RunResult<W>, j: nat, k: nat)
    ensures ThenN(ThenN(r, j), k) == ThenN(r, j + k)
  {
  }

  /** The trampoline as written: an iterative loop over the returned
      handles, with no recursion. It computes exactly the reference chain. */
  method Resume<W>(step: (W, nat) -> Outcome<(W, Handle)>, w: W, h: Handle, budget: nat) returns (r: RunResult<W>)
    requires IsTrue(h)
    ensures r == Chain(step, w, h, budget)
  {
    var world, next, used := w, h, 0;
    while true
      invariant used <= budget && IsTrue(next)
      invariant Chain(step, w, h, budget) == ThenN(Chain(step, world, next, budget - used), used)
      decreases budget - used
    {
      if used == budget {
        return OutOfBudget;
      }
      var o := ResumeOnce(step, world, next);
      if o.Fault? {
        return Faulted(o.defect);
      }
      world, next := o.value.0, o.value.1;
      used := used + 1;
      if next == Null {
        return Finished(world, used);
      }
    }
  }

  /** The no-op handle stops the trampoline after one call that changes
      nothing. */
  lemma NoopStopsAtOnce<W>(step: (W, nat) -> Outcome<(W, Handle)>, w: W, budget: nat)
    requires budget >= 1
    ensures Chain(step, w, Noop, budget) == Finished(w, 1)
  {
  }

  /** A budget is only a bound: once a chain finishes within it, a larger
      budget finishes with the same world after the same number of calls. */
  lemma {:induction false} ChainBudgetMonotone<W>(step: (W, nat) -> Outcome<(W, Handle)>, w: W, h: Handle, budget: nat, more: nat)
    requires IsTrue(h) && budget <= more
    requires Chain(step, w, h, budget).Finished?
    ensures Chain(step, w, h, more) == Chain(step, w, h, budget)
    decreases budget
  {
    match ResumeOnce(step, w, h)
    case Fault(_) =>
    case Ok((w', next)) =>
      if next != Null {
        ChainBudgetMonotone(step, w', next, budget - 1, more - 1);
      }
  }
}
