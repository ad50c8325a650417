/**
  The optional monad (src/optional_monad/maybe.h, return_object_holder.h):
  an eager coroutine whose `co_await` on an optional either continues with
  the value or, on an empty optional, writes "absent" into the caller's
  result and destroys the frame.

  The result travels through a `return_object_holder`: the ramp's return
  object, which starts empty and hands the promise a back-pointer to itself
  (`data_`). `return_value`, `unhandled_exception` and the short circuit
  write through that back-pointer, and the caller finally converts the
  holder into the optional it staged. Holders are modelled by address, so a
  move can re-point the back-pointer.
 */
module Maybe {
  import opened Wrappers
  import opened Handles
  import opened Awaiters
  import opened Frames

  // ----- return_object_holder -----

  /** A holder's `stage`: empty until `emplace`. */
  datatype Holder<T> = Holder(stage: Option<T>)

  /** The live holders by address, and the back-pointer (`p`, which is the
      promise's `data_`). */
  datatype Holders<T> = Holders(at: map<nat, Holder<T>>, back: nat)

  /** Constructing a holder at `addr`: its stage is empty and the
      back-pointer designates it. */
  function MakeHolder<T>(addr: nat): (h: Holders<T>)
    ensures h.back == addr && addr in h.at && h.at[addr].stage == None
  {
    Holders(map[addr := Holder(None)], addr)
  }

  /** The move constructor: the holder at `to` takes over the stage and
      re-points the back-pointer at itself. */
  function MoveHolder<T>(h: Holders<T>, from: nat, to: nat): (r: Outcome<Holders<T>>)
    ensures r.Ok? <==> from in h.at
    ensures r.Ok? ==> r.value.back == to && to in r.value.at && r.value.at[to] == h.at[from]
    ensures r.Ok? ==> forall k | k in h.at && k != to :: k in r.value.at && r.value.at[k] == h.at[k]
  {
    if from !in h.at then Fault(UseAfterFree)
    else Ok(Holders(h.at[to := h.at[from]], to))
  }

  /** `emplace(v)` through the back-pointer. */
  function Emplace<T>(h: Holders<T>, v: T): (r: Outcome<Holders<T>>)
    ensures r.Ok? <==> h.back in h.at
    ensures r.Ok? ==> r.value.back == h.back && r.value.at.Keys == h.at.Keys
    ensures r.Ok? ==> r.value.at[h.back] == Holder(Some(v))
    ensures r.Ok? ==> forall k | k in h.at && k != h.back :: r.value.at[k] == h.at[k]
  {
    if h.back !in h.at then Fault(UseAfterFree)
    else Ok(h.(at := h.at[h.back := Holder(Some(v))]))
  }

  /** `operator T()`: the staged value, which `emplace` must have set. */
  function Convert<T>(h: Holders<T>, addr: nat): (r: Outcome<T>)
    ensures r.Ok? <==> addr in h.at && h.at[addr].stage.Some?
    ensures r.Ok? ==> r.value == h.at[addr].stage.value
  {
    if addr !in h.at then Fault(UseAfterFree)
    else match h.at[addr].stage
      case Some(v) => Ok(v)
      case None => Fault(MissingValue)
  }

  /** What is emplaced comes out of the conversion, whether the holder was
      moved before or after the emplace; the last emplace wins; and a holder
      nobody emplaced into cannot be converted. */
  lemma HolderRoundTrip<T>(addr: nat, to: nat, v: T, w: T)
    ensures Convert(MakeHolder<T>(addr), addr) == Fault(MissingValue)
    ensures Convert(Emplace(MakeHolder(addr), v).value, addr) == Ok(v)
    ensures Convert(Emplace(Emplace(MakeHolder(addr), w).value, v).value, addr) == Ok(v)
    ensures Convert(MoveHolder(Emplace(MakeHolder(addr), v).value, addr, to).value, to) == Ok(v)
    ensures Convert(Emplace(MoveHolder(MakeHolder(addr), addr, to).value, v).value, to) == Ok(v)
  {
  }

  // ----- maybe_awaiter and maybe_promise -----

  /** `maybe_awaiter`: ready iff the optional has a value; `await_suspend`
      returns `void`. */
  function MaybeAwaiter<T>(opt: Option<T>): (a: Awaiter)
    ensures a.ready <==> opt.Some?
    ensures Suspends(a) <==> opt.None?
    ensures AwaitImpl(a) == if opt.Some? then Proceed else Park(Null)
  {
    Awaiter(opt.Some?, ReturnsVoid)
  }

  /** `await_resume`: dereferences the optional. */
  function MaybeAwaitResume<T>(opt: Option<T>): (r: Outcome<T>)
    ensures r.Ok? <==> opt.Some?
    ensures r.Ok? ==> r.value == opt.value
  {
    match opt
    case Some(v) => Ok(v)
    case None => Fault(MissingValue)
  }

  /** `initial_suspend` and `final_suspend` of `maybe_promise` both return
      `SuspendNever`: the ramp runs the body at once and a `co_return`
      destroys the frame at once, so the computation is eager. */
  function MaybeSuspend(): (a: Awaiter)
    ensures !Suspends(a) && AwaitImpl(a) == Proceed
    ensures RampAwait(a) == RunBodyFirst
  {
    StandardAwaiters();
    SuspendNever()
  }

  /** `return_value(value)`: stage the value as present. */
  function MaybeReturnValue<T>(h: Holders<Option<T>>, v: T): (r: Outcome<Holders<Option<T>>>)
  {
    Emplace(h, Some(v))
  }

  /** `return_value(std::nullopt)`, `unhandled_exception()` and the short
      circuit: stage the value as absent. */
  function MaybeAbsent<T>(h: Holders<Option<T>>): (r: Outcome<Holders<Option<T>>>)
  {
    Emplace(h, None)
  }

  /** The promise's three ways out, as the caller sees them after the
      conversion: a returned value is present, while `nullopt`, an exception
      or a short circuit is absent; nothing is ever rethrown. */
  lemma PromiseOutcomes<T>(addr: nat, v: T)
    ensures Convert(MaybeReturnValue(MakeHolder(addr), v).value, addr) == Ok(Some(v))
    ensures Convert(MaybeAbsent(MakeHolder<Option<T>>(addr)).value, addr) == Ok(None)
  {
  }

  // ----- co_await on an optional -----

  /** Where a `co_await` on an optional leaves the body. */
  datatype Awaited<U> = Continue(v: U) | ShortCircuit

  /** `CO_AWAIT(index, awaiter_storage_, opt, ...)` in a maybe coroutine: a
      present value is resumed at once (`await_resume`, then the awaiter is
      destroyed); an absent one makes `await_suspend` stage "absent" in the
      holder and destroy the frame (`destroy()` with cleanup table `table`),
      after which the step returns a null handle. */
  function MaybeAwait<T, U>(f: Frame, h: Holders<Option<T>>, opt: Option<U>, index: nat, table: CleanupTable)
    : (r: Outcome<(Frame, Holders<Option<T>>, Awaited<U>)>)
    ensures opt.Some? ==> (r.Ok? <==> AwaiterStorage !in f.live)
    ensures opt.Some? && r.Ok? ==>
              r.value.2 == Continue(opt.value) && r.value.1 == h
              && r.value.0 == f.(suspendIdx := index)
    ensures opt.None? ==> (r.Ok? <==> AwaitAt(f, AwaiterStorage, index, MaybeAwaiter(opt)).Ok? && h.back in h.at
                                      && DestroyFrame(f.(suspendIdx := index, live := f.live + {AwaiterStorage}), table).Ok?)
    ensures opt.None? && r.Ok? ==>
              && r.value.2 == ShortCircuit && r.value.1 == Emplace(h, None).value
              && r.value.0 == DestroyFrame(f.(suspendIdx := index, live := f.live + {AwaiterStorage}), table).value
  {
    var (g, out) :- AwaitAt(f, AwaiterStorage, index, MaybeAwaiter(opt));
    match out
    case Proceed =>
      (match MaybeAwaitResume(opt)
       case Ok(v) => Ok((Drop(g, AwaiterStorage).value, h, Continue(v)))
       case Fault(e) => Fault(e))
    case Park(_) =>
      var h1 :- Emplace(h, None);
      var g1 :- DestroyFrame(g, table);
      Ok((g1, h1, ShortCircuit))
  }
}
