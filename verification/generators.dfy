/**
  The generator client of the frame protocol: the promise and iterator of
  `unified_generator` (src/unified_generator.h) and of the older,
  pointer-storing `generator` (src/generator.h).

  The promise is the channel between the body and the consumer: `co_yield`
  stores the value, the iterator reads it back through `value()`, and an
  exception that escapes the body is parked in the promise until the
  iterator rethrows it. The iterator itself is a thin layer over the handle:
  it is at the end when there is no frame or the frame is done, and
  advancing resumes the frame once.
 */
module Generators {
  import opened Wrappers
  import opened Storage
  import opened Handles
  import opened Trampoline

  // ----- unified_generator_promise -----

  /** What the compiler knows about the yielded type `T`. */
  datatype TypeTraits = TypeTraits(triviallyCopyable: bool, size: nat, isReference: bool)

  /** The traits of `int`: trivially copyable, four bytes, not a reference. */
  const IntTraits: TypeTraits := TypeTraits(true, 4, false)

  /** `store_by_value`. */
  predicate StoreByValue(t: TypeTraits)
  {
    t.triviallyCopyable && t.size <= 16 && !t.isReference
  }

  /** `m_value`: nothing yet, a copy of the value, or the address of the
      yielded object (which lives in the suspended frame). */
  datatype ValueSlot<T> = Unset | ByValue(v: T) | ByPointer(addr: Addr)

  datatype UnifiedPromise<T> = UnifiedPromise(byValue: bool, slot: ValueSlot<T>, exception: Option<Exception>)

  /** A default-constructed promise for a type with the given traits. */
  function NewUnifiedPromise<T>(t: TypeTraits): (p: UnifiedPromise<T>)
    ensures p.byValue <==> StoreByValue(t)
    ensures p.slot == Unset && p.exception == None
  {
    UnifiedPromise(StoreByValue(t), Unset, None)
  }

  /** `yield_value(value)` where the yielded object `v` lives at `a`. */
  function YieldValue<T>(p: UnifiedPromise<T>, v: T, a: Addr): (r: UnifiedPromise<T>)
    ensures r.byValue == p.byValue && r.exception == p.exception
    ensures r.slot.ByValue? <==> p.byValue
    ensures r.slot.ByValue? ==> r.slot.v == v
    ensures r.slot.ByPointer? ==> r.slot.addr == a
    ensures r.slot != Unset
  {
    if p.byValue then p.(slot := ByValue(v)) else p.(slot := ByPointer(a))
  }

  /** `value()`: the copy, or the object the stored pointer designates. */
  function Value<T>(p: UnifiedPromise<T>, mem: Memory<T>): T
    requires p.slot != Unset && (p.slot.ByPointer? ==> p.slot.addr in mem)
  {
    match p.slot
    case ByValue(v) => v
    case ByPointer(a) => mem[a]
  }

  /** After `yield_value(v)`, `value()` returns `v` as long as the yielded
      object is unchanged. If the object is changed before the consumer
      reads it, a by-value slot still returns the yielded copy, while a
      by-pointer slot returns the object as it now is. */
  lemma YieldThenValue<T>(p: UnifiedPromise<T>, v: T, w: T, a: Addr, mem: Memory<T>)
    ensures Value(YieldValue(p, v, a), mem[a := v]) == v
    ensures p.byValue ==> Value(YieldValue(p, v, a), mem[a := w]) == v
    ensures !p.byValue ==> Value(YieldValue(p, v, a), mem[a := w]) == w
  {
  }

  /** `unhandled_exception()`: construct the exception into its cell and
      set the flag. The cell is a `coro_storage`, so a second exception
      without an intervening rethrow would be constructed over the first. */
  function UnifiedUnhandled<T>(p: UnifiedPromise<T>, e: Exception): (r: Outcome<UnifiedPromise<T>>)
    ensures r.Ok? <==> p.exception == None
    ensures r.Ok? ==> r.value.exception == Some(e) && r.value.slot == p.slot && r.value.byValue == p.byValue
  {
    if p.exception.Some? then Fault(DoubleConstruct) else Ok(p.(exception := Some(e)))
  }

  /** `rethrow_if_exception()`: hand out the stored exception (the second
      component, to be thrown) after destroying its cell and clearing the
      flag. */
  function RethrowIfException<T>(p: UnifiedPromise<T>): (r: (UnifiedPromise<T>, Option<Exception>))
    ensures r.1 == p.exception
    ensures r.0.exception == None && r.0.slot == p.slot && r.0.byValue == p.byValue
  {
    (p.(exception := None), p.exception)
  }

  /** An exception is rethrown once: a second `rethrow_if_exception()` throws
      nothing and changes nothing, and a captured exception comes back out
      unchanged. */
  lemma RethrowOnce<T>(p: UnifiedPromise<T>, e: Exception)
    ensures var q := RethrowIfException(p).0;
            RethrowIfException(q) == (q, None)
    ensures p.exception == None ==> RethrowIfException(UnifiedUnhandled(p, e).value).1 == Some(e)
  {
  }

  // ----- generator_promise (src/generator.h) -----

  /** The older promise: the slot always holds an address, and the
      exception is a plain `std::exception_ptr`. */
  datatype LegacyPromise = LegacyPromise(slot: Option<Addr>, exception: Option<Exception>)

  function LegacyYieldValue(p: LegacyPromise, a: Addr): (r: LegacyPromise)
    ensures r.slot == Some(a) && r.exception == p.exception
  {
    p.(slot := Some(a))
  }

  function LegacyValue<T>(p: LegacyPromise, mem: Memory<T>): T
    requires p.slot.Some? && p.slot.value in mem
  {
    mem[p.slot.value]
  }

  /** `unhandled_exception()`: assigns the `exception_ptr`. */
  function LegacyUnhandled(p: LegacyPromise, e: Exception): (r: LegacyPromise)
    ensures r.exception == Some(e) && r.slot == p.slot
  {
    p.(exception := Some(e))
  }

  /** `rethrow_if_exception() const`: throws the stored exception, if any,
      and keeps it. */
  function LegacyRethrow(p: LegacyPromise): (r: Option<Exception>)
    ensures r == p.exception
  {
    p.exception
  }

  /** The two promises differ in what a rethrow leaves behind: the older one
      throws the same exception every time it is asked, the unified one only
      the first time. The older promise also always reads the yielded object
      through its address. */
  lemma RethrowPolicies<T>(lp: LegacyPromise, up: UnifiedPromise<T>, e: Exception, a: Addr, mem: Memory<T>, w: T)
    requires up.exception == None
    ensures LegacyRethrow(LegacyUnhandled(lp, e)) == Some(e)
    ensures var u := RethrowIfException(UnifiedUnhandled(up, e).value).0;
            RethrowIfException(u).1 == None
    ensures LegacyValue(LegacyYieldValue(lp, a), mem[a := w]) == w
  {
  }

  // ----- Iterators -----

  /** What a unified iterator refers to: nothing (`iterator{nullptr}`), or
      the generator's handle, whose truth value (`operator bool`: non-null
      for a heap handle, `m_valid` for an inline one) is read at comparison
      time. */
  datatype IterRef = NoHandle | ToHandle(handleTrue: bool)

  /** `it == sentinel` for the unified iterator. `done` is only consulted for
      a true handle. */
  predicate UnifiedAtEnd(it: IterRef, done: bool)
  {
    it.NoHandle? || !it.handleTrue || done
  }

  /** `it == sentinel` for the older iterator, which holds the handle itself. */
  predicate LegacyAtEnd(handleTrue: bool, done: bool)
  {
    !handleTrue || done
  }

  /** The two sentinels agree whenever the iterator refers to a handle, and
      the unified iterator is at the end for every frame state once it has
      no handle or a false one. */
  lemma SentinelsAgree(handleTrue: bool, done: bool)
    ensures UnifiedAtEnd(ToHandle(handleTrue), done) <==> LegacyAtEnd(handleTrue, done)
    ensures UnifiedAtEnd(NoHandle, done) && UnifiedAtEnd(ToHandle(false), done)
    ensures !UnifiedAtEnd(ToHandle(true), done) <==> !done
  {
  }

  /** The second half of `operator++` and `begin()` once the frame has been
      resumed: when the frame is now done, `rethrow_if_exception()`. The
      second component is the exception thrown to the consumer. */
  function UnifiedAfterResume<T>(done: bool, p: UnifiedPromise<T>): (r: (UnifiedPromise<T>, Option<Exception>))
    ensures !done ==> r == (p, None)
    ensures done ==> r.1 == p.exception && r.0.exception == None
    ensures r.0.slot == p.slot && r.0.byValue == p.byValue
  {
    if done then RethrowIfException(p) else (p, None)
  }

  /** The same for the older generator. */
  function LegacyAfterResume(done: bool, p: LegacyPromise): (r: Option<Exception>)
    ensures !done ==> r == None
    ensures done ==> r == p.exception
  {
    if done then LegacyRethrow(p) else None
  }

  // ----- begin() and ++it -----

  /** How the iterator sees a generator's frame in a world `W`: its
      `done()`, its promise, and the world with the promise replaced (which
      is what `rethrow_if_exception()` writes back). */
  datatype GenView<!W, !T> = GenView(done: W -> bool, promise: W -> UnifiedPromise<T>, withPromise: (W, UnifiedPromise<T>) -> W)

  /** What `begin()` and `++it` leave behind: the world, the iterator, and
      the exception thrown to the consumer. */
  type Advanced<W> = (W, IterRef, Option<Exception>)

  /** `++it`: `m_handle->resume()`, which is the trampoline run from the
      generator's handle, and then `rethrow_if_exception()` when the frame
      is done. The iterator keeps referring to the handle. */
  function ResumeThenRethrow<W, T>(step: (W, nat) -> Outcome<(W, Handle)>, view: GenView<W, T>, w: W, h: Handle, budget: nat)
    : (r: RunResult<Advanced<W>>)
    requires IsTrue(h)
    ensures r.Faulted? <==> Chain(step, w, h, budget).Faulted?
    ensures r.Faulted? ==> r.defect == Chain(step, w, h, budget).defect
    ensures r.OutOfBudget? <==> Chain(step, w, h, budget).OutOfBudget?
    ensures r.Finished? ==>
              var c := Chain(step, w, h, budget);
              var p := view.promise(c.world);
              && r.calls == c.calls && r.world.1 == ToHandle(true)
              && (view.done(c.world) ==> r.world.2 == p.exception && r.world.0 == view.withPromise(c.world, p.(exception := None)))
              && (!view.done(c.world) ==> r.world.2 == None && r.world.0 == c.world)
  {
    match Chain(step, w, h, budget)
    case Finished(w', calls) =>
      var (p, thrown) := UnifiedAfterResume(view.done(w'), view.promise(w'));
      Finished((if view.done(w') then view.withPromise(w', p) else w', ToHandle(true), thrown), calls)
    case Faulted(d) => Faulted(d)
    case OutOfBudget => OutOfBudget
  }

  /** `begin()`. A nullable (heap) generator with a null handle returns
      `iterator{nullptr}` without resuming anything; otherwise `begin()`
      resumes and rethrows exactly as `++it` does. An inline generator is
      not nullable, and its handle is always valid when `begin()` is called. */
  function Begin<W, T>(step: (W, nat) -> Outcome<(W, Handle)>, view: GenView<W, T>, nullable: bool, w: W, h: Handle, budget: nat)
    : (r: RunResult<Advanced<W>>)
    requires nullable || IsTrue(h)
    ensures !IsTrue(h) ==> r == Finished((w, NoHandle, None), 0)
    ensures !IsTrue(h) ==> UnifiedAtEnd(r.world.1, view.done(w))
    ensures IsTrue(h) ==> r == ResumeThenRethrow(step, view, w, h, budget)
    ensures r.Finished? ==> (r.calls == 0 <==> !IsTrue(h))
  {
    if nullable && !IsTrue(h) then Finished((w, NoHandle, None), 0)
    else ResumeThenRethrow(step, view, w, h, budget)
  }

  /** When the frame's step parks without a transfer, `begin()` on its
      handle makes exactly one resume call: the generator is at the end
      afterwards iff that step finished the frame, in which case the stored
      exception is thrown and the promise no longer holds it; otherwise
      nothing is thrown and the frame is as the step left it. */
  lemma {:induction false} BeginStepsOnce<W, T>(step: (W, nat) -> Outcome<(W, Handle)>, view: GenView<W, T>, nullable: bool, w: W, a: nat, budget: nat)
    requires 1 <= budget && step(w, a).Ok? && step(w, a).value.1 == Null
    ensures var w' := step(w, a).value.0;
            var p := view.promise(w');
            && Begin(step, view, nullable, w, Ptr(a), budget).Finished?
            && Begin(step, view, nullable, w, Ptr(a), budget).calls == 1
            && var (u, it, thrown) := Begin(step, view, nullable, w, Ptr(a), budget).world;
            && it == ToHandle(true)
            && (view.done(w') ==> thrown == p.exception && u == view.withPromise(w', p.(exception := None)))
            && (!view.done(w') ==> thrown == None && u == w' && !UnifiedAtEnd(it, view.done(u)))
  {
    assert Chain(step, w, Ptr(a), budget) == Finished(step(w, a).value.0, 1);
  }

  // ----- begin() and ++it of the older generator (src/generator.h) -----

  /** How the older iterator sees a generator's frame in a world `W`: its
      `done()` and its promise. Its rethrow leaves the promise as it is, so
      nothing is written back. */
  datatype LegacyView<!W> = LegacyView(done: W -> bool, promise: W -> LegacyPromise)

  /** What the older `begin()` and `++it` leave behind: the world, the
      handle the iterator holds, and the exception thrown to the consumer. */
  type LegacyAdvanced<W> = (W, Handle, Option<Exception>)

  /** The older `operator++`: `m_coroutine.resume()`, the trampoline run
      from the iterator's handle, then `rethrow_if_exception()` when the
      frame is done. The iterator keeps its handle. */
  function LegacyIncrement<W>(step: (W, nat) -> Outcome<(W, Handle)>, view: LegacyView<W>, w: W, h: Handle, budget: nat)
    : (r: RunResult<LegacyAdvanced<W>>)
    requires IsTrue(h)
    ensures r.Faulted? <==> Chain(step, w, h, budget).Faulted?
    ensures r.Faulted? ==> r.defect == Chain(step, w, h, budget).defect
    ensures r.OutOfBudget? <==> Chain(step, w, h, budget).OutOfBudget?
    ensures r.Finished? ==>
              var c := Chain(step, w, h, budget);
              && r.calls == c.calls && r.world.0 == c.world && r.world.1 == h
              && (view.done(c.world) ==> r.world.2 == view.promise(c.world).exception)
              && (!view.done(c.world) ==> r.world.2 == None)
  {
    match Chain(step, w, h, budget)
    case Finished(w', calls) => Finished((w', h, LegacyAfterResume(view.done(w'), view.promise(w'))), calls)
    case Faulted(d) => Faulted(d)
    case OutOfBudget => OutOfBudget
  }

  /** The older `begin()`: every generator checks `if (m_coroutine)`. A null
      handle resumes nothing and yields an iterator holding that null
      handle, which is at the end; any other handle is resumed and rethrown
      as by `++it`. */
  function LegacyBegin<W>(step: (W, nat) -> Outcome<(W, Handle)>, view: LegacyView<W>, w: W, h: Handle, budget: nat)
    : (r: RunResult<LegacyAdvanced<W>>)
    ensures !IsTrue(h) ==> r == Finished((w, h, None), 0)
    ensures !IsTrue(h) ==> LegacyAtEnd(IsTrue(r.world.1), view.done(w))
    ensures IsTrue(h) ==> r == LegacyIncrement(step, view, w, h, budget)
    ensures r.Finished? ==> (r.calls == 0 <==> !IsTrue(h))
  {
    if !IsTrue(h) then Finished((w, h, None), 0)
    else LegacyIncrement(step, view, w, h, budget)
  }

  lemma WritingBackKeepsDone<W, T>(uview: GenView<W, T>, a: W, q: UnifiedPromise<T>)
    requires forall x: W, p: UnifiedPromise<T> {:trigger uview.withPromise(x, p)} :: uview.done(uview.withPromise(x, p)) == uview.done(x)
    ensures uview.done(uview.withPromise(a, q)) == uview.done(a)
  {
  }

  /** The older and the unified heap generator begin alike. On the same
      frame they make the same run: they finish, fault or run out together,
      after the same number of resume calls, and their iterators are at the
      end together. A thrown exception is the one the promise held after
      the run; the only difference is that the older promise still holds
      it afterwards (`RethrowPolicies`), while the unified one has cleared
      it and otherwise leaves the world as the run did. */
  lemma LegacyBeginMatchesUnified<W, T>(step: (W, nat) -> Outcome<(W, Handle)>, uview: GenView<W, T>, lp: W -> LegacyPromise,
                                        w: W, h: Handle, budget: nat)
    requires forall x: W, p: UnifiedPromise<T> {:trigger uview.withPromise(x, p)} :: uview.done(uview.withPromise(x, p)) == uview.done(x)
    ensures var u := Begin(step, uview, true, w, h, budget);
            var l := LegacyBegin(step, LegacyView(uview.done, lp), w, h, budget);
            && (u.Finished? <==> l.Finished?)
            && (u.OutOfBudget? <==> l.OutOfBudget?)
            && (u.Faulted? <==> l.Faulted?)
            && (u.Faulted? ==> u.defect == l.defect)
            && (u.Finished? ==>
                  && u.calls == l.calls
                  && (UnifiedAtEnd(u.world.1, uview.done(u.world.0)) <==> LegacyAtEnd(IsTrue(l.world.1), uview.done(l.world.0)))
                  && (u.world.2.Some? ==> u.world.2 == uview.promise(l.world.0).exception)
                  && (l.world.2.Some? ==> l.world.2 == lp(l.world.0).exception)
                  && (u.world.2.None? ==> u.world.0 == l.world.0 || uview.done(l.world.0)))
  {
    if IsTrue(h) {
      var c := Chain(step, w, h, budget);
      if c.Finished? {
        WritingBackKeepsDone(uview, c.world, uview.promise(c.world).(exception := None));
      }
    }
  }
}
