/**
  Coroutine handles (src/util/coroutine_handle.h).

  A heap ("stackless") frame begins with a `HandleFrame`: two function
  pointers, `resumeFunc` and `destroyFunc`. A `stackless_coroutine_handle`
  is a nullable pointer to that header, so it is copyable and comparable to
  null; it is done exactly when the frame's `resumeFunc` is null. The promise
  object sits at a fixed offset after the header, which is what makes
  `from_promise` and `promise()` inverse to each other.

  `noop_coroutine()` returns a handle to a static header whose resume
  function returns a null handle and whose destroy function does nothing.
 */
module Handles {

  /** A `stackless_coroutine_handle<...>`: the null handle, the handle to the
      static no-op frame, or a pointer to the header of a heap frame. */
  datatype Handle = Null | Noop | Ptr(addr: nat)

  /** `operator bool`: the pointer is non-null. */
  predicate IsTrue(h: Handle)
  {
    !h.Null?
  }

  /** `h = nullptr`. */
  function AssignNull(h: Handle): (r: Handle)
    ensures !IsTrue(r)
  {
    Null
  }

  /** The target of a `resumeFunc` pointer: nothing (`nullptr`, the frame has
      finished), a frame's step function, or `noop_resume`. */
  datatype ResumeFn = NoResume | StepResume | NoopResume

  /** The target of a `destroyFunc` pointer. */
  datatype DestroyFn = FrameDestroy | NoopDestroy

  datatype HandleFrame = HandleFrame(resumeFunc: ResumeFn, destroyFunc: DestroyFn)

  /** The header installed by the heap frame's constructor. */
  function NewHandleFrame(): (hf: HandleFrame)
    ensures !Done(hf)
  {
    HandleFrame(StepResume, FrameDestroy)
  }

  /** The static header behind `noop_coroutine()`. */
  function NoopFrame(): (hf: HandleFrame)
    ensures !Done(hf) && hf.destroyFunc == NoopDestroy
  {
    HandleFrame(NoopResume, NoopDestroy)
  }

  /** `done()`: the frame's resume function is null. */
  predicate Done(hf: HandleFrame)
  {
    hf.resumeFunc == NoResume
  }

  /** `setDone()` of a heap frame: clears the resume function and nothing else. */
  function SetDone(hf: HandleFrame): (r: HandleFrame)
    ensures Done(r) && r.destroyFunc == hf.destroyFunc
    ensures Done(hf) ==> r == hf
  {
    hf.(resumeFunc := NoResume)
  }

  /** The headers that non-null handles can reach. */
  type FrameTable = map<nat, HandleFrame>

  /** Following a non-null handle to its header. */
  function Deref(h: Handle, table: FrameTable): HandleFrame
    requires IsTrue(h) && (h.Ptr? ==> h.addr in table)
  {
    if h.Noop? then NoopFrame() else table[h.addr]
  }

  /** `done()` on a handle. */
  predicate HandleDone(h: Handle, table: FrameTable)
    requires IsTrue(h) && (h.Ptr? ==> h.addr in table)
  {
    Done(Deref(h, table))
  }

  /** Once `setDone()` has run, the handle reports done whatever else is in
      the table, and setting done again changes nothing: there is no way back
      to a resumable state. The no-op handle is never done. */
  lemma DoneIsSticky(table: FrameTable, a: nat)
    requires a in table
    ensures HandleDone(Ptr(a), table[a := SetDone(table[a])])
    ensures SetDone(SetDone(table[a])) == SetDone(table[a])
    ensures !HandleDone(Noop, table)
  {
  }

  // ----- from_promise / promise() -----

  /** `sizeof(HandleFrame)`: two function pointers of eight bytes. */
  const HandleFrameSize: nat := 16

  /** `promise_offset`: the header size rounded up to the promise's alignment.
      The source rounds with a bit mask, which is the same thing for the
      power-of-two alignments C++ allows. */
  function PromiseOffset(align: nat): (off: nat)
    requires align > 0
    ensures MultipleOf(off, align)
    ensures HandleFrameSize <= off < HandleFrameSize + align
  {
    RoundUp(HandleFrameSize, align)
  }

  /** `n` is a whole number of `align`-sized steps. */
  predicate MultipleOf(n: nat, align: nat)
    requires align > 0
    decreases n
  {
    n == 0 || (n >= align && MultipleOf(n - align, align))
  }

  /** The least multiple of `align` that is at least `n`. */
  function RoundUp(n: nat, align: nat): (r: nat)
    requires align > 0
    ensures MultipleOf(r, align)
    ensures n <= r < n + align
    decreases n
  {
    if n == 0 then 0
    else if n <= align then align
    else
      RoundUp(n - align, align) + align
  }

  /** `from_promise(p)`: the handle whose frame holds the promise at address `p`. */
  function FromPromise(p: nat, align: nat): (h: Handle)
    requires align > 0 && p >= PromiseOffset(align)
    ensures h.Ptr? && h.addr + HandleFrameSize <= p
  {
    Ptr(p - PromiseOffset(align))
  }

  /** `promise()`: the address of the promise inside the handle's frame. */
  function PromiseAddr(h: Handle, align: nat): (p: nat)
    requires align > 0 && h.Ptr?
    ensures p >= h.addr + HandleFrameSize
  {
    h.addr + PromiseOffset(align)
  }

  /** `from_promise(p).promise()` is `p`, and a frame's handle is recovered
      from its promise. */
  lemma PromiseRoundTrip(p: nat, a: nat, align: nat)
    requires align > 0 && p >= PromiseOffset(align)
    ensures PromiseAddr(FromPromise(p, align), align) == p
    ensures FromPromise(PromiseAddr(Ptr(a), align), align) == Ptr(a)
  {
  }
}
