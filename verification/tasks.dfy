/**
  The task client of the frame protocol (src/task.h): a lazily started
  coroutine whose completion hands control back to the coroutine awaiting
  it, by symmetric transfer.

  Awaiting a task stores the awaiting coroutine's handle in the task's
  promise as its continuation and transfers to the task. When the task
  finishes, its final awaiter transfers to the continuation, or to the
  no-op coroutine when nobody awaits it (which stops the trampoline). The
  awaiting coroutine then reads the task's result, which rethrows a stored
  exception.

  Ownership of the frame by `task` (move, move assignment, destructor) is
  the heap owner of the Ownership module.
 */
module Tasks {
  import opened Wrappers
  import opened Handles
  import opened Awaiters

  /** `task_promise<T>`: the value from `return_value`, the exception from
      `unhandled_exception`, and the continuation. The `void` promise is the
      same with `T` = `()` and no value ever stored. */
  datatype TaskPromise<T> = TaskPromise(value: Option<T>, exception: Option<Exception>, continuation: Handle)

  /** A default-constructed promise. */
  function NewTaskPromise<T>(): (p: TaskPromise<T>)
    ensures p.value == None && p.exception == None && !IsTrue(p.continuation)
  {
    TaskPromise(None, None, Null)
  }

  /** `task_final_awaiter`: never ready; suspending transfers to the
      continuation, or to the no-op coroutine when there is none. */
  function FinalAwaiter<T>(p: TaskPromise<T>): Awaiter
  {
    Awaiter(false, ReturnsHandle(if IsTrue(p.continuation) then p.continuation else Noop))
  }

  /** Finishing a task always suspends it at its final awaiter and always
      hands the trampoline a true handle: the awaiting coroutine, or the
      no-op coroutine after which the trampoline stops. */
  lemma FinalAwaiterHandsBack<T>(p: TaskPromise<T>)
    ensures Suspends(FinalAwaiter(p))
    ensures AwaitImpl(FinalAwaiter(p)).Park? && IsTrue(AwaitImpl(FinalAwaiter(p)).next)
    ensures IsTrue(p.continuation) ==> AwaitImpl(FinalAwaiter(p)) == Park(p.continuation)
    ensures !IsTrue(p.continuation) ==> AwaitImpl(FinalAwaiter(p)) == Park(Noop)
  {
  }

  /** `return_value(value)`. */
  function ReturnValue<T>(p: TaskPromise<T>, v: T): (r: TaskPromise<T>)
    ensures r.value == Some(v) && r.exception == p.exception && r.continuation == p.continuation
  {
    p.(value := Some(v))
  }

  /** `unhandled_exception()` of both promises: assigns the exception. */
  function TaskUnhandled<T>(p: TaskPromise<T>, e: Exception): (r: TaskPromise<T>)
    ensures r.exception == Some(e) && r.value == p.value && r.continuation == p.continuation
  {
    p.(exception := Some(e))
  }

  /** What `result()` gives the caller: the value, or an exception thrown. */
  datatype Completion<T> = Value(v: T) | Raised(e: Exception)

  /** `result()` of the value promise: rethrow a stored exception, otherwise
      dereference the optional value, which must have been set. */
  function Result<T>(p: TaskPromise<T>): (r: Outcome<Completion<T>>)
    ensures p.exception.Some? ==> r == Ok(Raised(p.exception.value))
    ensures p.exception.None? ==> (r.Ok? <==> p.value.Some?)
    ensures p.exception.None? && r.Ok? ==> r.value == Value(p.value.value)
  {
    match p.exception
    case Some(e) => Ok(Raised(e))
    case None =>
      match p.value
      case Some(v) => Ok(Value(v))
      case None => Fault(MissingValue)
  }

  /** `result()` of the `void` promise: rethrow a stored exception, and
      otherwise complete normally; no value is ever read. */
  function VoidResult(p: TaskPromise<()>): (r: Completion<()>)
    ensures r.Raised? <==> p.exception.Some?
    ensures r.Raised? ==> r.e == p.exception.value
  {
    match p.exception
    case Some(e) => Raised(e)
    case None => Value(())
  }

  /** What goes into a task comes out of `result()`: a returned value, or an
      exception, which wins over any value; `result()` does not consume it.
      The `void` promise rethrows exactly when the value promise would, and
      otherwise completes even though it never stored a value. */
  lemma ResultRoundTrip<T>(p: TaskPromise<T>, v: T, e: Exception, q: TaskPromise<()>)
    ensures p.exception == None ==> Result(ReturnValue(p, v)) == Ok(Value(v))
    ensures Result(TaskUnhandled(p, e)) == Ok(Raised(e))
    ensures Result(TaskUnhandled(ReturnValue(p, v), e)) == Ok(Raised(e))
    ensures VoidResult(q).Raised? <==> Result(q).Ok? && Result(q).value.Raised?
    ensures VoidResult(q).Raised? ==> Result(q) == Ok(VoidResult(q))
    ensures q.exception == None ==> VoidResult(q) == Value(())
  {
  }

  /** `task_awaiter`: ready iff the task is already done; suspending
      transfers to the task. */
  function TaskAwaiter(innerDone: bool, inner: Handle): (a: Awaiter)
    ensures a.ready <==> innerDone
  {
    Awaiter(innerDone, ReturnsHandle(inner))
  }

  /** The side effect of `task_awaiter::await_suspend(caller)`: the caller
      becomes the task's continuation. */
  function SetContinuation<T>(p: TaskPromise<T>, caller: Handle): (r: TaskPromise<T>)
    ensures r.continuation == caller && r.value == p.value && r.exception == p.exception
  {
    p.(continuation := caller)
  }

  /** The symmetric-transfer round trip: awaiting a task that is not done
      parks the caller and transfers to the task; awaiting a done task does
      not suspend; and once the caller is recorded, the task's final
      awaiter transfers straight back to it. */
  lemma AwaitRoundTrip<T>(innerDone: bool, inner: Handle, p: TaskPromise<T>, caller: Handle)
    requires IsTrue(caller)
    ensures AwaitImpl(TaskAwaiter(innerDone, inner)) == (if innerDone then Proceed else Park(inner))
    ensures AwaitImpl(FinalAwaiter(SetContinuation(p, caller))) == Park(caller)
  {
  }
}
