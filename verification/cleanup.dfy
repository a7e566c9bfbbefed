/** The `Cleanup` scope guard of lib/index.js: a queue of release actions
    (`todo`, which starts as `null`) and a `finished` flag. Actions are
    identified by number; running one is recorded by appending its number to
    `ran`, the log of everything the guard has executed so far. */
module Cleanup {
  import opened Results

  type ActionId = nat

  datatype Guard = Guard(todo: Option<seq<ActionId>>, finished: bool, ran: seq<ActionId>)

  datatype CleanupError =
    | AlreadyFinished   // `throw new Error('already finished')`
    | TodoNotIterable   // the `for ... of` over a `null` queue throws a TypeError

  /** The guard after `finish`, and what `finish` threw, if anything. */
  datatype Finished = Finished(guard: Guard, error: Option<CleanupError>)

  /** A new guard: nothing queued (`todo` is `null`), not finished, nothing run. */
  const Fresh: Guard := Guard(None, false, [])

  /** The queued actions, reading a `null` queue as empty. */
  function Queued(g: Guard): seq<ActionId> {
    if g.todo.Some? then g.todo.value else []
  }

  /** `add(fn)`. On a finished guard the action runs at once; either way it
      is then appended to the queue, because the code has no `else`. */
  function Add(g: Guard, a: ActionId): (g': Guard)
    ensures g'.finished == g.finished
    ensures g'.todo.Some? && g'.todo.value == Queued(g) + [a]
    ensures !g.finished ==> g'.ran == g.ran
    ensures g.finished ==> g'.ran == g.ran + [a]
  {
    var ran := if g.finished then g.ran + [a] else g.ran;
    if g.todo != None then Guard(Some(g.todo.value + [a]), g.finished, ran)
    else Guard(Some([a]), g.finished, ran)
  }

  /** `finish()`. A second call throws and changes nothing. A first call marks
      the guard finished before it iterates the queue, so a `null` queue
      leaves it finished, with nothing run, and throws. Otherwise every
      queued action runs once, in order, and the queue is reset to `null`. */
  function Finish(g: Guard): (r: Finished)
    ensures r.guard.finished
    ensures r.error.None? <==> !g.finished && g.todo.Some?
    ensures g.finished ==> r.error == Some(AlreadyFinished) && r.guard == g
    ensures !g.finished && g.todo.None? ==> r.error == Some(TodoNotIterable)
    ensures !g.finished ==> r.guard.todo.None?
    ensures r.guard.ran == g.ran + (if r.error.None? then Queued(g) else [])
  {
    if g.finished then Finished(g, Some(AlreadyFinished))
    else if g.todo.None? then Finished(Guard(g.todo, true, g.ran), Some(TodoNotIterable))
    else Finished(Guard(None, true, g.ran + g.todo.value), None)
  }

  /** One call on the guard. */
  datatype Call = AddCall(action: ActionId) | FinishCall

  function Apply(g: Guard, c: Call): Guard {
    match c
    case AddCall(a) => Add(g, a)
    case FinishCall => Finish(g).guard
  }

  /** The guard after a sequence of calls on a fresh one. A call whose
      `finish` throws still leaves its state changes behind. */
  function Run(calls: seq<Call>): Guard
    decreases |calls|
  {
    if |calls| == 0 then Fresh else Apply(Run(calls[..|calls| - 1]), calls[|calls| - 1])
  }

  /** The actions registered by a sequence of calls, in registration order. */
  function Registered(calls: seq<Call>): seq<ActionId>
    decreases |calls|
  {
    if |calls| == 0 then []
    else
      var last := calls[|calls| - 1];
      Registered(calls[..|calls| - 1]) + (if last.AddCall? then [last.action] else [])
  }

  /** Exactly once, in registration order: once any `finish` has been called,
      the guard has run every registered action exactly once, in the order
      registered, whether it was added before the finish (and run by it) or
      after (and run by `add`), and even when that finish threw because
      nothing had been queued. Before any `finish` nothing has run and the
      queue holds exactly the registered actions, `null` when there are none. */
  lemma {:induction false} RunsEachRegisteredOnce(calls: seq<Call>)
    ensures Run(calls).finished <==> FinishCall in calls
    ensures FinishCall in calls ==> Run(calls).ran == Registered(calls)
    ensures FinishCall !in calls ==> Run(calls).ran == []
    ensures FinishCall !in calls ==>
      Run(calls).todo == (if Registered(calls) == [] then None else Some(Registered(calls)))
    decreases |calls|
  {
    if |calls| > 0 {
      var prefix := calls[..|calls| - 1];
      RunsEachRegisteredOnce(prefix);
      assert calls == prefix + [calls[|calls| - 1]];
    }
  }

  /** A `finish` call succeeds exactly when it is the first one and at least
      one action was registered before it. */
  lemma {:induction false} FinishSucceedsIff(calls: seq<Call>)
    ensures Finish(Run(calls)).error.None? <==> FinishCall !in calls && Registered(calls) != []
  {
    RunsEachRegisteredOnce(calls);
  }

  /** A second `finish` always throws and runs nothing, whether or not the
      first one threw. */
  lemma SecondFinishFails(g: Guard)
    ensures Finish(Finish(g).guard).error == Some(AlreadyFinished)
    ensures Finish(Finish(g).guard).guard.ran == Finish(g).guard.ran
  {
  }

  /** The race the guard exists for: when the pipeline's `finally` runs before
      the temporary directory's callback has registered its disposer, `finish`
      throws on the empty queue, and the late `add` then runs the disposer
      itself, exactly once. */
  lemma LateRegistrationStillRuns(a: ActionId)
    ensures Finish(Fresh).error == Some(TodoNotIterable)
    ensures Add(Finish(Fresh).guard, a).ran == [a]
  {
  }
}
