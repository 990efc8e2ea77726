/**
 `map_bounded_as_completed`: one task for each item, a semaphore of `max(1, concurrency)`
 permits around each call, a consumer that takes the results as they finish, and a
 `finally` block that cancels what is left and waits for it.

 The protocol is a transition system. An `Action` is one step of one party, and every
 interleaving of enabled actions is a run, so that a call may end, fail or be cancelled at
 any moment and the consumer may leave at any moment.
 */
module BoundedMap {
  import opened Counting

  /** A task is waiting for a permit, or has its call in flight, or has ended. The flag says
      that its cancellation was requested. */
  datatype Task<+R> =
    | Waiting(cancelled: bool)
    | Running(cancelled: bool)
    | Returned(value: R)
    | Raised
    | Cancelled
  {
    predicate Ended() {
      Returned? || Raised? || Cancelled?
    }
  }

  /** Where the generator stands: in its loop, in the cancelling loop of `finally`, waiting
      for all tasks to end, or over. */
  datatype Phase = Iterating | Cancelling(next: nat) | Gathering | Closed

  /** Why the generator left its loop. */
  datatype Exit = NotYet | Drained | Failure | Left

  datatype State<+R> = State(
    bound: nat,
    permits: nat,
    tasks: seq<Task<R>>,
    finished: seq<nat>,      // the tasks that have ended, in the order of their ends
    delivered: nat,          // how many of them were handed to the consumer
    phase: Phase,
    exit: Exit)

  datatype Action<+R> =
    | Acquire(i: nat)            // a waiting task gets a permit and starts its call
    | Return(i: nat, value: R)   // the call returns, the permit is released
    | Raise(i: nat)              // the call raises, the permit is released
    | Abort(i: nat)              // a cancelled task ends
    | Deliver                    // the consumer awaits the next finished task
    | Exhaust                    // the loop is over
    | Leave                      // the consumer closes the generator or is cancelled
    | Cancel                     // one turn of the cancelling loop
    | Gather                     // the cancelling loop is over
    | Close                      // `gather` returns

  function Init<R>(items: nat, concurrency: int): State<R> {
    var bound := if concurrency < 1 then 1 else concurrency;
    State(bound, bound, seq(items, _ => Waiting(false)), [], 0, Iterating, NotYet)
  }

  predicate Enabled<R>(s: State<R>, a: Action<R>) {
    match a
    case Acquire(i) => i < |s.tasks| && s.tasks[i] == Waiting(false) && s.permits > 0
    case Return(i, _) => i < |s.tasks| && s.tasks[i].Running?
    case Raise(i) => i < |s.tasks| && s.tasks[i].Running?
    case Abort(i) => i < |s.tasks| && !s.tasks[i].Ended() && s.tasks[i].cancelled
    case Deliver => s.phase.Iterating? && s.delivered < |s.finished| && s.finished[s.delivered] < |s.tasks|
    case Exhaust => s.phase.Iterating? && s.delivered == |s.tasks|
    case Leave => s.phase.Iterating?
    case Cancel => s.phase.Cancelling? && s.phase.next < |s.tasks|
    case Gather => s.phase.Cancelling? && s.phase.next == |s.tasks|
    case Close => s.phase.Gathering? && AllEnded(s.tasks)
  }

  predicate AllEnded<R>(tasks: seq<Task<R>>) {
    forall i :: 0 <= i < |tasks| ==> tasks[i].Ended()
  }

  /** A task ends; if its call was in flight, its permit comes back. */
  function EndTask<R>(s: State<R>, i: nat, t: Task<R>): State<R>
    requires i < |s.tasks|
  {
    s.(tasks := s.tasks[i := t], finished := s.finished + [i],
       permits := s.permits + One(s.tasks[i].Running?))
  }

  function Request<R>(t: Task<R>): Task<R> {
    match t
    case Waiting(_) => Waiting(true)
    case Running(_) => Running(true)
    case _ => t
  }

  function Apply<R>(s: State<R>, a: Action<R>): State<R>
    requires Enabled(s, a)
  {
    match a
    case Acquire(i) => s.(tasks := s.tasks[i := Running(false)], permits := s.permits - 1)
    case Return(i, v) => EndTask(s, i, Returned(v))
    case Raise(i) => EndTask(s, i, Raised)
    case Abort(i) => EndTask(s, i, Cancelled)
    case Deliver =>
      if s.tasks[s.finished[s.delivered]].Returned? then s.(delivered := s.delivered + 1)
      else s.(phase := Cancelling(0), exit := Failure)
    case Exhaust => s.(phase := Cancelling(0), exit := Drained)
    case Leave => s.(phase := Cancelling(0), exit := Left)
    case Cancel =>
      s.(tasks := s.tasks[s.phase.next := Request(s.tasks[s.phase.next])], phase := Cancelling(s.phase.next + 1))
    case Gather => s.(phase := Gathering)
    case Close => s.(phase := Closed)
  }

  // ----- Runs

  ghost predicate IsRun<R>(s: State<R>, actions: seq<Action<R>>)
    decreases |actions|
  {
    actions == [] || (Enabled(s, actions[0]) && IsRun(Apply(s, actions[0]), actions[1..]))
  }

  ghost function After<R>(s: State<R>, actions: seq<Action<R>>): State<R>
    requires IsRun(s, actions)
    decreases |actions|
  {
    if actions == [] then s else After(Apply(s, actions[0]), actions[1..])
  }

  // ----- The invariant

  function InFlight<R>(tasks: seq<Task<R>>): nat {
    Count(tasks, (t: Task<R>) => t.Running?)
  }

  /** `finished` lists each ended task once, and nothing else. */
  ghost predicate FinishedOk<R>(s: State<R>) {
    && Distinct(s.finished)
    && (forall k :: 0 <= k < |s.finished| ==> s.finished[k] < |s.tasks| && s.tasks[s.finished[k]].Ended())
    && (forall i :: 0 <= i < |s.tasks| && s.tasks[i].Ended() ==> i in s.finished)
  }

  ghost predicate DeliveredOk<R>(s: State<R>) {
    && s.delivered <= |s.finished|
    && (forall k :: 0 <= k < s.delivered && s.finished[k] < |s.tasks| ==> s.tasks[s.finished[k]].Returned?)
    && (s.exit.Drained? ==> s.delivered == |s.tasks|)
    && (s.exit.Failure? ==> FailsNext(s))
  }

  /** The next task to be awaited has ended without a result. */
  ghost predicate FailsNext<R>(s: State<R>) {
    && s.delivered < |s.finished| && s.finished[s.delivered] < |s.tasks|
    && s.tasks[s.finished[s.delivered]].Ended() && !s.tasks[s.finished[s.delivered]].Returned?
  }

  /** How far the cancelling loop has come. */
  function Asked<R>(s: State<R>): nat {
    match s.phase
    case Iterating => 0
    case Cancelling(next) => next
    case _ => |s.tasks|
  }

  ghost predicate CancelOk<R>(s: State<R>) {
    && Asked(s) <= |s.tasks|
    && (forall i :: 0 <= i < |s.tasks| && !s.tasks[i].Ended() ==> (s.tasks[i].cancelled <==> i < Asked(s)))
    && (s.phase.Closed? ==> AllEnded(s.tasks))
    && (s.phase.Iterating? <==> s.exit.NotYet?)
  }

  ghost predicate Inv<R>(s: State<R>) {
    && s.bound >= 1
    && s.permits + InFlight(s.tasks) == s.bound
    && FinishedOk(s) && DeliveredOk(s) && CancelOk(s)
  }

  lemma InitInv<R>(items: nat, concurrency: int)
    ensures Inv(Init<R>(items, concurrency))
  {
    CountZero(Init<R>(items, concurrency).tasks, (t: Task<R>) => t.Running?);
  }

  lemma EndTaskInv<R>(s: State<R>, i: nat, t: Task<R>)
    requires Inv(s) && i < |s.tasks| && !s.tasks[i].Ended() && t.Ended()
    ensures Inv(EndTask(s, i, t))
  {
    var s' := EndTask(s, i, t);
    CountUpdate(s.tasks, (t: Task<R>) => t.Running?, i, t);
    assert i !in s.finished;
    assert forall k :: 0 <= k < |s.finished| ==> s.finished[k] != i;
    assert s'.finished[|s.finished|] == i;
    assert forall j :: j in s.finished ==> j in s'.finished;
  }

  lemma AcquireInv<R>(s: State<R>, i: nat)
    requires Inv(s) && Enabled(s, Acquire(i))
    ensures Inv(Apply(s, Acquire(i)))
  {
    CountUpdate(s.tasks, (t: Task<R>) => t.Running?, i, Running(false));
  }

  lemma CancelInv<R>(s: State<R>)
    requires Inv(s) && Enabled(s, Cancel)
    ensures Inv(Apply(s, Cancel))
  {
    var tasks := Apply(s, Cancel).tasks;
    CountUpdate(s.tasks, (t: Task<R>) => t.Running?, s.phase.next, Request(s.tasks[s.phase.next]));
    assert forall i :: 0 <= i < |tasks| ==>
      (tasks[i].Ended() <==> s.tasks[i].Ended()) && (tasks[i].Returned? <==> s.tasks[i].Returned?);
  }

  lemma ApplyInv<R>(s: State<R>, a: Action<R>)
    requires Inv(s) && Enabled(s, a)
    ensures Inv(Apply(s, a))
  {
    match a
    case Acquire(i) => AcquireInv(s, i);
    case Return(i, v) => EndTaskInv(s, i, Returned(v));
    case Raise(i) => EndTaskInv(s, i, Raised);
    case Abort(i) => EndTaskInv(s, i, Cancelled);
    case Cancel => CancelInv(s);
    case _ => PhaseInv(s, a);
  }

  lemma PhaseInv<R>(s: State<R>, a: Action<R>)
    requires Inv(s) && Enabled(s, a) && (a.Deliver? || a.Exhaust? || a.Leave? || a.Gather? || a.Close?)
    ensures Inv(Apply(s, a))
  {
  }

  lemma {:induction false} RunInv<R>(s: State<R>, actions: seq<Action<R>>)
    requires Inv(s) && IsRun(s, actions)
    ensures Inv(After(s, actions)) && After(s, actions).bound == s.bound
    ensures |After(s, actions).tasks| == |s.tasks|
    decreases |actions|
  {
    if actions != [] {
      ApplyInv(s, actions[0]);
      RunInv(Apply(s, actions[0]), actions[1..]);
    }
  }

  // ----- Safety over every run

  /** At every moment of every run at most `max(1, concurrency)` calls are in flight, and
      the free permits are the difference. */
  lemma InFlightBounded<R>(items: nat, concurrency: int, actions: seq<Action<R>>)
    requires IsRun(Init(items, concurrency), actions)
    ensures var s := After(Init(items, concurrency), actions);
            var bound := if concurrency < 1 then 1 else concurrency;
            InFlight(s.tasks) <= bound && s.permits + InFlight(s.tasks) == bound
  {
    InitInv<R>(items, concurrency);
    RunInv(Init(items, concurrency), actions);
  }

  /** The tasks whose results the consumer got, in the order it got them. */
  function Delivered<R>(s: State<R>): seq<nat> {
    if s.delivered <= |s.finished| then s.finished[..s.delivered] else []
  }

  /** Once the generator is over, every task has ended, however it was left. No result was
      delivered twice, and every delivered one is a call that returned. If the loop was
      drained, each item gave exactly one result. */
  lemma ClosedRun<R>(items: nat, concurrency: int, actions: seq<Action<R>>)
    requires IsRun(Init(items, concurrency), actions)
    requires After(Init(items, concurrency), actions).phase.Closed?
    ensures var s := After(Init(items, concurrency), actions);
            && |s.tasks| == items && AllEnded(s.tasks) && s.permits == s.bound
            && Distinct(Delivered(s))
            && (forall i :: i in Delivered(s) ==> i < items && s.tasks[i].Returned?)
            && (s.exit.Drained? ==> forall i :: 0 <= i < items ==> i in Delivered(s) && s.tasks[i].Returned?)
  {
    InitInv<R>(items, concurrency);
    RunInv(Init(items, concurrency), actions);
    var s := After(Init(items, concurrency), actions);
    CountZero(s.tasks, (t: Task<R>) => t.Running?);
    if s.exit.Drained? {
      DistinctBelow(s.finished, items);
      assert Delivered(s) == s.finished;
    }
  }

  // ----- Every run ends, and ends closed

  function Weight<R>(t: Task<R>): nat {
    match t
    case Waiting(_) => 2
    case Running(_) => 1
    case _ => 0
  }

  function Weights<R>(tasks: seq<Task<R>>): nat {
    if tasks == [] then 0 else Weight(tasks[0]) + Weights(tasks[1..])
  }

  lemma {:induction false} WeightsUpdate<R>(tasks: seq<Task<R>>, i: nat, t: Task<R>)
    requires i < |tasks|
    ensures Weights(tasks[i := t]) + Weight(tasks[i]) == Weights(tasks) + Weight(t)
  {
    if i == 0 {
      assert tasks[i := t][1..] == tasks[1..];
    } else {
      assert tasks[i := t][1..] == tasks[1..][i - 1 := t];
      WeightsUpdate(tasks[1..], i - 1, t);
    }
  }

  function PhaseLeft<R>(s: State<R>): int {
    match s.phase
    case Iterating => 2 * |s.tasks| + 3 - s.delivered
    case Cancelling(next) => |s.tasks| + 2 - next
    case Gathering => 1
    case Closed => 0
  }

  function StepBound<R>(s: State<R>): int {
    Weights(s.tasks) + PhaseLeft(s)
  }

  /** An upper bound on the steps that are left. */
  ghost function StepsLeft<R>(s: State<R>): nat
    requires Inv(s)
  {
    DistinctBelow(s.finished, |s.tasks|);
    StepBound(s)
  }

  lemma TaskShrinks<R>(s: State<R>, i: nat, t: Task<R>)
    requires i < |s.tasks| && !s.tasks[i].Ended() && t.Ended()
    ensures StepBound(EndTask(s, i, t)) < StepBound(s)
  {
    WeightsUpdate(s.tasks, i, t);
  }

  lemma StepShrinks<R>(s: State<R>, a: Action<R>)
    requires Enabled(s, a) && s.delivered <= |s.tasks|
    ensures StepBound(Apply(s, a)) < StepBound(s)
  {
    match a
    case Acquire(i) => WeightsUpdate(s.tasks, i, Running(false));
    case Return(i, v) => TaskShrinks(s, i, Returned(v));
    case Raise(i) => TaskShrinks(s, i, Raised);
    case Abort(i) => TaskShrinks(s, i, Cancelled);
    case Cancel => WeightsUpdate(s.tasks, s.phase.next, Request(s.tasks[s.phase.next]));
    case _ =>
  }

  lemma ApplyShrinks<R>(s: State<R>, a: Action<R>)
    requires Inv(s) && Enabled(s, a)
    ensures Inv(Apply(s, a)) && StepsLeft(Apply(s, a)) < StepsLeft(s)
  {
    ApplyInv(s, a);
    DistinctBelow(s.finished, |s.tasks|);
    StepShrinks(s, a);
  }

  lemma {:induction false} RunShrinks<R>(s: State<R>, actions: seq<Action<R>>)
    requires Inv(s) && IsRun(s, actions)
    ensures |actions| <= StepsLeft(s)
    decreases |actions|
  {
    if actions != [] {
      ApplyShrinks(s, actions[0]);
      RunShrinks(Apply(s, actions[0]), actions[1..]);
    }
  }

  lemma NotAllEnded<R>(s: State<R>) returns (i: nat)
    requires Inv(s) && |s.finished| < |s.tasks|
    ensures i < |s.tasks| && !s.tasks[i].Ended()
  {
    if AllEnded(s.tasks) {
      var all := seq(|s.tasks|, (k: nat) => k);
      assert forall k :: 0 <= k < |all| ==> all[k] in s.finished;
      DistinctWithin(all, s.finished);
    } else {
      i :| 0 <= i < |s.tasks| && !s.tasks[i].Ended();
    }
  }

  /** No deadlock: until the generator is over, something other than the consumer leaving
      can happen. A call in flight can always return; this is where a bound of at least one
      permit is needed. */
  lemma NextAction<R(0)>(s: State<R>, value: R) returns (a: Action<R>)
    requires Inv(s) && !s.phase.Closed?
    ensures Enabled(s, a) && !a.Leave?
  {
    match s.phase
    case Cancelling(next) => a := if next < |s.tasks| then Cancel else Gather;
    case Gathering =>
      if AllEnded(s.tasks) {
        a := Close;
      } else {
        var i :| 0 <= i < |s.tasks| && !s.tasks[i].Ended();
        a := Abort(i);
      }
    case Iterating =>
      if s.delivered < |s.finished| {
        a := Deliver;
      } else if |s.finished| == |s.tasks| {
        a := Exhaust;
      } else {
        DistinctBelow(s.finished, |s.tasks|);
        var i := NotAllEnded(s);
        if s.tasks[i].Running? {
          a := Return(i, value);
        } else if s.permits > 0 {
          a := Acquire(i);
        } else {
          CountZero(s.tasks, (t: Task<R>) => t.Running?);
          var j :| 0 <= j < |s.tasks| && s.tasks[j].Running?;
          a := Return(j, value);
        }
      }
  }

  /** Every run is finite, within a bound that does not depend on the interleaving, and a
      run that cannot go on by itself is a run whose generator is over. */
  lemma RunsEndClosed<R(0)>(items: nat, concurrency: int, actions: seq<Action<R>>, value: R)
    requires IsRun(Init(items, concurrency), actions)
    ensures |actions| <= 4 * items + 3
    ensures var s := After(Init(items, concurrency), actions);
            s.phase.Closed? || exists a :: Enabled(s, a) && !a.Leave?
  {
    var s := Init<R>(items, concurrency);
    InitInv<R>(items, concurrency);
    WaitingWeights(s.tasks);
    RunShrinks(s, actions);
    RunInv(s, actions);
    if !After(s, actions).phase.Closed? {
      var a := NextAction(After(s, actions), value);
    }
  }

  lemma {:induction false} WaitingWeights<R>(tasks: seq<Task<R>>)
    requires forall i :: 0 <= i < |tasks| ==> tasks[i].Waiting?
    ensures Weights(tasks) == 2 * |tasks|
  {
    if tasks != [] {
      WaitingWeights(tasks[1..]);
    }
  }

  // ----- What was delivered

  /** The task that ends in a step, and how. */
  ghost function EndIn<R>(a: Action<R>): seq<(nat, Task<R>)> {
    match a
    case Return(i, v) => [(i, Returned(v))]
    case Raise(i) => [(i, Raised)]
    case Abort(i) => [(i, Cancelled)]
    case _ => []
  }

  /** The tasks that end in a run, in the order of their ends, and how. */
  ghost function Ends<R>(actions: seq<Action<R>>): seq<(nat, Task<R>)> {
    if actions == [] then [] else EndIn(actions[0]) + Ends(actions[1..])
  }

  /** How often the consumer awaits a task. */
  ghost function Awaits<R>(actions: seq<Action<R>>): nat {
    if actions == [] then 0 else One(actions[0].Deliver?) + Awaits(actions[1..])
  }

  /** From `s` to `t` exactly these tasks end, in this order. */
  ghost predicate Recorded<R>(s: State<R>, t: State<R>, ends: seq<(nat, Task<R>)>) {
    && |t.tasks| == |s.tasks|
    && |t.finished| == |s.finished| + |ends| && t.finished[..|s.finished|] == s.finished
    && (forall k :: 0 <= k < |ends| ==>
          t.finished[|s.finished| + k] == ends[k].0 < |t.tasks| && t.tasks[ends[k].0] == ends[k].1)
    && (forall i :: 0 <= i < |s.tasks| && s.tasks[i].Ended() ==> t.tasks[i] == s.tasks[i])
  }

  lemma EndTaskRecorded<R>(s: State<R>, i: nat, t: Task<R>)
    requires i < |s.tasks| && !s.tasks[i].Ended()
    ensures Recorded(s, EndTask(s, i, t), [(i, t)])
  {
  }

  lemma NoneRecorded<R>(s: State<R>, a: Action<R>)
    requires Enabled(s, a) && !a.Return? && !a.Raise? && !a.Abort?
    ensures Recorded(s, Apply(s, a), [])
  {
    assert s.finished[..|s.finished|] == s.finished;
  }

  lemma EndsStep<R>(s: State<R>, a: Action<R>)
    requires Enabled(s, a)
    ensures Recorded(s, Apply(s, a), EndIn(a))
  {
    match a
    case Return(i, v) => EndTaskRecorded(s, i, Returned(v));
    case Raise(i) => EndTaskRecorded(s, i, Raised);
    case Abort(i) => EndTaskRecorded(s, i, Cancelled);
    case _ => NoneRecorded(s, a);
  }

  lemma AwaitStep<R>(s: State<R>, a: Action<R>)
    requires Inv(s) && Enabled(s, a)
    ensures var t := Apply(s, a);
            t.delivered + One(t.exit.Failure?) == s.delivered + One(s.exit.Failure?) + One(a.Deliver?)
  {
  }

  lemma RecordedThen<R>(s: State<R>, t: State<R>, u: State<R>, a: seq<(nat, Task<R>)>, b: seq<(nat, Task<R>)>)
    requires Recorded(s, t, a) && Recorded(t, u, b) && FinishedOk(t)
    ensures Recorded(s, u, a + b)
  {
    assert u.finished[..|s.finished|] == u.finished[..|t.finished|][..|s.finished|];
    forall k | 0 <= k < |a|
      ensures u.finished[|s.finished| + k] == a[k].0 && u.tasks[a[k].0] == a[k].1
    {
      assert u.finished[|s.finished| + k] == u.finished[..|t.finished|][|s.finished| + k];
      assert t.tasks[t.finished[|s.finished| + k]].Ended();
    }
  }

  lemma {:induction false} EndsOf<R>(s: State<R>, actions: seq<Action<R>>)
    requires Inv(s) && IsRun(s, actions)
    ensures var t := After(s, actions);
            Recorded(s, t, Ends(actions))
            && t.delivered + One(t.exit.Failure?) == s.delivered + One(s.exit.Failure?) + Awaits(actions)
    decreases |actions|
  {
    if actions == [] {
      assert s.finished[..|s.finished|] == s.finished;
    } else {
      var t := Apply(s, actions[0]);
      EndsStep(s, actions[0]);
      AwaitStep(s, actions[0]);
      ApplyInv(s, actions[0]);
      EndsOf(t, actions[1..]);
      RecordedThen(s, t, After(s, actions), EndIn(actions[0]), Ends(actions[1..]));
    }
  }

  /** Each call that ends leaves its own result, the tasks are awaited in the order of their
      ends, and the consumer has been given a result each time it awaited one, but for a
      failure at the last time. */
  lemma DeliveredInOrder<R>(items: nat, concurrency: int, actions: seq<Action<R>>)
    requires IsRun(Init(items, concurrency), actions)
    ensures var s, ends := After(Init(items, concurrency), actions), Ends(actions);
            && |s.tasks| == items && |s.finished| == |ends| && s.delivered <= |ends|
            && (forall k :: 0 <= k < |ends| ==>
                  s.finished[k] == ends[k].0 < items && s.tasks[ends[k].0] == ends[k].1)
            && (forall k :: 0 <= k < s.delivered ==> ends[k].1.Returned?)
            && s.delivered + One(s.exit.Failure?) == Awaits(actions)
  {
    InitInv<R>(items, concurrency);
    EndsOf(Init<R>(items, concurrency), actions);
    RunInv(Init<R>(items, concurrency), actions);
    var s := After(Init<R>(items, concurrency), actions);
    forall k | 0 <= k < s.delivered
      ensures Ends(actions)[k].1.Returned?
    {
      assert s.tasks[s.finished[k]].Returned?;
    }
  }

  // ----- Why the generator left its loop

  /** Somewhere in the run the consumer awaits a task that has ended without a result. */
  ghost predicate AwaitsFailure<R>(s: State<R>, actions: seq<Action<R>>)
    requires IsRun(s, actions)
    decreases |actions|
  {
    actions != [] && ((actions[0].Deliver? && FailsNext(s)) || AwaitsFailure(Apply(s, actions[0]), actions[1..]))
  }

  ghost predicate Has<R>(actions: seq<Action<R>>, leave: bool) {
    exists i :: 0 <= i < |actions| && (if leave then actions[i].Leave? else actions[i].Exhaust?)
  }

  lemma HasMore<R>(actions: seq<Action<R>>, leave: bool)
    requires actions != []
    ensures Has(actions, leave) <==> (if leave then actions[0].Leave? else actions[0].Exhaust?) || Has(actions[1..], leave)
  {
    if i :| 1 <= i < |actions| && (if leave then actions[i].Leave? else actions[i].Exhaust?) {
      assert actions[1..][i - 1] == actions[i];
    }
    if i :| 0 <= i < |actions[1..]| && (if leave then actions[1..][i].Leave? else actions[1..][i].Exhaust?) {
      assert actions[i + 1] == actions[1..][i];
    }
  }

  lemma ExitStep<R>(s: State<R>, a: Action<R>)
    requires Inv(s) && Enabled(s, a)
    ensures var e := Apply(s, a).exit;
            && (e.Failure? <==> s.exit.Failure? || (a.Deliver? && FailsNext(s)))
            && (e.Left? <==> s.exit.Left? || a.Leave?)
            && (e.Drained? <==> s.exit.Drained? || a.Exhaust?)
  {
  }

  lemma {:induction false} ExitOf<R>(s: State<R>, actions: seq<Action<R>>)
    requires Inv(s) && IsRun(s, actions)
    ensures var e := After(s, actions).exit;
            && (e.Failure? <==> s.exit.Failure? || AwaitsFailure(s, actions))
            && (e.Left? <==> s.exit.Left? || Has(actions, true))
            && (e.Drained? <==> s.exit.Drained? || Has(actions, false))
    decreases |actions|
  {
    if actions != [] {
      ExitStep(s, actions[0]);
      ApplyInv(s, actions[0]);
      ExitOf(Apply(s, actions[0]), actions[1..]);
      HasMore(actions, true);
      HasMore(actions, false);
    }
  }

  /** A run ended by a failure is one in which the consumer awaited a task that ended without
      a result, and that task is the next one after the delivered ones; it was left exactly
      if the consumer left, and drained exactly if the loop came to its end. */
  lemma ExitIff<R>(items: nat, concurrency: int, actions: seq<Action<R>>)
    requires IsRun(Init(items, concurrency), actions)
    ensures var s := After(Init(items, concurrency), actions);
            && (s.exit.Failure? <==> AwaitsFailure(Init(items, concurrency), actions))
            && (s.exit.Failure? ==> FailsNext(s))
            && (s.exit.Left? <==> Has(actions, true))
            && (s.exit.Drained? <==> Has(actions, false))
            && (s.phase.Iterating? <==> s.exit.NotYet?)
  {
    InitInv<R>(items, concurrency);
    ExitOf(Init<R>(items, concurrency), actions);
    RunInv(Init<R>(items, concurrency), actions);
  }

  // ----- A run in which no call raises and the consumer stays

  ghost predicate Quiet<R>(s: State<R>) {
    && !s.exit.Failure? && !s.exit.Left?
    && (s.phase.Iterating? ==>
          forall i :: 0 <= i < |s.tasks| ==> !s.tasks[i].Raised? && !s.tasks[i].Cancelled?)
  }

  lemma QuietStep<R>(s: State<R>, a: Action<R>)
    requires Inv(s) && Quiet(s) && Enabled(s, a) && !a.Raise? && !a.Leave?
    ensures Quiet(Apply(s, a))
  {
  }

  lemma {:induction false} QuietRun<R>(s: State<R>, actions: seq<Action<R>>)
    requires Inv(s) && Quiet(s) && IsRun(s, actions)
    requires forall a :: a in actions ==> !a.Raise? && !a.Leave?
    ensures Quiet(After(s, actions))
    decreases |actions|
  {
    if actions != [] {
      QuietStep(s, actions[0]);
      ApplyInv(s, actions[0]);
      QuietRun(Apply(s, actions[0]), actions[1..]);
    }
  }

  /** If no call raises and the consumer stays, the generator delivers one result for each
      item and nothing else. */
  lemma QuietRunDrains<R>(items: nat, concurrency: int, actions: seq<Action<R>>)
    requires IsRun(Init(items, concurrency), actions)
    requires forall a :: a in actions ==> !a.Raise? && !a.Leave?
    requires After(Init(items, concurrency), actions).phase.Closed?
    ensures var s := After(Init(items, concurrency), actions);
            && s.exit.Drained? && Distinct(Delivered(s))
            && forall i :: i in Delivered(s) <==> 0 <= i < items
  {
    InitInv<R>(items, concurrency);
    RunInv(Init(items, concurrency), actions);
    QuietRun(Init(items, concurrency), actions);
    ClosedRun(items, concurrency, actions);
  }
}
