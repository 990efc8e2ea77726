/**
 The ledger of background tasks in the contention benchmark: workers register the tasks
 their requests started, drains poll them and record an event for each one that is over,
 and the last drain records the rest as incomplete.

 The answers of the server are an input: any function of the task and of the number of the
 polling round. What becomes of a task is then a function of these answers.
 */
module TaskLedger {
  import opened Counting
  import opened Wrappers

  /** `started` is when the task was registered, by which entries can be told apart. */
  datatype PendingTask = PendingTask(
    adapter: string, taskId: string, taskType: string, origin: string, resource: string, started: real)

  datatype Status = Completed | Failed | Incomplete

  datatype TaskEvent = TaskEvent(task: PendingTask, completion: string, status: Status)

  /** A request of a worker: its task, whether it succeeded, and whether its result carried
      a task id (then it is the one in `task`). */
  datatype Request = Request(task: PendingTask, success: bool, hasTaskId: bool)

  const FINAL_DRAIN := "final_drain"

  // ----- What the server says

  /** The result of one `get_task`: whether the call succeeded, and the status it reports, if any. */
  datatype Answer = Answer(success: bool, status: Option<string>)

  /** The adapters that can be asked, and what they answer about a task in each round. */
  datatype World = World(adapters: set<string>, server: (PendingTask, nat) -> Answer)

  /** How a poll ends a task, if it does. */
  function Verdict(w: World, t: PendingTask, round: nat): (r: Option<Status>)
    ensures r != Some(Incomplete)
  {
    if t.adapter !in w.adapters then None
    else
      var answer := w.server(t, round);
      if !answer.success then None
      else if answer.status == Some("completed") then Some(Completed)
      else if answer.status == Some("failed") then Some(Failed)
      else None
  }

  /** The first answer that ends a task, among `n` rounds from `from` on. */
  ghost function FirstOver(w: World, t: PendingTask, from: nat, n: nat): (r: Option<Status>)
    ensures r != Some(Incomplete)
    decreases n
  {
    if n == 0 then None
    else if Verdict(w, t, from).Some? then Verdict(w, t, from)
    else FirstOver(w, t, from + 1, n - 1)
  }

  lemma {:induction false} FirstOverMore(w: World, t: PendingTask, from: nat, n: nat)
    ensures FirstOver(w, t, from, n + 1)
         == if FirstOver(w, t, from, n).Some? then FirstOver(w, t, from, n) else Verdict(w, t, from + n)
    decreases n
  {
    if n > 0 && Verdict(w, t, from).None? {
      FirstOverMore(w, t, from + 1, n - 1);
    }
  }

  /** Said without recursion. */
  lemma {:induction false} FirstOverIs(w: World, t: PendingTask, from: nat, n: nat)
    ensures FirstOver(w, t, from, n).None? <==> forall k :: from <= k < from + n ==> Verdict(w, t, k).None?
    ensures FirstOver(w, t, from, n).Some? ==>
      exists k ::
        && from <= k < from + n && Verdict(w, t, k) == FirstOver(w, t, from, n)
        && forall l :: from <= l < k ==> Verdict(w, t, l).None?
    decreases n
  {
    if n > 0 {
      FirstOverIs(w, t, from + 1, n - 1);
      if Verdict(w, t, from).Some? {
        assert from <= from < from + n;
      } else if FirstOver(w, t, from, n).Some? {
        var k :| from + 1 <= k < from + n && Verdict(w, t, k) == FirstOver(w, t, from + 1, n - 1)
              && forall l :: from + 1 <= l < k ==> Verdict(w, t, l).None?;
        assert from <= k < from + n && forall l :: from <= l < k ==> Verdict(w, t, l).None?;
      }
    }
  }

  // ----- What rounds of polling do to a list of tasks

  type Judge = PendingTask -> Option<Status>

  /** The tasks that are not over, in order. */
  function Kept(tasks: seq<PendingTask>, judge: Judge): seq<PendingTask> {
    if tasks == [] then []
    else
      var n := |tasks| - 1;
      Kept(tasks[..n], judge) + if judge(tasks[n]).None? then [tasks[n]] else []
  }

  /** An event for each task that is over, in order. */
  function Settled(tasks: seq<PendingTask>, judge: Judge, scenario: string): seq<TaskEvent> {
    if tasks == [] then []
    else
      var n := |tasks| - 1;
      var rest := Settled(tasks[..n], judge, scenario);
      if judge(tasks[n]).Some? then rest + [TaskEvent(tasks[n], scenario, judge(tasks[n]).value)] else rest
  }

  /** The judgement of one round, and of several. */
  function RoundJudge(w: World, round: nat): Judge {
    (t: PendingTask) => Verdict(w, t, round)
  }

  ghost function DrainJudge(w: World, from: nat, n: nat): Judge {
    (t: PendingTask) => FirstOver(w, t, from, n)
  }

  lemma OnePolled(tasks: seq<PendingTask>, i: nat, judge: Judge, scenario: string)
    requires i < |tasks|
    ensures Kept(tasks[..i + 1], judge) == Kept(tasks[..i], judge) + if judge(tasks[i]).None? then [tasks[i]] else []
    ensures Settled(tasks[..i + 1], judge, scenario)
         == Settled(tasks[..i], judge, scenario)
            + if judge(tasks[i]).Some? then [TaskEvent(tasks[i], scenario, judge(tasks[i]).value)] else []
  {
    assert tasks[..i + 1][..i] == tasks[..i];
  }

  lemma {:induction false} KeptHas(tasks: seq<PendingTask>, judge: Judge, t: PendingTask)
    ensures t in Kept(tasks, judge) <==> t in tasks && judge(t).None?
  {
    if tasks != [] {
      var n := |tasks| - 1;
      KeptHas(tasks[..n], judge, t);
      assert tasks == tasks[..n] + [tasks[n]];
    }
  }

  lemma {:induction false} SettledHas(tasks: seq<PendingTask>, judge: Judge, scenario: string, e: TaskEvent)
    ensures e in Settled(tasks, judge, scenario)
       <==> e.task in tasks && judge(e.task) == Some(e.status) && e.completion == scenario
  {
    if tasks != [] {
      var n := |tasks| - 1;
      SettledHas(tasks[..n], judge, scenario, e);
      assert tasks == tasks[..n] + [tasks[n]];
    }
  }

  /** Two judgements one after the other are one: who is over by the first stays so. */
  ghost predicate Then(first: Judge, second: Judge, both: Judge) {
    forall t :: both(t) == if first(t).Some? then first(t) else second(t)
  }

  lemma {:induction false} KeptTwice(tasks: seq<PendingTask>, first: Judge, second: Judge, both: Judge)
    requires Then(first, second, both)
    ensures Kept(Kept(tasks, first), second) == Kept(tasks, both)
  {
    if tasks != [] {
      var n := |tasks| - 1;
      KeptTwice(tasks[..n], first, second, both);
      var k := Kept(tasks[..n], first);
      if first(tasks[n]).None? {
        assert (k + [tasks[n]])[..|k|] == k;
      } else {
        assert k + [] == k;
      }
    }
  }

  function EventOf(t: PendingTask, judge: Judge, scenario: string): multiset<TaskEvent> {
    if judge(t).Some? then multiset{TaskEvent(t, scenario, judge(t).value)} else multiset{}
  }

  lemma SettledOne(tasks: seq<PendingTask>, t: PendingTask, judge: Judge, scenario: string)
    ensures multiset(Settled(tasks + [t], judge, scenario)) == multiset(Settled(tasks, judge, scenario)) + EventOf(t, judge, scenario)
  {
    assert (tasks + [t])[..|tasks|] == tasks;
  }

  lemma KeptOne(tasks: seq<PendingTask>, t: PendingTask, judge: Judge)
    ensures Kept(tasks + [t], judge) == if judge(t).None? then Kept(tasks, judge) + [t] else Kept(tasks, judge)
  {
    assert (tasks + [t])[..|tasks|] == tasks;
  }

  lemma AddEither<T>(a: multiset<T>, b: multiset<T>, c: multiset<T>, x: multiset<T>)
    requires a + b == c
    ensures (a + x) + b == c + x == a + (b + x)
  {
    assert (a + x) + b == (a + b) + x;
  }

  /** What the first judgement settles and what the second settles of the rest is what both settle. */
  ghost predicate Together(tasks: seq<PendingTask>, first: Judge, second: Judge, both: Judge, scenario: string) {
    multiset(Settled(tasks, first, scenario)) + multiset(Settled(Kept(tasks, first), second, scenario))
      == multiset(Settled(tasks, both, scenario))
  }

  lemma SettledStep(before: seq<PendingTask>, t: PendingTask, first: Judge, second: Judge, both: Judge, scenario: string)
    requires both(t) == if first(t).Some? then first(t) else second(t)
    requires Together(before, first, second, both, scenario)
    ensures Together(before + [t], first, second, both, scenario)
  {
    SettledOne(before, t, first, scenario);
    SettledOne(before, t, both, scenario);
    SettledOne(Kept(before, first), t, second, scenario);
    KeptOne(before, t, first);
    AddEither(
      multiset(Settled(before, first, scenario)), multiset(Settled(Kept(before, first), second, scenario)),
      multiset(Settled(before, both, scenario)), EventOf(t, both, scenario));
  }

  lemma {:induction false} SettledTwice(tasks: seq<PendingTask>, first: Judge, second: Judge, both: Judge, scenario: string)
    requires Then(first, second, both)
    ensures Together(tasks, first, second, both, scenario)
  {
    if tasks == [] {
      assert Kept(tasks, first) == [];
    } else {
      var n := |tasks| - 1;
      SettledTwice(tasks[..n], first, second, both, scenario);
      SettledStep(tasks[..n], tasks[n], first, second, both, scenario);
      assert tasks == tasks[..n] + [tasks[n]];
    }
  }

  // ----- The tasks of a list of events

  function TaskList(events: seq<TaskEvent>): (r: seq<PendingTask>)
    ensures |r| == |events| && forall i :: 0 <= i < |r| ==> r[i] == events[i].task
  {
    seq(|events|, i requires 0 <= i < |events| => events[i].task)
  }

  function EventTasks(events: seq<TaskEvent>): multiset<PendingTask> {
    multiset(TaskList(events))
  }

  lemma EventTasksAppend(a: seq<TaskEvent>, b: seq<TaskEvent>)
    ensures EventTasks(a + b) == EventTasks(a) + EventTasks(b)
  {
    assert TaskList(a + b) == TaskList(a) + TaskList(b);
  }

  lemma Append(tasks: seq<PendingTask>, t: PendingTask)
    ensures multiset(tasks + [t]) == multiset(tasks) + multiset{t}
  {
  }

  ghost predicate Balanced(tasks: seq<PendingTask>, judge: Judge, scenario: string) {
    EventTasks(Settled(tasks, judge, scenario)) + multiset(Kept(tasks, judge)) == multiset(tasks)
  }

  lemma BalancedStep(before: seq<PendingTask>, t: PendingTask, judge: Judge, scenario: string)
    requires Balanced(before, judge, scenario)
    ensures Balanced(before + [t], judge, scenario)
  {
    var settled := Settled(before, judge, scenario);
    assert (before + [t])[..|before|] == before;
    Append(before, t);
    KeptOne(before, t, judge);
    AddEither(EventTasks(settled), multiset(Kept(before, judge)), multiset(before), multiset{t});
    if judge(t).Some? {
      var e := TaskEvent(t, scenario, judge(t).value);
      EventTasksAppend(settled, [e]);
      assert TaskList([e]) == [t];
    } else {
      Append(Kept(before, judge), t);
    }
  }

  /** No task is lost between the kept and the settled ones, and none is in both. */
  lemma {:induction false} KeptOrSettled(tasks: seq<PendingTask>, judge: Judge, scenario: string)
    ensures Balanced(tasks, judge, scenario)
  {
    if tasks == [] {
      assert Kept(tasks, judge) == [] && TaskList([]) == [];
    } else {
      var n := |tasks| - 1;
      KeptOrSettled(tasks[..n], judge, scenario);
      BalancedStep(tasks[..n], tasks[n], judge, scenario);
      assert tasks == tasks[..n] + [tasks[n]];
    }
  }

  /** The tasks that a list of requests registers. */
  function Started(requests: seq<Request>): seq<PendingTask> {
    if requests == [] then []
    else
      var n := |requests| - 1;
      Started(requests[..n]) + if requests[n].success && requests[n].hasTaskId then [requests[n].task] else []
  }

  lemma StartedMore(requests: seq<Request>, i: nat)
    requires i < |requests|
    ensures Started(requests[..i + 1])
         == Started(requests[..i]) + if requests[i].success && requests[i].hasTaskId then [requests[i].task] else []
  {
    assert requests[..i + 1][..i] == requests[..i];
  }

  /** An incomplete event for each task, in order. */
  function GivenUp(tasks: seq<PendingTask>, scenario: string): (r: seq<TaskEvent>)
    ensures |r| == |tasks| && forall i :: 0 <= i < |r| ==> r[i] == TaskEvent(tasks[i], scenario, Incomplete)
  {
    seq(|tasks|, i requires 0 <= i < |tasks| => TaskEvent(tasks[i], scenario, Incomplete))
  }

  lemma GivenUpTasks(tasks: seq<PendingTask>, scenario: string)
    ensures EventTasks(GivenUp(tasks, scenario)) == multiset(tasks)
  {
    assert TaskList(GivenUp(tasks, scenario)) == tasks;
  }

  // ----- The runner

  /** The state of a ledger, as a value. */
  datatype Ledger = Ledger(pending: seq<PendingTask>, events: seq<TaskEvent>, round: nat)

  ghost function KnownTo(l: Ledger): multiset<PendingTask> {
    EventTasks(l.events) + multiset(l.pending)
  }

  /** What one round does: the tasks that are over get their events, the others stay, in order. */
  function RoundOf(w: World, l: Ledger, scenario: string): Ledger {
    var judge := RoundJudge(w, l.round);
    Ledger(Kept(l.pending, judge), l.events + Settled(l.pending, judge, scenario), l.round + 1)
  }

  /** What `n` rounds do. */
  ghost function RoundsOn(w: World, l: Ledger, n: nat, scenario: string): Ledger {
    if n == 0 then l else RoundOf(w, RoundsOn(w, l, n - 1, scenario), scenario)
  }

  /** What a drain with a timeout does: exactly the tasks with an answer in its rounds that
      ends them get their event, with the status of the first such answer; the others are
      kept, or given up if it is the final drain. */
  ghost predicate Drained(w: World, l: Ledger, now: Ledger, n: nat, scenario: string) {
    var judge := DrainJudge(w, l.round, n);
    var kept, settled := Kept(l.pending, judge), Settled(l.pending, judge, scenario);
    && now.round == l.round + n
    && now.pending == (if scenario == FINAL_DRAIN then [] else kept)
    && multiset(now.events) == multiset(l.events) + multiset(settled)
         + (if scenario == FINAL_DRAIN then multiset(GivenUp(kept, scenario)) else multiset{})
  }

  class Runner {
    var pending: seq<PendingTask>
    var events: seq<TaskEvent>
    /** The number of the next polling round. A drain has the rounds that begin before its
        deadline; those it does not need, since nothing is pending, are skipped. */
    var round: nat
    const world: World

    ghost function State(): Ledger
      reads this
    {
      Ledger(pending, events, round)
    }

    /** Everything the ledger accounts for. */
    ghost function Known(): multiset<PendingTask>
      reads this
    {
      KnownTo(State())
    }

    constructor (world: World)
      ensures pending == [] && events == [] && round == 0 && this.world == world
    {
      this.world, pending, events, round := world, [], [], 0;
    }

    /** `_register_task_if_present`. */
    method Register(r: Request)
      modifies this`pending
      ensures pending == old(pending) + if r.success && r.hasTaskId then [r.task] else []
    {
      if !r.success {
        return;
      }
      if !r.hasTaskId {
        return;
      }
      pending := pending + [r.task];
    }

    /** A phase of work, its requests in the order in which they ended. All its workers are
        joined before it is over. */
    method Work(requests: seq<Request>)
      modifies this`pending
      ensures pending == old(pending) + Started(requests)
      ensures Known() == old(Known()) + multiset(Started(requests))
    {
      for i := 0 to |requests|
        invariant pending == old(pending) + Started(requests[..i])
      {
        Register(requests[i]);
        StartedMore(requests, i);
      }
      assert requests[..|requests|] == requests;
    }

    /** One poll of one task: an event if it is over; nothing if it is not, if the poll
        failed or if the adapter is gone. */
    method Poll(task: PendingTask, scenario: string) returns (over: bool)
      modifies this`events
      ensures over <==> Verdict(world, task, round).Some?
      ensures events == old(events) + if over then [TaskEvent(task, scenario, Verdict(world, task, round).value)] else []
    {
      over := false;
      if task.adapter in world.adapters {
        var answer := world.server(task, round);
        if answer.success && (answer.status == Some("completed") || answer.status == Some("failed")) {
          var status := if answer.status == Some("completed") then Completed else Failed;
          events := events + [TaskEvent(task, scenario, status)];
          over := true;
        }
      }
    }

    /** One round of polling over all pending tasks. */
    method Round(scenario: string)
      modifies this
      ensures State() == RoundOf(world, old(State()), scenario)
      ensures Known() == old(Known())
    {
      var remaining: seq<PendingTask> := [];
      var tasks := pending;
      ghost var l, judge := State(), RoundJudge(world, round);
      RoundKnown(world, l, scenario);
      for i := 0 to |tasks|
        invariant pending == tasks && round == old(round)
        invariant remaining == Kept(tasks[..i], judge)
        invariant events == old(events) + Settled(tasks[..i], judge, scenario)
      {
        OnePolled(tasks, i, judge, scenario);
        var over := Poll(tasks[i], scenario);
        if !over {
          remaining := remaining + [tasks[i]];
        }
      }
      assert tasks[..|tasks|] == tasks;
      pending := remaining;
      round := round + 1;
    }

    /** `_finalize_incomplete_tasks`. */
    method FinalizeIncomplete(scenario: string)
      modifies this`pending, this`events
      ensures pending == [] && events == old(events) + GivenUp(old(pending), scenario)
      ensures Known() == old(Known())
    {
      var tasks := pending;
      for i := 0 to |tasks|
        invariant pending == tasks && events == old(events) + GivenUp(tasks[..i], scenario)
      {
        events := events + [TaskEvent(tasks[i], scenario, Incomplete)];
      }
      assert tasks[..|tasks|] == tasks;
      GivenUpTasks(tasks, scenario);
      EventTasksAppend(old(events), GivenUp(tasks, scenario));
      pending := [];
    }

    /** The loop of `_drain_tasks`. */
    method PollAll(scenario: string, rounds: nat)
      modifies this
      ensures IsPolled(world, old(State()), State(), rounds, scenario)
    {
      var start := round;
      ghost var l, n := State(), 0;
      while pending != [] && round < start + rounds
        invariant round == start + n && n <= rounds
        invariant State() == RoundsOn(world, l, n, scenario)
        decreases rounds - n
      {
        Round(scenario);
        n := n + 1;
      }
      AllPolled(world, l, State(), n, rounds, scenario);
      round := start + rounds;
    }

    /** `_drain_tasks`; `rounds` is how many rounds begin before the deadline. Without a
        timeout every pending task is given up. */
    method Drain(scenario: string, timeout: real, rounds: nat)
      modifies this
      ensures Known() == old(Known())
      ensures old(events) <= events && round == old(round) + rounds
      ensures timeout <= 0.0 ==> pending == [] && events == old(events) + GivenUp(old(pending), scenario)
      ensures timeout > 0.0 ==> Drained(world, old(State()), State(), rounds, scenario)
    {
      if pending == [] || timeout <= 0.0 {
        FinalizeIncomplete(scenario);
        round := round + rounds;
        return;
      }
      ghost var l := State();
      PollAll(scenario, rounds);
      PolledTasks(world, l, State(), rounds, scenario);
      if scenario == FINAL_DRAIN {
        FinalizeIncomplete(scenario);
      }
    }
  }

  /** A round loses no task and makes up none. */
  lemma RoundKnown(w: World, l: Ledger, scenario: string)
    ensures KnownTo(RoundOf(w, l, scenario)) == KnownTo(l)
  {
    var judge := RoundJudge(w, l.round);
    var settled := Settled(l.pending, judge, scenario);
    KeptOrSettled(l.pending, judge, scenario);
    EventTasksAppend(l.events, settled);
    Gather(EventTasks(l.events), EventTasks(settled), multiset(Kept(l.pending, judge)), multiset(l.pending));
  }

  lemma {:induction false} NoneOver(tasks: seq<PendingTask>, judge: Judge, scenario: string)
    requires forall t :: judge(t).None?
    ensures Kept(tasks, judge) == tasks && Settled(tasks, judge, scenario) == []
  {
    if tasks != [] {
      NoneOver(tasks[..|tasks| - 1], judge, scenario);
    }
  }

  /** The ledger after `n` rounds from `l` on; the number of the round may be later. */
  ghost predicate Polled(w: World, l: Ledger, now: Ledger, n: nat, scenario: string) {
    var judge := DrainJudge(w, l.round, n);
    && now.pending == Kept(l.pending, judge)
    && l.events <= now.events
    && multiset(now.events) == multiset(l.events) + multiset(Settled(l.pending, judge, scenario))
  }

  ghost predicate IsPolled(w: World, l: Ledger, now: Ledger, n: nat, scenario: string) {
    Polled(w, l, now, n, scenario) && now.round == l.round + n
  }

  lemma NoRound(w: World, l: Ledger, scenario: string)
    ensures Polled(w, l, l, 0, scenario)
  {
    NoneOver(l.pending, DrainJudge(w, l.round, 0), scenario);
  }

  lemma PolledTasks(w: World, l: Ledger, now: Ledger, n: nat, scenario: string)
    requires Polled(w, l, now, n, scenario)
    ensures KnownTo(now) == KnownTo(l)
  {
    var judge := DrainJudge(w, l.round, n);
    var settled := Settled(l.pending, judge, scenario);
    SameTasks(now.events, l.events + settled);
    EventTasksAppend(l.events, settled);
    KeptOrSettled(l.pending, judge, scenario);
    Gather(EventTasks(l.events), EventTasks(settled), multiset(now.pending), multiset(l.pending));
  }

  lemma SameTasks(a: seq<TaskEvent>, b: seq<TaskEvent>)
    requires multiset(a) == multiset(b)
    ensures EventTasks(a) == EventTasks(b)
  {
    var f := (e: TaskEvent) => e.task;
    MapPermutation(a, b, f);
    assert MapSeq(a, f) == TaskList(a) && MapSeq(b, f) == TaskList(b);
  }

  lemma DrainThenRound(w: World, from: nat, n: nat)
    ensures Then(DrainJudge(w, from, n), RoundJudge(w, from + n), DrainJudge(w, from, n + 1))
  {
    forall t
      ensures DrainJudge(w, from, n + 1)(t)
           == if DrainJudge(w, from, n)(t).Some? then DrainJudge(w, from, n)(t) else RoundJudge(w, from + n)(t)
    {
      FirstOverMore(w, t, from, n);
    }
  }

  lemma Gather<T>(a: multiset<T>, b: multiset<T>, c: multiset<T>, d: multiset<T>)
    requires b + c == d
    ensures (a + b) + c == a + d
  {
    assert (a + b) + c == a + (b + c);
  }

  lemma OneRound(w: World, l: Ledger, m: Ledger, n: nat, scenario: string)
    requires Polled(w, l, m, n, scenario) && m.round == l.round + n
    ensures Polled(w, l, RoundOf(w, m, scenario), n + 1, scenario)
  {
    var before, one, both := DrainJudge(w, l.round, n), RoundJudge(w, m.round), DrainJudge(w, l.round, n + 1);
    DrainThenRound(w, l.round, n);
    KeptTwice(l.pending, before, one, both);
    SettledTwice(l.pending, before, one, both, scenario);
    Gather(multiset(l.events), multiset(Settled(l.pending, before, scenario)), multiset(Settled(m.pending, one, scenario)),
           multiset(Settled(l.pending, both, scenario)));
  }

  lemma {:induction false} RoundsPolled(w: World, l: Ledger, n: nat, scenario: string)
    ensures RoundsOn(w, l, n, scenario).round == l.round + n && Polled(w, l, RoundsOn(w, l, n, scenario), n, scenario)
  {
    if n == 0 {
      NoRound(w, l, scenario);
    } else {
      var m := RoundsOn(w, l, n - 1, scenario);
      RoundsPolled(w, l, n - 1, scenario);
      OneRound(w, l, m, n - 1, scenario);
      assert RoundsOn(w, l, n, scenario) == RoundOf(w, m, scenario);
    }
  }

  /** Once nothing is pending, further rounds change nothing. */
  lemma {:induction false} NoMore(w: World, l: Ledger, now: Ledger, n: nat, rounds: nat, scenario: string)
    requires Polled(w, l, now, n, scenario) && n <= rounds && (now.pending == [] || n == rounds)
    ensures Polled(w, l, now, rounds, scenario)
    decreases rounds - n
  {
    if n < rounds {
      var m := Ledger(now.pending, now.events, l.round + n);
      EmptyRound(w, m, scenario);
      OneRound(w, l, m, n, scenario);
      NoMore(w, l, RoundOf(w, m, scenario), n + 1, rounds, scenario);
    }
  }

  lemma EmptyRound(w: World, l: Ledger, scenario: string)
    requires l.pending == []
    ensures RoundOf(w, l, scenario) == Ledger(l.pending, l.events, l.round + 1)
  {
    assert l.events + [] == l.events;
  }

  lemma AllPolled(w: World, l: Ledger, done: Ledger, n: nat, rounds: nat, scenario: string)
    requires done == RoundsOn(w, l, n, scenario) && n <= rounds && (done.pending == [] || n == rounds)
    ensures IsPolled(w, l, Ledger(done.pending, done.events, l.round + rounds), rounds, scenario)
  {
    RoundsPolled(w, l, n, scenario);
    NoMore(w, l, done, n, rounds, scenario);
  }

  /** What a drain with a timeout does to one task: its event has the status of the first
      answer that ends it, and it is kept exactly when there is none. */
  lemma DrainedTask(tasks: seq<PendingTask>, w: World, from: nat, n: nat, scenario: string, t: PendingTask)
    requires t in tasks
    ensures var judge := DrainJudge(w, from, n);
            && (t in Kept(tasks, judge) <==> forall k :: from <= k < from + n ==> Verdict(w, t, k).None?)
            && forall status :: TaskEvent(t, scenario, status) in Settled(tasks, judge, scenario) <==>
                 exists k ::
                   && from <= k < from + n && Verdict(w, t, k) == Some(status)
                   && forall l :: from <= l < k ==> Verdict(w, t, l).None?
  {
    var judge := DrainJudge(w, from, n);
    KeptHas(tasks, judge, t);
    FirstOverIs(w, t, from, n);
    forall status
      ensures TaskEvent(t, scenario, status) in Settled(tasks, judge, scenario) <==> FirstOver(w, t, from, n) == Some(status)
    {
      SettledHas(tasks, judge, scenario, TaskEvent(t, scenario, status));
    }
    forall status, k | from <= k < from + n && Verdict(w, t, k) == Some(status) && forall l :: from <= l < k ==> Verdict(w, t, l).None?
      ensures FirstOver(w, t, from, n) == Some(status)
    {
      var m :| from <= m < from + n && Verdict(w, t, m) == FirstOver(w, t, from, n) && forall l :: from <= l < m ==> Verdict(w, t, l).None?;
      assert k == m;
    }
  }
}
