/**
 A whole run of the contention benchmark: for each adapter three phases that start tasks,
 a drain after each, and the final drain. What event each task gets is foretold from the
 answers of the server, and the run records exactly these events.
 */
module LedgerRun {
  import opened Counting
  import opened TaskLedger
  import opened Wrappers

  // ----- The fate of a task

  /** The rounds of a run, each with the scenario of the drain it belongs to. */
  type Rounds = seq<string>

  /** The event of a task that is pending from round `from` on: the first answer that ends
      it decides, and without one the final drain gives it up. */
  ghost function Fate(w: World, rounds: Rounds, t: PendingTask, from: nat): TaskEvent
    decreases |rounds| - from
  {
    if from >= |rounds| then TaskEvent(t, FINAL_DRAIN, Incomplete)
    else if Verdict(w, t, from).Some? then TaskEvent(t, rounds[from], Verdict(w, t, from).value)
    else Fate(w, rounds, t, from + 1)
  }

  ghost function Fates(w: World, rounds: Rounds, tasks: seq<PendingTask>, from: nat): (r: seq<TaskEvent>)
    ensures |r| == |tasks| && forall i :: 0 <= i < |r| ==> r[i] == Fate(w, rounds, tasks[i], from)
  {
    seq(|tasks|, i requires 0 <= i < |tasks| => Fate(w, rounds, tasks[i], from))
  }

  ghost function FateBag(w: World, rounds: Rounds, tasks: seq<PendingTask>, from: nat): multiset<TaskEvent> {
    multiset(Fates(w, rounds, tasks, from))
  }

  /** The rounds from `from` on are `n` rounds of one drain. */
  ghost predicate Belong(rounds: Rounds, from: nat, n: nat, scenario: string) {
    from + n <= |rounds| && forall k :: from <= k < from + n ==> rounds[k] == scenario
  }

  lemma {:induction false} FateInDrain(w: World, rounds: Rounds, t: PendingTask, from: nat, n: nat, scenario: string)
    requires Belong(rounds, from, n, scenario)
    ensures Fate(w, rounds, t, from)
         == if FirstOver(w, t, from, n).Some? then TaskEvent(t, scenario, FirstOver(w, t, from, n).value)
            else Fate(w, rounds, t, from + n)
    decreases n
  {
    if n > 0 {
      FateInDrain(w, rounds, t, from + 1, n - 1, scenario);
    }
  }

  lemma FatesMore(w: World, rounds: Rounds, tasks: seq<PendingTask>, t: PendingTask, from: nat)
    ensures multiset(Fates(w, rounds, tasks + [t], from)) == multiset(Fates(w, rounds, tasks, from)) + multiset{Fate(w, rounds, t, from)}
  {
    assert Fates(w, rounds, tasks + [t], from) == Fates(w, rounds, tasks, from) + [Fate(w, rounds, t, from)];
  }

  lemma FatesAppend(w: World, rounds: Rounds, a: seq<PendingTask>, b: seq<PendingTask>, from: nat)
    ensures multiset(Fates(w, rounds, a + b, from)) == multiset(Fates(w, rounds, a, from)) + multiset(Fates(w, rounds, b, from))
  {
    assert Fates(w, rounds, a + b, from) == Fates(w, rounds, a, from) + Fates(w, rounds, b, from);
  }

  /** The judgement of a drain settles exactly the tasks whose fate lies in it; the others
      have the fate they have afterwards. */
  ghost predicate Divided(w: World, rounds: Rounds, tasks: seq<PendingTask>, judge: Judge, from: nat, later: nat, scenario: string) {
    multiset(Settled(tasks, judge, scenario)) + multiset(Fates(w, rounds, Kept(tasks, judge), later))
      == multiset(Fates(w, rounds, tasks, from))
  }

  ghost predicate Decides(w: World, rounds: Rounds, t: PendingTask, judge: Judge, from: nat, later: nat, scenario: string) {
    Fate(w, rounds, t, from) == if judge(t).Some? then TaskEvent(t, scenario, judge(t).value) else Fate(w, rounds, t, later)
  }

  lemma DividedStep(w: World, rounds: Rounds, before: seq<PendingTask>, t: PendingTask, judge: Judge, from: nat, later: nat, scenario: string)
    requires Decides(w, rounds, t, judge, from, later, scenario) && Divided(w, rounds, before, judge, from, later, scenario)
    ensures Divided(w, rounds, before + [t], judge, from, later, scenario)
  {
    var settled, left := multiset(Settled(before, judge, scenario)), multiset(Fates(w, rounds, Kept(before, judge), later));
    var all, one := multiset(Fates(w, rounds, before, from)), multiset{Fate(w, rounds, t, from)};
    SettledOne(before, t, judge, scenario);
    KeptOne(before, t, judge);
    FatesMore(w, rounds, before, t, from);
    AddEither(settled, left, all, one);
    if judge(t).None? {
      FatesMore(w, rounds, Kept(before, judge), t, later);
    }
  }

  lemma {:induction false} AllDivided(w: World, rounds: Rounds, tasks: seq<PendingTask>, judge: Judge, from: nat, later: nat, scenario: string)
    requires forall t :: Decides(w, rounds, t, judge, from, later, scenario)
    ensures Divided(w, rounds, tasks, judge, from, later, scenario)
  {
    if tasks == [] {
      assert Kept(tasks, judge) == [];
    } else {
      var m := |tasks| - 1;
      AllDivided(w, rounds, tasks[..m], judge, from, later, scenario);
      DividedStep(w, rounds, tasks[..m], tasks[m], judge, from, later, scenario);
      assert tasks == tasks[..m] + [tasks[m]];
    }
  }

  lemma DrainDivides(w: World, rounds: Rounds, tasks: seq<PendingTask>, from: nat, n: nat, scenario: string)
    requires Belong(rounds, from, n, scenario)
    ensures Divided(w, rounds, tasks, DrainJudge(w, from, n), from, from + n, scenario)
  {
    var judge, later := DrainJudge(w, from, n), from + n;
    forall t
      ensures Decides(w, rounds, t, judge, from, later, scenario)
    {
      FateInDrain(w, rounds, t, from, n, scenario);
    }
    AllDivided(w, rounds, tasks, judge, from, later, scenario);
  }

  lemma GivenUpAtEnd(w: World, rounds: Rounds, tasks: seq<PendingTask>)
    ensures Fates(w, rounds, tasks, |rounds|) == GivenUp(tasks, FINAL_DRAIN)
  {
  }

  // ----- What the ledger foretells

  /** The events there will be: those recorded, and the fates of the pending tasks. */
  ghost function Foretold(w: World, rounds: Rounds, l: Ledger): multiset<TaskEvent> {
    multiset(l.events) + multiset(Fates(w, rounds, l.pending, l.round))
  }

  lemma WorkForetells(w: World, rounds: Rounds, l: Ledger, tasks: seq<PendingTask>)
    ensures Foretold(w, rounds, l.(pending := l.pending + tasks))
         == Foretold(w, rounds, l) + multiset(Fates(w, rounds, tasks, l.round))
  {
    FatesAppend(w, rounds, l.pending, tasks, l.round);
    Gather(multiset(l.events), multiset(Fates(w, rounds, l.pending, l.round)), multiset(Fates(w, rounds, tasks, l.round)),
           multiset(Fates(w, rounds, l.pending + tasks, l.round)));
  }

  lemma DrainForetells(w: World, rounds: Rounds, l: Ledger, now: Ledger, n: nat, scenario: string)
    requires scenario != FINAL_DRAIN && Belong(rounds, l.round, n, scenario) && Drained(w, l, now, n, scenario)
    ensures Foretold(w, rounds, now) == Foretold(w, rounds, l)
  {
    var settled := multiset(Settled(l.pending, DrainJudge(w, l.round, n), scenario));
    DrainDivides(w, rounds, l.pending, l.round, n, scenario);
    NoneMore(multiset(now.events), multiset(l.events) + settled);
    Gather(multiset(l.events), settled, multiset(Fates(w, rounds, now.pending, now.round)), multiset(Fates(w, rounds, l.pending, l.round)));
  }

  lemma NoneMore(a: multiset<TaskEvent>, b: multiset<TaskEvent>)
    requires a == b + multiset{}
    ensures a == b
  {
  }

  // ----- The stages of a run

  /** A phase of work and the drain behind it, with the number of rounds that begin before
      its deadline. */
  datatype Stage = Stage(requests: seq<Request>, drain: string, rounds: nat)

  /** What a stage does: its tasks come in, then its drain takes place. */
  ghost predicate StageRan(w: World, stage: Stage, timeout: real, l: Ledger, now: Ledger) {
    var m := l.(pending := l.pending + Started(stage.requests));
    && now.round == m.round + stage.rounds && KnownTo(now) == KnownTo(m)
    && (timeout > 0.0 ==> Drained(w, m, now, stage.rounds, stage.drain))
    && (timeout <= 0.0 ==> now.pending == [] && now.events == m.events + GivenUp(m.pending, stage.drain))
  }

  /** What one step of a run may do. */
  type Relation = (Stage, Ledger, Ledger) -> bool

  ghost function StageRelation(w: World, timeout: real): Relation {
    (stage, l, now) => StageRan(w, stage, timeout, l, now)
  }

  /** The ledgers between the stages, one stage after the other. */
  ghost predicate IsTrail(step: Relation, stages: seq<Stage>, trail: seq<Ledger>) {
    |trail| == |stages| + 1 && forall k :: 0 <= k < |stages| ==> step(stages[k], trail[k], trail[k + 1])
  }

  ghost predicate Leads(trail: seq<Ledger>, l: Ledger, now: Ledger) {
    trail != [] && trail[0] == l && trail[|trail| - 1] == now
  }

  ghost predicate Ran(step: Relation, stages: seq<Stage>, l: Ledger, now: Ledger) {
    exists trail :: IsTrail(step, stages, trail) && Leads(trail, l, now)
  }

  lemma JoinTrails(step: Relation, a: seq<Stage>, b: seq<Stage>, s: seq<Ledger>, t: seq<Ledger>)
    requires IsTrail(step, a, s) && IsTrail(step, b, t) && s[|a|] == t[0]
    ensures IsTrail(step, a + b, s + t[1..])
  {
    var all := s + t[1..];
    assert forall k :: 0 <= k <= |a| ==> all[k] == s[k];
    assert forall k :: |a| <= k <= |a| + |b| ==> all[k] == t[k - |a|];
    forall k | 0 <= k < |a + b|
      ensures step((a + b)[k], all[k], all[k + 1])
    {
      if k >= |a| {
        assert (a + b)[k] == b[k - |a|];
      }
    }
  }

  lemma MoreStages(step: Relation, a: seq<Stage>, b: seq<Stage>, l: Ledger, m: Ledger, now: Ledger)
    requires Ran(step, a, l, m) && Ran(step, b, m, now)
    ensures Ran(step, a + b, l, now)
  {
    var s :| IsTrail(step, a, s) && Leads(s, l, m);
    var t :| IsTrail(step, b, t) && Leads(t, m, now);
    JoinTrails(step, a, b, s, t);
    assert Leads(s + t[1..], l, now);
  }

  lemma NoStages(step: Relation, l: Ledger)
    ensures Ran(step, [], l, l)
  {
    assert IsTrail(step, [], [l]) && Leads([l], l, l);
  }

  lemma ThreeStages(step: Relation, s: Stage, t: Stage, u: Stage, a: Ledger, b: Ledger, c: Ledger, d: Ledger)
    requires step(s, a, b) && step(t, b, c) && step(u, c, d)
    ensures Ran(step, [s, t, u], a, d)
  {
    assert IsTrail(step, [s, t, u], [a, b, c, d]) && Leads([a, b, c, d], a, d);
  }

  function Repeat(scenario: string, n: nat): (r: Rounds)
    ensures |r| == n && forall i :: 0 <= i < n ==> r[i] == scenario
  {
    seq(n, _ => scenario)
  }

  /** The rounds of a list of stages. */
  function RoundsOf(stages: seq<Stage>): Rounds {
    if stages == [] then []
    else
      var n := |stages| - 1;
      RoundsOf(stages[..n]) + Repeat(stages[n].drain, stages[n].rounds)
  }

  /** The tasks that the stages start, the events that are their fates, and, for runs without
      a timeout, the events by which they are given up. */
  function AllStarted(stages: seq<Stage>): multiset<PendingTask> {
    if stages == [] then multiset{}
    else
      var n := |stages| - 1;
      AllStarted(stages[..n]) + multiset(Started(stages[n].requests))
  }

  ghost function AllFates(w: World, rounds: Rounds, stages: seq<Stage>): multiset<TaskEvent> {
    if stages == [] then multiset{}
    else
      var n := |stages| - 1;
      AllFates(w, rounds, stages[..n]) + FateBag(w, rounds, Started(stages[n].requests), |RoundsOf(stages[..n])|)
  }

  function AllGivenUp(stages: seq<Stage>): seq<TaskEvent> {
    if stages == [] then []
    else
      var n := |stages| - 1;
      AllGivenUp(stages[..n]) + GivenUp(Started(stages[n].requests), stages[n].drain)
  }

  // ----- What the stages come to

  lemma KnownMore(l: Ledger, tasks: seq<PendingTask>)
    ensures KnownTo(l.(pending := l.pending + tasks)) == KnownTo(l) + multiset(tasks)
  {
    Gather(EventTasks(l.events), multiset(l.pending), multiset(tasks), multiset(l.pending + tasks));
  }

  lemma StageAdvances(w: World, rounds: Rounds, stage: Stage, timeout: real, l: Ledger, now: Ledger)
    requires timeout > 0.0 && stage.drain != FINAL_DRAIN && Belong(rounds, l.round, stage.rounds, stage.drain)
    requires StageRan(w, stage, timeout, l, now)
    ensures Foretold(w, rounds, now) == Foretold(w, rounds, l) + FateBag(w, rounds, Started(stage.requests), l.round)
  {
    WorkForetells(w, rounds, l, Started(stage.requests));
    DrainForetells(w, rounds, l.(pending := l.pending + Started(stage.requests)), now, stage.rounds, stage.drain);
  }

  const EMPTY := Ledger([], [], 0)

  ghost predicate NoneFinal(stages: seq<Stage>) {
    forall i :: 0 <= i < |stages| ==> stages[i].drain != FINAL_DRAIN
  }

  lemma BelongsBehind(a: Rounds, b: Rounds, rounds: Rounds, scenario: string)
    requires a + b <= rounds && forall i :: 0 <= i < |b| ==> b[i] == scenario
    ensures a <= rounds && Belong(rounds, |a|, |b|, scenario)
  {
    forall k | |a| <= k < |a| + |b|
      ensures rounds[k] == scenario
    {
      assert rounds[k] == (a + b)[k] == b[k - |a|];
    }
  }

  lemma LastBelongs(stages: seq<Stage>, rounds: Rounds)
    requires stages != [] && RoundsOf(stages) <= rounds
    ensures var n := |stages| - 1;
            && RoundsOf(stages[..n]) <= rounds
            && Belong(rounds, |RoundsOf(stages[..n])|, stages[n].rounds, stages[n].drain)
  {
    var n := |stages| - 1;
    BelongsBehind(RoundsOf(stages[..n]), Repeat(stages[n].drain, stages[n].rounds), rounds, stages[n].drain);
  }

  lemma StageKnown(w: World, stage: Stage, timeout: real, l: Ledger, now: Ledger)
    requires StageRan(w, stage, timeout, l, now)
    ensures now.round == l.round + stage.rounds && KnownTo(now) == KnownTo(l) + multiset(Started(stage.requests))
  {
    KnownMore(l, Started(stage.requests));
  }

  lemma Shorter(step: Relation, stages: seq<Stage>, trail: seq<Ledger>)
    requires stages != [] && IsTrail(step, stages, trail)
    ensures var n := |stages| - 1;
            IsTrail(step, stages[..n], trail[..n + 1]) && step(stages[n], trail[n], trail[n + 1])
  {
  }

  lemma {:induction false} TrailRounds(w: World, timeout: real, stages: seq<Stage>, trail: seq<Ledger>)
    requires IsTrail(StageRelation(w, timeout), stages, trail) && trail[0] == EMPTY
    ensures trail[|stages|].round == |RoundsOf(stages)| && KnownTo(trail[|stages|]) == AllStarted(stages)
    decreases |stages|
  {
    if stages == [] {
      assert TaskList([]) == [];
    } else {
      var n := |stages| - 1;
      Shorter(StageRelation(w, timeout), stages, trail);
      TrailRounds(w, timeout, stages[..n], trail[..n + 1]);
      StageKnown(w, stages[n], timeout, trail[n], trail[n + 1]);
    }
  }

  /** With a timeout, what is foretold after some stages is the fates of all their tasks. */
  lemma {:induction false} TrailFates(w: World, timeout: real, rounds: Rounds, stages: seq<Stage>, trail: seq<Ledger>)
    requires IsTrail(StageRelation(w, timeout), stages, trail) && trail[0] == EMPTY
    requires timeout > 0.0 && NoneFinal(stages) && RoundsOf(stages) <= rounds
    ensures Foretold(w, rounds, trail[|stages|]) == AllFates(w, rounds, stages)
    decreases |stages|
  {
    if stages == [] {
      assert Fates(w, rounds, [], 0) == [];
    } else {
      var n := |stages| - 1;
      Shorter(StageRelation(w, timeout), stages, trail);
      LastBelongs(stages, rounds);
      TrailRounds(w, timeout, stages[..n], trail[..n + 1]);
      TrailFates(w, timeout, rounds, stages[..n], trail[..n + 1]);
      StageAdvances(w, rounds, stages[n], timeout, trail[n], trail[n + 1]);
    }
  }

  /** Without a timeout each task is given up by the drain of its stage. */
  lemma {:induction false} TrailGivenUp(w: World, timeout: real, stages: seq<Stage>, trail: seq<Ledger>)
    requires IsTrail(StageRelation(w, timeout), stages, trail) && trail[0] == EMPTY && timeout <= 0.0
    ensures trail[|stages|].pending == [] && trail[|stages|].events == AllGivenUp(stages)
    decreases |stages|
  {
    if stages != [] {
      var n := |stages| - 1;
      Shorter(StageRelation(w, timeout), stages, trail);
      TrailGivenUp(w, timeout, stages[..n], trail[..n + 1]);
      assert [] + Started(stages[n].requests) == Started(stages[n].requests);
    }
  }

  // ----- The code

  /** What the workers of one adapter ask for, phase by phase, and how many rounds begin
      before the deadline of each drain. */
  datatype Plan = Plan(name: string, resources: seq<Request>, commits: seq<Request>, mixed: seq<Request>, clock: (nat, nat, nat))

  /** The three stages of an adapter, and those of all. */
  function StagesOf(p: Plan): seq<Stage> {
    [Stage(p.resources, p.name + ":resource_drain", p.clock.0),
     Stage(p.commits, p.name + ":commit_drain", p.clock.1),
     Stage(p.mixed, p.name + ":mixed_drain", p.clock.2)]
  }

  function AllStages(plans: seq<Plan>): seq<Stage> {
    if plans == [] then [] else AllStages(plans[..|plans| - 1]) + StagesOf(plans[|plans| - 1])
  }

  lemma DrainName(name: string, kind: string)
    ensures name + ":" + kind != FINAL_DRAIN
  {
    assert (name + ":" + kind)[|name|] == ':';
    assert ':' !in FINAL_DRAIN;
  }

  lemma PlanNotFinal(p: Plan)
    ensures NoneFinal(StagesOf(p))
  {
    DrainName(p.name, "resource_drain");
    DrainName(p.name, "commit_drain");
    DrainName(p.name, "mixed_drain");
    assert p.name + ":" + "resource_drain" == p.name + ":resource_drain";
    assert p.name + ":" + "commit_drain" == p.name + ":commit_drain";
    assert p.name + ":" + "mixed_drain" == p.name + ":mixed_drain";
  }

  lemma {:induction false} AllNotFinal(plans: seq<Plan>)
    ensures NoneFinal(AllStages(plans))
  {
    if plans != [] {
      AllNotFinal(plans[..|plans| - 1]);
      PlanNotFinal(plans[|plans| - 1]);
    }
  }

  /** One phase with a drain: work, then the drain. */
  method Phase(runner: Runner, requests: seq<Request>, drain: string, timeout: real, rounds: nat)
    modifies runner
    ensures StageRelation(runner.world, timeout)(Stage(requests, drain, rounds), old(runner.State()), runner.State())
  {
    runner.Work(requests);
    runner.Drain(drain, timeout, rounds);
  }

  /** `_run_adapter`: three phases that start tasks, a drain after each. */
  method RunAdapter(runner: Runner, plan: Plan, timeout: real)
    modifies runner
    ensures Ran(StageRelation(runner.world, timeout), StagesOf(plan), old(runner.State()), runner.State())
  {
    ghost var step, stages := StageRelation(runner.world, timeout), StagesOf(plan);
    ghost var a := runner.State();
    Phase(runner, plan.resources, plan.name + ":resource_drain", timeout, plan.clock.0);
    ghost var b := runner.State();
    Phase(runner, plan.commits, plan.name + ":commit_drain", timeout, plan.clock.1);
    ghost var c := runner.State();
    Phase(runner, plan.mixed, plan.name + ":mixed_drain", timeout, plan.clock.2);
    ThreeStages(step, stages[0], stages[1], stages[2], a, b, c, runner.State());
  }

  function Names(plans: seq<Plan>): set<string> {
    set i | 0 <= i < |plans| :: plans[i].name
  }

  lemma FinalForetells(w: World, rounds: Rounds, l: Ledger, now: Ledger, n: nat)
    requires Belong(rounds, l.round, n, FINAL_DRAIN) && l.round + n == |rounds| && Drained(w, l, now, n, FINAL_DRAIN)
    ensures multiset(now.events) == Foretold(w, rounds, l)
  {
    var judge := DrainJudge(w, l.round, n);
    DrainDivides(w, rounds, l.pending, l.round, n, FINAL_DRAIN);
    GivenUpAtEnd(w, rounds, Kept(l.pending, judge));
    Gather(multiset(l.events), multiset(Settled(l.pending, judge, FINAL_DRAIN)), multiset(GivenUp(Kept(l.pending, judge), FINAL_DRAIN)),
           multiset(Fates(w, rounds, l.pending, l.round)));
  }

  lemma NothingPending(w: World, rounds: Rounds, l: Ledger)
    requires l.pending == []
    ensures Foretold(w, rounds, l) == multiset(l.events) && KnownTo(l) == EventTasks(l.events)
  {
    assert Fates(w, rounds, [], l.round) == [];
  }

  /** The rounds of a whole run: those of the stages, and those of the final drain. */
  function RunRounds(plans: seq<Plan>, finalRounds: nat): Rounds {
    RoundsOf(AllStages(plans)) + Repeat(FINAL_DRAIN, finalRounds)
  }

  /** What a run records: each task that was started has exactly one event; with a timeout
      this event is its fate, without one it is given up by the drain of its phase. */
  ghost predicate Recorded(w: World, plans: seq<Plan>, finalRounds: nat, timeout: real, events: seq<TaskEvent>) {
    var stages := AllStages(plans);
    && EventTasks(events) == AllStarted(stages)
    && (timeout > 0.0 ==> multiset(events) == AllFates(w, RunRounds(plans, finalRounds), stages))
    && (timeout <= 0.0 ==> events == AllGivenUp(stages))
  }

  /** The end of a run: the final drain, if anything is pending. */
  ghost predicate Ended(w: World, l: Ledger, now: Ledger, timeout: real, finalRounds: nat) {
    if l.pending == [] then now == l else timeout > 0.0 ==> Drained(w, l, now, finalRounds, FINAL_DRAIN)
  }

  lemma EndTasks(w: World, plans: seq<Plan>, timeout: real, trail: seq<Ledger>, l: Ledger, now: Ledger)
    requires IsTrail(StageRelation(w, timeout), AllStages(plans), trail) && Leads(trail, EMPTY, l)
    requires KnownTo(now) == KnownTo(l) && now.pending == []
    ensures EventTasks(now.events) == AllStarted(AllStages(plans))
  {
    TrailRounds(w, timeout, AllStages(plans), trail);
    NothingPending(w, [], now);
  }

  lemma EndFates(w: World, plans: seq<Plan>, finalRounds: nat, timeout: real, trail: seq<Ledger>, l: Ledger, now: Ledger)
    requires IsTrail(StageRelation(w, timeout), AllStages(plans), trail) && Leads(trail, EMPTY, l) && timeout > 0.0
    requires Ended(w, l, now, timeout, finalRounds)
    ensures multiset(now.events) == AllFates(w, RunRounds(plans, finalRounds), AllStages(plans))
  {
    var stages, rounds := AllStages(plans), RunRounds(plans, finalRounds);
    AllNotFinal(plans);
    TrailRounds(w, timeout, stages, trail);
    TrailFates(w, timeout, rounds, stages, trail);
    if l.pending == [] {
      NothingPending(w, rounds, l);
    } else {
      BelongsBehind(RoundsOf(stages), Repeat(FINAL_DRAIN, finalRounds), rounds, FINAL_DRAIN);
      FinalForetells(w, rounds, l, now, finalRounds);
    }
  }

  lemma EndRecorded(w: World, plans: seq<Plan>, finalRounds: nat, timeout: real, l: Ledger, now: Ledger)
    requires Ran(StageRelation(w, timeout), AllStages(plans), EMPTY, l) && KnownTo(now) == KnownTo(l) && now.pending == []
    requires Ended(w, l, now, timeout, finalRounds)
    ensures Recorded(w, plans, finalRounds, timeout, now.events)
  {
    var trail :| IsTrail(StageRelation(w, timeout), AllStages(plans), trail) && Leads(trail, EMPTY, l);
    EndTasks(w, plans, timeout, trail, l, now);
    if timeout > 0.0 {
      EndFates(w, plans, finalRounds, timeout, trail, l, now);
    } else {
      TrailGivenUp(w, timeout, AllStages(plans), trail);
    }
  }

  /** A run without a fatal error: at its end nothing is pending. */
  method Run(plans: seq<Plan>, server: (PendingTask, nat) -> Answer, timeout: real, finalRounds: nat) returns (runner: Runner)
    ensures runner.pending == []
    ensures Recorded(World(Names(plans), server), plans, finalRounds, timeout, runner.events)
  {
    var w := World(Names(plans), server);
    runner := new Runner(w);
    RunAdapters(runner, plans, timeout);
    ghost var l := runner.State();
    if runner.pending != [] {
      runner.Drain(FINAL_DRAIN, timeout, finalRounds);
    }
    EndRecorded(w, plans, finalRounds, timeout, l, runner.State());
  }

  /** All adapters, one after the other. */
  method RunAdapters(runner: Runner, plans: seq<Plan>, timeout: real)
    modifies runner
    ensures Ran(StageRelation(runner.world, timeout), AllStages(plans), old(runner.State()), runner.State())
  {
    ghost var step, start := StageRelation(runner.world, timeout), runner.State();
    NoStages(step, start);
    assert plans[..0] == [];
    for i := 0 to |plans|
      invariant Ran(step, AllStages(plans[..i]), start, runner.State())
    {
      ghost var l := runner.State();
      RunAdapter(runner, plans[i], timeout);
      MoreStages(step, AllStages(plans[..i]), StagesOf(plans[i]), start, l, runner.State());
      assert plans[..i + 1][..i] == plans[..i];
    }
    assert plans[..|plans|] == plans;
  }

  /** The fate of a task said outright: its event carries the status of the first answer that
      ends it and the scenario of that round; it is incomplete exactly when there is none. */
  lemma {:induction false} FateIs(w: World, rounds: Rounds, t: PendingTask, from: nat)
    ensures Fate(w, rounds, t, from).task == t
    ensures Fate(w, rounds, t, from).status == Incomplete ==> Fate(w, rounds, t, from).completion == "final_drain"
    ensures Fate(w, rounds, t, from).status == Incomplete <==> forall k :: from <= k < |rounds| ==> Verdict(w, t, k).None?
    ensures forall k :: from <= k < |rounds| && Verdict(w, t, k).Some? && (forall l :: from <= l < k ==> Verdict(w, t, l).None?) ==>
      Fate(w, rounds, t, from) == TaskEvent(t, rounds[k], Verdict(w, t, k).value)
    decreases |rounds| - from
  {
    if from < |rounds| && Verdict(w, t, from).None? {
      FateIs(w, rounds, t, from + 1);
    }
  }
}
