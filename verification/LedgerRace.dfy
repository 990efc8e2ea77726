/**
 What would happen if workers were still registering tasks while a drain polls: a round
 polls a snapshot of the pending list and then replaces the list by what it kept, so a task
 registered in between is gone. Registrations may interleave with the round anywhere.
 */
module LedgerRace {
  import opened TaskLedger

  datatype State = State(
    pending: seq<PendingTask>,
    inRound: bool,
    snapshot: seq<PendingTask>,       // the part of the list that the round has not polled yet
    remaining: seq<PendingTask>,      // what it has polled and kept
    events: multiset<PendingTask>,    // the tasks with an event
    registered: multiset<PendingTask>,
    late: multiset<PendingTask>,      // registered in the current round
    dropped: multiset<PendingTask>)   // registered in an earlier round

  datatype Action = Register(task: PendingTask) | Begin | Poll(over: bool) | End

  const EMPTY := State([], false, [], [], multiset{}, multiset{}, multiset{}, multiset{})

  predicate Enabled(s: State, a: Action) {
    match a
    case Register(_) => true
    case Begin => !s.inRound
    case Poll(_) => s.inRound && s.snapshot != []
    case End => s.inRound && s.snapshot == []
  }

  function Apply(s: State, a: Action): State
    requires Enabled(s, a)
  {
    match a
    case Register(t) =>
      s.(pending := s.pending + [t], registered := s.registered + multiset{t},
         late := if s.inRound then s.late + multiset{t} else s.late)
    case Begin => s.(inRound := true, snapshot := s.pending, remaining := [])
    case Poll(over) =>
      var t := s.snapshot[0];
      if over then s.(snapshot := s.snapshot[1..], events := s.events + multiset{t})
      else s.(snapshot := s.snapshot[1..], remaining := s.remaining + [t])
    case End =>
      s.(inRound := false, pending := s.remaining, remaining := [], dropped := s.dropped + s.late, late := multiset{})
  }

  ghost predicate IsRun(s: State, actions: seq<Action>)
    decreases |actions|
  {
    actions == [] || (Enabled(s, actions[0]) && IsRun(Apply(s, actions[0]), actions[1..]))
  }

  ghost function After(s: State, actions: seq<Action>): State
    requires IsRun(s, actions)
    decreases |actions|
  {
    if actions == [] then s else After(Apply(s, actions[0]), actions[1..])
  }

  /** What the state still knows about, besides the late and the dropped tasks. */
  function Held(s: State): multiset<PendingTask> {
    s.events + (if s.inRound then multiset(s.snapshot) + multiset(s.remaining) else multiset(s.pending))
  }

  ghost predicate Inv(s: State) {
    && s.registered == Held(s) + s.late + s.dropped
    && (!s.inRound ==> s.late == multiset{})
  }

  lemma RegisterInv(s: State, t: PendingTask)
    requires Inv(s)
    ensures Inv(Apply(s, Register(t)))
  {
    var s' := Apply(s, Register(t));
    Append(s.pending, t);
    if s.inRound {
      assert Held(s') == Held(s);
    } else {
      assert Held(s') == Held(s) + multiset{t};
    }
  }

  lemma PollInv(s: State, over: bool)
    requires Inv(s) && Enabled(s, Poll(over))
    ensures Inv(Apply(s, Poll(over)))
  {
    var s' := Apply(s, Poll(over));
    var t, rest := s.snapshot[0], s.snapshot[1..];
    assert s.snapshot == [t] + rest;
    assert multiset(s.snapshot) == multiset{t} + multiset(rest);
    Append(s.remaining, t);
    assert Held(s') == Held(s);
  }

  lemma ApplyInv(s: State, a: Action)
    requires Inv(s) && Enabled(s, a)
    ensures Inv(Apply(s, a))
  {
    match a
    case Register(t) => RegisterInv(s, t);
    case Poll(over) => PollInv(s, over);
    case Begin => assert Held(Apply(s, a)) == Held(s);
    case End => assert Held(Apply(s, a)) == Held(s);
  }

  lemma {:induction false} RunInv(s: State, actions: seq<Action>)
    requires Inv(s) && IsRun(s, actions)
    ensures Inv(After(s, actions))
    decreases |actions|
  {
    if actions != [] {
      ApplyInv(s, actions[0]);
      RunInv(Apply(s, actions[0]), actions[1..]);
    }
  }

  /** The tasks that a run registers, and the number of polls that end one. */
  ghost function Registrations(actions: seq<Action>): multiset<PendingTask> {
    if actions == [] then multiset{}
    else (if actions[0].Register? then multiset{actions[0].task} else multiset{}) + Registrations(actions[1..])
  }

  ghost function Overs(actions: seq<Action>): nat {
    if actions == [] then 0 else (if actions[0] == Poll(true) then 1 else 0) + Overs(actions[1..])
  }

  /** The state has on record what was registered, and an event for each poll that ended a task. */
  lemma {:induction false} OnRecord(s: State, actions: seq<Action>)
    requires IsRun(s, actions)
    ensures After(s, actions).registered == s.registered + Registrations(actions)
    ensures |After(s, actions).events| == |s.events| + Overs(actions)
    decreases |actions|
  {
    if actions != [] {
      OnRecord(Apply(s, actions[0]), actions[1..]);
    }
  }

  /** Whether some task is registered while a round is going on. */
  ghost predicate Overlaps(s: State, actions: seq<Action>)
    requires IsRun(s, actions)
    decreases |actions|
  {
    actions != [] && ((s.inRound && actions[0].Register?) || Overlaps(Apply(s, actions[0]), actions[1..]))
  }

  lemma {:induction false} OverlapsIff(s: State, actions: seq<Action>)
    requires IsRun(s, actions)
    ensures After(s, actions).late + After(s, actions).dropped == multiset{}
       <==> s.late + s.dropped == multiset{} && !Overlaps(s, actions)
    decreases |actions|
  {
    if actions != [] {
      var a := actions[0];
      OverlapsIff(Apply(s, a), actions[1..]);
      if a.Register? && s.inRound {
        assert a.task in Apply(s, a).late;
      }
    }
  }

  /** Between rounds, every registered task is pending or has its event, each once, exactly
      when no registration overlapped a round. */
  lemma ConservedIff(actions: seq<Action>)
    requires IsRun(EMPTY, actions) && !After(EMPTY, actions).inRound
    ensures var s := After(EMPTY, actions);
            && s.registered == Registrations(actions) && |s.events| == Overs(actions)
            && (s.registered == s.events + multiset(s.pending) <==> !Overlaps(EMPTY, actions))
  {
    OnRecord(EMPTY, actions);
    RunInv(EMPTY, actions);
    OverlapsIff(EMPTY, actions);
    var s := After(EMPTY, actions);
    if s.registered == s.events + multiset(s.pending) {
      assert forall t :: s.dropped[t] == 0;
    }
  }

  // ----- The benchmark joins its workers before it drains

  /** The ledger, the workers of the present phase that are still running, and whether a
      drain is going on. */
  datatype Schedule = Schedule(ledger: State, workers: nat, draining: bool)

  datatype Move =
    | Launch(workers: nat)        // a phase starts its workers
    | Note(task: PendingTask)     // a worker registers a task
    | Leave                       // a worker ends
    | Join                        // all workers have ended: the drain begins
    | Step(action: Action)        // the drain begins, continues or ends a round
    | Done                        // the drain is over

  const IDLE := Schedule(EMPTY, 0, false)

  predicate Allowed(s: Schedule, m: Move) {
    match m
    case Launch(_) => s.workers == 0 && !s.draining
    case Note(_) => s.workers > 0
    case Leave => s.workers > 0
    case Join => s.workers == 0 && !s.draining
    case Step(a) => s.draining && !a.Register? && Enabled(s.ledger, a)
    case Done => s.draining && !s.ledger.inRound
  }

  function Take(s: Schedule, m: Move): Schedule
    requires Allowed(s, m)
  {
    match m
    case Launch(n) => s.(workers := n)
    case Note(t) => s.(ledger := Apply(s.ledger, Register(t)))
    case Leave => s.(workers := s.workers - 1)
    case Join => s.(draining := true)
    case Step(a) => s.(ledger := Apply(s.ledger, a))
    case Done => s.(draining := false)
  }

  ghost predicate IsSchedule(s: Schedule, moves: seq<Move>)
    decreases |moves|
  {
    moves == [] || (Allowed(s, moves[0]) && IsSchedule(Take(s, moves[0]), moves[1..]))
  }

  ghost function Finally(s: Schedule, moves: seq<Move>): Schedule
    requires IsSchedule(s, moves)
    decreases |moves|
  {
    if moves == [] then s else Finally(Take(s, moves[0]), moves[1..])
  }

  /** What a move does to the ledger. */
  function OnLedger(m: Move): seq<Action> {
    match m
    case Note(t) => [Register(t)]
    case Step(a) => [a]
    case _ => []
  }

  function Trace(moves: seq<Move>): seq<Action> {
    if moves == [] then [] else OnLedger(moves[0]) + Trace(moves[1..])
  }

  /** A round belongs to a drain, and no worker runs during a drain. */
  ghost predicate Joined(s: Schedule) {
    (s.ledger.inRound ==> s.draining) && (s.draining ==> s.workers == 0)
  }

  lemma RunMore(s: State, a: Action, rest: seq<Action>)
    requires Enabled(s, a) && IsRun(Apply(s, a), rest)
    ensures IsRun(s, [a] + rest) && After(s, [a] + rest) == After(Apply(s, a), rest)
    ensures Overlaps(s, [a] + rest) <==> (s.inRound && a.Register?) || Overlaps(Apply(s, a), rest)
  {
    assert ([a] + rest)[1..] == rest;
  }

  lemma {:induction false} NeverOverlaps(s: Schedule, moves: seq<Move>)
    requires Joined(s) && IsSchedule(s, moves)
    ensures Joined(Finally(s, moves)) && IsRun(s.ledger, Trace(moves))
    ensures After(s.ledger, Trace(moves)) == Finally(s, moves).ledger && !Overlaps(s.ledger, Trace(moves))
    decreases |moves|
  {
    if moves != [] {
      var m, rest := moves[0], Trace(moves[1..]);
      NeverOverlaps(Take(s, m), moves[1..]);
      if OnLedger(m) == [] {
        assert Trace(moves) == rest;
      } else {
        RunMore(s.ledger, OnLedger(m)[0], rest);
      }
    }
  }

  /** However the workers and the drains take turns, no registration falls into a round, and
      so between rounds the pending and the recorded tasks are the registered ones. */
  lemma JoinConserves(moves: seq<Move>)
    requires IsSchedule(IDLE, moves)
    ensures IsRun(EMPTY, Trace(moves)) && !Overlaps(EMPTY, Trace(moves))
    ensures var s := Finally(IDLE, moves).ledger;
            !s.inRound ==> s.registered == s.events + multiset(s.pending)
  {
    NeverOverlaps(IDLE, moves);
    if !Finally(IDLE, moves).ledger.inRound {
      ConservedIff(Trace(moves));
    }
  }
}
