/**
 `run_request_set`: all requests are created behind a start event, released together, run
 under a semaphore, and gathered in request order. A request that raises, or that gets the
 wrong number of records, is an answer with an error and not a failure of the run.
 */
module RequestSet {
  import opened Counting

  /** What `manager.query` came to. */
  datatype Reply = Records(count: nat) | Exception

  datatype Request = Blocked | Waiting | Running | Answered(reply: Reply)

  datatype Phase = Setup | Awaiting | Reported(successes: int, errorCount: nat, errors: seq<nat>)

  datatype State = State(bound: nat, k: nat, permits: nat, open: bool, requests: seq<Request>, phase: Phase)

  datatype Action =
    | Open                           // the start event is set
    | Pass(i: nat)                   // a request sees the event
    | Acquire(i: nat)                // it gets a permit and its query starts
    | Answer(i: nat, reply: Reply)   // its query ends, the permit is released
    | Report                         // `gather` returns

  function Init(concurrency: nat, requests: nat, k: nat): State {
    State(concurrency, k, concurrency, false, seq(requests, _ => Blocked), Setup)
  }

  predicate AllAnswered(requests: seq<Request>) {
    forall i :: 0 <= i < |requests| ==> requests[i].Answered?
  }

  predicate IsError(r: Request, k: nat) {
    r.Answered? && r.reply != Records(k)
  }

  /** The requests in error, in request order. */
  function Errors(requests: seq<Request>, k: nat, from: nat): seq<nat>
    decreases |requests| - from
  {
    if from >= |requests| then []
    else (if IsError(requests[from], k) then [from] else []) + Errors(requests, k, from + 1)
  }

  /** `errors[:10]`. */
  function FirstTen(errors: seq<nat>): seq<nat> {
    if |errors| <= 10 then errors else errors[..10]
  }

  predicate Enabled(s: State, a: Action) {
    match a
    case Open => s.phase.Setup?
    case Pass(i) => i < |s.requests| && s.requests[i].Blocked? && s.open
    case Acquire(i) => i < |s.requests| && s.requests[i].Waiting? && s.permits > 0
    case Answer(i, _) => i < |s.requests| && s.requests[i].Running?
    case Report => s.phase.Awaiting? && AllAnswered(s.requests)
  }

  function Apply(s: State, a: Action): State
    requires Enabled(s, a)
  {
    match a
    case Open => s.(open := true, phase := Awaiting)
    case Pass(i) => s.(requests := s.requests[i := Waiting])
    case Acquire(i) => s.(requests := s.requests[i := Running], permits := s.permits - 1)
    case Answer(i, reply) => s.(requests := s.requests[i := Answered(reply)], permits := s.permits + 1)
    case Report =>
      var errors := Errors(s.requests, s.k, 0);
      s.(phase := Reported(|s.requests| - |errors|, |errors|, FirstTen(errors)))
  }

  ghost predicate IsRun(s: State, actions: seq<Action>)
    decreases |actions|
  {
    actions == [] || (Enabled(s, actions[0]) && IsRun(Apply(s, actions[0]), actions[1..]))
  }

  ghost function After(s: State, actions: seq<Action>): State
    requires IsRun(s, actions)
    decreases |actions|
  {
    if actions == [] then s else After(Apply(s, actions[0]), actions[1..])
  }

  // ----- The invariant

  function InFlight(requests: seq<Request>): nat {
    Count(requests, (r: Request) => r.Running?)
  }

  ghost predicate Inv(s: State) {
    && s.permits + InFlight(s.requests) == s.bound
    && (s.open <==> !s.phase.Setup?)
    && (!s.open ==> forall i :: 0 <= i < |s.requests| ==> s.requests[i].Blocked?)
    && (s.bound == 0 ==> forall i :: 0 <= i < |s.requests| ==> s.requests[i].Blocked? || s.requests[i].Waiting?)
    && (s.phase.Reported? ==> AllAnswered(s.requests))
    && (s.phase.Reported? ==>
          var errors := Errors(s.requests, s.k, 0);
          s.phase == Reported(|s.requests| - |errors|, |errors|, FirstTen(errors)))
  }

  lemma InitInv(concurrency: nat, requests: nat, k: nat)
    ensures Inv(Init(concurrency, requests, k))
  {
    CountZero(Init(concurrency, requests, k).requests, (r: Request) => r.Running?);
  }

  lemma ApplyInv(s: State, a: Action)
    requires Inv(s) && Enabled(s, a)
    ensures Inv(Apply(s, a))
  {
    var p := (r: Request) => r.Running?;
    match a
    case Pass(i) => CountUpdate(s.requests, p, i, Waiting);
    case Acquire(i) => CountUpdate(s.requests, p, i, Running);
    case Answer(i, reply) => CountUpdate(s.requests, p, i, Answered(reply));
    case _ =>
  }

  lemma {:induction false} RunInv(s: State, actions: seq<Action>)
    requires Inv(s) && IsRun(s, actions)
    ensures var t := After(s, actions);
            Inv(t) && t.bound == s.bound && t.k == s.k && |t.requests| == |s.requests|
    decreases |actions|
  {
    if actions != [] {
      ApplyInv(s, actions[0]);
      RunInv(Apply(s, actions[0]), actions[1..]);
    }
  }

  /** At every moment of every run: no more than `concurrency` queries are in flight, the
      free permits are the difference, and none has started before the event is set. */
  lemma QueriesBounded(concurrency: nat, requests: nat, k: nat, actions: seq<Action>)
    requires IsRun(Init(concurrency, requests, k), actions)
    ensures var s := After(Init(concurrency, requests, k), actions);
            && InFlight(s.requests) <= concurrency && s.permits + InFlight(s.requests) == concurrency
            && (!s.open ==> forall i :: 0 <= i < |s.requests| ==> s.requests[i].Blocked?)
  {
    InitInv(concurrency, requests, k);
    RunInv(Init(concurrency, requests, k), actions);
  }

  // ----- The report

  lemma {:induction false} ErrorsAre(requests: seq<Request>, k: nat, from: nat)
    requires from <= |requests|
    ensures forall i :: i in Errors(requests, k, from) <==> from <= i < |requests| && IsError(requests[i], k)
    decreases |requests| - from
  {
    if from < |requests| {
      ErrorsAre(requests, k, from + 1);
    }
  }

  ghost predicate Increasing(es: seq<nat>) {
    forall a, b :: 0 <= a < b < |es| ==> es[a] < es[b]
  }

  lemma InOrder(from: nat, rest: seq<nat>)
    requires Increasing(rest) && forall e :: e in rest ==> from < e
    ensures Increasing([from] + rest)
  {
    var es := [from] + rest;
    forall a, b | 0 <= a < b < |es|
      ensures es[a] < es[b]
    {
      assert es[b] == rest[b - 1] && rest[b - 1] in rest;
      assert a > 0 ==> es[a] == rest[a - 1];
    }
  }

  lemma {:induction false} ErrorsInOrder(requests: seq<Request>, k: nat, from: nat)
    requires from <= |requests|
    ensures Increasing(Errors(requests, k, from))
    decreases |requests| - from
  {
    if from < |requests| {
      ErrorsInOrder(requests, k, from + 1);
      ErrorsAre(requests, k, from + 1);
      InOrder(from, Errors(requests, k, from + 1));
    }
  }

  lemma {:induction false} ErrorsCounted(requests: seq<Request>, k: nat, from: nat)
    requires from <= |requests|
    ensures |Errors(requests, k, from)| == Count(requests[from..], (r: Request) => IsError(r, k))
    decreases |requests| - from
  {
    if from < |requests| {
      ErrorsCounted(requests, k, from + 1);
      assert requests[from..][1..] == requests[from + 1..];
    }
  }

  lemma {:induction false} CountSplit(requests: seq<Request>, k: nat)
    requires AllAnswered(requests)
    ensures Count(requests, (r: Request) => IsError(r, k)) + Count(requests, (r: Request) => r == Answered(Records(k))) == |requests|
  {
    if requests != [] {
      CountSplit(requests[1..], k);
    }
  }

  /** The reported errors are the requests in error with the lowest numbers, in order: all of
      them, or ten. */
  ghost predicate LeadingErrors(errors: seq<nat>, requests: seq<Request>, k: nat) {
    && Increasing(errors)
    && (forall i :: i in errors ==> i < |requests| && IsError(requests[i], k))
    && (forall i: nat :: i < |requests| && IsError(requests[i], k) && i !in errors ==>
          |errors| == 10 && forall e :: e in errors ==> e < i)
  }

  /** Whatever is not among the first ten comes behind them. */
  lemma BehindTen(all: seq<nat>, i: nat)
    requires Increasing(all) && i in all && i !in FirstTen(all)
    ensures |FirstTen(all)| == 10 && forall e :: e in FirstTen(all) ==> e < i
  {
    var errors := FirstTen(all);
    assert errors == all[..|errors|];
    var a :| 0 <= a < |all| && all[a] == i;
    assert forall b :: 0 <= b < |errors| ==> errors[b] == all[b] && all[b] in errors;
    assert a >= |errors|;
    forall e | e in errors
      ensures e < i
    {
      var b :| 0 <= b < |errors| && errors[b] == e;
      assert all[b] < all[a];
    }
  }

  lemma TenLead(all: seq<nat>, requests: seq<Request>, k: nat)
    requires Increasing(all) && forall i :: i in all <==> 0 <= i < |requests| && IsError(requests[i], k)
    ensures LeadingErrors(FirstTen(all), requests, k)
  {
    var errors := FirstTen(all);
    assert forall b :: 0 <= b < |errors| ==> errors[b] == all[b];
    forall i | i in errors
      ensures i < |requests| && IsError(requests[i], k)
    {
      var b :| 0 <= b < |errors| && errors[b] == i;
      assert all[b] in all;
    }
    forall i: nat | i < |requests| && IsError(requests[i], k) && i !in errors
      ensures |errors| == 10 && forall e :: e in errors ==> e < i
    {
      BehindTen(all, i);
    }
  }

  /** Each request is answered once, the successes are exactly the requests that got `k`
      records, the others are counted as errors, and the first ten of them are listed. */
  lemma ReportIsExact(concurrency: nat, requests: nat, k: nat, actions: seq<Action>)
    requires IsRun(Init(concurrency, requests, k), actions)
    requires After(Init(concurrency, requests, k), actions).phase.Reported?
    ensures var s := After(Init(concurrency, requests, k), actions);
            && |s.requests| == requests && AllAnswered(s.requests) && s.permits == concurrency
            && s.phase.successes + s.phase.errorCount == requests
            && s.phase.successes == Count(s.requests, (r: Request) => r == Answered(Records(k)))
            && LeadingErrors(s.phase.errors, s.requests, k)
  {
    InitInv(concurrency, requests, k);
    RunInv(Init(concurrency, requests, k), actions);
    var s := After(Init(concurrency, requests, k), actions);
    ErrorsAre(s.requests, k, 0);
    ErrorsInOrder(s.requests, k, 0);
    TenLead(Errors(s.requests, k, 0), s.requests, k);
    ErrorsCounted(s.requests, k, 0);
    assert s.requests[0..] == s.requests;
    CountSplit(s.requests, k);
    CountZero(s.requests, (r: Request) => r.Running?);
  }

  lemma AnswerStep(s: State, a: Action, i: nat, reply: Reply)
    requires Enabled(s, a) && i < |s.requests|
    ensures Apply(s, a).requests[i] == Answered(reply) <==> s.requests[i] == Answered(reply) || a == Answer(i, reply)
  {
  }

  lemma {:induction false} AnswersOf(s: State, actions: seq<Action>, i: nat, reply: Reply)
    requires IsRun(s, actions) && i < |s.requests|
    ensures |After(s, actions).requests| == |s.requests|
    ensures After(s, actions).requests[i] == Answered(reply) <==> s.requests[i] == Answered(reply) || Answer(i, reply) in actions
    decreases |actions|
  {
    if actions != [] {
      AnswerStep(s, actions[0], i, reply);
      AnswersOf(Apply(s, actions[0]), actions[1..], i, reply);
    }
  }

  /** A request has an answer exactly if its query ended with it. */
  lemma RepliesAre(concurrency: nat, requests: nat, k: nat, actions: seq<Action>, i: nat, reply: Reply)
    requires IsRun(Init(concurrency, requests, k), actions) && i < requests
    ensures var s := After(Init(concurrency, requests, k), actions);
            |s.requests| == requests && (s.requests[i] == Answered(reply) <==> Answer(i, reply) in actions)
  {
    AnswersOf(Init(concurrency, requests, k), actions, i, reply);
  }

  // ----- When the run can end

  function Weight(r: Request): nat {
    match r
    case Blocked => 3
    case Waiting => 2
    case Running => 1
    case Answered(_) => 0
  }

  function Weights(requests: seq<Request>): nat {
    if requests == [] then 0 else Weight(requests[0]) + Weights(requests[1..])
  }

  lemma {:induction false} WeightsUpdate(requests: seq<Request>, i: nat, r: Request)
    requires i < |requests|
    ensures Weights(requests[i := r]) + Weight(requests[i]) == Weights(requests) + Weight(r)
  {
    if i == 0 {
      assert requests[i := r][1..] == requests[1..];
    } else {
      assert requests[i := r][1..] == requests[1..][i - 1 := r];
      WeightsUpdate(requests[1..], i - 1, r);
    }
  }

  function StepsLeft(s: State): nat {
    Weights(s.requests) + (match s.phase case Setup => 2 case Awaiting => 1 case Reported(_, _, _) => 0)
  }

  lemma ApplyShrinks(s: State, a: Action)
    requires Enabled(s, a)
    ensures StepsLeft(Apply(s, a)) < StepsLeft(s)
  {
    match a
    case Pass(i) => WeightsUpdate(s.requests, i, Waiting);
    case Acquire(i) => WeightsUpdate(s.requests, i, Running);
    case Answer(i, reply) => WeightsUpdate(s.requests, i, Answered(reply));
    case _ =>
  }

  lemma NextAction(s: State) returns (a: Action)
    requires Inv(s) && !s.phase.Reported?
    requires s.bound > 0 || |s.requests| == 0
    ensures Enabled(s, a)
  {
    if s.phase.Setup? {
      a := Open;
    } else if AllAnswered(s.requests) {
      a := Report;
    } else {
      var i :| 0 <= i < |s.requests| && !s.requests[i].Answered?;
      if s.requests[i].Blocked? {
        a := Pass(i);
      } else if s.requests[i].Running? {
        a := Answer(i, Exception);
      } else if s.permits > 0 {
        a := Acquire(i);
      } else {
        CountZero(s.requests, (r: Request) => r.Running?);
        var j :| 0 <= j < |s.requests| && s.requests[j].Running?;
        a := Answer(j, Exception);
      }
    }
  }

  lemma {:induction false} FinishingRun(s: State) returns (actions: seq<Action>)
    requires Inv(s) && (s.bound > 0 || |s.requests| == 0)
    ensures IsRun(s, actions) && After(s, actions).phase.Reported?
    decreases StepsLeft(s)
  {
    if s.phase.Reported? {
      actions := [];
    } else {
      var a := NextAction(s);
      ApplyShrinks(s, a);
      ApplyInv(s, a);
      var rest := FinishingRun(Apply(s, a));
      actions := [a] + rest;
      assert actions[1..] == rest;
    }
  }

  /** The semaphore takes the concurrency as given, so with none the requests wait for
      ever: a report can come out of some run exactly when there is a permit or no request. */
  lemma ReportsIff(concurrency: nat, requests: nat, k: nat)
    ensures (exists actions ::
               IsRun(Init(concurrency, requests, k), actions) &&
               After(Init(concurrency, requests, k), actions).phase.Reported?)
        <==> concurrency > 0 || requests == 0
  {
    var s := Init(concurrency, requests, k);
    InitInv(concurrency, requests, k);
    if concurrency > 0 || requests == 0 {
      var actions := FinishingRun(s);
    } else {
      forall actions | IsRun(s, actions)
        ensures !After(s, actions).phase.Reported?
      {
        RunInv(s, actions);
        var t := After(s, actions);
        assert t.requests[0].Blocked? || t.requests[0].Waiting?;
      }
    }
  }

  /** With a permit, every run is finite and can only stop at the report. */
  lemma {:induction false} RunsEndReported(s: State, actions: seq<Action>)
    requires Inv(s) && IsRun(s, actions) && (s.bound > 0 || |s.requests| == 0)
    ensures |actions| <= StepsLeft(s)
    ensures var t := After(s, actions); t.phase.Reported? || exists a :: Enabled(t, a)
    decreases |actions|
  {
    if actions != [] {
      ApplyShrinks(s, actions[0]);
      ApplyInv(s, actions[0]);
      RunsEndReported(Apply(s, actions[0]), actions[1..]);
    } else if !s.phase.Reported? {
      var a := NextAction(s);
    }
  }
}
