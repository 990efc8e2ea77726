/**
 `commitTurn`: the plugin remembers the keys of the turns it has acknowledged, in the order
 of their acknowledgement and at most 1024 of them, and answers a key it remembers with
 "duplicate".
 */
module TurnWindow {
  import opened Counting

  const WINDOW: nat := 1024

  datatype Status = Committed | Duplicate

  /** The last entries of a log of commits, at most 1024 of them. */
  function Recent(log: seq<string>): (r: seq<string>)
    ensures |r| == (if |log| <= 1024 then |log| else 1024) && r == log[|log| - |r|..]
  {
    if |log| <= WINDOW then log else log[|log| - WINDOW..]
  }

  class ContextEngine {
    /** The insertion-ordered `Set` of the source. */
    var committedTurnKeys: seq<string>
    /** Every key that was ever answered with "committed", in order. */
    ghost var log: seq<string>

    ghost predicate Valid()
      reads this
    {
      committedTurnKeys == Recent(log) && Distinct(committedTurnKeys)
    }

    constructor ()
      ensures Valid() && log == []
    {
      committedTurnKeys, log := [], [];
    }

    /** The answer depends on the last 1024 commits of all time and on nothing else, and the
        keys remembered stay those commits. */
    method CommitTurn(advancementKey: string) returns (status: Status)
      requires Valid()
      modifies this
      ensures Valid()
      ensures status.Duplicate? <==> exists i :: 0 <= i < |old(log)| && i >= |old(log)| - 1024 && old(log)[i] == advancementKey
      ensures log == if status.Committed? then old(log) + [advancementKey] else old(log)
      ensures status.Duplicate? ==> committedTurnKeys == old(committedTurnKeys)
    {
      RecentHas(log, advancementKey);
      if advancementKey in committedTurnKeys {
        return Duplicate;
      }
      RecentMore(log, advancementKey);
      committedTurnKeys := committedTurnKeys + [advancementKey];
      if |committedTurnKeys| > WINDOW {
        committedTurnKeys := committedTurnKeys[1..];
      }
      log := log + [advancementKey];
      return Committed;
    }
  }

  lemma RecentHas(log: seq<string>, key: string)
    ensures key in Recent(log) <==> exists i :: 0 <= i < |log| && i >= |log| - 1024 && log[i] == key
  {
    var r := Recent(log);
    var first := |log| - |r|;
    assert forall k :: 0 <= k < |r| ==> r[k] == log[first + k];
    if i :| 0 <= i < |log| && i >= |log| - 1024 && log[i] == key {
      assert r[i - first] == key;
    }
  }

  lemma RecentMore(log: seq<string>, key: string)
    requires Distinct(Recent(log)) && key !in Recent(log)
    ensures var keys := Recent(log) + [key];
            Distinct(keys) && Recent(log + [key]) == if |keys| > WINDOW then keys[1..] else keys
  {
    if |log| >= WINDOW {
      var keys := Recent(log) + [key];
      assert |Recent(log)| == WINDOW;
      assert forall k :: 0 <= k < WINDOW ==> keys[1..][k] == (log + [key])[|log| + 1 - WINDOW + k];
    }
  }

  // ----- Runs of calls

  /** What "duplicate" is meant to be: among the last 1024 commits. */
  function Answer(log: seq<string>, key: string): Status {
    if key in Recent(log) then Duplicate else Committed
  }

  /** The keys that a list of calls commits. */
  function Log(calls: seq<string>): seq<string> {
    if calls == [] then []
    else
      var before, key := Log(calls[..|calls| - 1]), calls[|calls| - 1];
      if Answer(before, key).Committed? then before + [key] else before
  }

  function Answers(calls: seq<string>): (r: seq<Status>)
    ensures |r| == |calls|
  {
    if calls == [] then []
    else Answers(calls[..|calls| - 1]) + [Answer(Log(calls[..|calls| - 1]), calls[|calls| - 1])]
  }

  lemma OneMore(calls: seq<string>, key: string)
    ensures Log(calls + [key]) == if Answer(Log(calls), key).Committed? then Log(calls) + [key] else Log(calls)
    ensures Answers(calls + [key]) == Answers(calls) + [Answer(Log(calls), key)]
  {
    assert (calls + [key])[..|calls|] == calls;
  }

  lemma TakeMore(calls: seq<string>, n: nat)
    requires n < |calls|
    ensures calls[..n + 1] == calls[..n] + [calls[n]]
  {
  }

  /** One more call on an engine that has seen `calls`. */
  method NextTurn(engine: ContextEngine, ghost calls: seq<string>, key: string) returns (status: Status)
    requires engine.Valid() && engine.log == Log(calls)
    modifies engine
    ensures engine.Valid() && engine.log == Log(calls + [key])
    ensures Answers(calls + [key]) == Answers(calls) + [status]
  {
    OneMore(calls, key);
    status := engine.CommitTurn(key);
  }

  /** Calling the plugin again and again gives these answers, and the keys remembered are
      exactly the last 1024 commits, or all of them, and distinct. */
  method KeysAreRecent(calls: seq<string>) returns (engine: ContextEngine, statuses: seq<Status>)
    ensures fresh(engine) && engine.log == Log(calls) && statuses == Answers(calls)
    ensures engine.committedTurnKeys == Recent(Log(calls)) && Distinct(engine.committedTurnKeys)
  {
    engine := new ContextEngine();
    statuses := [];
    for n := 0 to |calls|
      invariant fresh(engine) && engine.Valid() && engine.log == Log(calls[..n])
      invariant statuses == Answers(calls[..n])
    {
      var status := NextTurn(engine, calls[..n], calls[n]);
      TakeMore(calls, n);
      statuses := statuses + [status];
    }
    assert calls[..|calls|] == calls;
  }

  lemma OneMoreGrows(calls: seq<string>, key: string)
    ensures Log(calls) <= Log(calls + [key]) && |Log(calls + [key])| <= |Log(calls)| + 1
  {
    OneMore(calls, key);
  }

  lemma LastOf(calls: seq<string>, others: seq<string>)
    requires others != []
    ensures var n := |others| - 1; calls + others == calls + others[..n] + [others[n]]
  {
  }

  /** A call adds at most one entry, at the end. */
  lemma {:induction false} LogGrows(calls: seq<string>, others: seq<string>)
    ensures Log(calls) <= Log(calls + others) && |Log(calls + others)| <= |Log(calls)| + |others|
  {
    if others == [] {
      assert calls + others == calls;
    } else {
      var n := |others| - 1;
      LogGrows(calls, others[..n]);
      OneMoreGrows(calls + others[..n], others[n]);
      LastOf(calls, others);
    }
  }

  lemma StillRecent(log: seq<string>, now: seq<string>)
    requires log != [] && log <= now && |now| < |log| + WINDOW
    ensures log[|log| - 1] in Recent(now)
  {
    var k := |log| - 1;
    assert now[k] == log[k];
    assert |now| > WINDOW ==> Recent(now)[k - (|now| - WINDOW)] == now[k];
  }

  /** A key that was just committed is answered with "duplicate" after any 1023 or fewer
      other calls, and the retry changes nothing. */
  lemma RetryIsDuplicate(calls: seq<string>, key: string, others: seq<string>)
    requires Answer(Log(calls), key).Committed? && |others| <= 1023
    ensures var run := calls + [key] + others;
            Answer(Log(run), key).Duplicate? && Log(run + [key]) == Log(run)
  {
    var run := calls + [key] + others;
    OneMore(calls, key);
    LogGrows(calls + [key], others);
    StillRecent(Log(calls + [key]), Log(run));
    OneMore(run, key);
  }

  /** Two "committed" answers for one key have at least 1024 other commits between them. */
  lemma {:induction false} CommitsFarApart(calls: seq<string>, i: nat, j: nat)
    requires i < j < |Log(calls)| && Log(calls)[i] == Log(calls)[j]
    ensures j - i - 1 >= 1024
  {
    var n := |calls| - 1;
    var log, key := Log(calls[..n]), calls[n];
    if j < |log| {
      CommitsFarApart(calls[..n], i, j);
    } else {
      assert key !in Recent(log);
    }
  }

  lemma NotAgain(calls: seq<string>, log: seq<string>, k: nat)
    requires log == Log(calls) && |log| > WINDOW && |log| - WINDOW <= k < |log|
    ensures log[k] != log[|log| - WINDOW - 1]
  {
    if log[k] == log[|log| - WINDOW - 1] {
      CommitsFarApart(calls, |log| - WINDOW - 1, k);
    }
  }

  lemma NotRecent(log: seq<string>)
    requires |log| > WINDOW
    requires forall k :: |log| - WINDOW <= k < |log| ==> log[k] != log[|log| - WINDOW - 1]
    ensures log[|log| - WINDOW - 1] !in Recent(log)
  {
    var first := |log| - WINDOW;
    assert forall k :: 0 <= k < WINDOW ==> Recent(log)[k] == log[first + k];
  }

  /** The bound is tight: a key commits again as soon as 1024 others have. */
  lemma WindowIsTight(calls: seq<string>, log: seq<string>, key: string)
    requires log == Log(calls) && |log| > 1024 && key == log[|log| - 1025]
    ensures Log(calls + [key]) == log + [key]
  {
    forall k | |log| - WINDOW <= k < |log|
      ensures log[k] != key
    {
      NotAgain(calls, log, k);
    }
    NotRecent(log);
    OneMore(calls, key);
  }
}
