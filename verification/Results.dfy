/** Evaluation results of a whole run, their counts and the exit status they give. */
module Results {
  import opened Wrappers
  import opened Dependency
  import opened Signal
  import opened Decision
  import opened Policy

  datatype DepResult = DepResult(dep: ResolvedDependency, signals: SignalSet, decision: Decision)

  /** Every decision is the policy's judgement of the signals recorded beside it. */
  ghost predicate Faithful(p: Policy, results: seq<DepResult>, now: Instant, ctx: EvalContext) {
    forall r :: r in results ==> r.decision == Evaluate(p, r.dep, r.signals, now, ctx)
  }

  datatype Counts = Counts(allow: nat, warn: nat, block: nat)

  function CountRank(results: seq<DepResult>, rank: nat): nat {
    if results == [] then 0
    else (if Rank(results[0].decision) == rank then 1 else 0) + CountRank(results[1..], rank)
  }

  /** The results whose decision has this rank, by position. */
  ghost function Ranked(results: seq<DepResult>, rank: nat): set<nat> {
    set i: nat | i < |results| && Rank(results[i].decision) == rank
  }

  lemma {:induction false} CountRankSnoc(results: seq<DepResult>, i: nat, rank: nat)
    requires i < |results|
    ensures CountRank(results[..i + 1], rank) ==
      CountRank(results[..i], rank) + if Rank(results[i].decision) == rank then 1 else 0
  {
    if i == 0 {
      assert results[..1] == [results[0]] && results[..1][1..] == [];
    } else {
      CountRankSnoc(results[1..], i - 1, rank);
      assert results[..i + 1][1..] == results[1..][..i] && results[..i][1..] == results[1..][..i - 1];
    }
  }

  lemma CountRankExact(results: seq<DepResult>, rank: nat)
    ensures CountRank(results, rank) == |Ranked(results, rank)|
  {
    CountPrefix(results, |results|, rank);
    assert results[..|results|] == results;
  }

  lemma {:induction false} CountPrefix(results: seq<DepResult>, n: nat, rank: nat)
    requires n <= |results|
    ensures CountRank(results[..n], rank) == |Ranked(results[..n], rank)|
  {
    if n == 0 {
      assert Ranked(results[..0], rank) == {};
    } else {
      CountPrefix(results, n - 1, rank);
      CountRankSnoc(results, n - 1, rank);
      RankedSnoc(results, n - 1, rank);
    }
  }

  lemma RankedSnoc(results: seq<DepResult>, i: nat, rank: nat)
    requires i < |results|
    ensures |Ranked(results[..i + 1], rank)| ==
      |Ranked(results[..i], rank)| + if Rank(results[i].decision) == rank then 1 else 0
  {
    var more, fewer := Ranked(results[..i + 1], rank), Ranked(results[..i], rank);
    assert more == if Rank(results[i].decision) == rank then fewer + {i} else fewer;
  }

  method CountDecisions(results: seq<DepResult>) returns (c: Counts)
    ensures c == Counts(CountRank(results, 0), CountRank(results, 1), CountRank(results, 2))
    ensures c.allow == |set i: nat | i < |results| && results[i].decision.Allow?|
    ensures c.warn == |set i: nat | i < |results| && results[i].decision.Warn?|
    ensures c.block == |set i: nat | i < |results| && results[i].decision.Block?|
    ensures c.allow + c.warn + c.block == |results|
  {
    c := Counts(0, 0, 0);
    for i := 0 to |results|
      invariant c.allow + CountRank(results[i..], 0) == CountRank(results, 0)
      invariant c.warn + CountRank(results[i..], 1) == CountRank(results, 1)
      invariant c.block + CountRank(results[i..], 2) == CountRank(results, 2)
      invariant c.allow + c.warn + c.block == i
    {
      assert results[i..][1..] == results[i + 1..];
      match results[i].decision {
        case Allow => c := c.(allow := c.allow + 1);
        case Warn(_) => c := c.(warn := c.warn + 1);
        case Block(_) => c := c.(block := c.block + 1);
      }
    }
    CountRankExact(results, 0);
    CountRankExact(results, 1);
    CountRankExact(results, 2);
    assert Ranked(results, 0) == set i: nat | i < |results| && results[i].decision.Allow?;
    assert Ranked(results, 1) == set i: nat | i < |results| && results[i].decision.Warn?;
    assert Ranked(results, 2) == set i: nat | i < |results| && results[i].decision.Block?;
  }

  /** 1 when anything is blocked, or when warnings exceed the caller's limit. */
  function ExitStatus(results: seq<DepResult>, maxWarn: Option<nat>): nat {
    if CountRank(results, 2) > 0 then 1
    else if maxWarn.Some? && CountRank(results, 1) > maxWarn.value then 1
    else 0
  }

  lemma SomeBlocked(results: seq<DepResult>)
    ensures |set i: nat | i < |results| && results[i].decision.Block?| > 0 <==> exists r :: r in results && r.decision.Block?
  {
    var blocked := set i: nat | i < |results| && results[i].decision.Block?;
    if r :| r in results && r.decision.Block? {
      var i :| 0 <= i < |results| && results[i] == r;
      assert i in blocked;
    }
    if blocked != {} {
      var i :| i in blocked;
      assert results[i] in results;
    }
  }

  method ExitCode(results: seq<DepResult>, maxWarn: Option<nat>) returns (status: nat)
    ensures status == ExitStatus(results, maxWarn)
    ensures status == 0 || status == 1
    ensures status == 1 <==>
      || (exists r :: r in results && r.decision.Block?)
      || (maxWarn.Some? && |set i: nat | i < |results| && results[i].decision.Warn?| > maxWarn.value)
  {
    var counts := CountDecisions(results);
    SomeBlocked(results);
    if counts.block > 0 {
      return 1;
    }
    if maxWarn.Some? {
      if counts.warn > maxWarn.value {
        return 1;
      }
    }
    return 0;
  }
}
