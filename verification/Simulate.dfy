/** Re-evaluates recorded signals under a candidate policy and classifies what changed. */
module Simulate {
  import opened Wrappers
  import opened Sequences
  import opened Decision
  import opened Policy
  import opened PolicyMeaning
  import opened PolicyProperties
  import opened Results
  import TrustScore

  datatype Change = Change(name: string, version: string, direct: bool, before: Decision, after: Decision)

  datatype Class = NewlyBlocked | NewlyWarned | NewlyAllowed | ReasonsChanged

  function ClassOf(c: Change): Class {
    match (c.before, c.after)
    case (Block(_), Allow) => NewlyAllowed
    case (Warn(_), Allow) => NewlyAllowed
    case (Allow, Block(_)) => NewlyBlocked
    case (Warn(_), Block(_)) => NewlyBlocked
    case (Allow, Warn(_)) => NewlyWarned
    case (Block(_), Warn(_)) => NewlyWarned
    case _ => ReasonsChanged
  }

  lemma ClassFollowsRank(c: Change)
    ensures ClassOf(c).NewlyBlocked? <==> Rank(c.before) < Rank(c.after) == 2
    ensures ClassOf(c).NewlyAllowed? <==> Rank(c.before) > Rank(c.after) == 0
    ensures ClassOf(c).NewlyWarned? <==> Rank(c.before) != Rank(c.after) == 1
    ensures ClassOf(c).ReasonsChanged? <==> Rank(c.before) == Rank(c.after)
  {
  }

  /** What one result contributes: nothing when the candidate decides the same. */
  function Changed(r: DepResult, candidate: Policy, now: Instant, ctx: EvalContext): Option<Change> {
    var after := Evaluate(candidate, r.dep, r.signals, now, ctx);
    if after == r.decision then None else Some(Change(r.dep.name, r.dep.version, r.dep.direct, r.decision, after))
  }

  function Changer(candidate: Policy, now: Instant, ctx: EvalContext): DepResult -> Option<Change> {
    r => Changed(r, candidate, now, ctx)
  }

  function Diff(results: seq<DepResult>, candidate: Policy, now: Instant, ctx: EvalContext): seq<Change> {
    FilterMap(results, Changer(candidate, now, ctx))
  }

  /** The change recorded for one result: both decisions, which differ. */
  ghost predicate ChangeOf(c: Change, r: DepResult, candidate: Policy, now: Instant, ctx: EvalContext) {
    && c.name == r.dep.name && c.version == r.dep.version && c.direct == r.dep.direct
    && c.before == r.decision != c.after == Evaluate(candidate, r.dep, r.signals, now, ctx)
  }

  lemma ChangedExact(r: DepResult, candidate: Policy, now: Instant, ctx: EvalContext, c: Change)
    ensures Changed(r, candidate, now, ctx) == Some(c) <==> ChangeOf(c, r, candidate, now, ctx)
  {
  }

  /** A change is reported exactly for the dependencies whose decision differs. */
  lemma DiffExact(results: seq<DepResult>, candidate: Policy, now: Instant, ctx: EvalContext, c: Change)
    ensures c in Diff(results, candidate, now, ctx) <==> exists r :: r in results && ChangeOf(c, r, candidate, now, ctx)
  {
    FilterMapMembers(results, Changer(candidate, now, ctx), c);
    forall r ensures Changer(candidate, now, ctx)(r) == Some(c) <==> ChangeOf(c, r, candidate, now, ctx) {
      ChangedExact(r, candidate, now, ctx, c);
    }
    if r :| r in results && ChangeOf(c, r, candidate, now, ctx) {
      var i :| 0 <= i < |results| && results[i] == r;
      assert Changer(candidate, now, ctx)(results[i]) == Some(c);
    }
  }

  /** Changes are listed in the order of the results, one for each that changed. */
  lemma DiffAppend(a: seq<DepResult>, b: seq<DepResult>, candidate: Policy, now: Instant, ctx: EvalContext)
    ensures Diff(a + b, candidate, now, ctx) == Diff(a, candidate, now, ctx) + Diff(b, candidate, now, ctx)
  {
    FilterMapAppend(a, b, Changer(candidate, now, ctx));
  }

  lemma DiffOfOne(r: DepResult, candidate: Policy, now: Instant, ctx: EvalContext)
    ensures |Diff([r], candidate, now, ctx)| ==
      if Evaluate(candidate, r.dep, r.signals, now, ctx) == r.decision then 0 else 1
  {
    FilterMapOne(r, Changer(candidate, now, ctx));
    assert Changer(candidate, now, ctx)(r) == Changed(r, candidate, now, ctx);
  }

  /**
   Simulating the unchanged policy at a later clock reports no new block, and no warning where
   there was none, when every dependency's signals age well.
   */
  lemma UnchangedPolicyLater(
    p: Policy, results: seq<DepResult>, now: Instant, later: Instant, ctx: EvalContext, c: Change)
    requires now <= later && Faithful(p, results, now, ctx)
    requires forall r :: r in results ==> TrustScore.AgesWell(r.signals, now)
    requires c in Diff(results, p, later, ctx)
    ensures !ClassOf(c).NewlyBlocked?
    ensures ClassOf(c).NewlyWarned? ==> c.before.Block?
  {
    DiffExact(results, p, later, ctx, c);
    var r :| r in results && ChangeOf(c, r, p, later, ctx);
    AgingNeverTightens(p, r.dep, r.signals, now, later, ctx);
    ClassFollowsRank(c);
  }

  /** A stricter candidate never frees a dependency, and turns a block into nothing milder. */
  lemma StricterCandidate(
    p: Policy, q: Policy, results: seq<DepResult>, now: Instant, ctx: EvalContext, c: Change)
    requires Faithful(p, results, now, ctx) && Tighter(q, p, true) && Tighter(q, p, false)
    requires c in Diff(results, q, now, ctx)
    ensures !ClassOf(c).NewlyAllowed?
    ensures ClassOf(c).NewlyWarned? ==> c.before.Allow?
  {
    DiffExact(results, q, now, ctx, c);
    var r :| r in results && ChangeOf(c, r, q, now, ctx);
    TighterNeverRelaxes(p, q, r.dep, r.signals, now, ctx);
    ClassFollowsRank(c);
  }
}
