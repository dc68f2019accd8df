/** Fetching the signals of every dependency: fan-out over providers, and the bounded-concurrency loop. */
module Gather {
  import opened Wrappers
  import opened Sequences
  import opened Dependency
  import opened Signal
  import opened Decision
  import opened Policy
  import opened PolicyMeaning
  import opened PolicyProperties

  /** What one provider answers about one dependency in the run at hand. */
  datatype Answer = Answer(provider: string, supports: bool, reply: Result<SignalSet, string>)

  // The composite provider

  /** A child's share: its signals in order, or one unavailability for an error. */
  function Share(a: Answer): SignalSet {
    if !a.supports then []
    else
      match a.reply
      case Ok(sigs) => sigs
      case Err(e) => [Unavailable(a.provider, e)]
  }

  function Shares(children: seq<Answer>): SignalSet {
    if children == [] then [] else Share(children[0]) + Shares(children[1..])
  }

  /** What a fan-out records: the signals of every supporting child that answered, and a failure for each that did not. */
  ghost predicate Contributes(a: Answer, s: Signal) {
    && a.supports
    && match a.reply
       case Ok(sigs) => s in sigs
       case Err(e) => s == Unavailable(a.provider, e)
  }

  lemma {:induction false} SharesExact(children: seq<Answer>, s: Signal)
    ensures s in Shares(children) <==> exists a :: a in children && Contributes(a, s)
  {
    if children != [] {
      SharesExact(children[1..], s);
      assert children == [children[0]] + children[1..];
      assert s in Share(children[0]) <==> Contributes(children[0], s);
    }
  }

  predicate Supporting(a: Answer) {
    a.supports
  }

  predicate CompositeSupports(children: seq<Answer>) {
    exists a :: a in children && a.supports
  }

  method CompositeSignals(children: seq<Answer>) returns (r: Result<SignalSet, string>)
    ensures r == Ok(Shares(children))
  {
    var supporting := Filter(children, Supporting);
    forall a | a in supporting ensures a.supports {
      FilterMembers(children, Supporting, a);
    }
    var out := Concatenate(supporting);
    ShareOfSupporting(children);
    return Ok(out);
  }

  method Concatenate(supporting: seq<Answer>) returns (out: SignalSet)
    requires forall a :: a in supporting ==> a.supports
    ensures out == Shares(supporting)
  {
    out := [];
    for i := 0 to |supporting|
      invariant out == Shares(supporting[..i])
    {
      assert supporting[..i + 1] == supporting[..i] + [supporting[i]];
      SharesAppend(supporting[..i], [supporting[i]]);
      assert Shares([supporting[i]]) == Share(supporting[i]);
      match supporting[i].reply {
        case Ok(sigs) => out := out + sigs;
        case Err(e) => out := out + [Unavailable(supporting[i].provider, e)];
      }
    }
    assert supporting[..|supporting|] == supporting;
  }

  lemma {:induction false} ShareOfSupporting(children: seq<Answer>)
    ensures Shares(Filter(children, Supporting)) == Shares(children)
  {
    if children != [] {
      ShareOfSupporting(children[1..]);
      SharesAppend(if children[0].supports then [children[0]] else [], Filter(children[1..], Supporting));
      assert Shares([children[0]]) == Share(children[0]);
    }
  }

  lemma {:induction false} SharesAppend(s: seq<Answer>, t: seq<Answer>)
    ensures Shares(s + t) == Shares(s) + Shares(t)
  {
    if s == [] {
      assert s + t == t;
    } else {
      assert (s + t)[1..] == s[1..] + t;
      SharesAppend(s[1..], t);
      Associate(Share(s[0]), Shares(s[1..]), Shares(t));
    }
  }

  lemma {:induction false} UnsupportedIsSilent(children: seq<Answer>)
    requires !CompositeSupports(children)
    ensures Shares(children) == []
  {
    if children != [] {
      assert children[0] in children;
      assert forall a :: a in children[1..] ==> a in children;
      UnsupportedIsSilent(children[1..]);
    }
  }

  /** Fetching through the composite records every child's share, in order, for all but workspace members. */
  lemma FetchThroughComposite(dep: ResolvedDependency, children: seq<Answer>)
    ensures FetchOne(dep, Answer("composite", CompositeSupports(children), Ok(Shares(children))))
      == if dep.source.Workspace? then [] else Shares(children)
  {
    if !CompositeSupports(children) {
      UnsupportedIsSilent(children);
    }
  }

  /**
   Adding a last provider that only ever reports incriminating signals, or fails, cannot make
   any policy more lenient: a blocked dependency stays blocked.
   */
  lemma ExtraProviderNeverRelaxes(
    children: seq<Answer>, last: Answer, p: Policy, dep: ResolvedDependency, now: Instant, ctx: EvalContext)
    requires last.reply.Ok? ==> forall s :: s in last.reply.value ==> Incriminating(s)
    ensures Rank(Evaluate(p, dep, Shares(children), now, ctx)) <= Rank(Evaluate(p, dep, Shares(children + [last]), now, ctx))
  {
    SharesAppend(children, [last]);
    assert Shares([last]) == Share(last);
    EvidenceNeverRelaxes(p, dep, Shares(children), Share(last), now, ctx);
  }

  /** A failed fetch never passes silently: unless its code is suppressed, the dependency is at least warned about. */
  lemma FailedFetchIsReported(p: Policy, dep: ResolvedDependency, a: Answer, now: Instant, ctx: EvalContext)
    requires !dep.source.Workspace? && a.supports && a.reply.Err?
    requires "signal-unavailable" in p.severity ==> p.severity["signal-unavailable"] != AllowSeverity
    ensures var d := Evaluate(p, dep, FetchOne(dep, a), now, ctx);
      !d.Allow? && SignalUnavailable(a.provider, a.reply.error) in ReasonsOf(d)
  {
    var sigs, r := FetchOne(dep, a), SignalUnavailable(a.provider, a.reply.error);
    assert Unavailable(a.provider, a.reply.error) in sigs;
    assert PublishedStanding(p, dep, sigs, now, r);
    DecisionExact(p, dep, sigs, now, ctx, r);
  }

  // The fetch loop

  /** The signals recorded for one dependency: none for workspace members and unsupported ones. */
  function FetchOne(dep: ResolvedDependency, a: Answer): SignalSet {
    if dep.source.Workspace? || !a.supports then []
    else
      match a.reply
      case Ok(sigs) => sigs
      case Err(e) => [Unavailable(a.provider, e)]
  }

  /** Nothing for workspace members and unsupported dependencies; else the reply, or one mark of its failure. */
  predicate Recorded(dep: ResolvedDependency, a: Answer, sigs: SignalSet) {
    && (dep.source == Workspace || !a.supports ==> sigs == [])
    && (dep.source != Workspace && a.supports ==>
          a.reply == Ok(sigs) || (a.reply.Err? && sigs == [Unavailable(a.provider, a.reply.error)]))
  }

  function Max(x: nat, y: nat): nat {
    if x < y then y else x
  }

  /** Every started index is either in flight or written, and written once. */
  ghost predicate Settled(next: nat, inFlight: set<nat>, written: seq<nat>) {
    && (forall i :: i in inFlight ==> i < next)
    && Distinct(written) && |written| + |inFlight| == next
    && forall i :: i in written <==> 0 <= i < next && i !in inFlight
  }

  lemma StartOne(next: nat, inFlight: set<nat>, written: seq<nat>)
    requires Settled(next, inFlight, written)
    ensures Settled(next + 1, inFlight + {next}, written)
  {
  }

  lemma FinishOne(next: nat, inFlight: set<nat>, written: seq<nat>, idx: nat)
    requires Settled(next, inFlight, written) && idx in inFlight
    ensures Settled(next, inFlight - {idx}, written + [idx])
  {
    DistinctAppend(written, idx);
  }

  /** The results of all started indices that are no longer in flight are in place. */
  ghost predicate Delivered(
    deps: seq<ResolvedDependency>, answers: seq<Answer>, results: seq<SignalSet>, next: nat, inFlight: set<nat>)
    requires next <= |deps| == |answers| == |results|
  {
    forall i :: 0 <= i < next && i !in inFlight ==> results[i] == FetchOne(deps[i], answers[i])
  }

  /**
   Keeps up to `concurrency` fetches in flight and stores each result as it completes. Which fetch
   completes next is left open, so the contract holds for every completion order. `answers[i]` is
   what the provider replies to the call for `deps[i]`; `started` and `written` record the indices
   in the order of their calls and completions, and `peak` the most fetches ever in flight.
   */
  method GatherSignals(deps: seq<ResolvedDependency>, answers: seq<Answer>, concurrency: nat)
    returns (results: seq<SignalSet>, ghost started: seq<nat>, ghost written: seq<nat>, ghost peak: nat)
    requires |answers| == |deps|
    ensures |results| == |deps|
    ensures forall i :: 0 <= i < |deps| ==> Recorded(deps[i], answers[i], results[i])
    ensures started == seq(|deps|, i => i)
    ensures |written| == |deps| && Distinct(written) && forall i :: i in written <==> 0 <= i < |deps|
    ensures peak <= Max(1, concurrency)
  {
    results := seq(|deps|, _ => []);
    var inFlight: set<nat> := {};
    var next: nat := 0;
    started, written, peak := [], [], 0;
    while next < |deps| || inFlight != {}
      invariant next <= |deps| == |results|
      invariant |inFlight| <= Max(1, concurrency) && peak <= Max(1, concurrency)
      invariant started == seq(next, i => i)
      invariant Settled(next, inFlight, written)
      invariant Delivered(deps, answers, results, next, inFlight)
      decreases 2 * |deps| - next - |written|
    {
      ghost var before := next;
      while |inFlight| < Max(1, concurrency) && next < |deps|
        invariant before <= next <= |deps| == |results|
        invariant |inFlight| <= Max(1, concurrency) && peak <= Max(1, concurrency)
        invariant started == seq(next, i => i)
        invariant Settled(next, inFlight, written)
        invariant Delivered(deps, answers, results, next, inFlight)
        decreases |deps| - next
      {
        StartOne(next, inFlight, written);
        inFlight := inFlight + {next};
        started := started + [next];
        next := next + 1;
        peak := Max(peak, |inFlight|);
      }
      if inFlight != {} {
        var idx :| idx in inFlight;
        FinishOne(next, inFlight, written, idx);
        inFlight := inFlight - {idx};
        results := results[idx := FetchOne(deps[idx], answers[idx])];
        written := written + [idx];
      }
    }
    assert |written| == |deps|;
  }
}
