/** What merging the doctor's suggestion does to a re-evaluation of the same signals. */
module DoctorProperties {
  import opened Wrappers
  import opened Sequences
  import opened Ordering
  import opened Dependency
  import opened Signal
  import opened Decision
  import opened Policy
  import opened PolicyProperties
  import opened Results
  import opened Doctor

  // What is suggested

  lemma SortedNamesExact(names: set<string>)
    ensures StrictlySorted(SortedNames(names))
    ensures forall n :: n in SortedNames(names) <==> n in names
  {
    StrOrder();
    SortedSetExact(names, StrLe);
  }

  lemma MemberOfNames<T>(l: seq<(string, T)>, name: string)
    ensures name in Names(l) <==> exists i :: 0 <= i < |l| && l[i].0 == name
  {
    if i :| 0 <= i < |l| && l[i].0 == name {
      assert Names(l)[i] == name;
    }
  }

  ghost predicate BlamedScript(results: seq<DepResult>, name: string, script: string) {
    Blames(results, name, DisallowedLifecycleScript(script))
  }

  ghost predicate BlamedSquat(results: seq<DepResult>, name: string, style: string, target: string) {
    Blames(results, name, NameSquatted(style, target))
  }

  ghost predicate ScriptsExact(results: seq<DepResult>, name: string, scripts: seq<string>) {
    StrictlySorted(scripts) && forall script :: script in scripts <==> BlamedScript(results, name, script)
  }

  /** The script bucket: package names in order, each with the ordered names of its blocked scripts. */
  lemma ScriptListExact(results: seq<DepResult>)
    ensures var l := Suggest(results).lifecycleScripts;
      && StrictlySorted(Names(l))
      && (forall n :: n in Names(l) <==> exists script :: BlamedScript(results, n, script))
      && (forall i :: 0 <= i < |l| ==> ScriptsExact(results, l[i].0, l[i].1))
  {
    var fs := Findings(results);
    var b := NoteAll(fs);
    NoteAllExact(fs);
    var names, l := SortedNames(b.scripts.Keys), Suggest(results).lifecycleScripts;
    SortedNamesExact(b.scripts.Keys);
    assert Names(l) == names;
    forall n, script ensures script in ScriptsOf(b, n) <==> BlamedScript(results, n, script) {
      FindingsExact(results, n, DisallowedLifecycleScript(script));
    }
    forall n ensures n in names <==> exists script :: BlamedScript(results, n, script) {
      if n in b.scripts {
        var script :| script in b.scripts[n];
        assert BlamedScript(results, n, script);
      }
      if script :| BlamedScript(results, n, script) {
        assert script in ScriptsOf(b, n);
      }
    }
    forall i | 0 <= i < |l|
      ensures ScriptsExact(results, l[i].0, l[i].1)
    {
      SortedNamesExact(ScriptsOf(b, names[i]));
    }
  }

  /** The target that the last name-squat finding of the walk holds against `name`. */
  ghost predicate LastTarget(results: seq<DepResult>, name: string, target: string) {
    exists i :: LastSquat(Findings(results), name, target, i)
  }

  ghost predicate SquatBlamed(results: seq<DepResult>, name: string) {
    exists style, target :: BlamedSquat(results, name, style, target)
  }

  /** The name-squat bucket: package names in order, each with the target it was last blocked for. */
  lemma SquatListExact(results: seq<DepResult>)
    ensures var l := Suggest(results).nameSquats;
      && StrictlySorted(Names(l))
      && (forall n :: n in Names(l) <==> SquatBlamed(results, n))
      && (forall i :: 0 <= i < |l| ==> LastTarget(results, l[i].0, l[i].1))
  {
    var b := NoteAll(Findings(results));
    NoteAllExact(Findings(results));
    var names, l := SortedNames(b.squats.Keys), SquatList(b);
    SortedNamesExact(b.squats.Keys);
    assert Names(l) == names;
    forall n ensures n in names <==> SquatBlamed(results, n) {
      SquatNames(results, b, n);
    }
    forall i | 0 <= i < |l| ensures LastTarget(results, l[i].0, l[i].1) {
      assert names[i] in names && l[i] == (names[i], b.squats[names[i]]);
    }
  }

  lemma SquatNames(results: seq<DepResult>, b: Buckets, name: string)
    requires HoldsSquats(b.squats, Findings(results))
    ensures name in b.squats <==> SquatBlamed(results, name)
  {
    var fs := Findings(results);
    if name in b.squats {
      var i :| LastSquat(fs, name, b.squats[name], i);
      assert fs[i] == (name, NameSquatted(fs[i].1.style, fs[i].1.target)) && fs[i] in fs;
      FindingsExact(results, name, fs[i].1);
      assert BlamedSquat(results, name, fs[i].1.style, fs[i].1.target);
    }
    if style, target :| BlamedSquat(results, name, style, target) {
      FindingsExact(results, name, NameSquatted(style, target));
      var i :| 0 <= i < |fs| && fs[i] == (name, NameSquatted(style, target));
      assert fs[i].1.NameSquatted?;
    }
  }

  /** A severity override is suggested exactly when a blocked package carries such a reason. */
  lemma FlagsExact(results: seq<DepResult>)
    ensures Suggest(results).distTagBlockSeen <==> exists n, r: Reason :: Blames(results, n, r) && r.DistTagMoved?
    ensures Suggest(results).signalUnavailableBlockSeen <==>
      exists n, r: Reason :: Blames(results, n, r) && r.SignalUnavailable?
  {
    var fs := Findings(results);
    NoteAllExact(fs);
    forall f: Finding ensures f in fs <==> Blames(results, f.0, f.1) {
      FindingsExact(results, f.0, f.1);
    }
    forall n, r: Reason | Blames(results, n, r) ensures (n, r) in fs {
      FindingsExact(results, n, r);
    }
  }

  /** The header counts: all packages, the blocked ones and the warned ones. */
  lemma TotalsExact(results: seq<DepResult>)
    ensures Suggest(results).totalPackages == |results|
    ensures Suggest(results).totalBlocks == |set i: nat | i < |results| && results[i].decision.Block?|
    ensures Suggest(results).totalWarns == |set i: nat | i < |results| && results[i].decision.Warn?|
  {
    CountRankExact(results, 1);
    CountRankExact(results, 2);
    assert Ranked(results, 1) == set i: nat | i < |results| && results[i].decision.Warn?;
    assert Ranked(results, 2) == set i: nat | i < |results| && results[i].decision.Block?;
  }

  // The merged policy

  /** Every suggested name is read back as a bare selector for itself. */
  ghost predicate Readable(s: Suggestion) {
    && (forall n :: n in Names(s.lifecycleScripts) ==> PlainName(n))
    && (forall n :: n in Names(s.nameSquats) ==> PlainName(n))
  }

  function MergedPolicy(p: Policy, s: Suggestion): (q: Policy)
    requires Readable(s)
    ensures Merge(p, s) == Ok(q)
    ensures q.defaults == p.defaults.(nameSquatAllow := q.defaults.nameSquatAllow) && q.direct == p.direct
    ensures q.scripts.policy == p.scripts.policy && q.severity == p.severity + Overrides(s)
  {
    ParseAllPlain(Names(s.nameSquats));
    ParseAllPlain(Names(s.lifecycleScripts));
    Merge(p, s).value
  }

  lemma MergedLists(p: Policy, s: Suggestion, q: Policy)
    requires Readable(s) && q == MergedPolicy(p, s)
    ensures forall m ::
      m in q.scripts.allow <==> m in p.scripts.allow || (m.family.None? && m.name in Names(s.lifecycleScripts))
    ensures forall m :: m in q.defaults.nameSquatAllow <==>
      m in p.defaults.nameSquatAllow || (m.family.None? && m.name in Names(s.nameSquats))
  {
    ParseAllPlain(Names(s.nameSquats));
    ParseAllPlain(Names(s.lifecycleScripts));
  }

  /** The two kinds of finding that an allowlist entry answers. */
  predicate Answered(r: Reason) {
    r.DisallowedLifecycleScript? || r.NameSquatted?
  }

  lemma CodesApart(r: Reason)
    ensures Code(r) == "dist-tag-anomaly" <==> r.DistTagMoved?
    ensures Code(r) == "signal-unavailable" <==> r.SignalUnavailable?
  {
    assert "maintainer-new-account"[0] == 'm' && "provenance-missing"[0] == 'p' && "license-disallowed"[0] == 'l'
      && "deprecated-version"[1] == 'e' && "publisher-change"[0] == 'p' && "project-archived"[0] == 'p';
  }

  /** Only the two flagged kinds change severity, and those become warnings. */
  lemma MergedSeverity(p: Policy, s: Suggestion, r: Reason)
    requires Readable(s)
    ensures SeverityFor(MergedPolicy(p, s), r) ==
      if (r.DistTagMoved? && s.distTagBlockSeen) || (r.SignalUnavailable? && s.signalUnavailableBlockSeen)
      then WarnSeverity else SeverityFor(p, r)
  {
    CodesApart(r);
  }

  /** A reason that appears in a decision was not suppressed. */
  lemma ListedReasons(rs: seq<Reason>, severityOf: Reason -> Severity, r: Reason)
    ensures r in ReasonsOf(ConcludeBy(rs, severityOf)) <==> r in rs && severityOf(r) != AllowSeverity
  {
    SelectMembers(rs, severityOf, BlockSeverity, r);
    SelectMembers(rs, severityOf, WarnSeverity, r);
    assert Select(rs, severityOf, BlockSeverity) == [] ==> r !in Select(rs, severityOf, BlockSeverity);
  }

  /** Merging never turns a severity up, and never suppresses a reason that was reported. */
  lemma MergedSeverityBounds(p: Policy, results: seq<DepResult>, now: Instant, ctx: EvalContext, r: Reason)
    requires Faithful(p, results, now, ctx) && Readable(Suggest(results))
    ensures var q := MergedPolicy(p, Suggest(results));
      && SeverityRank(SeverityFor(q, r)) <= SeverityRank(SeverityFor(p, r))
      && (SeverityFor(q, r) == AllowSeverity <==> SeverityFor(p, r) == AllowSeverity)
  {
    MergedSeverity(p, Suggest(results), r);
    if r.DistTagMoved? && Suggest(results).distTagBlockSeen {
      TagNotSuppressed(p, results, now, ctx, r);
    } else if r.SignalUnavailable? && Suggest(results).signalUnavailableBlockSeen {
      UnavailableNotSuppressed(p, results, now, ctx, r);
    }
  }

  lemma TagNotSuppressed(p: Policy, results: seq<DepResult>, now: Instant, ctx: EvalContext, r: Reason)
    requires Faithful(p, results, now, ctx) && r.DistTagMoved? && Suggest(results).distTagBlockSeen
    ensures SeverityFor(p, r) != AllowSeverity
  {
    var n, blamed := TagBlamed(results);
    BlamedNotSuppressed(p, results, now, ctx, n, blamed);
    SameTagSeverity(p, blamed, r);
  }

  lemma UnavailableNotSuppressed(p: Policy, results: seq<DepResult>, now: Instant, ctx: EvalContext, r: Reason)
    requires Faithful(p, results, now, ctx) && r.SignalUnavailable? && Suggest(results).signalUnavailableBlockSeen
    ensures SeverityFor(p, r) != AllowSeverity
  {
    var n, blamed := UnavailableBlamed(results);
    BlamedNotSuppressed(p, results, now, ctx, n, blamed);
    SameTagSeverity(p, blamed, r);
  }

  /** These two kinds carry their severity by kind, whatever their details. */
  lemma SameTagSeverity(p: Policy, r: Reason, r': Reason)
    requires (r.DistTagMoved? && r'.DistTagMoved?) || (r.SignalUnavailable? && r'.SignalUnavailable?)
    ensures SeverityFor(p, r) == SeverityFor(p, r')
  {
  }

  lemma TagBlamed(results: seq<DepResult>) returns (n: string, r: Reason)
    requires Suggest(results).distTagBlockSeen
    ensures Blames(results, n, r) && r.DistTagMoved?
  {
    FlagsExact(results);
    n, r :| Blames(results, n, r) && r.DistTagMoved?;
  }

  lemma UnavailableBlamed(results: seq<DepResult>) returns (n: string, r: Reason)
    requires Suggest(results).signalUnavailableBlockSeen
    ensures Blames(results, n, r) && r.SignalUnavailable?
  {
    FlagsExact(results);
    n, r :| Blames(results, n, r) && r.SignalUnavailable?;
  }

  lemma BlamedNotSuppressed(p: Policy, results: seq<DepResult>, now: Instant, ctx: EvalContext, n: string, r: Reason)
    requires Faithful(p, results, now, ctx) && Blames(results, n, r)
    ensures SeverityFor(p, r) != AllowSeverity
  {
    var x :| x in results && x.dep.name == n && x.decision.Block? && r in x.decision.reasons;
    ListedReasons(Reasons(p, x.dep, x.signals, now, ctx), SeverityMap(p), r);
  }

  // Re-evaluation

  /** Merging only ever answers findings: a reason raised afterwards was raised before. */
  lemma MergedFires(
    p: Policy, s: Suggestion, dep: ResolvedDependency, sigs: SignalSet, now: Instant, ctx: EvalContext, r: Reason)
    requires Readable(s) && Fires(MergedPolicy(p, s), dep, sigs, now, ctx, r)
    ensures Fires(p, dep, sigs, now, ctx, r)
  {
    MergedAllows(p, s, dep);
  }

  lemma MergedAllows(p: Policy, s: Suggestion, dep: ResolvedDependency)
    requires Readable(s)
    ensures ScriptAllowed(MergedPolicy(p, s), dep) <==> (ScriptAllowed(p, dep) || dep.name in Names(s.lifecycleScripts))
    ensures SquatAllowed(MergedPolicy(p, s), dep) <==> (SquatAllowed(p, dep) || dep.name in Names(s.nameSquats))
  {
    var q := MergedPolicy(p, s);
    MergedLists(p, s, q);
    MergedMatches(p.scripts.allow, q.scripts.allow, Names(s.lifecycleScripts), dep);
    MergedMatches(p.defaults.nameSquatAllow, q.defaults.nameSquatAllow, Names(s.nameSquats), dep);
  }

  lemma MergedMatches(
    before: seq<EcosystemMatcher>, after: seq<EcosystemMatcher>, names: seq<string>, dep: ResolvedDependency)
    requires forall m :: m in after <==> m in before || (m.family.None? && m.name in names)
    ensures var family := FamilyOf(dep.ecosystem);
      AnyMatches(after, family, dep.name) <==> AnyMatches(before, family, dep.name) || dep.name in names
  {
    if dep.name in names {
      assert EcosystemMatcher(None, dep.name) in after;
      assert Matches(EcosystemMatcher(None, dep.name), FamilyOf(dep.ecosystem), dep.name);
    }
  }

  /** No decision gets more severe when the suggestion is merged. */
  lemma MergeNeverTightens(
    p: Policy, results: seq<DepResult>, now: Instant, ctx: EvalContext, dep: ResolvedDependency, sigs: SignalSet)
    requires Faithful(p, results, now, ctx) && Readable(Suggest(results))
    ensures Rank(Evaluate(MergedPolicy(p, Suggest(results)), dep, sigs, now, ctx)) <= Rank(Evaluate(p, dep, sigs, now, ctx))
  {
    var q := MergedPolicy(p, Suggest(results));
    forall r ensures SeverityRank(SeverityFor(q, r)) <= SeverityRank(SeverityFor(p, r)) {
      MergedSeverityBounds(p, results, now, ctx, r);
    }
    forall r | Fires(q, dep, sigs, now, ctx, r) ensures Fires(p, dep, sigs, now, ctx, r) {
      MergedFires(p, Suggest(results), dep, sigs, now, ctx, r);
    }
    CounterpartsRaiseRank(q, p, dep, sigs, sigs, now, now, ctx, r => r);
  }

  /** A blocked package keeps none of the findings the suggestion answers. */
  lemma MergeAnswers(p: Policy, results: seq<DepResult>, now: Instant, ctx: EvalContext, x: DepResult, r: Reason)
    requires Faithful(p, results, now, ctx) && Readable(Suggest(results))
    requires x in results && x.decision.Block?
    requires r in ReasonsOf(Evaluate(MergedPolicy(p, Suggest(results)), x.dep, x.signals, now, ctx))
    ensures !Answered(r)
  {
    var s := Suggest(results);
    var q := MergedPolicy(p, s);
    ListedReasons(Reasons(q, x.dep, x.signals, now, ctx), SeverityMap(q), r);
    ReasonsExact(q, x.dep, x.signals, now, ctx, r);
    if Answered(r) {
      MergedFires(p, s, x.dep, x.signals, now, ctx, r);
      ReasonsExact(p, x.dep, x.signals, now, ctx, r);
      MergedSeverity(p, s, r);
      ListedReasons(Reasons(p, x.dep, x.signals, now, ctx), SeverityMap(p), r);
      assert Blames(results, x.dep.name, r);
      MergedAllows(p, s, x.dep);
      SuggestedFor(results, x.dep.name, r);
      assert false;
    }
  }

  lemma SuggestedFor(results: seq<DepResult>, name: string, r: Reason)
    requires Blames(results, name, r)
    ensures r.DisallowedLifecycleScript? ==> name in Names(Suggest(results).lifecycleScripts)
    ensures r.NameSquatted? ==> name in Names(Suggest(results).nameSquats)
  {
    ScriptListExact(results);
    SquatListExact(results);
    if r.DisallowedLifecycleScript? {
      assert BlamedScript(results, name, r.script);
    }
    if r.NameSquatted? {
      assert BlamedSquat(results, name, r.style, r.target);
    }
  }

  function Reported(severityOf: Reason -> Severity): Reason -> bool {
    r => severityOf(r) != AllowSeverity
  }

  /** The reasons a decision lists are the raised ones that are not suppressed, each as often as it was raised. */
  lemma ListedMultiset(rs: seq<Reason>, severityOf: Reason -> Severity)
    ensures multiset(ReasonsOf(ConcludeBy(rs, severityOf))) == multiset(Filter(rs, Reported(severityOf)))
  {
    SelectMultiset(rs, severityOf);
  }

  lemma {:induction false} SelectMultiset(rs: seq<Reason>, severityOf: Reason -> Severity)
    ensures multiset(Filter(rs, Reported(severityOf)))
      == multiset(Select(rs, severityOf, BlockSeverity)) + multiset(Select(rs, severityOf, WarnSeverity))
  {
    if rs != [] {
      SelectMultiset(rs[1..], severityOf);
    }
  }

  predicate Other(r: Reason) {
    !Answered(r)
  }

  /** Reported and not of an answered kind. */
  function Kept(p: Policy): Reason -> bool {
    Both(Reported(SeverityMap(p)), Other)
  }

  lemma OthersOf(p: Policy, rs: seq<Reason>)
    ensures multiset(Filter(ReasonsOf(Conclude(p, rs)), Other)) == multiset(Filter(rs, Kept(p)))
  {
    var reported := Reported(SeverityMap(p));
    ListedMultiset(rs, SeverityMap(p));
    FilterPermutation(ReasonsOf(Conclude(p, rs)), Filter(rs, reported), Other);
    FilterTwice(rs, reported, Other);
  }

  /** With scripts ignored at install time no script is suggested for. */
  lemma IgnoredScriptsUnsuggested(p: Policy, results: seq<DepResult>, now: Instant, ctx: EvalContext, name: string)
    requires Faithful(p, results, now, ctx) && ctx.ignoreScripts
    ensures name !in Names(Suggest(results).lifecycleScripts)
  {
    ScriptListExact(results);
    forall script ensures !BlamedScript(results, name, script) {
      forall x | x in results && x.decision.Block? ensures DisallowedLifecycleScript(script) !in x.decision.reasons {
        IgnoredScriptsAllowed(p, x, now, ctx, script);
      }
    }
  }

  lemma IgnoredScriptsAllowed(p: Policy, x: DepResult, now: Instant, ctx: EvalContext, script: string)
    requires ctx.ignoreScripts && x.decision == Evaluate(p, x.dep, x.signals, now, ctx)
    ensures DisallowedLifecycleScript(script) !in ReasonsOf(x.decision)
  {
    var r := DisallowedLifecycleScript(script);
    ListedReasons(Reasons(p, x.dep, x.signals, now, ctx), SeverityMap(p), r);
    ReasonsExact(p, x.dep, x.signals, now, ctx, r);
  }

  lemma LifecycleSurvives(
    p: Policy, results: seq<DepResult>, now: Instant, ctx: EvalContext,
    dep: ResolvedDependency, sigs: SignalSet, keep: Reason -> bool)
    requires Faithful(p, results, now, ctx) && Readable(Suggest(results))
    requires forall r :: keep(r) ==> Other(r)
    ensures Filter(LifecycleReasons(MergedPolicy(p, Suggest(results)), dep, sigs, ctx), keep)
      == Filter(LifecycleReasons(p, dep, sigs, ctx), keep)
  {
    var q := MergedPolicy(p, Suggest(results));
    if ctx.ignoreScripts {
      IgnoredScriptsUnsuggested(p, results, now, ctx, dep.name);
      MergedAllows(p, Suggest(results), dep);
    } else {
      forall policy | policy == p || policy == q ensures Filter(LifecycleReasons(policy, dep, sigs, ctx), keep) == [] {
        forall r | r in LifecycleReasons(policy, dep, sigs, ctx) ensures !keep(r) {
          LifecycleMembers(policy, dep, sigs, ctx, r);
        }
        FilterNone(LifecycleReasons(policy, dep, sigs, ctx), keep);
      }
    }
  }

  lemma RaisedSurvive(
    p: Policy, results: seq<DepResult>, now: Instant, ctx: EvalContext,
    dep: ResolvedDependency, sigs: SignalSet, keep: Reason -> bool)
    requires Faithful(p, results, now, ctx) && Readable(Suggest(results))
    requires forall r :: keep(r) ==> Other(r)
    ensures Filter(Reasons(MergedPolicy(p, Suggest(results)), dep, sigs, now, ctx), keep)
      == Filter(Reasons(p, dep, sigs, now, ctx), keep)
  {
    var q := MergedPolicy(p, Suggest(results));
    LifecycleSurvives(p, results, now, ctx, dep, sigs, keep);
    FilterNone(SquatReasons(p, dep, sigs), keep);
    FilterNone(SquatReasons(q, dep, sigs), keep);
    FilterFive(OriginReasons(p, dep, sigs, now), LifecycleReasons(p, dep, sigs, ctx), ChangeReasons(p, dep, sigs),
      SquatReasons(p, dep, sigs), StandingReasons(p, dep, sigs, now), keep);
    FilterFive(OriginReasons(q, dep, sigs, now), LifecycleReasons(q, dep, sigs, ctx), ChangeReasons(q, dep, sigs),
      SquatReasons(q, dep, sigs), StandingReasons(q, dep, sigs, now), keep);
    OriginUntouched(p, q, dep, sigs, now);
    ChangeUntouched(p, q, dep, sigs);
    StandingUntouched(p, q, dep, sigs, now);
  }

  /** The two policies differ at most in allowlists and severities. */
  ghost predicate SameKnobs(p: Policy, q: Policy) {
    q.direct == p.direct && q.defaults == p.defaults.(nameSquatAllow := q.defaults.nameSquatAllow)
  }

  lemma OriginUntouched(p: Policy, q: Policy, dep: ResolvedDependency, sigs: SignalSet, now: Instant)
    requires SameKnobs(p, q)
    ensures OriginReasons(q, dep, sigs, now) == OriginReasons(p, dep, sigs, now)
  {
  }

  lemma ChangeUntouched(p: Policy, q: Policy, dep: ResolvedDependency, sigs: SignalSet)
    requires SameKnobs(p, q)
    ensures ChangeReasons(q, dep, sigs) == ChangeReasons(p, dep, sigs)
  {
  }

  lemma StandingUntouched(p: Policy, q: Policy, dep: ResolvedDependency, sigs: SignalSet, now: Instant)
    requires SameKnobs(p, q)
    ensures StandingReasons(q, dep, sigs, now) == StandingReasons(p, dep, sigs, now)
  {
    assert LicenseReasons(q, dep, sigs) == LicenseReasons(p, dep, sigs);
    assert TrustReasons(q, dep, sigs, now) == TrustReasons(p, dep, sigs, now);
  }

  /** Every finding the suggestion does not answer survives, exactly as often as before. */
  lemma MergeKeepsOthers(
    p: Policy, results: seq<DepResult>, now: Instant, ctx: EvalContext, dep: ResolvedDependency, sigs: SignalSet)
    requires Faithful(p, results, now, ctx) && Readable(Suggest(results))
    ensures multiset(Filter(ReasonsOf(Evaluate(MergedPolicy(p, Suggest(results)), dep, sigs, now, ctx)), Other))
      == multiset(Filter(ReasonsOf(Evaluate(p, dep, sigs, now, ctx)), Other))
  {
    if !dep.source.Workspace? {
      var q := MergedPolicy(p, Suggest(results));
      var before, after := Reasons(p, dep, sigs, now, ctx), Reasons(q, dep, sigs, now, ctx);
      OthersOf(p, before);
      OthersOf(q, after);
      forall r ensures Kept(q)(r) == Kept(p)(r) {
        MergedSeverityBounds(p, results, now, ctx, r);
      }
      FilterSame(after, Kept(q), Kept(p));
      RaisedSurvive(p, results, now, ctx, dep, sigs, Kept(p));
    }
  }

  // A second run

  function Reevaluate(q: Policy, results: seq<DepResult>, now: Instant, ctx: EvalContext): (r: seq<DepResult>)
    ensures |r| == |results|
    ensures forall i :: 0 <= i < |r| ==>
      r[i] == results[i].(decision := Evaluate(q, results[i].dep, results[i].signals, now, ctx))
  {
    seq(|results|, i requires 0 <= i < |results| =>
      results[i].(decision := Evaluate(q, results[i].dep, results[i].signals, now, ctx)))
  }

  /** Doctor's allowlist suggestions reach their goal in one step: a second run suggests none. */
  lemma SecondRunSuggestsNothing(p: Policy, results: seq<DepResult>, now: Instant, ctx: EvalContext)
    requires Faithful(p, results, now, ctx) && Readable(Suggest(results))
    ensures var again := Suggest(Reevaluate(MergedPolicy(p, Suggest(results)), results, now, ctx));
      again.lifecycleScripts == [] && again.nameSquats == []
  {
    var q := MergedPolicy(p, Suggest(results));
    var after := Reevaluate(q, results, now, ctx);
    forall n, r | Blames(after, n, r) ensures !Answered(r) {
      BlamedAfterMerge(p, results, now, ctx, n, r);
    }
    NothingBlamed(after);
  }

  lemma BlamedAfterMerge(p: Policy, results: seq<DepResult>, now: Instant, ctx: EvalContext, n: string, r: Reason)
    requires Faithful(p, results, now, ctx) && Readable(Suggest(results))
    requires Blames(Reevaluate(MergedPolicy(p, Suggest(results)), results, now, ctx), n, r)
    ensures !Answered(r)
  {
    var i := BlamedResult(MergedPolicy(p, Suggest(results)), results, now, ctx, n, r);
    StillBlocked(p, results, now, ctx, results[i], r);
  }

  /** A package blocked after the merge was blocked before it, and for something else. */
  lemma StillBlocked(p: Policy, results: seq<DepResult>, now: Instant, ctx: EvalContext, x: DepResult, r: Reason)
    requires Faithful(p, results, now, ctx) && Readable(Suggest(results)) && x in results
    requires var after := Evaluate(MergedPolicy(p, Suggest(results)), x.dep, x.signals, now, ctx);
      after.Block? && r in ReasonsOf(after)
    ensures x.decision.Block? && !Answered(r)
  {
    MergeNeverTightens(p, results, now, ctx, x.dep, x.signals);
    MergeAnswers(p, results, now, ctx, x, r);
  }

  lemma BlamedResult(q: Policy, results: seq<DepResult>, now: Instant, ctx: EvalContext, n: string, r: Reason)
    returns (i: nat)
    requires Blames(Reevaluate(q, results, now, ctx), n, r)
    ensures i < |results|
    ensures var after := Evaluate(q, results[i].dep, results[i].signals, now, ctx); after.Block? && r in ReasonsOf(after)
  {
    var after := Reevaluate(q, results, now, ctx);
    var y :| y in after && y.dep.name == n && y.decision.Block? && r in y.decision.reasons;
    i :| 0 <= i < |after| && after[i] == y;
  }

  lemma NothingBlamed(results: seq<DepResult>)
    requires forall n, r :: Blames(results, n, r) ==> !Answered(r)
    ensures Suggest(results).lifecycleScripts == [] && Suggest(results).nameSquats == []
  {
    var s := Suggest(results);
    ScriptListExact(results);
    SquatListExact(results);
    forall n ensures n !in Names(s.lifecycleScripts) && n !in Names(s.nameSquats) {
      assert forall script :: !BlamedScript(results, n, script);
      assert forall style, target :: !BlamedSquat(results, n, style, target);
    }
    NoNames(s.lifecycleScripts);
    NoNames(s.nameSquats);
  }

  lemma NoNames<T>(l: seq<(string, T)>)
    requires forall n :: n !in Names(l)
    ensures l == []
  {
    if l != [] {
      MemberOfNames(l, l[0].0);
      assert false;
    }
  }
}
