/** What the engine promises about whole evaluations, and about pairs of evaluations. */
module PolicyProperties {
  import opened Wrappers
  import opened Sequences
  import opened Dependency
  import opened Signal
  import opened Decision
  import opened Policy
  import TrustScore

  // Which reasons fire

  /** The published condition under which each kind of reason is raised, independent of detector order. */
  ghost predicate Fires(p: Policy, dep: ResolvedDependency, sigs: SignalSet, now: Instant, ctx: EvalContext, r: Reason) {
    match r
    case ExoticSource(kind) =>
      p.defaults.blockExoticSubdeps && IsExotic(dep.source) && kind == SourceKind(dep.source)
    case ReleaseAgeBelowThreshold(observed, required) =>
      && required == RequiredReleaseAge(p, dep.direct) > 0
      && First(sigs, IsPublishedAt).Some?
      && var minutes := ObservedMinutes(First(sigs, IsPublishedAt).value.at, now);
         minutes < required && observed == if minutes < 0 then 0 else minutes
    case PublishedAtUnknown =>
      RequiredReleaseAge(p, dep.direct) > 0 && forall s :: s in sigs ==> !s.PublishedAt?
    case DisallowedLifecycleScript(script) =>
      !ctx.ignoreScripts && RunsScript(p, dep, sigs, script)
    case LifecycleScriptIgnored(script) =>
      ctx.ignoreScripts && RunsScript(p, dep, sigs, script)
    case PublisherChanged(version, previous, current) =>
      DetectPublisherChange(p, dep.direct) && First(sigs, IsPublisherChange) == Some(PublisherChange(version, previous, current))
    case Deprecated(message) =>
      FlagDeprecated(p, dep.direct) && First(sigs, IsDeprecatedVersion) == Some(DeprecatedVersion(message))
    case SuspiciousScriptFound(script, pattern, excerpt) =>
      SuspiciousScript(script, pattern, excerpt) in sigs
    case SurfaceChanged(version, bins, scripts) =>
      && DetectSurfaceChange(p, dep.direct) && (bins != [] || scripts != [])
      && First(sigs, IsVersionSurfaceChange) == Some(VersionSurfaceChange(version, bins, scripts))
    case DistTagMoved(latest, highest) =>
      dep.version != latest && First(sigs, IsDistTagAnomaly) == Some(DistTagAnomaly(latest, highest))
    case NameSquatted(style, target) =>
      !SquatAllowed(p, dep) && First(sigs, IsNameSquat) == Some(NameSquat(style, target))
    case NewAccount(account, age, threshold) =>
      && age < threshold == MinAccountAge(p, dep.direct)
      && First(sigs, IsMaintainerNewAccount) == Some(MaintainerNewAccount(account, age))
    case ProvenanceMissing =>
      RequireProvenance(p, dep.direct) && forall s :: s in sigs ==> !s.ProvenanceClaimed?
    case Advisory(id, severity, source) =>
      ReachesFloor(severity, AdvisoryFloor(p, dep.direct)) && AdvisoryReported(sigs, id, severity, source)
    case LicenseMissing(source) =>
      && RequireLicense(p, dep.direct)
      && First(sigs, IsProjectMetadata).Some?
      && var m := First(sigs, IsProjectMetadata).value; m.licenses == [] && m.source == source
    case LicenseDisallowed(licenses, source) =>
      && LicenseAllowlist(p, dep.direct) != [] && licenses != []
      && First(sigs, IsProjectMetadata).Some?
      && var m := First(sigs, IsProjectMetadata).value;
         m.source == source && licenses == DisallowedLicenses(LicenseAllowlist(p, dep.direct), m.licenses)
    case ProjectArchived(source) =>
      && BlockArchived(p, dep.direct)
      && First(sigs, IsProjectMetadata).Some?
      && var m := First(sigs, IsProjectMetadata).value; m.archived == Some(true) && m.source == source
    case ScorecardBelowThreshold(score, threshold, repo, source) =>
      && score < threshold == MinScorecard(p, dep.direct)
      && First(sigs, IsScorecardScore) == Some(ScorecardScore(score, repo, source))
    case TrustScoreBelowThreshold(score, threshold) =>
      score == TrustScore.Score(sigs, now) < threshold == MinTrustScore(p, dep.direct)
    case SignalUnavailable(provider, reason) =>
      Unavailable(provider, reason) in sigs
  }

  ghost predicate RunsScript(p: Policy, dep: ResolvedDependency, sigs: SignalSet, script: string) {
    && !ScriptAllowed(p, dep)
    && First(sigs, IsLifecycleScripts).Some?
    && script in First(sigs, IsLifecycleScripts).value.scripts
  }

  ghost predicate AdvisoryReported(sigs: SignalSet, id: string, severity: string, source: string) {
    exists summary :: AdvisoryKnown(id, severity, summary, source) in sigs
  }

  /** The engine raises exactly the reasons whose published condition holds. */
  lemma ReasonsExact(p: Policy, dep: ResolvedDependency, sigs: SignalSet, now: Instant, ctx: EvalContext, r: Reason)
    ensures r in Reasons(p, dep, sigs, now, ctx) <==> Fires(p, dep, sigs, now, ctx, r)
  {
    MemberOfFive(r, OriginReasons(p, dep, sigs, now), LifecycleReasons(p, dep, sigs, ctx), ChangeReasons(p, dep, sigs),
      SquatReasons(p, dep, sigs), StandingReasons(p, dep, sigs, now));
    OriginExact(p, dep, sigs, now, ctx, r);
    LifecycleMembers(p, dep, sigs, ctx, r);
    ChangeExact(p, dep, sigs, now, ctx, r);
    assert r in SquatReasons(p, dep, sigs) <==> r.NameSquatted? && Fires(p, dep, sigs, now, ctx, r);
    StandingExact(p, dep, sigs, now, ctx, r);
  }

  lemma OriginExact(p: Policy, dep: ResolvedDependency, sigs: SignalSet, now: Instant, ctx: EvalContext, r: Reason)
    ensures r in OriginReasons(p, dep, sigs, now) <==>
      (r.ExoticSource? || r.ReleaseAgeBelowThreshold? || r.PublishedAtUnknown?) && Fires(p, dep, sigs, now, ctx, r)
  {
  }

  lemma ChangeExact(p: Policy, dep: ResolvedDependency, sigs: SignalSet, now: Instant, ctx: EvalContext, r: Reason)
    ensures r in ChangeReasons(p, dep, sigs) <==>
      && (r.PublisherChanged? || r.Deprecated? || r.SuspiciousScriptFound? || r.SurfaceChanged? || r.DistTagMoved?)
      && Fires(p, dep, sigs, now, ctx, r)
  {
    FilterMapMembers(sigs, SuspiciousReason, r);
    AnomalyExact(p, dep, sigs, now, ctx, r);
  }

  lemma AnomalyExact(p: Policy, dep: ResolvedDependency, sigs: SignalSet, now: Instant, ctx: EvalContext, r: Reason)
    ensures r in PublisherReasons(p, dep, sigs) <==> r.PublisherChanged? && Fires(p, dep, sigs, now, ctx, r)
    ensures r in DeprecationReasons(p, dep, sigs) <==> r.Deprecated? && Fires(p, dep, sigs, now, ctx, r)
    ensures r in SurfaceReasons(p, dep, sigs) <==> r.SurfaceChanged? && Fires(p, dep, sigs, now, ctx, r)
    ensures r in DistTagReasons(dep, sigs) <==> r.DistTagMoved? && Fires(p, dep, sigs, now, ctx, r)
  {
  }

  lemma StandingExact(p: Policy, dep: ResolvedDependency, sigs: SignalSet, now: Instant, ctx: EvalContext, r: Reason)
    ensures r in StandingReasons(p, dep, sigs, now) <==>
      && (r.NewAccount? || r.ProvenanceMissing? || r.Advisory? || r.LicenseMissing? || r.LicenseDisallowed?
          || r.ProjectArchived? || r.ScorecardBelowThreshold? || r.TrustScoreBelowThreshold? || r.SignalUnavailable?)
      && Fires(p, dep, sigs, now, ctx, r)
  {
    MemberOfEight(r, AccountReasons(p, dep, sigs), ProvenanceReasons(p, dep, sigs),
      AdvisoryReasons(sigs, AdvisoryFloor(p, dep.direct)), LicenseReasons(p, dep, sigs), ArchivedReasons(p, dep, sigs),
      ScorecardReasons(p, dep, sigs), TrustReasons(p, dep, sigs, now), FilterMap(sigs, UnavailableReason));
    FilterMapMembers(sigs, UnavailableReason, r);
    AdvisoryMembers(sigs, AdvisoryFloor(p, dep.direct), r);
    LicenseExact(p, dep, sigs, now, ctx, r);
    GateExact(p, dep, sigs, now, ctx, r);
  }

  lemma GateExact(p: Policy, dep: ResolvedDependency, sigs: SignalSet, now: Instant, ctx: EvalContext, r: Reason)
    ensures r in AccountReasons(p, dep, sigs) <==> r.NewAccount? && Fires(p, dep, sigs, now, ctx, r)
    ensures r in ProvenanceReasons(p, dep, sigs) <==> r.ProvenanceMissing? && Fires(p, dep, sigs, now, ctx, r)
    ensures r in ScorecardReasons(p, dep, sigs) <==> r.ScorecardBelowThreshold? && Fires(p, dep, sigs, now, ctx, r)
    ensures r in TrustReasons(p, dep, sigs, now) <==> r.TrustScoreBelowThreshold? && Fires(p, dep, sigs, now, ctx, r)
  {
  }

  lemma LicenseExact(p: Policy, dep: ResolvedDependency, sigs: SignalSet, now: Instant, ctx: EvalContext, r: Reason)
    ensures r in LicenseReasons(p, dep, sigs) <==>
      (r.LicenseMissing? || r.LicenseDisallowed?) && Fires(p, dep, sigs, now, ctx, r)
    ensures r in ArchivedReasons(p, dep, sigs) <==> r.ProjectArchived? && Fires(p, dep, sigs, now, ctx, r)
  {
    assert DisallowedLicenses(LicenseAllowlist(p, dep.direct), []) == [];
  }

  lemma LifecycleMembers(p: Policy, dep: ResolvedDependency, sigs: SignalSet, ctx: EvalContext, r: Reason)
    ensures r in LifecycleReasons(p, dep, sigs, ctx) <==>
      || (r.DisallowedLifecycleScript? && !ctx.ignoreScripts && RunsScript(p, dep, sigs, r.script))
      || (r.LifecycleScriptIgnored? && ctx.ignoreScripts && RunsScript(p, dep, sigs, r.script))
  {
    if First(sigs, IsLifecycleScripts).Some? && !ScriptAllowed(p, dep) {
      var scripts := First(sigs, IsLifecycleScripts).value.scripts;
      var rs := LifecycleReasons(p, dep, sigs, ctx);
      assert |rs| == |scripts| && forall i :: 0 <= i < |rs| ==> rs[i] == ScriptReason(ctx, scripts[i]);
      if (r.DisallowedLifecycleScript? || r.LifecycleScriptIgnored?) && r.script in scripts {
        var i :| 0 <= i < |scripts| && scripts[i] == r.script;
        assert rs[i] == ScriptReason(ctx, r.script);
      }
    }
  }

  lemma AdvisoryMembers(sigs: SignalSet, floor: AdvisorySeverity, r: Reason)
    ensures r in AdvisoryReasons(sigs, floor) <==>
      r.Advisory? && ReachesFloor(r.severity, floor) && AdvisoryReported(sigs, r.id, r.severity, r.source)
  {
    var f := s => AdvisoryReason(s, floor);
    FilterMapMembers(sigs, f, r);
    if r.Advisory? && ReachesFloor(r.severity, floor) && AdvisoryReported(sigs, r.id, r.severity, r.source) {
      var summary :| AdvisoryKnown(r.id, r.severity, summary, r.source) in sigs;
      var i :| 0 <= i < |sigs| && sigs[i] == AdvisoryKnown(r.id, r.severity, summary, r.source);
      assert f(sigs[i]) == Some(r);
    }
    if r in AdvisoryReasons(sigs, floor) {
      var i :| 0 <= i < |sigs| && f(sigs[i]) == Some(r);
      assert sigs[i] == AdvisoryKnown(r.id, r.severity, sigs[i].summary, r.source);
    }
  }

  // Decisions as maxima

  /** Some raised reason has at least this severity. */
  ghost predicate Reaches(rs: seq<Reason>, severityOf: Reason -> Severity, k: nat) {
    exists r :: r in rs && SeverityRank(severityOf(r)) >= k
  }

  lemma {:induction false} SelectMembers(rs: seq<Reason>, severityOf: Reason -> Severity, severity: Severity, r: Reason)
    ensures r in Select(rs, severityOf, severity) <==> r in rs && severityOf(r) == severity
  {
    if rs != [] {
      SelectMembers(rs[1..], severityOf, severity, r);
      assert rs == [rs[0]] + rs[1..];
    }
  }

  /** A decision is exactly as severe as its most severe raised reason. */
  lemma RankIsMaximum(rs: seq<Reason>, severityOf: Reason -> Severity, k: nat)
    requires 1 <= k <= 2
    ensures Rank(ConcludeBy(rs, severityOf)) >= k <==> Reaches(rs, severityOf, k)
  {
    var blocks, warns := Select(rs, severityOf, BlockSeverity), Select(rs, severityOf, WarnSeverity);
    forall r ensures r in blocks <==> r in rs && severityOf(r) == BlockSeverity {
      SelectMembers(rs, severityOf, BlockSeverity, r);
    }
    forall r ensures r in warns <==> r in rs && severityOf(r) == WarnSeverity {
      SelectMembers(rs, severityOf, WarnSeverity, r);
    }
    if blocks != [] {
      assert blocks[0] in blocks;
    } else if warns != [] {
      assert warns[0] in warns;
    }
  }

  /** Every reason of one run is answered by an at least as severe reason of another. */
  ghost predicate Covers(
    rs: seq<Reason>, severityOf: Reason -> Severity, rs': seq<Reason>, severityOf': Reason -> Severity)
  {
    forall r :: r in rs ==> exists r' :: r' in rs' && SeverityRank(severityOf'(r')) >= SeverityRank(severityOf(r))
  }

  lemma CoverageRaisesRank(
    rs: seq<Reason>, severityOf: Reason -> Severity, rs': seq<Reason>, severityOf': Reason -> Severity)
    requires Covers(rs, severityOf, rs', severityOf')
    ensures Rank(ConcludeBy(rs, severityOf)) <= Rank(ConcludeBy(rs', severityOf'))
  {
    var k := Rank(ConcludeBy(rs, severityOf));
    if k >= 1 {
      RankIsMaximum(rs, severityOf, k);
      var r :| r in rs && SeverityRank(severityOf(r)) >= k;
      var r' :| r' in rs' && SeverityRank(severityOf'(r')) >= SeverityRank(severityOf(r));
      RankIsMaximum(rs', severityOf', k);
    }
  }

  /** Same kind of reason: same code and same default severity. */
  ghost predicate SameKind(r: Reason, r': Reason) {
    && Code(r) == Code(r')
    && r.LifecycleScriptIgnored? == r'.LifecycleScriptIgnored?
    && r.DistTagMoved? == r'.DistTagMoved?
    && r.SignalUnavailable? == r'.SignalUnavailable?
  }

  /** When each reason of the first run has a counterpart of its kind in the second, severity cannot drop. */
  lemma CounterpartsRaiseRank(
    p: Policy, q: Policy, dep: ResolvedDependency,
    sigs: SignalSet, sigs': SignalSet, now: Instant, now': Instant, ctx: EvalContext,
    counterpart: Reason -> Reason)
    requires forall r :: SeverityRank(SeverityFor(p, r)) <= SeverityRank(SeverityFor(q, r))
    requires forall r :: Fires(p, dep, sigs, now, ctx, r) ==>
      Fires(q, dep, sigs', now', ctx, counterpart(r)) && SameKind(r, counterpart(r))
    ensures Rank(Evaluate(p, dep, sigs, now, ctx)) <= Rank(Evaluate(q, dep, sigs', now', ctx))
  {
    var rs, rs' := Reasons(p, dep, sigs, now, ctx), Reasons(q, dep, sigs', now', ctx);
    forall r | r in rs
      ensures exists r' :: r' in rs' && SeverityRank(SeverityMap(q)(r')) >= SeverityRank(SeverityMap(p)(r))
    {
      ReasonsExact(p, dep, sigs, now, ctx, r);
      ReasonsExact(q, dep, sigs', now', ctx, counterpart(r));
      SameKindSameSeverity(q, r, counterpart(r));
    }
    CoverageRaisesRank(rs, SeverityMap(p), rs', SeverityMap(q));
  }

  lemma SameKindSameSeverity(p: Policy, r: Reason, r': Reason)
    requires SameKind(r, r')
    ensures SeverityFor(p, r) == SeverityFor(p, r')
  {
  }

  // Tightening a policy

  /** `q` is at least as strict as `p` on every knob, as resolved for a direct or a transitive dependency. */
  ghost predicate StricterFor(q: Policy, p: Policy, direct: bool) {
    && RequiredReleaseAge(q, direct) >= RequiredReleaseAge(p, direct)
    && (p.defaults.blockExoticSubdeps ==> q.defaults.blockExoticSubdeps)
    && (DetectPublisherChange(p, direct) ==> DetectPublisherChange(q, direct))
    && (FlagDeprecated(p, direct) ==> FlagDeprecated(q, direct))
    && (DetectSurfaceChange(p, direct) ==> DetectSurfaceChange(q, direct))
    && MinAccountAge(q, direct) >= MinAccountAge(p, direct)
    && (RequireProvenance(p, direct) ==> RequireProvenance(q, direct))
    && MinTrustScore(q, direct) >= MinTrustScore(p, direct)
    && StricterFloor(AdvisoryFloor(q, direct), AdvisoryFloor(p, direct))
    && (RequireLicense(p, direct) ==> RequireLicense(q, direct))
    && StricterLicenses(LicenseAllowlist(q, direct), LicenseAllowlist(p, direct))
    && (BlockArchived(p, direct) ==> BlockArchived(q, direct))
    && MinScorecard(q, direct) >= MinScorecard(p, direct)
    && (p.scripts.policy.AllowByDefault? || (q.scripts.policy.DenyByDefault? && Fewer(q.scripts.allow, p.scripts.allow)))
    && Fewer(q.defaults.nameSquatAllow, p.defaults.nameSquatAllow)
    && forall r :: SeverityRank(SeverityFor(p, r)) <= SeverityRank(SeverityFor(q, r))
  }

  /** No floor is weakest; otherwise the lower floor catches more. */
  ghost predicate StricterFloor(q: AdvisorySeverity, p: AdvisorySeverity) {
    p == NoFloor || (q != NoFloor && AdvisoryRank(q) <= AdvisoryRank(p))
  }

  /** An empty list admits every license; otherwise fewer entries admit fewer. */
  ghost predicate StricterLicenses(q: seq<string>, p: seq<string>) {
    p == [] || (q != [] && forall a :: a in q ==> LicenseListed(p, a))
  }

  ghost predicate Fewer(q: seq<EcosystemMatcher>, p: seq<EcosystemMatcher>) {
    forall m :: m in q ==> m in p
  }

  /** Tightening never relaxes: no dependency is judged more leniently under a stricter policy. */
  lemma TighteningNeverRelaxes(
    p: Policy, q: Policy, dep: ResolvedDependency, sigs: SignalSet, now: Instant, ctx: EvalContext)
    requires StricterFor(q, p, dep.direct)
    ensures Rank(Evaluate(p, dep, sigs, now, ctx)) <= Rank(Evaluate(q, dep, sigs, now, ctx))
  {
    forall r | Fires(p, dep, sigs, now, ctx, r)
      ensures Fires(q, dep, sigs, now, ctx, Tightened(q, dep, sigs, r)) && SameKind(r, Tightened(q, dep, sigs, r))
    {
      TightenedFires(p, q, dep, sigs, now, ctx, r);
    }
    CounterpartsRaiseRank(p, q, dep, sigs, sigs, now, now, ctx, r => Tightened(q, dep, sigs, r));
  }

  /** The reason of the same kind that the stricter policy raises, with its own thresholds in it. */
  function Tightened(q: Policy, dep: ResolvedDependency, sigs: SignalSet, r: Reason): Reason {
    match r
    case ReleaseAgeBelowThreshold(observed, _) => ReleaseAgeBelowThreshold(observed, RequiredReleaseAge(q, dep.direct))
    case NewAccount(account, age, _) => NewAccount(account, age, MinAccountAge(q, dep.direct))
    case LicenseDisallowed(_, source) =>
      var m := First(sigs, IsProjectMetadata);
      LicenseDisallowed(if m.Some? then DisallowedLicenses(LicenseAllowlist(q, dep.direct), m.value.licenses) else [], source)
    case ScorecardBelowThreshold(score, _, repo, source) =>
      ScorecardBelowThreshold(score, MinScorecard(q, dep.direct), repo, source)
    case TrustScoreBelowThreshold(score, _) => TrustScoreBelowThreshold(score, MinTrustScore(q, dep.direct))
    case _ => r
  }

  lemma TightenedFires(
    p: Policy, q: Policy, dep: ResolvedDependency, sigs: SignalSet, now: Instant, ctx: EvalContext, r: Reason)
    requires StricterFor(q, p, dep.direct) && Fires(p, dep, sigs, now, ctx, r)
    ensures Fires(q, dep, sigs, now, ctx, Tightened(q, dep, sigs, r)) && SameKind(r, Tightened(q, dep, sigs, r))
  {
    if Measured(r) {
      TightenedThreshold(p, q, dep, sigs, now, ctx, r);
    } else if r.LicenseDisallowed? {
      TightenedLicense(p, q, dep, sigs, now, ctx, r);
    } else {
      TightenedToggle(p, q, dep, sigs, now, ctx, r);
    }
  }

  /** Raised by comparing a number with a threshold. */
  predicate Measured(r: Reason) {
    r.ReleaseAgeBelowThreshold? || r.NewAccount? || r.ScorecardBelowThreshold? || r.TrustScoreBelowThreshold?
  }

  lemma TightenedThreshold(
    p: Policy, q: Policy, dep: ResolvedDependency, sigs: SignalSet, now: Instant, ctx: EvalContext, r: Reason)
    requires StricterFor(q, p, dep.direct) && Fires(p, dep, sigs, now, ctx, r) && Measured(r)
    ensures Fires(q, dep, sigs, now, ctx, Tightened(q, dep, sigs, r)) && SameKind(r, Tightened(q, dep, sigs, r))
  {
  }

  lemma TightenedLicense(
    p: Policy, q: Policy, dep: ResolvedDependency, sigs: SignalSet, now: Instant, ctx: EvalContext, r: Reason)
    requires StricterFor(q, p, dep.direct) && Fires(p, dep, sigs, now, ctx, r) && r.LicenseDisallowed?
    ensures Fires(q, dep, sigs, now, ctx, Tightened(q, dep, sigs, r)) && SameKind(r, Tightened(q, dep, sigs, r))
  {
    var m := First(sigs, IsProjectMetadata).value;
    TighterLicenses(LicenseAllowlist(p, dep.direct), LicenseAllowlist(q, dep.direct), m.licenses);
  }

  lemma TightenedToggle(
    p: Policy, q: Policy, dep: ResolvedDependency, sigs: SignalSet, now: Instant, ctx: EvalContext, r: Reason)
    requires StricterFor(q, p, dep.direct) && Fires(p, dep, sigs, now, ctx, r) && !Measured(r) && !r.LicenseDisallowed?
    ensures Fires(q, dep, sigs, now, ctx, r)
  {
  }

  lemma TighterLicenses(p: seq<string>, q: seq<string>, licenses: seq<string>)
    requires StricterLicenses(q, p) && p != [] && DisallowedLicenses(p, licenses) != []
    ensures DisallowedLicenses(q, licenses) != []
  {
    var l := DisallowedLicenses(p, licenses)[0];
    assert l in DisallowedLicenses(p, licenses);
    FilterMembers(licenses, l => !LicenseListed(p, l), l);
    assert !LicenseListed(q, l);
    FilterMembers(licenses, l => !LicenseListed(q, l), l);
  }

  // The passage of time

  /** Aging only relaxes: no dependency is judged more severely later, when its signals age well. */
  lemma AgingNeverTightens(
    p: Policy, dep: ResolvedDependency, sigs: SignalSet, now: Instant, later: Instant, ctx: EvalContext)
    requires now <= later && TrustScore.AgesWell(sigs, now)
    ensures Rank(Evaluate(p, dep, sigs, later, ctx)) <= Rank(Evaluate(p, dep, sigs, now, ctx))
  {
    TrustScore.AgingScore(sigs, now, later);
    forall r | Fires(p, dep, sigs, later, ctx, r)
      ensures Fires(p, dep, sigs, now, ctx, Younger(sigs, now, r)) && SameKind(r, Younger(sigs, now, r))
    {
      YoungerFires(p, dep, sigs, now, later, ctx, r);
    }
    CounterpartsRaiseRank(p, p, dep, sigs, sigs, later, now, ctx, r => Younger(sigs, now, r));
  }

  /** The same finding as it read at the earlier clock. */
  function Younger(sigs: SignalSet, now: Instant, r: Reason): Reason {
    match r
    case ReleaseAgeBelowThreshold(_, required) =>
      var at := First(sigs, IsPublishedAt);
      var minutes := if at.Some? then ObservedMinutes(at.value.at, now) else 0;
      ReleaseAgeBelowThreshold(if minutes < 0 then 0 else minutes, required)
    case TrustScoreBelowThreshold(_, threshold) => TrustScoreBelowThreshold(TrustScore.Score(sigs, now), threshold)
    case _ => r
  }

  lemma YoungerFires(
    p: Policy, dep: ResolvedDependency, sigs: SignalSet, now: Instant, later: Instant, ctx: EvalContext, r: Reason)
    requires now <= later && TrustScore.Score(sigs, now) <= TrustScore.Score(sigs, later)
    requires Fires(p, dep, sigs, later, ctx, r)
    ensures Fires(p, dep, sigs, now, ctx, Younger(sigs, now, r)) && SameKind(r, Younger(sigs, now, r))
  {
    match r
    case ReleaseAgeBelowThreshold(_, _) =>
      var at := First(sigs, IsPublishedAt).value.at;
      TruncDivMonotone(now - at, later - at, NANOS_PER_MINUTE);
    case _ =>
  }

  // A policy with one gate armed, to show that a condition cannot be weakened

  /** Everything off except the release-age, provenance and trust gates; always-on findings suppressed. */
  function Quiet(minutes: int, provenance: bool, trust: U8): Policy {
    Policy(
      Defaults(Some(minutes), false, false, false, false, 0, provenance, trust, NoFloor, false, [], [], false, 0),
      DirectOverrides(None, None, None, None, None, None, None, None, None, None, None, None),
      Scripts(AllowByDefault, []),
      Suppressed())
  }

  const ALWAYS_ON: set<string> := {"suspicious-script", "dist-tag-anomaly", "name-squat", "signal-unavailable"}

  function Suppressed(): map<string, Severity> {
    map code | code in ALWAYS_ON :: AllowSeverity
  }

  ghost predicate Gated(r: Reason) {
    r.ReleaseAgeBelowThreshold? || r.PublishedAtUnknown? || r.ProvenanceMissing? || r.TrustScoreBelowThreshold?
  }

  ghost predicate AlwaysOn(r: Reason) {
    r.SuspiciousScriptFound? || r.DistTagMoved? || r.NameSquatted? || r.SignalUnavailable?
  }

  lemma GatedNotSuppressed(r: Reason)
    requires Gated(r)
    ensures Code(r) !in Suppressed()
  {
    assert "signal-unavailable"[0] == 's';
  }

  lemma QuietSeverities(p: Policy, r: Reason)
    requires p.severity == Suppressed()
    ensures Gated(r) ==> SeverityFor(p, r) == BlockSeverity
    ensures AlwaysOn(r) ==> SeverityFor(p, r) == AllowSeverity
  {
    if Gated(r) {
      GatedNotSuppressed(r);
    }
  }

  lemma QuietFires(
    minutes: int, provenance: bool, trust: U8,
    dep: ResolvedDependency, sigs: SignalSet, now: Instant, ctx: EvalContext, r: Reason)
    requires Fires(Quiet(minutes, provenance, trust), dep, sigs, now, ctx, r)
    ensures Gated(r) || AlwaysOn(r)
  {
  }

  /** Under a quiet policy a dependency is blocked when an armed gate fires, and allowed otherwise. */
  lemma QuietDecision(
    minutes: int, provenance: bool, trust: U8,
    dep: ResolvedDependency, sigs: SignalSet, now: Instant, ctx: EvalContext)
    requires !dep.source.Workspace?
    ensures var p := Quiet(minutes, provenance, trust);
      Rank(Evaluate(p, dep, sigs, now, ctx)) ==
        if exists r :: Gated(r) && Fires(p, dep, sigs, now, ctx, r) then 2 else 0
  {
    var p := Quiet(minutes, provenance, trust);
    var rs, of := Reasons(p, dep, sigs, now, ctx), SeverityMap(p);
    RankIsMaximum(rs, of, 1);
    RankIsMaximum(rs, of, 2);
    if r :| Gated(r) && Fires(p, dep, sigs, now, ctx, r) {
      ReasonsExact(p, dep, sigs, now, ctx, r);
      QuietSeverities(p, r);
      assert SeverityRank(of(r)) == 2;
    } else {
      forall r | r in rs ensures SeverityRank(of(r)) == 0 {
        ReasonsExact(p, dep, sigs, now, ctx, r);
        QuietFires(minutes, provenance, trust, dep, sigs, now, ctx, r);
        QuietSeverities(p, r);
      }
    }
  }

  ghost predicate NeverTightens(dep: ResolvedDependency, sigs: SignalSet, now: Instant) {
    forall p, later, ctx :: later >= now ==>
      Rank(Evaluate(p, dep, sigs, later, ctx)) <= Rank(Evaluate(p, dep, sigs, now, ctx))
  }

  /**
   The exact reach of aging: time alone never makes any policy's judgement of these signals more
   severe precisely when they age well. One future-dated publication is enough to break it.
   */
  lemma AgingExact(dep: ResolvedDependency, sigs: SignalSet, now: Instant)
    requires !dep.source.Workspace?
    ensures NeverTightens(dep, sigs, now) <==> TrustScore.AgesWell(sigs, now)
  {
    if TrustScore.AgesWell(sigs, now) {
      forall p, later, ctx | later >= now
        ensures Rank(Evaluate(p, dep, sigs, later, ctx)) <= Rank(Evaluate(p, dep, sigs, now, ctx))
      {
        AgingNeverTightens(p, dep, sigs, now, later, ctx);
      }
    } else {
      var s := TrustScore.FallsAt(sigs, now);
      FallingScoreTightens(dep, sigs, now, s.at);
    }
  }

  lemma FallingScoreTightens(dep: ResolvedDependency, sigs: SignalSet, now: Instant, later: Instant)
    requires !dep.source.Workspace? && now <= later
    requires TrustScore.Score(sigs, later) < TrustScore.Score(sigs, now)
    ensures !NeverTightens(dep, sigs, now)
  {
    var trust, ctx := TrustScore.Score(sigs, now), EvalContext(false);
    forall r | Gated(r) ensures !Fires(Quiet(0, false, trust), dep, sigs, now, ctx, r) {
      TrustGateOnly(trust, dep, sigs, now, ctx, r);
    }
    QuietAllows(0, false, trust, dep, sigs, now, ctx);
    QuietBlocks(0, false, trust, dep, sigs, later, ctx, TrustScoreBelowThreshold(TrustScore.Score(sigs, later), trust));
    assert Rank(Evaluate(Quiet(0, false, trust), dep, sigs, later, ctx))
      > Rank(Evaluate(Quiet(0, false, trust), dep, sigs, now, ctx));
  }

  lemma QuietBlocks(
    minutes: int, provenance: bool, trust: U8,
    dep: ResolvedDependency, sigs: SignalSet, now: Instant, ctx: EvalContext, r: Reason)
    requires !dep.source.Workspace? && Gated(r) && Fires(Quiet(minutes, provenance, trust), dep, sigs, now, ctx, r)
    ensures Rank(Evaluate(Quiet(minutes, provenance, trust), dep, sigs, now, ctx)) == 2
  {
    QuietDecision(minutes, provenance, trust, dep, sigs, now, ctx);
  }

  lemma QuietAllows(
    minutes: int, provenance: bool, trust: U8, dep: ResolvedDependency, sigs: SignalSet, now: Instant, ctx: EvalContext)
    requires !dep.source.Workspace?
    requires forall r :: Gated(r) ==> !Fires(Quiet(minutes, provenance, trust), dep, sigs, now, ctx, r)
    ensures Rank(Evaluate(Quiet(minutes, provenance, trust), dep, sigs, now, ctx)) == 0
  {
    QuietDecision(minutes, provenance, trust, dep, sigs, now, ctx);
  }

  lemma TrustGateOnly(trust: U8, dep: ResolvedDependency, sigs: SignalSet, now: Instant, ctx: EvalContext, r: Reason)
    requires Gated(r) && trust <= TrustScore.Score(sigs, now)
    ensures !Fires(Quiet(0, false, trust), dep, sigs, now, ctx, r)
  {
  }

  // More evidence

  /** Neither positive evidence nor an answer to a question the policy holds against the dependency. */
  predicate Incriminating(s: Signal) {
    !s.PublishedAt? && !s.ProvenanceClaimed? && (s.ScorecardScore? ==> s.score <= 5)
  }

  lemma {:induction false} IncriminatingLowersScore(sigs: SignalSet, extra: SignalSet, now: Instant)
    requires forall s :: s in extra ==> Incriminating(s)
    ensures TrustScore.Score(sigs + extra, now) <= TrustScore.Score(sigs, now)
  {
    TrustScore.TotalAppend(sigs, extra, now);
    IncriminatingTotal(extra, now);
  }

  lemma {:induction false} IncriminatingTotal(extra: SignalSet, now: Instant)
    requires forall s :: s in extra ==> Incriminating(s)
    ensures TrustScore.Total(extra, now) <= 0
  {
    if extra != [] {
      assert extra[0] in extra;
      assert forall s :: s in extra[1..] ==> s in extra;
      IncriminatingTotal(extra[1..], now);
    }
  }

  /** Appending incriminating evidence never relaxes a decision. */
  lemma EvidenceNeverRelaxes(
    p: Policy, dep: ResolvedDependency, sigs: SignalSet, extra: SignalSet, now: Instant, ctx: EvalContext)
    requires forall s :: s in extra ==> Incriminating(s)
    ensures Rank(Evaluate(p, dep, sigs, now, ctx)) <= Rank(Evaluate(p, dep, sigs + extra, now, ctx))
  {
    IncriminatingLowersScore(sigs, extra, now);
    forall r | Fires(p, dep, sigs, now, ctx, r)
      ensures Fires(p, dep, sigs + extra, now, ctx, Rescored(sigs + extra, now, r))
      ensures SameKind(r, Rescored(sigs + extra, now, r))
    {
      EvidenceFires(p, dep, sigs, extra, now, ctx, r);
    }
    CounterpartsRaiseRank(p, p, dep, sigs, sigs + extra, now, now, ctx, r => Rescored(sigs + extra, now, r));
  }

  function Rescored(sigs: SignalSet, now: Instant, r: Reason): Reason {
    if r.TrustScoreBelowThreshold? then TrustScoreBelowThreshold(TrustScore.Score(sigs, now), r.threshold) else r
  }

  /** Whatever a lookup finds in `sigs` it also finds in `more`. */
  ghost predicate KeepsFirst(sigs: SignalSet, more: SignalSet, kind: Signal -> bool) {
    First(sigs, kind).Some? ==> First(more, kind) == First(sigs, kind)
  }

  lemma AppendKeepsFirst(sigs: SignalSet, extra: SignalSet, kind: Signal -> bool)
    ensures KeepsFirst(sigs, sigs + extra, kind)
  {
    FirstAppend(sigs, extra, kind);
  }

  lemma EvidenceFires(
    p: Policy, dep: ResolvedDependency, sigs: SignalSet, extra: SignalSet, now: Instant, ctx: EvalContext, r: Reason)
    requires forall s :: s in extra ==> Incriminating(s)
    requires TrustScore.Score(sigs + extra, now) <= TrustScore.Score(sigs, now)
    requires Fires(p, dep, sigs, now, ctx, r)
    ensures Fires(p, dep, sigs + extra, now, ctx, Rescored(sigs + extra, now, r))
  {
    var more := sigs + extra;
    match r
    case Advisory(id, severity, source) =>
      var summary :| AdvisoryKnown(id, severity, summary, source) in sigs;
      assert AdvisoryKnown(id, severity, summary, source) in more;
    case ReleaseAgeBelowThreshold(_, _) => AppendKeepsFirst(sigs, extra, IsPublishedAt);
    case DisallowedLifecycleScript(script) =>
      AppendKeepsFirst(sigs, extra, IsLifecycleScripts);
      assert RunsScript(p, dep, more, script);
    case LifecycleScriptIgnored(script) =>
      AppendKeepsFirst(sigs, extra, IsLifecycleScripts);
      assert RunsScript(p, dep, more, script);
    case PublisherChanged(_, _, _) => AppendKeepsFirst(sigs, extra, IsPublisherChange);
    case Deprecated(_) => AppendKeepsFirst(sigs, extra, IsDeprecatedVersion);
    case SurfaceChanged(_, _, _) => AppendKeepsFirst(sigs, extra, IsVersionSurfaceChange);
    case DistTagMoved(_, _) => AppendKeepsFirst(sigs, extra, IsDistTagAnomaly);
    case NameSquatted(_, _) => AppendKeepsFirst(sigs, extra, IsNameSquat);
    case NewAccount(_, _, _) => AppendKeepsFirst(sigs, extra, IsMaintainerNewAccount);
    case LicenseMissing(_) => AppendKeepsFirst(sigs, extra, IsProjectMetadata);
    case LicenseDisallowed(_, _) => AppendKeepsFirst(sigs, extra, IsProjectMetadata);
    case ProjectArchived(_) => AppendKeepsFirst(sigs, extra, IsProjectMetadata);
    case ScorecardBelowThreshold(_, _, _, _) => AppendKeepsFirst(sigs, extra, IsScorecardScore);
    case _ =>
  }

  ghost predicate NeverRelaxes(s: Signal) {
    forall p, dep, sigs, now, ctx ::
      Rank(Evaluate(p, dep, sigs, now, ctx)) <= Rank(Evaluate(p, dep, sigs + [s], now, ctx))
  }

  /** The exact classification: a signal can never help a dependency precisely when it is incriminating. */
  lemma EvidenceExact(s: Signal)
    ensures NeverRelaxes(s) <==> Incriminating(s)
  {
    if Incriminating(s) {
      forall p, dep, sigs, now, ctx
        ensures Rank(Evaluate(p, dep, sigs, now, ctx)) <= Rank(Evaluate(p, dep, sigs + [s], now, ctx))
      {
        EvidenceNeverRelaxes(p, dep, sigs, [s], now, ctx);
      }
    } else {
      Exonerates(s);
    }
  }

  lemma Exonerates(s: Signal)
    requires !Incriminating(s)
    ensures !NeverRelaxes(s)
  {
    if s.PublishedAt? {
      Relaxes(s, 1, false, 0, [], s.at + NANOS_PER_MINUTE, PublishedAtUnknown);
    } else if s.ProvenanceClaimed? {
      Relaxes(s, 0, true, 0, [], 0, ProvenanceMissing);
    } else {
      ScorecardExonerates(s);
    }
  }

  lemma ScorecardExonerates(s: Signal)
    requires s.ScorecardScore? && s.score > 5
    ensures !NeverRelaxes(s)
  {
    var before := [DeprecatedVersion(None)];
    assert TrustScore.Total(before, 0) == -10;
    TrustScore.TotalAppend(before, [s], 0);
    assert TrustScore.Total([s], 0) >= 2;
    Relaxes(s, 0, false, 91, before, 0, TrustScoreBelowThreshold(90, 91));
  }

  /** A quiet policy that blocks for `blocked` and is satisfied once `s` is known. */
  lemma Relaxes(s: Signal, minutes: int, provenance: bool, trust: U8, before: SignalSet, now: Instant, blocked: Reason)
    requires forall b :: b in before ==> !b.PublishedAt?
    requires minutes > 0 ==> s.PublishedAt? && ObservedMinutes(s.at, now) >= minutes
    requires provenance ==> s.ProvenanceClaimed?
    requires TrustScore.Score(before + [s], now) >= trust
    requires Gated(blocked) && Fires(Quiet(minutes, provenance, trust), Sample(), before, now, EvalContext(false), blocked)
    ensures !NeverRelaxes(s)
  {
    var p, ctx := Quiet(minutes, provenance, trust), EvalContext(false);
    forall r | Gated(r) ensures !Fires(p, Sample(), before + [s], now, ctx, r) {
      GatesSatisfied(s, minutes, provenance, trust, before, now, ctx, r);
    }
    QuietAllows(minutes, provenance, trust, Sample(), before + [s], now, ctx);
    QuietBlocks(minutes, provenance, trust, Sample(), before, now, ctx, blocked);
    assert Rank(Evaluate(p, Sample(), before, now, ctx)) > Rank(Evaluate(p, Sample(), before + [s], now, ctx));
  }

  function Sample(): ResolvedDependency {
    ResolvedDependency(Npm, "x", "1", None, Registry(""), true, [])
  }

  lemma GatesSatisfied(
    s: Signal, minutes: int, provenance: bool, trust: U8, before: SignalSet, now: Instant, ctx: EvalContext, r: Reason)
    requires forall b :: b in before ==> !b.PublishedAt?
    requires minutes > 0 ==> s.PublishedAt? && ObservedMinutes(s.at, now) >= minutes
    requires provenance ==> s.ProvenanceClaimed?
    requires TrustScore.Score(before + [s], now) >= trust
    requires Gated(r)
    ensures !Fires(Quiet(minutes, provenance, trust), Sample(), before + [s], now, ctx, r)
  {
    FirstAppend(before, [s], IsPublishedAt);
    assert (before + [s])[|before|] == s;
  }
}
