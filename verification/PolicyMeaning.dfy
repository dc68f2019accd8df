/**
 What a policy means, said without the engine's own vocabulary: which settings a dependency is judged by,
 when each finding is raised, how severe it is, and in which order findings are listed.
 */
module PolicyMeaning {
  import opened Wrappers
  import opened Sequences
  import opened Ordering
  import opened Dependency
  import opened Signal
  import opened Decision
  import opened Policy
  import opened PolicyProperties
  import Text
  import TrustScore

  // The settings a dependency is judged by

  function Or<T>(override: Option<T>, default: T): T {
    match override
    case Some(v) => v
    case None => default
  }

  /** For a direct dependency every override that is given takes the place of its default. */
  function Settings(p: Policy, direct: bool): Defaults {
    if !direct then p.defaults
    else
      p.defaults.(
        minimumReleaseAge :=
          if p.direct.minimumReleaseAge.Some? then p.direct.minimumReleaseAge else p.defaults.minimumReleaseAge,
        detectPublisherChange := Or(p.direct.detectPublisherChange, p.defaults.detectPublisherChange),
        flagDeprecated := Or(p.direct.flagDeprecated, p.defaults.flagDeprecated),
        detectVersionSurfaceChange := Or(p.direct.detectVersionSurfaceChange, p.defaults.detectVersionSurfaceChange),
        minMaintainerAccountAgeDays := Or(p.direct.minMaintainerAccountAgeDays, p.defaults.minMaintainerAccountAgeDays),
        requireProvenance := Or(p.direct.requireProvenance, p.defaults.requireProvenance),
        minTrustScore := Or(p.direct.minTrustScore, p.defaults.minTrustScore),
        maxAdvisorySeverity := Or(p.direct.maxAdvisorySeverity, p.defaults.maxAdvisorySeverity),
        requireLicense := Or(p.direct.requireLicense, p.defaults.requireLicense),
        licenseAllowlist := Or(p.direct.licenseAllowlist, p.defaults.licenseAllowlist),
        blockArchived := Or(p.direct.blockArchived, p.defaults.blockArchived),
        minScorecardScore := Or(p.direct.minScorecardScore, p.defaults.minScorecardScore))
  }

  lemma SettingsResolved(p: Policy, direct: bool)
    ensures var s := Settings(p, direct);
      && RequiredReleaseAge(p, direct) == Or(s.minimumReleaseAge, 0)
      && DetectPublisherChange(p, direct) == s.detectPublisherChange
      && FlagDeprecated(p, direct) == s.flagDeprecated
      && DetectSurfaceChange(p, direct) == s.detectVersionSurfaceChange
      && MinAccountAge(p, direct) == s.minMaintainerAccountAgeDays
      && RequireProvenance(p, direct) == s.requireProvenance
      && MinTrustScore(p, direct) == s.minTrustScore
      && AdvisoryFloor(p, direct) == s.maxAdvisorySeverity
      && RequireLicense(p, direct) == s.requireLicense
      && LicenseAllowlist(p, direct) == s.licenseAllowlist
      && BlockArchived(p, direct) == s.blockArchived
      && MinScorecard(p, direct) == s.minScorecardScore
      && s.blockExoticSubdeps == p.defaults.blockExoticSubdeps && s.nameSquatAllow == p.defaults.nameSquatAllow
  {
  }

  /** Policies that agree on the settings for a dependency, the scripts and the severities judge it alike. */
  lemma SameSettings(p: Policy, q: Policy, dep: ResolvedDependency, sigs: SignalSet, now: Instant, ctx: EvalContext)
    requires Settings(p, dep.direct) == Settings(q, dep.direct) && p.scripts == q.scripts && p.severity == q.severity
    ensures Evaluate(p, dep, sigs, now, ctx) == Evaluate(q, dep, sigs, now, ctx)
  {
    SettingsResolved(p, dep.direct);
    SettingsResolved(q, dep.direct);
    SameOrigin(p, q, dep, sigs, now, ctx);
    SameChanges(p, q, dep, sigs);
    SameStanding(p, q, dep, sigs, now);
    SameConclusion(p, q, Reasons(p, dep, sigs, now, ctx));
  }

  lemma SameOrigin(p: Policy, q: Policy, dep: ResolvedDependency, sigs: SignalSet, now: Instant, ctx: EvalContext)
    requires RequiredReleaseAge(p, dep.direct) == RequiredReleaseAge(q, dep.direct)
    requires p.defaults.blockExoticSubdeps == q.defaults.blockExoticSubdeps
    requires p.defaults.nameSquatAllow == q.defaults.nameSquatAllow && p.scripts == q.scripts
    ensures OriginReasons(p, dep, sigs, now) == OriginReasons(q, dep, sigs, now)
    ensures LifecycleReasons(p, dep, sigs, ctx) == LifecycleReasons(q, dep, sigs, ctx)
    ensures SquatReasons(p, dep, sigs) == SquatReasons(q, dep, sigs)
  {
  }

  lemma SameChanges(p: Policy, q: Policy, dep: ResolvedDependency, sigs: SignalSet)
    requires DetectPublisherChange(p, dep.direct) == DetectPublisherChange(q, dep.direct)
    requires FlagDeprecated(p, dep.direct) == FlagDeprecated(q, dep.direct)
    requires DetectSurfaceChange(p, dep.direct) == DetectSurfaceChange(q, dep.direct)
    ensures ChangeReasons(p, dep, sigs) == ChangeReasons(q, dep, sigs)
  {
  }

  lemma SameStanding(p: Policy, q: Policy, dep: ResolvedDependency, sigs: SignalSet, now: Instant)
    requires MinAccountAge(p, dep.direct) == MinAccountAge(q, dep.direct)
    requires RequireProvenance(p, dep.direct) == RequireProvenance(q, dep.direct)
    requires AdvisoryFloor(p, dep.direct) == AdvisoryFloor(q, dep.direct)
    requires RequireLicense(p, dep.direct) == RequireLicense(q, dep.direct)
    requires LicenseAllowlist(p, dep.direct) == LicenseAllowlist(q, dep.direct)
    requires BlockArchived(p, dep.direct) == BlockArchived(q, dep.direct)
    requires MinScorecard(p, dep.direct) == MinScorecard(q, dep.direct)
    requires MinTrustScore(p, dep.direct) == MinTrustScore(q, dep.direct)
    ensures StandingReasons(p, dep, sigs, now) == StandingReasons(q, dep, sigs, now)
  {
    assert LicenseReasons(p, dep, sigs) == LicenseReasons(q, dep, sigs);
    assert ArchivedReasons(p, dep, sigs) == ArchivedReasons(q, dep, sigs);
    assert ScorecardReasons(p, dep, sigs) == ScorecardReasons(q, dep, sigs);
    assert TrustReasons(p, dep, sigs, now) == TrustReasons(q, dep, sigs, now);
  }

  lemma SameConclusion(p: Policy, q: Policy, rs: seq<Reason>)
    requires p.severity == q.severity
    ensures Conclude(p, rs) == Conclude(q, rs)
  {
    SelectAlike(rs, SeverityMap(p), SeverityMap(q), BlockSeverity);
    SelectAlike(rs, SeverityMap(p), SeverityMap(q), WarnSeverity);
  }

  lemma {:induction false} SelectAlike(rs: seq<Reason>, of: Reason -> Severity, of': Reason -> Severity, severity: Severity)
    requires forall r :: of(r) == of'(r)
    ensures Select(rs, of, severity) == Select(rs, of', severity)
  {
    if rs != [] {
      SelectAlike(rs[1..], of, of', severity);
    }
  }

  const NO_OVERRIDES := DirectOverrides(None, None, None, None, None, None, None, None, None, None, None, None)

  /** The policy with its overrides written into the defaults, or dropped. */
  function Flattened(p: Policy, direct: bool): Policy {
    p.(defaults := Settings(p, direct), direct := NO_OVERRIDES)
  }

  /** Overrides add no power: a dependency is judged as under a policy that has none. */
  lemma FlatteningKeepsDecisions(p: Policy, dep: ResolvedDependency, sigs: SignalSet, now: Instant, ctx: EvalContext)
    ensures Evaluate(p, dep, sigs, now, ctx) == Evaluate(Flattened(p, dep.direct), dep, sigs, now, ctx)
  {
    SameSettings(p, Flattened(p, dep.direct), dep, sigs, now, ctx);
  }

  /** Transitive dependencies do not feel the overrides for direct ones. */
  lemma TransitiveIgnoresOverrides(
    p: Policy, o: DirectOverrides, dep: ResolvedDependency, sigs: SignalSet, now: Instant, ctx: EvalContext)
    requires !dep.direct
    ensures Evaluate(p, dep, sigs, now, ctx) == Evaluate(p.(direct := o), dep, sigs, now, ctx)
  {
    SameSettings(p, p.(direct := o), dep, sigs, now, ctx);
  }

  /** `q` is `p` with one override moved into its default. */
  ghost predicate Moved(p: Policy, q: Policy) {
    MovedRequirement(p, q) || MovedDetector(p, q) || MovedThreshold(p, q) || MovedList(p, q)
  }

  ghost predicate MovedRequirement(p: Policy, q: Policy) {
    var d, o := p.defaults, p.direct;
    || (o.requireProvenance.Some?
        && q == p.(defaults := d.(requireProvenance := o.requireProvenance.value), direct := o.(requireProvenance := None)))
    || (o.requireLicense.Some?
        && q == p.(defaults := d.(requireLicense := o.requireLicense.value), direct := o.(requireLicense := None)))
    || (o.blockArchived.Some?
        && q == p.(defaults := d.(blockArchived := o.blockArchived.value), direct := o.(blockArchived := None)))
  }

  ghost predicate MovedDetector(p: Policy, q: Policy) {
    var d, o := p.defaults, p.direct;
    || (o.detectPublisherChange.Some?
        && q == p.(defaults := d.(detectPublisherChange := o.detectPublisherChange.value),
                   direct := o.(detectPublisherChange := None)))
    || (o.flagDeprecated.Some?
        && q == p.(defaults := d.(flagDeprecated := o.flagDeprecated.value), direct := o.(flagDeprecated := None)))
    || (o.detectVersionSurfaceChange.Some?
        && q == p.(defaults := d.(detectVersionSurfaceChange := o.detectVersionSurfaceChange.value),
                   direct := o.(detectVersionSurfaceChange := None)))
  }

  ghost predicate MovedThreshold(p: Policy, q: Policy) {
    var d, o := p.defaults, p.direct;
    || (o.minMaintainerAccountAgeDays.Some?
        && q == p.(defaults := d.(minMaintainerAccountAgeDays := o.minMaintainerAccountAgeDays.value),
                   direct := o.(minMaintainerAccountAgeDays := None)))
    || (o.minTrustScore.Some?
        && q == p.(defaults := d.(minTrustScore := o.minTrustScore.value), direct := o.(minTrustScore := None)))
    || (o.minScorecardScore.Some?
        && q == p.(defaults := d.(minScorecardScore := o.minScorecardScore.value), direct := o.(minScorecardScore := None)))
  }

  ghost predicate MovedList(p: Policy, q: Policy) {
    var d, o := p.defaults, p.direct;
    || (o.minimumReleaseAge.Some?
        && q == p.(defaults := d.(minimumReleaseAge := o.minimumReleaseAge), direct := o.(minimumReleaseAge := None)))
    || (o.maxAdvisorySeverity.Some?
        && q == p.(defaults := d.(maxAdvisorySeverity := o.maxAdvisorySeverity.value),
                   direct := o.(maxAdvisorySeverity := None)))
    || (o.licenseAllowlist.Some?
        && q == p.(defaults := d.(licenseAllowlist := o.licenseAllowlist.value), direct := o.(licenseAllowlist := None)))
  }

  ghost predicate SameFor(p: Policy, q: Policy) {
    Settings(p, true) == Settings(q, true) && p.scripts == q.scripts && p.severity == q.severity
  }

  lemma MovedRequirementSame(p: Policy, q: Policy)
    requires MovedRequirement(p, q)
    ensures SameFor(p, q)
  {
  }

  lemma MovedDetectorSame(p: Policy, q: Policy)
    requires MovedDetector(p, q)
    ensures SameFor(p, q)
  {
  }

  lemma MovedThresholdSame(p: Policy, q: Policy)
    requires MovedThreshold(p, q)
    ensures SameFor(p, q)
  {
  }

  lemma MovedListSame(p: Policy, q: Policy)
    requires MovedList(p, q)
    ensures SameFor(p, q)
  {
  }

  lemma MovedSettings(p: Policy, q: Policy)
    requires Moved(p, q)
    ensures SameFor(p, q)
  {
    if MovedRequirement(p, q) {
      MovedRequirementSame(p, q);
    } else if MovedDetector(p, q) {
      MovedDetectorSame(p, q);
    } else if MovedThreshold(p, q) {
      MovedThresholdSame(p, q);
    } else {
      MovedListSame(p, q);
    }
  }

  /** For a direct dependency an override works exactly as that value in the default's place. */
  lemma OverrideActsAsDefault(
    p: Policy, q: Policy, dep: ResolvedDependency, sigs: SignalSet, now: Instant, ctx: EvalContext)
    requires dep.direct && Moved(p, q)
    ensures Evaluate(p, dep, sigs, now, ctx) == Evaluate(q, dep, sigs, now, ctx)
  {
    MovedSettings(p, q);
    SameSettings(p, q, dep, sigs, now, ctx);
  }

  // When each finding is raised

  /** An allowlist entry speaks of a package: same name, and the entry's registry family if it has one. */
  predicate Covers(entry: EcosystemMatcher, dep: ResolvedDependency) {
    && entry.name == dep.name
    && match entry.family
       case None => true
       case Some(NpmFamily) => dep.ecosystem in {Npm, Pnpm, Yarn}
       case Some(PypiFamily) => dep.ecosystem == Pypi
  }

  ghost predicate Listed(entries: seq<EcosystemMatcher>, dep: ResolvedDependency) {
    exists e :: e in entries && Covers(e, dep)
  }

  lemma ListedExact(entries: seq<EcosystemMatcher>, dep: ResolvedDependency)
    ensures AnyMatches(entries, FamilyOf(dep.ecosystem), dep.name) <==> Listed(entries, dep)
  {
    if Listed(entries, dep) {
      var e :| e in entries && Covers(e, dep);
      assert Matches(e, FamilyOf(dep.ecosystem), dep.name);
    }
  }

  /** The advisory grades at or above a floor, by the names advisories use. */
  predicate AtOrAbove(grade: string, floor: AdvisorySeverity) {
    match floor
    case NoFloor => false
    case Unknown => true
    case Low => grade in {"low", "medium", "moderate", "high", "critical"}
    case Medium => grade in {"medium", "moderate", "high", "critical"}
    case High => grade in {"high", "critical"}
    case Critical => grade == "critical"
  }

  lemma AtOrAboveExact(grade: string, floor: AdvisorySeverity)
    ensures ReachesFloor(grade, floor) <==> AtOrAbove(grade, floor)
  {
  }

  /** The text by which a source outside the registries is reported. */
  ghost predicate Exotic(s: Source, kind: string) {
    || (s.Git? && kind == "git")
    || (s.Tarball? && kind == "tarball")
    || (s.File? && kind == "file")
    || (s.GithubShortcut? && kind == "github_shortcut")
  }

  ghost predicate MayRunScripts(p: Policy, dep: ResolvedDependency) {
    || p.scripts.policy == AllowByDefault
    || (dep.ecosystem != Pypi && dep.name in DEFAULT_SCRIPT_ALLOWLIST)
    || Listed(p.scripts.allow, dep)
  }

  /** Younger than the required age, and its age in full minutes, which counts from zero. */
  ghost predicate TooYoung(at: Instant, now: Instant, minutes: int, required: int) {
    && now - at < required * 60_000_000_000
    && (now < at ==> minutes == 0)
    && (now >= at ==> minutes * 60_000_000_000 <= now - at < (minutes + 1) * 60_000_000_000)
  }

  lemma TooYoungExact(at: Instant, now: Instant, minutes: int, required: int)
    requires required > 0
    ensures TooYoung(at, now, minutes, required) <==>
      var observed := ObservedMinutes(at, now);
      observed < required && minutes == if observed < 0 then 0 else observed
  {
  }

  function Unlisted(allowlist: seq<string>): string -> bool {
    l => forall a :: a in allowlist ==> Text.Lower(a) != Text.Lower(l)
  }

  /** When a finding is raised, as the policy's documentation puts it. */
  ghost predicate Published(p: Policy, dep: ResolvedDependency, sigs: SignalSet, now: Instant, ctx: EvalContext, r: Reason) {
    PublishedOrigin(p, dep, sigs, now, ctx, r) || PublishedChange(p, dep, sigs, r) || PublishedStanding(p, dep, sigs, now, r)
  }

  ghost predicate PublishedOrigin(
    p: Policy, dep: ResolvedDependency, sigs: SignalSet, now: Instant, ctx: EvalContext, r: Reason)
  {
    var s := Settings(p, dep.direct);
    match r
    case ExoticSource(kind) => s.blockExoticSubdeps && Exotic(dep.source, kind)
    case ReleaseAgeBelowThreshold(minutes, required) =>
      && s.minimumReleaseAge == Some(required) && required > 0
      && First(sigs, IsPublishedAt).Some? && TooYoung(First(sigs, IsPublishedAt).value.at, now, minutes, required)
    case PublishedAtUnknown =>
      Or(s.minimumReleaseAge, 0) > 0 && forall x :: x in sigs ==> !x.PublishedAt?
    case DisallowedLifecycleScript(script) => !ctx.ignoreScripts && Scripted(p, dep, sigs, script)
    case LifecycleScriptIgnored(script) => ctx.ignoreScripts && Scripted(p, dep, sigs, script)
    case _ => false
  }

  ghost predicate Scripted(p: Policy, dep: ResolvedDependency, sigs: SignalSet, script: string) {
    && !MayRunScripts(p, dep)
    && First(sigs, IsLifecycleScripts).Some? && script in First(sigs, IsLifecycleScripts).value.scripts
  }

  ghost predicate PublishedChange(p: Policy, dep: ResolvedDependency, sigs: SignalSet, r: Reason) {
    var s := Settings(p, dep.direct);
    match r
    case PublisherChanged(version, previous, current) =>
      s.detectPublisherChange && First(sigs, IsPublisherChange) == Some(PublisherChange(version, previous, current))
    case Deprecated(message) =>
      s.flagDeprecated && First(sigs, IsDeprecatedVersion) == Some(DeprecatedVersion(message))
    case SuspiciousScriptFound(script, pattern, excerpt) => SuspiciousScript(script, pattern, excerpt) in sigs
    case SurfaceChanged(version, bins, scripts) =>
      && s.detectVersionSurfaceChange && (bins != [] || scripts != [])
      && First(sigs, IsVersionSurfaceChange) == Some(VersionSurfaceChange(version, bins, scripts))
    case DistTagMoved(latest, highest) =>
      dep.version != latest && First(sigs, IsDistTagAnomaly) == Some(DistTagAnomaly(latest, highest))
    case NameSquatted(style, target) =>
      !Listed(s.nameSquatAllow, dep) && First(sigs, IsNameSquat) == Some(NameSquat(style, target))
    case _ => false
  }

  ghost predicate PublishedStanding(p: Policy, dep: ResolvedDependency, sigs: SignalSet, now: Instant, r: Reason) {
    var s := Settings(p, dep.direct);
    match r
    case NewAccount(account, age, threshold) =>
      && threshold == s.minMaintainerAccountAgeDays && age < threshold
      && First(sigs, IsMaintainerNewAccount) == Some(MaintainerNewAccount(account, age))
    case ProvenanceMissing => s.requireProvenance && forall x :: x in sigs ==> !x.ProvenanceClaimed?
    case Advisory(id, grade, source) =>
      AtOrAbove(grade, s.maxAdvisorySeverity) && exists summary :: AdvisoryKnown(id, grade, summary, source) in sigs
    case LicenseMissing(source) =>
      && s.requireLicense && First(sigs, IsProjectMetadata).Some?
      && var m := First(sigs, IsProjectMetadata).value; m.licenses == [] && m.source == source
    case LicenseDisallowed(licenses, source) =>
      && s.licenseAllowlist != [] && licenses != [] && First(sigs, IsProjectMetadata).Some?
      && var m := First(sigs, IsProjectMetadata).value;
         m.source == source && licenses == Filter(m.licenses, Unlisted(s.licenseAllowlist))
    case ProjectArchived(source) =>
      && s.blockArchived && First(sigs, IsProjectMetadata).Some?
      && var m := First(sigs, IsProjectMetadata).value; m.archived == Some(true) && m.source == source
    case ScorecardBelowThreshold(score, threshold, repo, source) =>
      && threshold == s.minScorecardScore && score < threshold
      && First(sigs, IsScorecardScore) == Some(ScorecardScore(score, repo, source))
    case TrustScoreBelowThreshold(score, threshold) =>
      threshold == s.minTrustScore && score < threshold && score == TrustScore.Score(sigs, now)
    case SignalUnavailable(provider, reason) => Unavailable(provider, reason) in sigs
    case _ => false
  }

  lemma OriginPublished(p: Policy, dep: ResolvedDependency, sigs: SignalSet, now: Instant, ctx: EvalContext, r: Reason)
    requires r.ExoticSource? || r.ReleaseAgeBelowThreshold? || r.PublishedAtUnknown?
      || r.DisallowedLifecycleScript? || r.LifecycleScriptIgnored?
    ensures Fires(p, dep, sigs, now, ctx, r) <==> PublishedOrigin(p, dep, sigs, now, ctx, r)
  {
    SettingsResolved(p, dep.direct);
    ListedExact(p.scripts.allow, dep);
    if r.ReleaseAgeBelowThreshold? && r.requiredMinutes > 0 && First(sigs, IsPublishedAt).Some? {
      TooYoungExact(First(sigs, IsPublishedAt).value.at, now, r.observedMinutes, r.requiredMinutes);
    }
  }

  lemma ChangePublished(p: Policy, dep: ResolvedDependency, sigs: SignalSet, now: Instant, ctx: EvalContext, r: Reason)
    requires r.PublisherChanged? || r.Deprecated? || r.SuspiciousScriptFound? || r.SurfaceChanged?
      || r.DistTagMoved? || r.NameSquatted?
    ensures Fires(p, dep, sigs, now, ctx, r) <==> PublishedChange(p, dep, sigs, r)
  {
    SettingsResolved(p, dep.direct);
    ListedExact(p.defaults.nameSquatAllow, dep);
  }

  lemma StandingPublished(p: Policy, dep: ResolvedDependency, sigs: SignalSet, now: Instant, ctx: EvalContext, r: Reason)
    requires r.NewAccount? || r.ProvenanceMissing? || r.Advisory? || r.LicenseMissing? || r.LicenseDisallowed?
      || r.ProjectArchived? || r.ScorecardBelowThreshold? || r.TrustScoreBelowThreshold? || r.SignalUnavailable?
    ensures Fires(p, dep, sigs, now, ctx, r) <==> PublishedStanding(p, dep, sigs, now, r)
  {
    SettingsResolved(p, dep.direct);
    if r.Advisory? {
      AtOrAboveExact(r.severity, AdvisoryFloor(p, dep.direct));
    }
    if r.LicenseDisallowed? && First(sigs, IsProjectMetadata).Some? {
      DisallowedExact(LicenseAllowlist(p, dep.direct), First(sigs, IsProjectMetadata).value.licenses);
    }
  }

  lemma DisallowedExact(allowlist: seq<string>, licenses: seq<string>)
    ensures DisallowedLicenses(allowlist, licenses) == Filter(licenses, Unlisted(allowlist))
  {
    FilterSame(licenses, l => !LicenseListed(allowlist, l), Unlisted(allowlist));
  }

  /** The engine raises exactly the findings whose published condition holds. */
  lemma RaisedAsPublished(p: Policy, dep: ResolvedDependency, sigs: SignalSet, now: Instant, ctx: EvalContext, r: Reason)
    ensures r in Reasons(p, dep, sigs, now, ctx) <==> Published(p, dep, sigs, now, ctx, r)
  {
    ReasonsExact(p, dep, sigs, now, ctx, r);
    if r.ExoticSource? || r.ReleaseAgeBelowThreshold? || r.PublishedAtUnknown?
      || r.DisallowedLifecycleScript? || r.LifecycleScriptIgnored?
    {
      OriginPublished(p, dep, sigs, now, ctx, r);
    } else if r.PublisherChanged? || r.Deprecated? || r.SuspiciousScriptFound? || r.SurfaceChanged?
      || r.DistTagMoved? || r.NameSquatted?
    {
      ChangePublished(p, dep, sigs, now, ctx, r);
    } else {
      StandingPublished(p, dep, sigs, now, ctx, r);
    }
  }

  // Severities and the decision

  /** The severity map decides; without an entry three noisy kinds warn and all others block. */
  ghost predicate Counts(p: Policy, r: Reason, severity: Severity) {
    if Code(r) in p.severity then p.severity[Code(r)] == severity
    else if r.LifecycleScriptIgnored? || r.DistTagMoved? || r.SignalUnavailable? then severity == WarnSeverity
    else severity == BlockSeverity
  }

  ghost predicate RaisedWith(
    p: Policy, dep: ResolvedDependency, sigs: SignalSet, now: Instant, ctx: EvalContext, severity: Severity)
  {
    exists r :: Published(p, dep, sigs, now, ctx, r) && Counts(p, r, severity)
  }

  /**
   The decision in full: workspace members are allowed; anything else is blocked for a blocking finding,
   warned about for a warning one, and allowed otherwise, and lists every finding that is not suppressed.
   */
  lemma DecisionExact(p: Policy, dep: ResolvedDependency, sigs: SignalSet, now: Instant, ctx: EvalContext, r: Reason)
    ensures var d := Evaluate(p, dep, sigs, now, ctx);
      if dep.source.Workspace? then d == Allow
      else
        && (d.Block? <==> RaisedWith(p, dep, sigs, now, ctx, BlockSeverity))
        && (d.Warn? <==>
              !RaisedWith(p, dep, sigs, now, ctx, BlockSeverity) && RaisedWith(p, dep, sigs, now, ctx, WarnSeverity))
        && (r in ReasonsOf(d) <==> Published(p, dep, sigs, now, ctx, r) && !Counts(p, r, AllowSeverity))
  {
    if !dep.source.Workspace? {
      SelectedBy(p, dep, sigs, now, ctx, BlockSeverity);
      SelectedBy(p, dep, sigs, now, ctx, WarnSeverity);
      RaisedAsPublished(p, dep, sigs, now, ctx, r);
      ListedBySeverity(p, Reasons(p, dep, sigs, now, ctx), r);
    }
  }

  lemma ListedBySeverity(p: Policy, rs: seq<Reason>, r: Reason)
    ensures r in ReasonsOf(Conclude(p, rs)) <==> r in rs && !Counts(p, r, AllowSeverity)
    ensures Conclude(p, rs).Block? <==> Select(rs, SeverityMap(p), BlockSeverity) != []
    ensures Conclude(p, rs).Warn? <==>
      Select(rs, SeverityMap(p), BlockSeverity) == [] && Select(rs, SeverityMap(p), WarnSeverity) != []
  {
    var blocks, warns := Select(rs, SeverityMap(p), BlockSeverity), Select(rs, SeverityMap(p), WarnSeverity);
    SelectMembers(rs, SeverityMap(p), BlockSeverity, r);
    SelectMembers(rs, SeverityMap(p), WarnSeverity, r);
    assert blocks == [] ==> r !in blocks;
    assert warns == [] ==> r !in warns;
  }

  lemma SelectedBy(p: Policy, dep: ResolvedDependency, sigs: SignalSet, now: Instant, ctx: EvalContext, severity: Severity)
    ensures Select(Reasons(p, dep, sigs, now, ctx), SeverityMap(p), severity) != []
      <==> RaisedWith(p, dep, sigs, now, ctx, severity)
  {
    var rs := Reasons(p, dep, sigs, now, ctx);
    var selected := Select(rs, SeverityMap(p), severity);
    if selected != [] {
      SelectMembers(rs, SeverityMap(p), severity, selected[0]);
      RaisedAsPublished(p, dep, sigs, now, ctx, selected[0]);
      assert selected[0] in selected && Counts(p, selected[0], severity);
    }
    if r :| Published(p, dep, sigs, now, ctx, r) && Counts(p, r, severity) {
      RaisedAsPublished(p, dep, sigs, now, ctx, r);
      SelectMembers(rs, SeverityMap(p), severity, r);
    }
  }

  // The order of findings

  /** The place of a finding's detector in the engine's fixed sequence. */
  function Detector(r: Reason): nat {
    match r
    case ExoticSource(_) => 0
    case ReleaseAgeBelowThreshold(_, _) => 1
    case PublishedAtUnknown => 1
    case DisallowedLifecycleScript(_) => 2
    case LifecycleScriptIgnored(_) => 2
    case PublisherChanged(_, _, _) => 3
    case Deprecated(_) => 4
    case SuspiciousScriptFound(_, _, _) => 5
    case SurfaceChanged(_, _, _) => 6
    case DistTagMoved(_, _) => 7
    case NameSquatted(_, _) => 8
    case NewAccount(_, _, _) => 9
    case ProvenanceMissing => 10
    case Advisory(_, _, _) => 11
    case LicenseMissing(_) => 12
    case LicenseDisallowed(_, _) => 12
    case ProjectArchived(_) => 13
    case ScorecardBelowThreshold(_, _, _, _) => 14
    case TrustScoreBelowThreshold(_, _) => 15
    case SignalUnavailable(_, _) => 16
  }

  /** Detectors that may raise several findings at once. */
  predicate Repeats(detector: nat) {
    detector == 2 || detector == 5 || detector == 11 || detector == 16
  }

  /** From an earlier detector, or from the same one where that may raise several. */
  predicate Precedes(r: Reason, later: Reason) {
    Detector(r) < Detector(later) || (Detector(r) == Detector(later) && Repeats(Detector(r)))
  }

  /** Findings of the detectors from `lo` to `hi`, in detector order, once each where one is the limit. */
  ghost predicate InOrder(rs: seq<Reason>, lo: nat, hi: nat) {
    (forall r :: r in rs ==> lo <= Detector(r) <= hi) && Sorted(rs, Precedes)
  }

  lemma InOrderAppend(a: seq<Reason>, b: seq<Reason>, lo: nat, mid: nat, hi: nat)
    requires lo <= mid < hi && InOrder(a, lo, mid) && InOrder(b, mid + 1, hi)
    ensures InOrder(a + b, lo, hi)
  {
    SortedAppend(a, b, Precedes);
  }

  lemma OneDetector(rs: seq<Reason>, detector: nat)
    requires Repeats(detector) && forall r :: r in rs ==> Detector(r) == detector
    ensures InOrder(rs, detector, detector)
  {
    assert forall i :: 0 <= i < |rs| ==> rs[i] in rs;
  }

  lemma FilterMapDetector(sigs: SignalSet, f: Signal -> Option<Reason>, detector: nat)
    requires Repeats(detector) && forall s :: f(s).Some? ==> Detector(f(s).value) == detector
    ensures InOrder(FilterMap(sigs, f), detector, detector)
  {
    forall r | r in FilterMap(sigs, f) ensures Detector(r) == detector {
      FilterMapMembers(sigs, f, r);
    }
    OneDetector(FilterMap(sigs, f), detector);
  }

  lemma OriginInOrder(p: Policy, dep: ResolvedDependency, sigs: SignalSet, now: Instant)
    ensures InOrder(OriginReasons(p, dep, sigs, now), 0, 1)
  {
    InOrderAppend(ExoticReasons(p, dep), AgeReasons(p, dep, sigs, now), 0, 0, 1);
  }

  lemma LifecycleInOrder(p: Policy, dep: ResolvedDependency, sigs: SignalSet, ctx: EvalContext)
    ensures InOrder(LifecycleReasons(p, dep, sigs, ctx), 2, 2)
  {
    forall r | r in LifecycleReasons(p, dep, sigs, ctx) ensures Detector(r) == 2 {
      LifecycleMembers(p, dep, sigs, ctx, r);
    }
    OneDetector(LifecycleReasons(p, dep, sigs, ctx), 2);
  }

  lemma ChangesInOrder(p: Policy, dep: ResolvedDependency, sigs: SignalSet)
    ensures InOrder(ChangeReasons(p, dep, sigs), 3, 7)
  {
    FilterMapDetector(sigs, SuspiciousReason, 5);
    FiveInOrder(PublisherReasons(p, dep, sigs), DeprecationReasons(p, dep, sigs), FilterMap(sigs, SuspiciousReason),
      SurfaceReasons(p, dep, sigs), DistTagReasons(dep, sigs), 3, 3, 4, 5, 6, 7);
  }

  lemma FiveInOrder(
    a: seq<Reason>, b: seq<Reason>, c: seq<Reason>, d: seq<Reason>, e: seq<Reason>,
    lo: nat, i: nat, j: nat, k: nat, l: nat, hi: nat)
    requires lo <= i < j < k < l < hi && InOrder(a, lo, i) && InOrder(b, i + 1, j) && InOrder(c, j + 1, k)
    requires InOrder(d, k + 1, l) && InOrder(e, l + 1, hi)
    ensures InOrder(a + b + c + d + e, lo, hi)
  {
    InOrderAppend(a, b, lo, i, j);
    InOrderAppend(a + b, c, lo, j, k);
    InOrderAppend(a + b + c, d, lo, k, l);
    InOrderAppend(a + b + c + d, e, lo, l, hi);
  }

  lemma AdvisoriesInOrder(sigs: SignalSet, floor: AdvisorySeverity)
    ensures InOrder(AdvisoryReasons(sigs, floor), 11, 11)
  {
    forall r | r in AdvisoryReasons(sigs, floor) ensures Detector(r) == 11 {
      AdvisoryMembers(sigs, floor, r);
    }
    OneDetector(AdvisoryReasons(sigs, floor), 11);
  }

  lemma AtMostOne(rs: seq<Reason>, detector: nat)
    requires |rs| <= 1 && forall r :: r in rs ==> Detector(r) == detector
    ensures InOrder(rs, detector, detector)
  {
    assert forall i :: 0 <= i < |rs| ==> rs[i] in rs;
  }

  lemma AccountInOrder(p: Policy, dep: ResolvedDependency, sigs: SignalSet)
    ensures InOrder(AccountReasons(p, dep, sigs), 9, 9) && InOrder(ProvenanceReasons(p, dep, sigs), 10, 10)
  {
    AtMostOne(AccountReasons(p, dep, sigs), 9);
    AtMostOne(ProvenanceReasons(p, dep, sigs), 10);
  }

  lemma ProjectInOrder(p: Policy, dep: ResolvedDependency, sigs: SignalSet)
    ensures InOrder(LicenseReasons(p, dep, sigs), 12, 12) && InOrder(ArchivedReasons(p, dep, sigs), 13, 13)
  {
    AtMostOne(LicenseReasons(p, dep, sigs), 12);
    AtMostOne(ArchivedReasons(p, dep, sigs), 13);
  }

  lemma ScoresInOrder(p: Policy, dep: ResolvedDependency, sigs: SignalSet, now: Instant)
    ensures InOrder(ScorecardReasons(p, dep, sigs), 14, 14) && InOrder(TrustReasons(p, dep, sigs, now), 15, 15)
  {
    AtMostOne(ScorecardReasons(p, dep, sigs), 14);
    AtMostOne(TrustReasons(p, dep, sigs, now), 15);
  }

  lemma EightInOrder(
    a: seq<Reason>, b: seq<Reason>, c: seq<Reason>, d: seq<Reason>,
    e: seq<Reason>, f: seq<Reason>, g: seq<Reason>, h: seq<Reason>)
    requires InOrder(a, 9, 9) && InOrder(b, 10, 10) && InOrder(c, 11, 11) && InOrder(d, 12, 12) && InOrder(e, 13, 13)
    requires InOrder(f, 14, 14) && InOrder(g, 15, 15) && InOrder(h, 16, 16)
    ensures InOrder(a + b + c + d + e + f + g + h, 9, 16)
  {
    FiveInOrder(a, b, c, d, e, 9, 9, 10, 11, 12, 13);
    InOrderAppend(a + b + c + d + e, f, 9, 13, 14);
    InOrderAppend(a + b + c + d + e + f, g, 9, 14, 15);
    InOrderAppend(a + b + c + d + e + f + g, h, 9, 15, 16);
  }

  lemma StandingInOrder(p: Policy, dep: ResolvedDependency, sigs: SignalSet, now: Instant)
    ensures InOrder(StandingReasons(p, dep, sigs, now), 9, 16)
  {
    AdvisoriesInOrder(sigs, AdvisoryFloor(p, dep.direct));
    AccountInOrder(p, dep, sigs);
    ProjectInOrder(p, dep, sigs);
    ScoresInOrder(p, dep, sigs, now);
    FilterMapDetector(sigs, UnavailableReason, 16);
    EightInOrder(AccountReasons(p, dep, sigs), ProvenanceReasons(p, dep, sigs),
      AdvisoryReasons(sigs, AdvisoryFloor(p, dep.direct)), LicenseReasons(p, dep, sigs), ArchivedReasons(p, dep, sigs),
      ScorecardReasons(p, dep, sigs), TrustReasons(p, dep, sigs, now), FilterMap(sigs, UnavailableReason));
  }

  lemma SquatInOrder(p: Policy, dep: ResolvedDependency, sigs: SignalSet)
    ensures InOrder(SquatReasons(p, dep, sigs), 8, 8)
  {
  }

  lemma ReasonsInOrder(p: Policy, dep: ResolvedDependency, sigs: SignalSet, now: Instant, ctx: EvalContext)
    ensures InOrder(Reasons(p, dep, sigs, now, ctx), 0, 16)
  {
    OriginInOrder(p, dep, sigs, now);
    LifecycleInOrder(p, dep, sigs, ctx);
    ChangesInOrder(p, dep, sigs);
    SquatInOrder(p, dep, sigs);
    StandingInOrder(p, dep, sigs, now);
    FiveInOrder(OriginReasons(p, dep, sigs, now), LifecycleReasons(p, dep, sigs, ctx), ChangeReasons(p, dep, sigs),
      SquatReasons(p, dep, sigs), StandingReasons(p, dep, sigs, now), 0, 1, 2, 7, 8, 16);
  }

  lemma {:induction false} SelectInOrder(rs: seq<Reason>, of: Reason -> Severity, severity: Severity, lo: nat, hi: nat)
    requires InOrder(rs, lo, hi)
    ensures InOrder(Select(rs, of, severity), lo, hi)
  {
    if rs != [] {
      var rest := Select(rs[1..], of, severity);
      TailInOrder(rs, lo, hi);
      SelectInOrder(rs[1..], of, severity, lo, hi);
      forall r | r in rest ensures r in rs[1..] {
        SelectMembers(rs[1..], of, severity, r);
      }
      ConsInOrder(rs, rest, lo, hi);
    }
  }

  lemma TailInOrder(rs: seq<Reason>, lo: nat, hi: nat)
    requires rs != [] && InOrder(rs, lo, hi)
    ensures InOrder(rs[1..], lo, hi)
    ensures forall r :: r in rs[1..] ==> Precedes(rs[0], r)
  {
    assert forall i :: 0 <= i < |rs[1..]| ==> rs[1..][i] == rs[i + 1];
  }

  lemma ConsInOrder(rs: seq<Reason>, rest: seq<Reason>, lo: nat, hi: nat)
    requires rs != [] && InOrder(rs, lo, hi) && InOrder(rest, lo, hi) && forall r :: r in rest ==> r in rs[1..]
    ensures InOrder([rs[0]] + rest, lo, hi) && [] + rest == rest
  {
    TailInOrder(rs, lo, hi);
    SortedAppend([rs[0]], rest, Precedes);
  }

  /** Blocking findings, then warnings, each group in detector order. */
  ghost predicate ListsInOrder(p: Policy, blocks: seq<Reason>, warns: seq<Reason>) {
    && InOrder(blocks, 0, 16) && (forall r :: r in blocks ==> Counts(p, r, BlockSeverity))
    && InOrder(warns, 0, 16) && (forall r :: r in warns ==> Counts(p, r, WarnSeverity))
  }

  /** A decision lists its blocking findings first, then its warnings, each group in detector order. */
  lemma ListedInOrder(p: Policy, dep: ResolvedDependency, sigs: SignalSet, now: Instant, ctx: EvalContext)
    ensures exists blocks, warns ::
      ReasonsOf(Evaluate(p, dep, sigs, now, ctx)) == blocks + warns && ListsInOrder(p, blocks, warns)
  {
    if dep.source.Workspace? {
      var none: seq<Reason> := [];
      assert ReasonsOf(Evaluate(p, dep, sigs, now, ctx)) == none + none && ListsInOrder(p, none, none);
    } else {
      ReasonsInOrder(p, dep, sigs, now, ctx);
      var blocks, warns := GroupsInOrder(p, Reasons(p, dep, sigs, now, ctx));
    }
  }

  lemma GroupsInOrder(p: Policy, rs: seq<Reason>) returns (blocks: seq<Reason>, warns: seq<Reason>)
    requires InOrder(rs, 0, 16)
    ensures ReasonsOf(Conclude(p, rs)) == blocks + warns && ListsInOrder(p, blocks, warns)
  {
    blocks, warns := Select(rs, SeverityMap(p), BlockSeverity), Select(rs, SeverityMap(p), WarnSeverity);
    SelectInOrder(rs, SeverityMap(p), BlockSeverity, 0, 16);
    SelectInOrder(rs, SeverityMap(p), WarnSeverity, 0, 16);
    forall r | r in blocks ensures Counts(p, r, BlockSeverity) {
      SelectMembers(rs, SeverityMap(p), BlockSeverity, r);
    }
    forall r | r in warns ensures Counts(p, r, WarnSeverity) {
      SelectMembers(rs, SeverityMap(p), WarnSeverity, r);
    }
    assert blocks == [] ==> blocks + warns == warns;
  }

  // Stricter policies

  /** At least as strict, setting by setting. */
  ghost predicate Tighter(q: Policy, p: Policy, direct: bool) {
    var t, s := Settings(q, direct), Settings(p, direct);
    && Or(t.minimumReleaseAge, 0) >= Or(s.minimumReleaseAge, 0)
    && (s.blockExoticSubdeps ==> t.blockExoticSubdeps)
    && (s.detectPublisherChange ==> t.detectPublisherChange)
    && (s.flagDeprecated ==> t.flagDeprecated)
    && (s.detectVersionSurfaceChange ==> t.detectVersionSurfaceChange)
    && t.minMaintainerAccountAgeDays >= s.minMaintainerAccountAgeDays
    && (s.requireProvenance ==> t.requireProvenance)
    && t.minTrustScore >= s.minTrustScore
    && (forall grade :: AtOrAbove(grade, s.maxAdvisorySeverity) ==> AtOrAbove(grade, t.maxAdvisorySeverity))
    && (s.requireLicense ==> t.requireLicense)
    && (s.licenseAllowlist == []
        || (t.licenseAllowlist != [] && forall a :: a in t.licenseAllowlist ==> !Unlisted(s.licenseAllowlist)(a)))
    && (s.blockArchived ==> t.blockArchived)
    && t.minScorecardScore >= s.minScorecardScore
    && (p.scripts.policy == AllowByDefault
        || (q.scripts.policy == DenyByDefault && forall e :: e in q.scripts.allow ==> e in p.scripts.allow))
    && (forall e :: e in t.nameSquatAllow ==> e in s.nameSquatAllow)
    && forall r, a, b :: Counts(p, r, a) && Counts(q, r, b) ==> SeverityRank(a) <= SeverityRank(b)
  }

  lemma TighterFloors(q: AdvisorySeverity, p: AdvisorySeverity)
    ensures (forall grade :: AtOrAbove(grade, p) ==> AtOrAbove(grade, q)) <==> StricterFloor(q, p)
  {
    assert AtOrAbove("", Unknown) && !AtOrAbove("", Low) && !AtOrAbove("", Medium) && !AtOrAbove("", High);
    assert !AtOrAbove("", Critical);
    assert AtOrAbove("low", Low) && !AtOrAbove("low", Medium) && !AtOrAbove("low", High) && !AtOrAbove("low", Critical);
    assert AtOrAbove("medium", Medium) && !AtOrAbove("medium", High) && !AtOrAbove("medium", Critical);
    assert AtOrAbove("high", High) && !AtOrAbove("high", Critical);
    assert AtOrAbove("critical", Critical) && !AtOrAbove("critical", NoFloor) && !AtOrAbove("high", NoFloor)
      && !AtOrAbove("medium", NoFloor) && !AtOrAbove("low", NoFloor) && !AtOrAbove("", NoFloor);
  }

  /** The order by which tightening is proved is the order of the settings. */
  lemma TighterExact(q: Policy, p: Policy, direct: bool)
    ensures Tighter(q, p, direct) <==> StricterFor(q, p, direct)
  {
    SettingsResolved(p, direct);
    SettingsResolved(q, direct);
    TighterFloors(AdvisoryFloor(q, direct), AdvisoryFloor(p, direct));
    forall a ensures Unlisted(LicenseAllowlist(p, direct))(a) <==> !LicenseListed(LicenseAllowlist(p, direct), a) {
    }
    SeveritiesCompared(p, q);
  }

  lemma CountsExact(p: Policy, r: Reason, severity: Severity)
    ensures Counts(p, r, severity) <==> SeverityFor(p, r) == severity
  {
  }

  lemma SeveritiesCompared(p: Policy, q: Policy)
    ensures (forall r, a, b :: Counts(p, r, a) && Counts(q, r, b) ==> SeverityRank(a) <= SeverityRank(b))
      <==> (forall r :: SeverityRank(SeverityFor(p, r)) <= SeverityRank(SeverityFor(q, r)))
  {
    forall r, severity ensures Counts(p, r, severity) <==> SeverityFor(p, r) == severity {
      CountsExact(p, r, severity);
    }
    forall r, severity ensures Counts(q, r, severity) <==> SeverityFor(q, r) == severity {
      CountsExact(q, r, severity);
    }
    if forall r, a, b :: Counts(p, r, a) && Counts(q, r, b) ==> SeverityRank(a) <= SeverityRank(b) {
      forall r ensures SeverityRank(SeverityFor(p, r)) <= SeverityRank(SeverityFor(q, r)) {
        assert Counts(p, r, SeverityFor(p, r)) && Counts(q, r, SeverityFor(q, r));
      }
    }
  }

  /** Tightening never relaxes: no dependency is judged more leniently under a policy with tighter settings. */
  lemma TighterNeverRelaxes(
    p: Policy, q: Policy, dep: ResolvedDependency, sigs: SignalSet, now: Instant, ctx: EvalContext)
    requires Tighter(q, p, dep.direct)
    ensures Rank(Evaluate(p, dep, sigs, now, ctx)) <= Rank(Evaluate(q, dep, sigs, now, ctx))
  {
    TighterExact(q, p, dep.direct);
    TighteningNeverRelaxes(p, q, dep, sigs, now, ctx);
  }

  // The codes

  /** The codes in the order of `Kind`; no two findings of different kinds share one. */
  const CODES: seq<string> := [
    "release-age-below-threshold", "exotic-source", "disallowed-lifecycle-script", "lifecycle-script-ignored",
    "published-at-unknown", "publisher-change", "deprecated-version", "suspicious-script", "version-surface-change",
    "dist-tag-anomaly", "name-squat", "maintainer-new-account", "provenance-missing", "advisory-known",
    "license-missing", "license-disallowed", "project-archived", "scorecard-below-threshold",
    "trust-score-below-threshold", "signal-unavailable"]

  function Kind(r: Reason): (k: nat)
    ensures k < 20
  {
    match r
    case ReleaseAgeBelowThreshold(_, _) => 0
    case ExoticSource(_) => 1
    case DisallowedLifecycleScript(_) => 2
    case LifecycleScriptIgnored(_) => 3
    case PublishedAtUnknown => 4
    case PublisherChanged(_, _, _) => 5
    case Deprecated(_) => 6
    case SuspiciousScriptFound(_, _, _) => 7
    case SurfaceChanged(_, _, _) => 8
    case DistTagMoved(_, _) => 9
    case NameSquatted(_, _) => 10
    case NewAccount(_, _, _) => 11
    case ProvenanceMissing => 12
    case Advisory(_, _, _) => 13
    case LicenseMissing(_) => 14
    case LicenseDisallowed(_, _) => 15
    case ProjectArchived(_) => 16
    case ScorecardBelowThreshold(_, _, _, _) => 17
    case TrustScoreBelowThreshold(_, _) => 18
    case SignalUnavailable(_, _) => 19
  }

  lemma CodesExact(r: Reason)
    ensures |CODES| == 20 && Code(r) == CODES[Kind(r)]
  {
  }

  lemma CodesDistinct(i: nat, j: nat)
    requires i < j < 20
    ensures CODES[i] != CODES[j]
  {
    assert |CODES[i]| != |CODES[j]| || CODES[i][2] != CODES[j][2];
  }
}
