/** The policy engine: detectors turn signals into reasons, severities turn reasons into a decision. */
module Policy {
  import opened Wrappers
  import opened Sequences
  import opened Dependency
  import opened Signal
  import opened Decision
  import Text
  import TrustScore

  const NANOS_PER_MINUTE := 60_000_000_000

  datatype ScriptPolicy = DenyByDefault | AllowByDefault

  /** Advisory floors, weakest first; `NoFloor` switches the gate off. */
  datatype AdvisorySeverity = NoFloor | Unknown | Low | Medium | High | Critical

  function AdvisoryRank(a: AdvisorySeverity): nat {
    match a
    case NoFloor => 0
    case Unknown => 1
    case Low => 2
    case Medium => 3
    case High => 4
    case Critical => 5
  }

  function AdvisoryFromSignal(s: string): AdvisorySeverity {
    if s == "low" then Low
    else if s == "medium" || s == "moderate" then Medium
    else if s == "high" then High
    else if s == "critical" then Critical
    else Unknown
  }

  datatype Defaults = Defaults(
    minimumReleaseAge: Option<int>,
    blockExoticSubdeps: bool,
    detectPublisherChange: bool,
    flagDeprecated: bool,
    detectVersionSurfaceChange: bool,
    minMaintainerAccountAgeDays: U32,
    requireProvenance: bool,
    minTrustScore: U8,
    maxAdvisorySeverity: AdvisorySeverity,
    requireLicense: bool,
    licenseAllowlist: seq<string>,
    nameSquatAllow: seq<EcosystemMatcher>,
    blockArchived: bool,
    minScorecardScore: U8)

  datatype DirectOverrides = DirectOverrides(
    minimumReleaseAge: Option<int>,
    detectPublisherChange: Option<bool>,
    flagDeprecated: Option<bool>,
    detectVersionSurfaceChange: Option<bool>,
    minMaintainerAccountAgeDays: Option<U32>,
    requireProvenance: Option<bool>,
    minTrustScore: Option<U8>,
    maxAdvisorySeverity: Option<AdvisorySeverity>,
    requireLicense: Option<bool>,
    licenseAllowlist: Option<seq<string>>,
    blockArchived: Option<bool>,
    minScorecardScore: Option<U8>)

  datatype Scripts = Scripts(policy: ScriptPolicy, allow: seq<EcosystemMatcher>)

  datatype Policy = Policy(
    defaults: Defaults,
    direct: DirectOverrides,
    scripts: Scripts,
    severity: map<string, Severity>)

  datatype EvalContext = EvalContext(ignoreScripts: bool)

  // Resolution of a knob for a direct or a transitive dependency

  function Resolve<T>(direct: bool, override: Option<T>, default: T): T {
    if direct && override.Some? then override.value else default
  }

  function RequiredReleaseAge(p: Policy, direct: bool): int {
    if direct && p.direct.minimumReleaseAge.Some? then p.direct.minimumReleaseAge.value
    else if p.defaults.minimumReleaseAge.Some? then p.defaults.minimumReleaseAge.value
    else 0
  }

  predicate DetectPublisherChange(p: Policy, direct: bool) {
    Resolve(direct, p.direct.detectPublisherChange, p.defaults.detectPublisherChange)
  }

  predicate FlagDeprecated(p: Policy, direct: bool) {
    Resolve(direct, p.direct.flagDeprecated, p.defaults.flagDeprecated)
  }

  predicate DetectSurfaceChange(p: Policy, direct: bool) {
    Resolve(direct, p.direct.detectVersionSurfaceChange, p.defaults.detectVersionSurfaceChange)
  }

  function MinAccountAge(p: Policy, direct: bool): U32 {
    Resolve(direct, p.direct.minMaintainerAccountAgeDays, p.defaults.minMaintainerAccountAgeDays)
  }

  predicate RequireProvenance(p: Policy, direct: bool) {
    Resolve(direct, p.direct.requireProvenance, p.defaults.requireProvenance)
  }

  function MinTrustScore(p: Policy, direct: bool): U8 {
    Resolve(direct, p.direct.minTrustScore, p.defaults.minTrustScore)
  }

  function AdvisoryFloor(p: Policy, direct: bool): AdvisorySeverity {
    Resolve(direct, p.direct.maxAdvisorySeverity, p.defaults.maxAdvisorySeverity)
  }

  predicate RequireLicense(p: Policy, direct: bool) {
    Resolve(direct, p.direct.requireLicense, p.defaults.requireLicense)
  }

  function LicenseAllowlist(p: Policy, direct: bool): seq<string> {
    Resolve(direct, p.direct.licenseAllowlist, p.defaults.licenseAllowlist)
  }

  predicate BlockArchived(p: Policy, direct: bool) {
    Resolve(direct, p.direct.blockArchived, p.defaults.blockArchived)
  }

  function MinScorecard(p: Policy, direct: bool): U8 {
    Resolve(direct, p.direct.minScorecardScore, p.defaults.minScorecardScore)
  }

  const DEFAULT_SCRIPT_ALLOWLIST: set<string> := {
    "bcrypt", "core-js", "cypress", "electron", "esbuild", "fsevents", "msw", "node-gyp",
    "node-pre-gyp", "playwright", "protobufjs", "puppeteer", "sharp", "supabase"
  }

  predicate ScriptAllowed(p: Policy, dep: ResolvedDependency) {
    var family := FamilyOf(dep.ecosystem);
    || p.scripts.policy.AllowByDefault?
    || (family == NpmFamily && dep.name in DEFAULT_SCRIPT_ALLOWLIST)
    || AnyMatches(p.scripts.allow, family, dep.name)
  }

  /** Reasons default to block except for the three noisy kinds; the severity map overrides. */
  function SeverityFor(p: Policy, r: Reason): Severity {
    if Code(r) in p.severity then p.severity[Code(r)]
    else if r.LifecycleScriptIgnored? || r.DistTagMoved? || r.SignalUnavailable? then WarnSeverity
    else BlockSeverity
  }

  // Detectors, in the order the engine consults them

  function SourceKind(s: Source): string {
    match s
    case Registry(_) => "registry"
    case Git(_, _) => "git"
    case Tarball(_) => "tarball"
    case File(_) => "file"
    case GithubShortcut(_) => "github_shortcut"
    case Workspace => "workspace"
    case PypiArtifact(_) => "pypi"
  }

  function ExoticReasons(p: Policy, dep: ResolvedDependency): seq<Reason> {
    if p.defaults.blockExoticSubdeps && IsExotic(dep.source) then [ExoticSource(SourceKind(dep.source))] else []
  }

  /** Whole minutes from publication to `now`, rounded toward zero. */
  function ObservedMinutes(at: Instant, now: Instant): int {
    TruncDiv(now - at, NANOS_PER_MINUTE)
  }

  function AgeReasons(p: Policy, dep: ResolvedDependency, sigs: SignalSet, now: Instant): seq<Reason> {
    var required := RequiredReleaseAge(p, dep.direct);
    if required <= 0 then []
    else
      match First(sigs, IsPublishedAt)
      case None => [PublishedAtUnknown]
      case Some(s) =>
        var observed := ObservedMinutes(s.at, now);
        if observed < required then [ReleaseAgeBelowThreshold(if observed < 0 then 0 else observed, required)] else []
  }

  function ScriptReason(ctx: EvalContext, script: string): Reason {
    if ctx.ignoreScripts then LifecycleScriptIgnored(script) else DisallowedLifecycleScript(script)
  }

  function ScriptReasons(p: Policy, dep: ResolvedDependency, scripts: seq<string>, ctx: EvalContext): seq<Reason> {
    if ScriptAllowed(p, dep) then [] else Map(scripts, s => ScriptReason(ctx, s))
  }

  function LifecycleReasons(p: Policy, dep: ResolvedDependency, sigs: SignalSet, ctx: EvalContext): seq<Reason> {
    match First(sigs, IsLifecycleScripts)
    case None => []
    case Some(s) => ScriptReasons(p, dep, s.scripts, ctx)
  }

  function PublisherReasons(p: Policy, dep: ResolvedDependency, sigs: SignalSet): seq<Reason> {
    match First(sigs, IsPublisherChange)
    case Some(s) =>
      if DetectPublisherChange(p, dep.direct) then [PublisherChanged(s.previousVersion, s.previous, s.current)] else []
    case None => []
  }

  function DeprecationReasons(p: Policy, dep: ResolvedDependency, sigs: SignalSet): seq<Reason> {
    match First(sigs, IsDeprecatedVersion)
    case Some(s) => if FlagDeprecated(p, dep.direct) then [Deprecated(s.message)] else []
    case None => []
  }

  function SuspiciousReason(s: Signal): Option<Reason> {
    if s.SuspiciousScript? then Some(SuspiciousScriptFound(s.script, s.pattern, s.excerpt)) else None
  }

  function SurfaceReasons(p: Policy, dep: ResolvedDependency, sigs: SignalSet): seq<Reason> {
    match First(sigs, IsVersionSurfaceChange)
    case Some(s) =>
      if DetectSurfaceChange(p, dep.direct) && (s.addedBins != [] || s.addedScripts != [])
      then [SurfaceChanged(s.previousVersion, s.addedBins, s.addedScripts)] else []
    case None => []
  }

  function DistTagReasons(dep: ResolvedDependency, sigs: SignalSet): seq<Reason> {
    match First(sigs, IsDistTagAnomaly)
    case Some(s) => if dep.version != s.latestVersion then [DistTagMoved(s.latestVersion, s.highestPublished)] else []
    case None => []
  }

  predicate SquatAllowed(p: Policy, dep: ResolvedDependency) {
    AnyMatches(p.defaults.nameSquatAllow, FamilyOf(dep.ecosystem), dep.name)
  }

  function SquatReasons(p: Policy, dep: ResolvedDependency, sigs: SignalSet): seq<Reason> {
    match First(sigs, IsNameSquat)
    case Some(s) => if SquatAllowed(p, dep) then [] else [NameSquatted(s.style, s.target)]
    case None => []
  }

  function AccountReasons(p: Policy, dep: ResolvedDependency, sigs: SignalSet): seq<Reason> {
    var threshold := MinAccountAge(p, dep.direct);
    match First(sigs, IsMaintainerNewAccount)
    case Some(s) => if s.ageDays < threshold then [NewAccount(s.account, s.ageDays, threshold)] else []
    case None => []
  }

  function ProvenanceReasons(p: Policy, dep: ResolvedDependency, sigs: SignalSet): seq<Reason> {
    if RequireProvenance(p, dep.direct) && First(sigs, IsProvenanceClaimed).None? then [ProvenanceMissing] else []
  }

  predicate ReachesFloor(severity: string, floor: AdvisorySeverity) {
    floor != NoFloor && AdvisoryRank(AdvisoryFromSignal(severity)) >= AdvisoryRank(floor)
  }

  function AdvisoryReason(s: Signal, floor: AdvisorySeverity): Option<Reason> {
    if s.AdvisoryKnown? && ReachesFloor(s.severity, floor) then Some(Advisory(s.id, s.severity, s.source)) else None
  }

  function AdvisoryReasons(sigs: SignalSet, floor: AdvisorySeverity): seq<Reason> {
    FilterMap(sigs, s => AdvisoryReason(s, floor))
  }

  predicate LicenseListed(allowlist: seq<string>, license: string) {
    exists a :: a in allowlist && Text.Lower(a) == Text.Lower(license)
  }

  function DisallowedLicenses(allowlist: seq<string>, licenses: seq<string>): seq<string> {
    Filter(licenses, l => !LicenseListed(allowlist, l))
  }

  function LicenseReasons(p: Policy, dep: ResolvedDependency, sigs: SignalSet): seq<Reason> {
    match First(sigs, IsProjectMetadata)
    case None => []
    case Some(s) =>
      if s.licenses == [] then
        if RequireLicense(p, dep.direct) then [LicenseMissing(s.source)] else []
      else
        var allowlist := LicenseAllowlist(p, dep.direct);
        var disallowed := DisallowedLicenses(allowlist, s.licenses);
        if allowlist != [] && disallowed != [] then [LicenseDisallowed(disallowed, s.source)] else []
  }

  function ArchivedReasons(p: Policy, dep: ResolvedDependency, sigs: SignalSet): seq<Reason> {
    match First(sigs, IsProjectMetadata)
    case Some(s) => if BlockArchived(p, dep.direct) && s.archived == Some(true) then [ProjectArchived(s.source)] else []
    case None => []
  }

  function ScorecardReasons(p: Policy, dep: ResolvedDependency, sigs: SignalSet): seq<Reason> {
    var floor := MinScorecard(p, dep.direct);
    match First(sigs, IsScorecardScore)
    case Some(s) => if s.score < floor then [ScorecardBelowThreshold(s.score, floor, s.repo, s.source)] else []
    case None => []
  }

  function TrustReasons(p: Policy, dep: ResolvedDependency, sigs: SignalSet, now: Instant): seq<Reason> {
    var threshold := MinTrustScore(p, dep.direct);
    var score := TrustScore.Score(sigs, now);
    if score < threshold then [TrustScoreBelowThreshold(score, threshold)] else []
  }

  function UnavailableReason(s: Signal): Option<Reason> {
    if s.Unavailable? then Some(SignalUnavailable(s.provider, s.reason)) else None
  }

  /** Every reason, in detector order, before severities are applied. */
  function Reasons(p: Policy, dep: ResolvedDependency, sigs: SignalSet, now: Instant, ctx: EvalContext): seq<Reason> {
    OriginReasons(p, dep, sigs, now)
    + LifecycleReasons(p, dep, sigs, ctx)
    + ChangeReasons(p, dep, sigs)
    + SquatReasons(p, dep, sigs)
    + StandingReasons(p, dep, sigs, now)
  }

  function OriginReasons(p: Policy, dep: ResolvedDependency, sigs: SignalSet, now: Instant): seq<Reason> {
    ExoticReasons(p, dep) + AgeReasons(p, dep, sigs, now)
  }

  function ChangeReasons(p: Policy, dep: ResolvedDependency, sigs: SignalSet): seq<Reason> {
    PublisherReasons(p, dep, sigs)
    + DeprecationReasons(p, dep, sigs)
    + FilterMap(sigs, SuspiciousReason)
    + SurfaceReasons(p, dep, sigs)
    + DistTagReasons(dep, sigs)
  }

  function StandingReasons(p: Policy, dep: ResolvedDependency, sigs: SignalSet, now: Instant): seq<Reason> {
    AccountReasons(p, dep, sigs)
    + ProvenanceReasons(p, dep, sigs)
    + AdvisoryReasons(sigs, AdvisoryFloor(p, dep.direct))
    + LicenseReasons(p, dep, sigs)
    + ArchivedReasons(p, dep, sigs)
    + ScorecardReasons(p, dep, sigs)
    + TrustReasons(p, dep, sigs, now)
    + FilterMap(sigs, UnavailableReason)
  }

  // Severities and the decision

  function SeverityMap(p: Policy): Reason -> Severity {
    r => SeverityFor(p, r)
  }

  function Select(rs: seq<Reason>, severityOf: Reason -> Severity, severity: Severity): seq<Reason> {
    if rs == [] then []
    else (if severityOf(rs[0]) == severity then [rs[0]] else []) + Select(rs[1..], severityOf, severity)
  }

  /** Blocking reasons first, then warnings; suppressed reasons vanish. */
  function ConcludeBy(rs: seq<Reason>, severityOf: Reason -> Severity): Decision {
    var blocks, warns := Select(rs, severityOf, BlockSeverity), Select(rs, severityOf, WarnSeverity);
    if blocks != [] then Block(blocks + warns)
    else if warns != [] then Warn(warns)
    else Allow
  }

  function Conclude(p: Policy, rs: seq<Reason>): Decision {
    ConcludeBy(rs, SeverityMap(p))
  }

  function Evaluate(p: Policy, dep: ResolvedDependency, sigs: SignalSet, now: Instant, ctx: EvalContext): Decision {
    if dep.source.Workspace? then Allow else Conclude(p, Reasons(p, dep, sigs, now, ctx))
  }

  // The engine: each step pushes one detector's reasons

  method EvaluateWith(p: Policy, dep: ResolvedDependency, sigs: SignalSet, now: Instant, ctx: EvalContext)
    returns (d: Decision)
    ensures d == Evaluate(p, dep, sigs, now, ctx)
  {
    if dep.source.Workspace? {
      return Allow;
    }
    var reasons := PushExoticAndAge(p, dep, sigs, now);
    reasons := PushLifecycle(p, dep, sigs, ctx, reasons);
    reasons := PushChanges(p, dep, sigs, reasons);
    reasons := PushSquat(p, dep, sigs, reasons);
    reasons := PushStanding(p, dep, sigs, now, reasons);
    d := ApplySeverities(reasons, SeverityMap(p));
  }

  method PushChanges(p: Policy, dep: ResolvedDependency, sigs: SignalSet, base: seq<Reason>)
    returns (reasons: seq<Reason>)
    ensures reasons == base + ChangeReasons(p, dep, sigs)
  {
    reasons := PushPublisherAndDeprecation(p, dep, sigs, base);
    reasons := PushMatching(sigs, SuspiciousReason, reasons);
    reasons := PushSurfaceAndTag(p, dep, sigs, reasons);
    AssociateFive(base, PublisherReasons(p, dep, sigs), DeprecationReasons(p, dep, sigs),
      FilterMap(sigs, SuspiciousReason), SurfaceReasons(p, dep, sigs), DistTagReasons(dep, sigs));
  }

  method PushStanding(p: Policy, dep: ResolvedDependency, sigs: SignalSet, now: Instant, base: seq<Reason>)
    returns (reasons: seq<Reason>)
    ensures reasons == base + StandingReasons(p, dep, sigs, now)
  {
    reasons := PushAccount(p, dep, sigs, base);
    reasons := PushProvenanceAndAdvisories(p, dep, sigs, reasons);
    reasons := PushMetadata(p, dep, sigs, reasons);
    reasons := PushScores(p, dep, sigs, now, reasons);
    reasons := PushMatching(sigs, UnavailableReason, reasons);
    AssociateEight(base, AccountReasons(p, dep, sigs), ProvenanceReasons(p, dep, sigs),
      AdvisoryReasons(sigs, AdvisoryFloor(p, dep.direct)), LicenseReasons(p, dep, sigs), ArchivedReasons(p, dep, sigs),
      ScorecardReasons(p, dep, sigs), TrustReasons(p, dep, sigs, now), FilterMap(sigs, UnavailableReason));
  }

  method PushExoticAndAge(p: Policy, dep: ResolvedDependency, sigs: SignalSet, now: Instant)
    returns (reasons: seq<Reason>)
    ensures reasons == ExoticReasons(p, dep) + AgeReasons(p, dep, sigs, now)
  {
    reasons := [];
    if p.defaults.blockExoticSubdeps && IsExotic(dep.source) {
      reasons := reasons + [ExoticSource(SourceKind(dep.source))];
    }
    var required := RequiredReleaseAge(p, dep.direct);
    if required > 0 {
      match First(sigs, IsPublishedAt) {
        case Some(s) =>
          var observed := ObservedMinutes(s.at, now);
          if observed < required {
            reasons := reasons + [ReleaseAgeBelowThreshold(if observed < 0 then 0 else observed, required)];
          }
        case None =>
          reasons := reasons + [PublishedAtUnknown];
      }
    }
  }

  method PushPublisherAndDeprecation(p: Policy, dep: ResolvedDependency, sigs: SignalSet, base: seq<Reason>)
    returns (reasons: seq<Reason>)
    ensures reasons == base + PublisherReasons(p, dep, sigs) + DeprecationReasons(p, dep, sigs)
  {
    reasons := base;
    if DetectPublisherChange(p, dep.direct) {
      match First(sigs, IsPublisherChange) {
        case Some(s) => reasons := reasons + [PublisherChanged(s.previousVersion, s.previous, s.current)];
        case None =>
      }
    }
    if FlagDeprecated(p, dep.direct) {
      match First(sigs, IsDeprecatedVersion) {
        case Some(s) => reasons := reasons + [Deprecated(s.message)];
        case None =>
      }
    }
  }

  method PushSurfaceAndTag(p: Policy, dep: ResolvedDependency, sigs: SignalSet, base: seq<Reason>)
    returns (reasons: seq<Reason>)
    ensures reasons == base + SurfaceReasons(p, dep, sigs) + DistTagReasons(dep, sigs)
  {
    reasons := base;
    if DetectSurfaceChange(p, dep.direct) {
      match First(sigs, IsVersionSurfaceChange) {
        case Some(s) =>
          if s.addedBins != [] || s.addedScripts != [] {
            reasons := reasons + [SurfaceChanged(s.previousVersion, s.addedBins, s.addedScripts)];
          }
        case None =>
      }
    }
    match First(sigs, IsDistTagAnomaly) {
      case Some(s) =>
        if dep.version != s.latestVersion {
          reasons := reasons + [DistTagMoved(s.latestVersion, s.highestPublished)];
        }
      case None =>
    }
  }

  method PushSquat(p: Policy, dep: ResolvedDependency, sigs: SignalSet, base: seq<Reason>)
    returns (reasons: seq<Reason>)
    ensures reasons == base + SquatReasons(p, dep, sigs)
  {
    reasons := base;
    match First(sigs, IsNameSquat) {
      case Some(s) =>
        if !SquatAllowed(p, dep) {
          reasons := reasons + [NameSquatted(s.style, s.target)];
        }
      case None =>
    }
  }

  method PushAccount(p: Policy, dep: ResolvedDependency, sigs: SignalSet, base: seq<Reason>)
    returns (reasons: seq<Reason>)
    ensures reasons == base + AccountReasons(p, dep, sigs)
  {
    reasons := base;
    var thresholdDays := MinAccountAge(p, dep.direct);
    if thresholdDays > 0 {
      match First(sigs, IsMaintainerNewAccount) {
        case Some(s) =>
          if s.ageDays < thresholdDays {
            reasons := reasons + [NewAccount(s.account, s.ageDays, thresholdDays)];
          }
        case None =>
      }
    }
  }

  method PushMetadata(p: Policy, dep: ResolvedDependency, sigs: SignalSet, base: seq<Reason>)
    returns (reasons: seq<Reason>)
    ensures reasons == base + LicenseReasons(p, dep, sigs) + ArchivedReasons(p, dep, sigs)
  {
    reasons := base;
    match First(sigs, IsProjectMetadata) {
      case Some(s) =>
        if RequireLicense(p, dep.direct) && s.licenses == [] {
          reasons := reasons + [LicenseMissing(s.source)];
        }
        var allowlist := LicenseAllowlist(p, dep.direct);
        if allowlist != [] && s.licenses != [] {
          var disallowed := DisallowedLicenses(allowlist, s.licenses);
          if disallowed != [] {
            reasons := reasons + [LicenseDisallowed(disallowed, s.source)];
          }
        }
        if BlockArchived(p, dep.direct) && s.archived == Some(true) {
          reasons := reasons + [ProjectArchived(s.source)];
        }
      case None =>
    }
  }

  method PushScores(p: Policy, dep: ResolvedDependency, sigs: SignalSet, now: Instant, base: seq<Reason>)
    returns (reasons: seq<Reason>)
    ensures reasons == base + ScorecardReasons(p, dep, sigs) + TrustReasons(p, dep, sigs, now)
  {
    reasons := base;
    var scorecardFloor := MinScorecard(p, dep.direct);
    if scorecardFloor > 0 {
      match First(sigs, IsScorecardScore) {
        case Some(s) =>
          if s.score < scorecardFloor {
            reasons := reasons + [ScorecardBelowThreshold(s.score, scorecardFloor, s.repo, s.source)];
          }
        case None =>
      }
    }
    var trustThreshold := MinTrustScore(p, dep.direct);
    if trustThreshold > 0 {
      var score := TrustScore.ComputeAt(sigs, now);
      if score.value < trustThreshold {
        reasons := reasons + [TrustScoreBelowThreshold(score.value, trustThreshold)];
      }
    }
  }

  method PushLifecycle(p: Policy, dep: ResolvedDependency, sigs: SignalSet, ctx: EvalContext, base: seq<Reason>)
    returns (reasons: seq<Reason>)
    ensures reasons == base + LifecycleReasons(p, dep, sigs, ctx)
  {
    reasons := base;
    match First(sigs, IsLifecycleScripts) {
      case Some(s) =>
        var scripts := s.scripts;
        for i := 0 to |scripts|
          invariant reasons == base + ScriptReasons(p, dep, scripts[..i], ctx)
        {
          assert scripts[..i + 1] == scripts[..i] + [scripts[i]];
          if !ScriptAllowed(p, dep) {
            if ctx.ignoreScripts {
              reasons := reasons + [LifecycleScriptIgnored(scripts[i])];
            } else {
              reasons := reasons + [DisallowedLifecycleScript(scripts[i])];
            }
          }
        }
        assert scripts[..|scripts|] == scripts;
      case None =>
    }
  }

  method PushMatching(sigs: SignalSet, f: Signal -> Option<Reason>, base: seq<Reason>) returns (reasons: seq<Reason>)
    ensures reasons == base + FilterMap(sigs, f)
  {
    reasons := base;
    for i := 0 to |sigs|
      invariant reasons + FilterMap(sigs[i..], f) == base + FilterMap(sigs, f)
    {
      assert sigs[i..][1..] == sigs[i + 1..];
      match f(sigs[i]) {
        case Some(r) => reasons := reasons + [r];
        case None =>
      }
    }
  }

  method PushProvenanceAndAdvisories(p: Policy, dep: ResolvedDependency, sigs: SignalSet, base: seq<Reason>)
    returns (reasons: seq<Reason>)
    ensures reasons == base + ProvenanceReasons(p, dep, sigs) + AdvisoryReasons(sigs, AdvisoryFloor(p, dep.direct))
  {
    reasons := base;
    if RequireProvenance(p, dep.direct) && First(sigs, IsProvenanceClaimed).None? {
      reasons := reasons + [ProvenanceMissing];
    }
    var floor := AdvisoryFloor(p, dep.direct);
    if floor != NoFloor {
      reasons := PushMatching(sigs, s => AdvisoryReason(s, floor), reasons);
    } else {
      NoAdvisories(sigs);
    }
  }

  lemma {:induction false} NoAdvisories(sigs: SignalSet)
    ensures AdvisoryReasons(sigs, NoFloor) == []
  {
    if sigs != [] {
      NoAdvisories(sigs[1..]);
    }
  }

  lemma SelectStep(rs: seq<Reason>, i: nat, severityOf: Reason -> Severity, severity: Severity, selected: seq<Reason>)
    requires i < |rs|
    ensures severityOf(rs[i]) == severity ==>
      selected + Select(rs[i..], severityOf, severity) == (selected + [rs[i]]) + Select(rs[i + 1..], severityOf, severity)
    ensures severityOf(rs[i]) != severity ==>
      Select(rs[i..], severityOf, severity) == Select(rs[i + 1..], severityOf, severity)
  {
    assert rs[i..][1..] == rs[i + 1..];
    Associate(selected, [rs[i]], Select(rs[i + 1..], severityOf, severity));
  }

  method ApplySeverities(rs: seq<Reason>, severityOf: Reason -> Severity) returns (d: Decision)
    ensures d == ConcludeBy(rs, severityOf)
  {
    var warns: seq<Reason>, blocks: seq<Reason> := [], [];
    for i := 0 to |rs|
      invariant warns + Select(rs[i..], severityOf, WarnSeverity) == Select(rs, severityOf, WarnSeverity)
      invariant blocks + Select(rs[i..], severityOf, BlockSeverity) == Select(rs, severityOf, BlockSeverity)
    {
      SelectStep(rs, i, severityOf, WarnSeverity, warns);
      SelectStep(rs, i, severityOf, BlockSeverity, blocks);
      match severityOf(rs[i]) {
        case AllowSeverity =>
        case WarnSeverity => warns := warns + [rs[i]];
        case BlockSeverity => blocks := blocks + [rs[i]];
      }
    }
    if blocks != [] {
      return Block(blocks + warns);
    } else if warns != [] {
      return Warn(warns);
    } else {
      return Allow;
    }
  }
}
