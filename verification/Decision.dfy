/** Machine-readable reasons, their severities, and the decision built from them. */
module Decision {
  import opened Wrappers

  datatype Reason =
    | ReleaseAgeBelowThreshold(observedMinutes: int, requiredMinutes: int)
    | ExoticSource(kind: string)
    | DisallowedLifecycleScript(script: string)
    | LifecycleScriptIgnored(script: string)
    | PublishedAtUnknown
    | PublisherChanged(previousVersion: string, previous: string, current: string)
    | Deprecated(message: Option<string>)
    | SuspiciousScriptFound(script: string, pattern: string, excerpt: string)
    | SurfaceChanged(previousVersion: string, addedBins: seq<string>, addedScripts: seq<string>)
    | DistTagMoved(latestVersion: string, highestPublished: string)
    | NameSquatted(style: string, target: string)
    | NewAccount(account: string, ageDays: U32, thresholdDays: U32)
    | ProvenanceMissing
    | Advisory(id: string, severity: string, source: string)
    | LicenseMissing(source: string)
    | LicenseDisallowed(licenses: seq<string>, source: string)
    | ProjectArchived(source: string)
    | ScorecardBelowThreshold(score: U8, threshold: U8, repo: string, source: string)
    | TrustScoreBelowThreshold(score: U8, threshold: U8)
    | SignalUnavailable(provider: string, reason: string)

  function Code(r: Reason): string {
    match r
    case ReleaseAgeBelowThreshold(_, _) => "release-age-below-threshold"
    case ExoticSource(_) => "exotic-source"
    case DisallowedLifecycleScript(_) => "disallowed-lifecycle-script"
    case LifecycleScriptIgnored(_) => "lifecycle-script-ignored"
    case PublishedAtUnknown => "published-at-unknown"
    case PublisherChanged(_, _, _) => "publisher-change"
    case Deprecated(_) => "deprecated-version"
    case SuspiciousScriptFound(_, _, _) => "suspicious-script"
    case SurfaceChanged(_, _, _) => "version-surface-change"
    case DistTagMoved(_, _) => "dist-tag-anomaly"
    case NameSquatted(_, _) => "name-squat"
    case NewAccount(_, _, _) => "maintainer-new-account"
    case ProvenanceMissing => "provenance-missing"
    case Advisory(_, _, _) => "advisory-known"
    case LicenseMissing(_) => "license-missing"
    case LicenseDisallowed(_, _) => "license-disallowed"
    case ProjectArchived(_) => "project-archived"
    case ScorecardBelowThreshold(_, _, _, _) => "scorecard-below-threshold"
    case TrustScoreBelowThreshold(_, _) => "trust-score-below-threshold"
    case SignalUnavailable(_, _) => "signal-unavailable"
  }

  datatype Severity = AllowSeverity | WarnSeverity | BlockSeverity

  function SeverityRank(s: Severity): nat {
    match s
    case AllowSeverity => 0
    case WarnSeverity => 1
    case BlockSeverity => 2
  }

  datatype Decision =
    | Allow
    | Warn(reasons: seq<Reason>)
    | Block(reasons: seq<Reason>)

  /** How severe a decision is: allow, then warn, then block. */
  function Rank(d: Decision): nat {
    match d
    case Allow => 0
    case Warn(_) => 1
    case Block(_) => 2
  }

  function ReasonsOf(d: Decision): seq<Reason> {
    match d
    case Allow => []
    case Warn(rs) => rs
    case Block(rs) => rs
  }

  function Label(d: Decision): string {
    match d
    case Allow => "allow"
    case Warn(_) => "warn"
    case Block(_) => "block"
  }
}
