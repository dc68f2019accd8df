/** The facts providers attach to a dependency, and the accessors the policy reads them through. */
module Signal {
  import opened Wrappers

  datatype Signal =
    | PublishedAt(at: Instant)
    | LifecycleScripts(scripts: seq<string>)
    | PublisherChange(previousVersion: string, previous: string, current: string)
    | DeprecatedVersion(message: Option<string>)
    | SuspiciousScript(script: string, pattern: string, excerpt: string)
    | VersionSurfaceChange(previousVersion: string, addedBins: seq<string>, addedScripts: seq<string>)
    | DistTagAnomaly(latestVersion: string, highestPublished: string)
    | NameSquat(style: string, target: string)
    | MaintainerNewAccount(account: string, ageDays: U32)
    | AdvisoryKnown(id: string, severity: string, summary: string, source: string)
    | ProjectMetadata(licenses: seq<string>, archived: Option<bool>, source: string)
    | ProvenanceClaimed(bundleUrl: string)
    | ScorecardScore(score: U8, repo: string, source: string)
    | Unavailable(provider: string, reason: string)

  type SignalSet = seq<Signal>

  // One recogniser per kind that the policy looks up

  predicate IsPublishedAt(s: Signal) { s.PublishedAt? }

  predicate IsLifecycleScripts(s: Signal) { s.LifecycleScripts? }

  predicate IsPublisherChange(s: Signal) { s.PublisherChange? }

  predicate IsDeprecatedVersion(s: Signal) { s.DeprecatedVersion? }

  predicate IsVersionSurfaceChange(s: Signal) { s.VersionSurfaceChange? }

  predicate IsDistTagAnomaly(s: Signal) { s.DistTagAnomaly? }

  predicate IsNameSquat(s: Signal) { s.NameSquat? }

  predicate IsMaintainerNewAccount(s: Signal) { s.MaintainerNewAccount? }

  predicate IsProvenanceClaimed(s: Signal) { s.ProvenanceClaimed? }

  predicate IsProjectMetadata(s: Signal) { s.ProjectMetadata? }

  predicate IsScorecardScore(s: Signal) { s.ScorecardScore? }

  /** The first signal a recogniser accepts; later ones of the same kind are never consulted. */
  function First(sigs: SignalSet, kind: Signal -> bool): (r: Option<Signal>)
    ensures r.Some? ==> r.value in sigs && kind(r.value)
    ensures r.None? ==> forall s :: s in sigs ==> !kind(s)
  {
    if sigs == [] then None
    else if kind(sigs[0]) then Some(sigs[0])
    else
      assert sigs == [sigs[0]] + sigs[1..];
      First(sigs[1..], kind)
  }

  /** What was found first stays first when more signals are appended. */
  lemma {:induction false} FirstAppend(s: SignalSet, t: SignalSet, kind: Signal -> bool)
    ensures First(s + t, kind) == if First(s, kind).Some? then First(s, kind) else First(t, kind)
  {
    if s == [] {
      assert s + t == t;
    } else {
      assert (s + t)[1..] == s[1..] + t;
      FirstAppend(s[1..], t, kind);
    }
  }

  function KindName(s: Signal): string {
    match s
    case PublishedAt(_) => "published_at"
    case LifecycleScripts(_) => "lifecycle_scripts"
    case PublisherChange(_, _, _) => "publisher_change"
    case DeprecatedVersion(_) => "deprecated_version"
    case SuspiciousScript(_, _, _) => "suspicious_script"
    case VersionSurfaceChange(_, _, _) => "version_surface_change"
    case DistTagAnomaly(_, _) => "dist_tag_anomaly"
    case NameSquat(_, _) => "name_squat"
    case MaintainerNewAccount(_, _) => "maintainer_new_account"
    case ProvenanceClaimed(_) => "provenance_claimed"
    case AdvisoryKnown(_, _, _, _) => "advisory_known"
    case ProjectMetadata(_, _, _) => "project_metadata"
    case ScorecardScore(_, _, _) => "scorecard_score"
    case Unavailable(_, _) => "unavailable"
  }

  predicate SameSignalKind(s: Signal, t: Signal) {
    && s.PublishedAt? == t.PublishedAt? && s.LifecycleScripts? == t.LifecycleScripts?
    && s.PublisherChange? == t.PublisherChange? && s.DeprecatedVersion? == t.DeprecatedVersion?
    && s.SuspiciousScript? == t.SuspiciousScript? && s.VersionSurfaceChange? == t.VersionSurfaceChange?
    && s.DistTagAnomaly? == t.DistTagAnomaly? && s.NameSquat? == t.NameSquat?
    && s.MaintainerNewAccount? == t.MaintainerNewAccount? && s.ProvenanceClaimed? == t.ProvenanceClaimed?
    && s.AdvisoryKnown? == t.AdvisoryKnown? && s.ProjectMetadata? == t.ProjectMetadata?
    && s.ScorecardScore? == t.ScorecardScore? && s.Unavailable? == t.Unavailable?
  }

  /** A recorded kind name tells the kind. */
  lemma KindNameExact(s: Signal, t: Signal)
    ensures KindName(s) == KindName(t) <==> SameSignalKind(s, t)
  {
    var a, b := KindName(s), KindName(t);
    assert a == b ==> |a| == |b| && a[0] == b[0] && a[1] == b[1];
  }
}
