/** Folds a signal set into one 0..100 score with an ordered breakdown of every applied delta. */
module TrustScore {
  import opened Wrappers
  import opened Sequences
  import opened Signal

  const NANOS_PER_DAY := 86_400_000_000_000

  const FRESHNESS_WINDOW_DAYS := 14

  const FRESHNESS_WINDOW := FRESHNESS_WINDOW_DAYS * NANOS_PER_DAY

  datatype Contribution = Contribution(signal: string, delta: int)

  datatype TrustScore = TrustScore(value: U8, contributions: seq<Contribution>)

  /** Published within the freshness window, and not in the future. */
  predicate Fresh(at: Instant, now: Instant) {
    0 <= now - at < FRESHNESS_WINDOW
  }

  function Clamp(x: int, lo: int, hi: int): int
    requires lo <= hi
  {
    if x < lo then lo else if x > hi then hi else x
  }

  function Delta(s: Signal, now: Instant): (d: int)
    ensures -50 <= d <= 10
  {
    match s
    case PublishedAt(at) => if Fresh(at, now) then -10 else 0
    case LifecycleScripts(_) => -15
    case PublisherChange(_, _, _) => -10
    case DeprecatedVersion(_) => -10
    case SuspiciousScript(_, _, _) => -35
    case VersionSurfaceChange(_, _, _) => -5
    case DistTagAnomaly(_, _) => -15
    case NameSquat(_, _) => -40
    case MaintainerNewAccount(_, _) => -20
    case ProvenanceClaimed(_) => 10
    case ProjectMetadata(_, archived, _) => if archived == Some(true) then -10 else 0
    case AdvisoryKnown(_, severity, _, _) =>
      if severity == "critical" then -50
      else if severity == "high" then -35
      else if severity == "medium" then -15
      else if severity == "low" then -5
      else -10
    case Unavailable(_, _) => -5
    case ScorecardScore(score, _, _) => Clamp(score - 5, -5, 5) * 2
  }

  /** The recorded breakdown: every non-zero delta, in signal order. */
  function Contributions(sigs: SignalSet, now: Instant): seq<Contribution> {
    if sigs == [] then []
    else
      (if Delta(sigs[0], now) == 0 then [] else [Contribution(KindName(sigs[0]), Delta(sigs[0], now))])
      + Contributions(sigs[1..], now)
  }

  function SumOf(cs: seq<Contribution>): int {
    if cs == [] then 0 else cs[0].delta + SumOf(cs[1..])
  }

  /** Sum of the deltas of every signal, weightless ones included. */
  function Total(sigs: SignalSet, now: Instant): int {
    if sigs == [] then 0 else Delta(sigs[0], now) + Total(sigs[1..], now)
  }

  function Score(sigs: SignalSet, now: Instant): U8 {
    Clamp(100 + Total(sigs, now), 0, 100)
  }

  method ComputeAt(sigs: SignalSet, now: Instant) returns (r: TrustScore)
    ensures r.contributions == Contributions(sigs, now)
    ensures r.value == Score(sigs, now)
    ensures var sum := SumOf(r.contributions); r.value == if sum < -100 then 0 else if sum > 0 then 100 else 100 + sum
  {
    var running := 100;
    var contributions := [];
    for i := 0 to |sigs|
      invariant contributions + Contributions(sigs[i..], now) == Contributions(sigs, now)
      invariant running == 100 + SumOf(contributions)
      invariant running + Total(sigs[i..], now) == 100 + Total(sigs, now)
    {
      ScoreStep(sigs, i, now, contributions);
      var delta := Delta(sigs[i], now);
      if delta != 0 {
        running := running + delta;
        contributions := Record(contributions, Contribution(KindName(sigs[i]), delta));
      }
    }
    return TrustScore(Clamp(running, 0, 100), contributions);
  }

  lemma ScoreStep(sigs: SignalSet, i: nat, now: Instant, recorded: seq<Contribution>)
    requires i < |sigs|
    ensures Total(sigs[i..], now) == Delta(sigs[i], now) + Total(sigs[i + 1..], now)
    ensures recorded + Contributions(sigs[i..], now) ==
      (if Delta(sigs[i], now) == 0 then recorded else recorded + [Contribution(KindName(sigs[i]), Delta(sigs[i], now))])
      + Contributions(sigs[i + 1..], now)
  {
    assert sigs[i..][1..] == sigs[i + 1..];
    Associate(recorded, [Contribution(KindName(sigs[i]), Delta(sigs[i], now))], Contributions(sigs[i + 1..], now));
    assert recorded + ([] + Contributions(sigs[i + 1..], now)) == recorded + Contributions(sigs[i + 1..], now);
  }

  function Record(cs: seq<Contribution>, c: Contribution): (r: seq<Contribution>)
    ensures r == cs + [c] && SumOf(r) == SumOf(cs) + c.delta
  {
    SumAppend(cs, [c]);
    cs + [c]
  }

  lemma {:induction false} SumAppend(a: seq<Contribution>, b: seq<Contribution>)
    ensures SumOf(a + b) == SumOf(a) + SumOf(b)
  {
    if a == [] {
      assert a + b == b;
    } else {
      assert (a + b)[1..] == a[1..] + b;
      SumAppend(a[1..], b);
    }
  }

  /** The recorded breakdown explains the score: skipped signals weigh nothing. */
  lemma {:induction false} ContributionsExplainScore(sigs: SignalSet, now: Instant)
    ensures SumOf(Contributions(sigs, now)) == Total(sigs, now)
    ensures forall c :: c in Contributions(sigs, now) ==> c.delta != 0
  {
    if sigs != [] {
      ContributionsExplainScore(sigs[1..], now);
      var head := if Delta(sigs[0], now) == 0 then [] else [Contribution(KindName(sigs[0]), Delta(sigs[0], now))];
      SumAppend(head, Contributions(sigs[1..], now));
    }
  }

  lemma {:induction false} TotalAppend(s: SignalSet, t: SignalSet, now: Instant)
    ensures Total(s + t, now) == Total(s, now) + Total(t, now)
  {
    if s == [] {
      assert s + t == t;
    } else {
      assert (s + t)[1..] == s[1..] + t;
      TotalAppend(s[1..], t, now);
    }
  }

  lemma TotalRemoveOne(s: SignalSet, i: nat, now: Instant)
    requires i < |s|
    ensures Total(s, now) == Delta(s[i], now) + Total(s[..i] + s[i + 1..], now)
  {
    assert s == s[..i] + s[i..];
    assert s[i..][1..] == s[i + 1..];
    TotalAppend(s[..i], s[i..], now);
    TotalAppend(s[..i], s[i + 1..], now);
  }

  /** The score does not depend on the order in which providers reported. */
  lemma {:induction false} ScoreOrderFree(s: SignalSet, t: SignalSet, now: Instant)
    requires multiset(s) == multiset(t)
    ensures Total(s, now) == Total(t, now)
    ensures Score(s, now) == Score(t, now)
  {
    SameLength(s, t);
    if s != [] {
      assert s[0] in multiset(t);
      var i :| 0 <= i < |t| && t[i] == s[0];
      SameAfterRemoval(s, t, 0, i);
      assert s[..0] + s[1..] == s[1..];
      ScoreOrderFree(s[1..], t[..i] + t[i + 1..], now);
      TotalRemoveOne(t, i, now);
    }
  }

  /** The breakdown names the kind and the weight of every signal that weighs anything, and of no other. */
  lemma {:induction false} BreakdownExact(sigs: SignalSet, now: Instant, c: Contribution)
    ensures c in Contributions(sigs, now) <==>
      exists s :: s in sigs && c.signal == KindName(s) && c.delta == Delta(s, now) != 0
  {
    if sigs != [] {
      BreakdownExact(sigs[1..], now, c);
      assert sigs == [sigs[0]] + sigs[1..];
    }
  }

  // The weights

  const CRITICAL := AdvisoryKnown("", "critical", "", "")

  /** What each signal adds to a score that a critical advisory has brought down to 50. */
  lemma WeightsExact(s: Signal, now: Instant)
    ensures Score([CRITICAL], now) == 50
    ensures Score([CRITICAL, s], now) ==
      match s
      case PublishedAt(at) => if at <= now < at + 14 * 86_400 * 1_000_000_000 then 40 else 50
      case LifecycleScripts(_) => 35
      case PublisherChange(_, _, _) => 40
      case DeprecatedVersion(_) => 40
      case SuspiciousScript(_, _, _) => 15
      case VersionSurfaceChange(_, _, _) => 45
      case DistTagAnomaly(_, _) => 35
      case NameSquat(_, _) => 10
      case MaintainerNewAccount(_, _) => 30
      case ProvenanceClaimed(_) => 60
      case ProjectMetadata(_, archived, _) => if archived == Some(true) then 40 else 50
      case AdvisoryKnown(_, grade, _, _) =>
        if grade == "critical" then 0 else if grade == "high" then 15 else if grade == "medium" then 35
        else if grade == "low" then 45 else 40
      case Unavailable(_, _) => 45
      case ScorecardScore(score, _, _) => if score <= 10 then 40 + 2 * score else 60
  {
    assert [CRITICAL, s][1..] == [s] && [s][1..] == [] && [CRITICAL][1..] == [];
    assert Total([s], now) == Delta(s, now);
    assert Total([CRITICAL], now) == -50;
    assert Total([CRITICAL, s], now) == -50 + Delta(s, now);
  }

  // The 32-bit accumulator

  predicate FitsI32(x: int) {
    -0x8000_0000 <= x < 0x8000_0000
  }

  /** Every partial sum of the scoring loop fits the accumulator. */
  ghost predicate NeverOverflows(sigs: SignalSet, now: Instant) {
    forall k :: 0 <= k <= |sigs| ==> FitsI32(100 + Total(sigs[..k], now))
  }

  lemma {:induction false} TotalBounds(sigs: SignalSet, now: Instant)
    ensures -50 * |sigs| <= Total(sigs, now) <= 10 * |sigs|
  {
    if sigs != [] {
      TotalBounds(sigs[1..], now);
    }
  }

  function Repeat(s: Signal, n: nat): (r: SignalSet)
    ensures |r| == n
  {
    if n == 0 then [] else [s] + Repeat(s, n - 1)
  }

  lemma {:induction false} TotalRepeat(s: Signal, n: nat, now: Instant, delta: int)
    requires delta == Delta(s, now)
    ensures Total(Repeat(s, n), now) == n * delta
  {
    if n > 0 {
      TotalRepeat(s, n - 1, now, delta);
      assert Repeat(s, n)[1..] == Repeat(s, n - 1);
    }
  }

  /** The exact capacity of the accumulator: 42,949,674 signals always fit, one more may not. */
  lemma AccumulatorCapacity(n: nat, now: Instant)
    ensures (forall sigs: SignalSet :: |sigs| == n ==> NeverOverflows(sigs, now)) <==> n <= 42_949_674
  {
    if n <= 42_949_674 {
      forall sigs: SignalSet, k | |sigs| == n && 0 <= k <= |sigs|
        ensures FitsI32(100 + Total(sigs[..k], now))
      {
        TotalBounds(sigs[..k], now);
      }
    } else {
      var worst := Repeat(AdvisoryKnown("", "critical", "", ""), n);
      TotalRepeat(AdvisoryKnown("", "critical", "", ""), n, now, -50);
      assert worst[..n] == worst;
      assert !NeverOverflows(worst, now);
    }
  }

  // Aging

  /** Signals whose publication instant lies after `now`. */
  predicate FutureDated(s: Signal, now: Instant) {
    s.PublishedAt? && s.at > now
  }

  /** How many publications lie within the freshness window at `t`. */
  function FreshCount(sigs: SignalSet, t: Instant): nat {
    if sigs == [] then 0
    else (if sigs[0].PublishedAt? && Fresh(sigs[0].at, t) then 1 else 0) + FreshCount(sigs[1..], t)
  }

  /** The deltas that do not depend on the clock. */
  function TimelessTotal(sigs: SignalSet): int {
    if sigs == [] then 0
    else (if sigs[0].PublishedAt? then 0 else Delta(sigs[0], 0)) + TimelessTotal(sigs[1..])
  }

  lemma {:induction false} TotalByParts(sigs: SignalSet, t: Instant)
    ensures Total(sigs, t) == TimelessTotal(sigs) - 10 * FreshCount(sigs, t)
  {
    if sigs != [] {
      TotalByParts(sigs[1..], t);
    }
  }

  /**
   The condition under which time only helps: at the publication instant of every future-dated signal
   no more publications are fresh than now, or enough positive evidence makes up for them, or there is
   no score left to lose.
   */
  ghost predicate AgesWell(sigs: SignalSet, now: Instant) {
    forall s :: s in sigs && FutureDated(s, now) ==>
      || FreshCount(sigs, s.at) <= FreshCount(sigs, now)
      || TimelessTotal(sigs) >= 10 * FreshCount(sigs, s.at)
      || 100 + TimelessTotal(sigs) <= 10 * FreshCount(sigs, now)
  }

  /** One clause of that condition says that the score does not fall at one instant. */
  lemma ScoreKeepsUp(sigs: SignalSet, now: Instant, later: Instant)
    ensures Score(sigs, later) >= Score(sigs, now) <==>
      || FreshCount(sigs, later) <= FreshCount(sigs, now)
      || TimelessTotal(sigs) >= 10 * FreshCount(sigs, later)
      || 100 + TimelessTotal(sigs) <= 10 * FreshCount(sigs, now)
  {
    TotalByParts(sigs, now);
    TotalByParts(sigs, later);
  }

  lemma {:induction false} TotalPointwise(sigs: SignalSet, t1: Instant, t2: Instant)
    requires forall s :: s in sigs ==> Delta(s, t1) <= Delta(s, t2)
    ensures Total(sigs, t1) <= Total(sigs, t2)
  {
    if sigs != [] {
      TotalPointwise(sigs[1..], t1, t2);
    }
  }

  /** The last publication instant not after `t`, or `floor` when that is later. */
  function LastPublished(sigs: SignalSet, floor: Instant, t: Instant): (m: Instant)
    requires floor <= t
    ensures floor <= m <= t
    ensures m == floor || exists s :: s in sigs && s.PublishedAt? && s.at == m
    ensures forall s :: s in sigs && s.PublishedAt? && s.at <= t ==> s.at <= m
  {
    if sigs == [] then floor
    else
      var m := LastPublished(sigs[1..], floor, t);
      assert forall s :: s in sigs ==> s == sigs[0] || s in sigs[1..];
      if sigs[0].PublishedAt? && m < sigs[0].at <= t then sigs[0].at else m
  }

  /** Once trusted, always trusted: the score never falls as time passes exactly when the signals age well. */
  lemma AgingExact(sigs: SignalSet, now: Instant)
    ensures (forall later :: later >= now ==> Score(sigs, later) >= Score(sigs, now)) <==> AgesWell(sigs, now)
  {
    if AgesWell(sigs, now) {
      forall later | later >= now ensures Score(sigs, later) >= Score(sigs, now) {
        AgingScore(sigs, now, later);
      }
    } else {
      var s := FallsAt(sigs, now);
    }
  }

  /** Where the condition fails, a publication instant at which the score is lower. */
  lemma FallsAt(sigs: SignalSet, now: Instant) returns (s: Signal)
    requires !AgesWell(sigs, now)
    ensures s in sigs && FutureDated(s, now) && Score(sigs, s.at) < Score(sigs, now)
  {
    s :| s in sigs && FutureDated(s, now)
      && FreshCount(sigs, s.at) > FreshCount(sigs, now)
      && TimelessTotal(sigs) < 10 * FreshCount(sigs, s.at)
      && 100 + TimelessTotal(sigs) > 10 * FreshCount(sigs, now);
    ScoreKeepsUp(sigs, now, s.at);
  }

  lemma AgingScore(sigs: SignalSet, now: Instant, later: Instant)
    requires AgesWell(sigs, now) && now <= later
    ensures Score(sigs, later) >= Score(sigs, now)
  {
    var m := LastPublished(sigs, now, later);
    forall s | s in sigs ensures Delta(s, m) <= Delta(s, later) {}
    TotalPointwise(sigs, m, later);
    if m != now {
      var s :| s in sigs && s.PublishedAt? && s.at == m;
      assert FutureDated(s, now);
      ScoreKeepsUp(sigs, now, m);
    }
  }

  /** Signals published by `now` age well, whatever else is recorded. */
  lemma PastPublicationsAgeWell(sigs: SignalSet, now: Instant)
    requires forall s :: s in sigs && s.PublishedAt? ==> s.at <= now
    ensures AgesWell(sigs, now)
  {
  }

  /** A single future-dated publication lowers the score later: the stated intent has this exception. */
  lemma FutureDatedScoreFalls()
    ensures Score([PublishedAt(10)], 0) == 100 && Score([PublishedAt(10)], 10) == 90
  {
    assert Total([PublishedAt(10)], 0) == 0;
    assert Total([PublishedAt(10)], 10) == -10;
  }
}
