/** How far the doctor's suggestion reaches: which suggestions work as a whole, and what a second run still says. */
module DoctorReach {
  import opened Wrappers
  import opened Sequences
  import opened Dependency
  import opened Decision
  import opened Policy
  import opened PolicyProperties
  import opened Results
  import opened Doctor
  import opened DoctorProperties

  // Names that are not read back as themselves

  /** After the merge no blocked package keeps a finding that the suggestion answers. */
  ghost predicate FullyAnswered(q: Policy, results: seq<DepResult>, now: Instant, ctx: EvalContext) {
    forall x, r :: x in results && x.decision.Block? && r in ReasonsOf(Evaluate(q, x.dep, x.signals, now, ctx)) ==>
      !Answered(r)
  }

  /** The suggestion can be merged and does its work exactly when every suggested name is plain. */
  lemma MergeAnswersExact(p: Policy, results: seq<DepResult>, now: Instant, ctx: EvalContext)
    requires Faithful(p, results, now, ctx)
    ensures Readable(Suggest(results)) <==>
      Merge(p, Suggest(results)).Ok? && FullyAnswered(Merge(p, Suggest(results)).value, results, now, ctx)
  {
    if Readable(Suggest(results)) {
      var q := MergedPolicy(p, Suggest(results));
      forall x, r | x in results && x.decision.Block? && r in ReasonsOf(Evaluate(q, x.dep, x.signals, now, ctx))
        ensures !Answered(r)
      {
        MergeAnswers(p, results, now, ctx, x, r);
      }
    } else if Merge(p, Suggest(results)).Ok? {
      UnreadableUnanswered(p, results, now, ctx, Merge(p, Suggest(results)).value);
    }
  }

  lemma UnreadableUnanswered(p: Policy, results: seq<DepResult>, now: Instant, ctx: EvalContext, q: Policy)
    requires Faithful(p, results, now, ctx) && !Readable(Suggest(results)) && Merge(p, Suggest(results)) == Ok(q)
    ensures !FullyAnswered(q, results, now, ctx)
  {
    var x, r := UnreadableFinding(results);
    FaithfulAt(p, results, now, ctx, x);
    FindingStays(p, Suggest(results), q, x, now, ctx, r);
    NotFullyAnswered(q, results, now, ctx, x, r);
  }

  lemma FaithfulAt(p: Policy, results: seq<DepResult>, now: Instant, ctx: EvalContext, x: DepResult)
    requires Faithful(p, results, now, ctx) && x in results
    ensures x.decision == Evaluate(p, x.dep, x.signals, now, ctx)
  {
  }

  lemma NotFullyAnswered(q: Policy, results: seq<DepResult>, now: Instant, ctx: EvalContext, x: DepResult, r: Reason)
    requires x in results && x.decision.Block? && Answered(r)
    requires r in ReasonsOf(Evaluate(q, x.dep, x.signals, now, ctx))
    ensures !FullyAnswered(q, results, now, ctx)
  {
  }

  /** The finding behind the longest suggested name that is not plain, in the bucket that holds it. */
  ghost predicate Unreadable(s: Suggestion, x: DepResult, r: Reason) {
    || (r.DisallowedLifecycleScript? && Longest(Names(s.lifecycleScripts), x.dep.name))
    || (r.NameSquatted? && Longest(Names(s.nameSquats), x.dep.name))
  }

  lemma UnreadableFinding(results: seq<DepResult>) returns (x: DepResult, r: Reason)
    requires !Readable(Suggest(results))
    ensures x in results && x.decision.Block? && r in ReasonsOf(x.decision) && Unreadable(Suggest(results), x, r)
  {
    var s := Suggest(results);
    if n :| n in Names(s.lifecycleScripts) && !PlainName(n) {
      var name := LongestUnreadable(Names(s.lifecycleScripts), n);
      x, r := BlamedForScript(results, name);
    } else {
      var n :| n in Names(s.nameSquats) && !PlainName(n);
      var name := LongestUnreadable(Names(s.nameSquats), n);
      x, r := BlamedForSquat(results, name);
    }
  }

  /** No name that would be read as a prefixed selector is longer. */
  ghost predicate Longest(names: seq<string>, name: string) {
    name in names && !PlainName(name) && forall n :: n in names && !PlainName(n) ==> |n| <= |name|
  }

  lemma {:induction false} LongestUnreadable(names: seq<string>, n: string) returns (name: string)
    requires n in names && !PlainName(n)
    ensures Longest(names, name)
    decreases |names|
  {
    var rest := names[1..];
    assert names == [names[0]] + rest;
    if m :| m in rest && !PlainName(m) {
      name := LongestUnreadable(rest, m);
      if !PlainName(names[0]) && |names[0]| > |name| {
        name := names[0];
      }
    } else {
      name := n;
    }
  }

  /** Every entry was read from one of the names. */
  lemma {:induction false} ParsedFrom(names: seq<string>, m: EcosystemMatcher) returns (n: string)
    requires ParseAll(names).Ok? && m in ParseAll(names).value
    ensures n in names && ParseMatcher(n) == Ok(m)
  {
    if ParseMatcher(names[0]) == Ok(m) {
      n := names[0];
    } else {
      n := ParsedFrom(names[1..], m);
    }
  }

  /** No entry read from the names matches the longest name that is not plain: it would come from a longer one. */
  lemma LongestUnmatched(names: seq<string>, name: string, family: RegistryFamily)
    requires ParseAll(names).Ok? && Longest(names, name)
    ensures !AnyMatches(ParseAll(names).value, family, name)
  {
    forall m | m in ParseAll(names).value ensures !Matches(m, family, name) {
      var n := ParsedFrom(names, m);
      ParsePrintRoundTrip(n);
      PrintParseRoundTrip(m);
      if m.family.Some? {
        PrefixedNotPlain(m.family.value, m.name);
      }
    }
  }

  lemma PrefixedNotPlain(f: RegistryFamily, name: string)
    ensures !PlainName(FamilyName(f) + ":" + name)
  {
    ParsePrefixed(f, name);
    var s := FamilyName(f) + ":" + name;
    assert PlainName(s) ==> ParseMatcher(s) == Ok(EcosystemMatcher(None, s));
  }

  lemma MatchesInEither(a: seq<EcosystemMatcher>, b: seq<EcosystemMatcher>, family: RegistryFamily, name: string)
    requires !AnyMatches(b, family, name)
    ensures AnyMatches(a + b, family, name) <==> AnyMatches(a, family, name)
  {
    if AnyMatches(a, family, name) {
      var m :| m in a && Matches(m, family, name);
      assert m in a + b;
    }
  }

  /** What a merge that reads every name does to the policy. */
  lemma MergedParts(p: Policy, s: Suggestion, q: Policy)
    requires Merge(p, s) == Ok(q)
    ensures ParseAll(Names(s.nameSquats)).Ok? && ParseAll(Names(s.lifecycleScripts)).Ok?
    ensures q.defaults.nameSquatAllow == p.defaults.nameSquatAllow + ParseAll(Names(s.nameSquats)).value
    ensures q.scripts.policy == p.scripts.policy
    ensures q.scripts.allow == p.scripts.allow + ParseAll(Names(s.lifecycleScripts)).value
    ensures q.severity == p.severity + Overrides(s)
  {
  }

  lemma AnsweredSeverity(p: Policy, s: Suggestion, q: Policy, r: Reason)
    requires q.severity == p.severity + Overrides(s) && Answered(r)
    ensures SeverityFor(q, r) == SeverityFor(p, r)
  {
    CodesApart(r);
  }

  lemma ScriptsStayDenied(p: Policy, s: Suggestion, q: Policy, dep: ResolvedDependency)
    requires Merge(p, s) == Ok(q) && Longest(Names(s.lifecycleScripts), dep.name)
    ensures ScriptAllowed(q, dep) == ScriptAllowed(p, dep)
  {
    MergedParts(p, s, q);
    var added, family := ParseAll(Names(s.lifecycleScripts)).value, FamilyOf(dep.ecosystem);
    LongestUnmatched(Names(s.lifecycleScripts), dep.name, family);
    MatchesInEither(p.scripts.allow, added, family, dep.name);
  }

  lemma SquatsStayDenied(p: Policy, s: Suggestion, q: Policy, dep: ResolvedDependency)
    requires Merge(p, s) == Ok(q) && Longest(Names(s.nameSquats), dep.name)
    ensures SquatAllowed(q, dep) == SquatAllowed(p, dep)
  {
    MergedParts(p, s, q);
    var added, family := ParseAll(Names(s.nameSquats)).value, FamilyOf(dep.ecosystem);
    LongestUnmatched(Names(s.nameSquats), dep.name, family);
    MatchesInEither(p.defaults.nameSquatAllow, added, family, dep.name);
  }

  lemma BlamedForScript(results: seq<DepResult>, name: string) returns (x: DepResult, r: Reason)
    requires name in Names(Suggest(results).lifecycleScripts)
    ensures x in results && x.dep.name == name && x.decision.Block?
    ensures r in ReasonsOf(x.decision) && r.DisallowedLifecycleScript?
  {
    ScriptListExact(results);
    var script :| BlamedScript(results, name, script);
    r := DisallowedLifecycleScript(script);
    x :| x in results && x.dep.name == name && x.decision.Block? && r in x.decision.reasons;
  }

  lemma BlamedForSquat(results: seq<DepResult>, name: string) returns (x: DepResult, r: Reason)
    requires name in Names(Suggest(results).nameSquats)
    ensures x in results && x.dep.name == name && x.decision.Block?
    ensures r in ReasonsOf(x.decision) && r.NameSquatted?
  {
    SquatListExact(results);
    assert SquatBlamed(results, name);
    var style, target :| BlamedSquat(results, name, style, target);
    r := NameSquatted(style, target);
    x :| x in results && x.dep.name == name && x.decision.Block? && r in x.decision.reasons;
  }

  lemma FindingStays(p: Policy, s: Suggestion, q: Policy, x: DepResult, now: Instant, ctx: EvalContext, r: Reason)
    requires Merge(p, s) == Ok(q) && Unreadable(s, x, r)
    requires x.decision == Evaluate(p, x.dep, x.signals, now, ctx) && r in ReasonsOf(x.decision)
    ensures r in ReasonsOf(Evaluate(q, x.dep, x.signals, now, ctx))
  {
    if r.DisallowedLifecycleScript? {
      ScriptsStayDenied(p, s, q, x.dep);
    } else {
      SquatsStayDenied(p, s, q, x.dep);
    }
    StillReported(p, s, q, x, now, ctx, r);
  }

  /** A reported reason was raised, and not suppressed. */
  lemma ReportedFires(p: Policy, x: DepResult, now: Instant, ctx: EvalContext, r: Reason)
    requires x.decision == Evaluate(p, x.dep, x.signals, now, ctx) && r in ReasonsOf(x.decision)
    ensures !x.dep.source.Workspace? && Fires(p, x.dep, x.signals, now, ctx, r) && SeverityFor(p, r) != AllowSeverity
  {
    ListedReasons(Reasons(p, x.dep, x.signals, now, ctx), SeverityMap(p), r);
    ReasonsExact(p, x.dep, x.signals, now, ctx, r);
  }

  lemma FiredReported(q: Policy, x: DepResult, now: Instant, ctx: EvalContext, r: Reason)
    requires !x.dep.source.Workspace? && Fires(q, x.dep, x.signals, now, ctx, r) && SeverityFor(q, r) != AllowSeverity
    ensures r in ReasonsOf(Evaluate(q, x.dep, x.signals, now, ctx))
  {
    ReasonsExact(q, x.dep, x.signals, now, ctx, r);
    ListedReasons(Reasons(q, x.dep, x.signals, now, ctx), SeverityMap(q), r);
  }

  lemma StillReported(p: Policy, s: Suggestion, q: Policy, x: DepResult, now: Instant, ctx: EvalContext, r: Reason)
    requires Merge(p, s) == Ok(q) && Answered(r)
    requires x.decision == Evaluate(p, x.dep, x.signals, now, ctx) && r in ReasonsOf(x.decision)
    requires r.DisallowedLifecycleScript? ==> ScriptAllowed(q, x.dep) == ScriptAllowed(p, x.dep)
    requires r.NameSquatted? ==> SquatAllowed(q, x.dep) == SquatAllowed(p, x.dep)
    ensures r in ReasonsOf(Evaluate(q, x.dep, x.signals, now, ctx))
  {
    MergedParts(p, s, q);
    ReportedFires(p, x, now, ctx, r);
    AnsweredSeverity(p, s, q, r);
    FiredReported(q, x, now, ctx, r);
  }

  // The flags of a second run

  /** Blocked for something the suggestion neither answers nor turns into a warning. */
  ghost predicate Lingers(p: Policy, x: DepResult) {
    x.decision.Block? && exists r :: r in x.decision.reasons && Firm(p, r)
  }

  ghost predicate Firm(p: Policy, r: Reason) {
    SeverityFor(p, r) == BlockSeverity && !Answered(r) && !r.DistTagMoved? && !r.SignalUnavailable?
  }

  /** Reasons that are not answered are reported after the merge exactly when they were before. */
  lemma OthersReported(p: Policy, results: seq<DepResult>, now: Instant, ctx: EvalContext, x: DepResult, r: Reason)
    requires Faithful(p, results, now, ctx) && Readable(Suggest(results)) && x in results && Other(r)
    ensures r in ReasonsOf(Evaluate(MergedPolicy(p, Suggest(results)), x.dep, x.signals, now, ctx)) <==>
      r in ReasonsOf(x.decision)
  {
    var q := MergedPolicy(p, Suggest(results));
    var before, after := ReasonsOf(x.decision), ReasonsOf(Evaluate(q, x.dep, x.signals, now, ctx));
    MergeKeepsOthers(p, results, now, ctx, x.dep, x.signals);
    FilterMembers(before, Other, r);
    FilterMembers(after, Other, r);
    assert r in Filter(before, Other) <==> r in multiset(Filter(before, Other));
    assert r in Filter(after, Other) <==> r in multiset(Filter(after, Other));
  }

  /** Some reported reason blocks exactly when the decision is a block. */
  lemma BlockedBy(q: Policy, x: DepResult, now: Instant, ctx: EvalContext)
    ensures var after := Evaluate(q, x.dep, x.signals, now, ctx);
      after.Block? <==> exists r :: r in ReasonsOf(after) && SeverityFor(q, r) == BlockSeverity
  {
    if !x.dep.source.Workspace? {
      var rs := Reasons(q, x.dep, x.signals, now, ctx);
      RankIsMaximum(rs, SeverityMap(q), 2);
      var listed := ReasonsOf(ConcludeBy(rs, SeverityMap(q)));
      if r :| r in rs && SeverityRank(SeverityMap(q)(r)) >= 2 {
        ListedReasons(rs, SeverityMap(q), r);
        assert r in listed && SeverityFor(q, r) == BlockSeverity;
      }
      if r :| r in listed && SeverityFor(q, r) == BlockSeverity {
        ListedReasons(rs, SeverityMap(q), r);
        assert SeverityRank(SeverityMap(q)(r)) >= 2;
      }
    }
  }

  /** A package stays blocked after the merge exactly when it lingers. */
  lemma StaysBlockedExact(p: Policy, results: seq<DepResult>, now: Instant, ctx: EvalContext, x: DepResult)
    requires Faithful(p, results, now, ctx) && Readable(Suggest(results)) && x in results
    ensures Evaluate(MergedPolicy(p, Suggest(results)), x.dep, x.signals, now, ctx).Block? <==> Lingers(p, x)
  {
    var s := Suggest(results);
    var q := MergedPolicy(p, s);
    var after := Evaluate(q, x.dep, x.signals, now, ctx);
    BlockedBy(q, x, now, ctx);
    if after.Block? {
      var r :| r in ReasonsOf(after) && SeverityFor(q, r) == BlockSeverity;
      StillBlocked(p, results, now, ctx, x, r);
      OthersReported(p, results, now, ctx, x, r);
      BlockingIsFirm(p, results, x, r);
      assert Firm(p, r);
    }
    if Lingers(p, x) {
      var r :| r in x.decision.reasons && Firm(p, r);
      OthersReported(p, results, now, ctx, x, r);
      MergedSeverity(p, s, r);
    }
  }

  /** What still blocks a blocked package after the merge is neither answered nor flagged. */
  lemma BlockingIsFirm(p: Policy, results: seq<DepResult>, x: DepResult, r: Reason)
    requires Readable(Suggest(results)) && x in results && x.decision.Block? && r in x.decision.reasons && !Answered(r)
    requires SeverityFor(MergedPolicy(p, Suggest(results)), r) == BlockSeverity
    ensures Firm(p, r)
  {
    MergedSeverity(p, Suggest(results), r);
    FlagsExact(results);
    assert Blames(results, x.dep.name, r);
  }

  ghost predicate LingersWith(p: Policy, results: seq<DepResult>, kind: Reason -> bool) {
    exists x, r :: x in results && Lingers(p, x) && r in x.decision.reasons && kind(r)
  }

  predicate IsDistTagMoved(r: Reason) { r.DistTagMoved? }

  predicate IsSignalUnavailable(r: Reason) { r.SignalUnavailable? }

  /**
   The flags of a second run are exact too: one is set precisely when a package that stays blocked
   for something firm also reports such a reason. So a second run never sets a flag the first did not.
   */
  lemma SecondRunFlags(p: Policy, results: seq<DepResult>, now: Instant, ctx: EvalContext)
    requires Faithful(p, results, now, ctx) && Readable(Suggest(results))
    ensures var first, again := Suggest(results), Suggest(Reevaluate(MergedPolicy(p, Suggest(results)), results, now, ctx));
      && (again.distTagBlockSeen <==> LingersWith(p, results, IsDistTagMoved))
      && (again.signalUnavailableBlockSeen <==> LingersWith(p, results, IsSignalUnavailable))
      && (again.distTagBlockSeen ==> first.distTagBlockSeen)
      && (again.signalUnavailableBlockSeen ==> first.signalUnavailableBlockSeen)
  {
    FlagsByKind(results);
    FlagsByKind(Reevaluate(MergedPolicy(p, Suggest(results)), results, now, ctx));
    BlamedAgain(p, results, now, ctx, IsDistTagMoved);
    BlamedAgain(p, results, now, ctx, IsSignalUnavailable);
    LingersBlamed(p, results, IsDistTagMoved);
    LingersBlamed(p, results, IsSignalUnavailable);
  }

  ghost predicate BlamesKind(results: seq<DepResult>, kind: Reason -> bool) {
    exists n, r :: Blames(results, n, r) && kind(r)
  }

  lemma FlagsByKind(results: seq<DepResult>)
    ensures Suggest(results).distTagBlockSeen <==> BlamesKind(results, IsDistTagMoved)
    ensures Suggest(results).signalUnavailableBlockSeen <==> BlamesKind(results, IsSignalUnavailable)
  {
    FlagsExact(results);
  }

  lemma LingersBlamed(p: Policy, results: seq<DepResult>, kind: Reason -> bool)
    ensures LingersWith(p, results, kind) ==> BlamesKind(results, kind)
  {
    if x, r :| x in results && Lingers(p, x) && r in x.decision.reasons && kind(r) {
      assert Blames(results, x.dep.name, r);
    }
  }

  lemma BlamedAgain(p: Policy, results: seq<DepResult>, now: Instant, ctx: EvalContext, kind: Reason -> bool)
    requires Faithful(p, results, now, ctx) && Readable(Suggest(results))
    requires forall r :: kind(r) ==> Other(r)
    ensures BlamesKind(Reevaluate(MergedPolicy(p, Suggest(results)), results, now, ctx), kind) <==>
      LingersWith(p, results, kind)
  {
    var q := MergedPolicy(p, Suggest(results));
    if n, r :| Blames(Reevaluate(q, results, now, ctx), n, r) && kind(r) {
      var i := BlamedResult(q, results, now, ctx, n, r);
      StaysBlockedExact(p, results, now, ctx, results[i]);
      OthersReported(p, results, now, ctx, results[i], r);
      assert results[i] in results;
    }
    if x, r :| x in results && Lingers(p, x) && r in x.decision.reasons && kind(r) {
      StaysBlockedExact(p, results, now, ctx, x);
      OthersReported(p, results, now, ctx, x, r);
      BlamedAfterwards(q, results, now, ctx, x, r);
    }
  }

  lemma BlamedAfterwards(q: Policy, results: seq<DepResult>, now: Instant, ctx: EvalContext, x: DepResult, r: Reason)
    requires x in results
    requires var after := Evaluate(q, x.dep, x.signals, now, ctx); after.Block? && r in after.reasons
    ensures Blames(Reevaluate(q, results, now, ctx), x.dep.name, r)
  {
    var after := Reevaluate(q, results, now, ctx);
    var i :| 0 <= i < |results| && results[i] == x;
    assert after[i] in after;
  }
}
