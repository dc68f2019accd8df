/** Turns the blocked packages of a run into a suggested policy addition. */
module Doctor {
  import opened Wrappers
  import opened Ordering
  import opened Dependency
  import opened Decision
  import opened Policy
  import opened Results

  // Collecting

  /** What the walk over the results accumulates, in ordered maps keyed by package name. */
  datatype Buckets = Buckets(
    scripts: map<string, set<string>>,
    squats: map<string, string>,
    distTagBlockSeen: bool,
    signalUnavailableBlockSeen: bool)

  const EMPTY := Buckets(map[], map[], false, false)

  function ScriptsOf(b: Buckets, name: string): set<string> {
    if name in b.scripts then b.scripts[name] else {}
  }

  function Note(b: Buckets, name: string, r: Reason): Buckets {
    match r
    case DisallowedLifecycleScript(script) => b.(scripts := b.scripts[name := ScriptsOf(b, name) + {script}])
    case NameSquatted(_, target) => b.(squats := b.squats[name := target])
    case DistTagMoved(_, _) => b.(distTagBlockSeen := true)
    case SignalUnavailable(_, _) => b.(signalUnavailableBlockSeen := true)
    case _ => b
  }

  /** A reason held against a package name. */
  type Finding = (string, Reason)

  function NoteAll(findings: seq<Finding>): Buckets {
    if findings == [] then EMPTY
    else
      var last := findings[|findings| - 1];
      Note(NoteAll(findings[..|findings| - 1]), last.0, last.1)
  }

  function Against(name: string, rs: seq<Reason>): (fs: seq<Finding>)
    ensures |fs| == |rs| && forall i :: 0 <= i < |fs| ==> fs[i] == (name, rs[i])
  {
    seq(|rs|, i requires 0 <= i < |rs| => (name, rs[i]))
  }

  /** Only blocked packages are walked; warnings are counted but suggest nothing. */
  function Findings(results: seq<DepResult>): seq<Finding> {
    if results == [] then []
    else
      var r := results[|results| - 1];
      Findings(results[..|results| - 1]) + if r.decision.Block? then Against(r.dep.name, r.decision.reasons) else []
  }

  datatype Suggestion = Suggestion(
    lifecycleScripts: seq<(string, seq<string>)>,
    nameSquats: seq<(string, string)>,
    distTagBlockSeen: bool,
    signalUnavailableBlockSeen: bool,
    totalPackages: nat,
    totalBlocks: nat,
    totalWarns: nat)

  function SortedNames(names: set<string>): seq<string> {
    StrOrder();
    SortedSet(names, StrLe)
  }

  function ScriptList(b: Buckets): (l: seq<(string, seq<string>)>)
    ensures |l| == |SortedNames(b.scripts.Keys)|
  {
    var names := SortedNames(b.scripts.Keys);
    seq(|names|, i requires 0 <= i < |names| => (names[i], SortedNames(ScriptsOf(b, names[i]))))
  }

  function SquatList(b: Buckets): (l: seq<(string, string)>)
    ensures |l| == |SortedNames(b.squats.Keys)|
  {
    var names := SortedNames(b.squats.Keys);
    seq(|names|, i requires 0 <= i < |names| => (names[i], if names[i] in b.squats then b.squats[names[i]] else ""))
  }

  function Suggest(results: seq<DepResult>): Suggestion {
    var b := NoteAll(Findings(results));
    Suggestion(ScriptList(b), SquatList(b), b.distTagBlockSeen, b.signalUnavailableBlockSeen,
      |results|, CountRank(results, 2), CountRank(results, 1))
  }

  lemma FindingsSnoc(results: seq<DepResult>, i: nat)
    requires i < |results|
    ensures Findings(results[..i + 1]) ==
      var r := results[i];
      if r.decision.Block? then Findings(results[..i]) + Against(r.dep.name, r.decision.reasons)
      else Findings(results[..i])
  {
    assert results[..i + 1][..i] == results[..i];
    assert Findings(results[..i]) + [] == Findings(results[..i]);
  }

  method BuildSuggestion(results: seq<DepResult>) returns (s: Suggestion)
    ensures s == Suggest(results)
  {
    var b := EMPTY;
    var totalBlocks, totalWarns := 0, 0;
    for i := 0 to |results|
      invariant b == NoteAll(Findings(results[..i]))
      invariant totalBlocks == CountRank(results[..i], 2) && totalWarns == CountRank(results[..i], 1)
    {
      CountRankSnoc(results, i, 1);
      CountRankSnoc(results, i, 2);
      FindingsSnoc(results, i);
      match results[i].decision {
        case Block(reasons) =>
          totalBlocks := totalBlocks + 1;
          b := NoteBlock(b, results[i].dep.name, reasons, Findings(results[..i]));
        case Warn(_) => totalWarns := totalWarns + 1;
        case Allow =>
      }
    }
    assert results[..|results|] == results;
    s := Suggestion(ScriptList(b), SquatList(b), b.distTagBlockSeen, b.signalUnavailableBlockSeen,
      |results|, totalBlocks, totalWarns);
  }

  /** The inner loop of the walk: the reasons of one blocked package. */
  method NoteBlock(b: Buckets, name: string, reasons: seq<Reason>, ghost earlier: seq<Finding>) returns (b': Buckets)
    requires b == NoteAll(earlier)
    ensures b' == NoteAll(earlier + Against(name, reasons))
  {
    b' := b;
    assert earlier + Against(name, reasons[..0]) == earlier;
    for j := 0 to |reasons|
      invariant b' == NoteAll(earlier + Against(name, reasons[..j]))
    {
      NoteSnoc(earlier + Against(name, reasons[..j]), (name, reasons[j]));
      assert earlier + Against(name, reasons[..j + 1]) == earlier + Against(name, reasons[..j]) + [(name, reasons[j])];
      b' := Note(b', name, reasons[j]);
    }
    assert reasons[..|reasons|] == reasons;
  }

  // What is collected

  lemma NoteSnoc(findings: seq<Finding>, f: Finding)
    ensures NoteAll(findings + [f]) == Note(NoteAll(findings), f.0, f.1)
  {
    assert (findings + [f])[..|findings|] == findings;
  }

  /** A blocked result for `name` carries the reason `r`. */
  ghost predicate Blames(results: seq<DepResult>, name: string, r: Reason) {
    exists x :: x in results && x.dep.name == name && x.decision.Block? && r in x.decision.reasons
  }

  lemma {:induction false} FindingsExact(results: seq<DepResult>, name: string, r: Reason)
    ensures (name, r) in Findings(results) <==> Blames(results, name, r)
  {
    if results != [] {
      var init, last := results[..|results| - 1], results[|results| - 1];
      FindingsExact(init, name, r);
      assert results == init + [last];
      if last.decision.Block? {
        var fs := Against(last.dep.name, last.decision.reasons);
        assert (name, r) in fs <==> last.dep.name == name && r in last.decision.reasons by {
          if last.dep.name == name && r in last.decision.reasons {
            var i :| 0 <= i < |last.decision.reasons| && last.decision.reasons[i] == r;
            assert fs[i] == (name, r);
          }
        }
      }
    }
  }

  /** The buckets hold exactly the actionable findings. */
  ghost predicate Holds(b: Buckets, fs: seq<Finding>) {
    HoldsScripts(b, fs) && HoldsSquats(b.squats, fs) && HoldsFlags(b, fs)
  }

  ghost predicate HoldsScripts(b: Buckets, fs: seq<Finding>) {
    && (forall n, s :: s in ScriptsOf(b, n) <==> (n, DisallowedLifecycleScript(s)) in fs)
    && (forall n :: n in b.scripts ==> b.scripts[n] != {})
  }

  ghost predicate HoldsSquats(squats: map<string, string>, fs: seq<Finding>) {
    && (forall i :: 0 <= i < |fs| && fs[i].1.NameSquatted? ==> fs[i].0 in squats)
    && (forall n :: n in squats ==> exists i :: LastSquat(fs, n, squats[n], i))
  }

  /** The last name-squat finding against `name` is at `i`, and names `target`. */
  ghost predicate LastSquat(fs: seq<Finding>, name: string, target: string, i: int) {
    && 0 <= i < |fs| && fs[i].0 == name && fs[i].1.NameSquatted? && fs[i].1.target == target
    && forall j :: i < j < |fs| && fs[j].0 == name ==> !fs[j].1.NameSquatted?
  }

  ghost predicate HoldsFlags(b: Buckets, fs: seq<Finding>) {
    && (b.distTagBlockSeen <==> exists f :: f in fs && f.1.DistTagMoved?)
    && (b.signalUnavailableBlockSeen <==> exists f :: f in fs && f.1.SignalUnavailable?)
  }

  lemma {:induction false} NoteAllExact(fs: seq<Finding>)
    ensures Holds(NoteAll(fs), fs)
  {
    if fs != [] {
      var init, last := fs[..|fs| - 1], fs[|fs| - 1];
      NoteAllExact(init);
      assert fs == init + [last];
      NoteScripts(NoteAll(init), init, last);
      NoteSquats(NoteAll(init), init, last);
      NoteFlags(NoteAll(init), init, last);
    }
  }

  lemma NoteScripts(b: Buckets, fs: seq<Finding>, f: Finding)
    requires HoldsScripts(b, fs)
    ensures HoldsScripts(Note(b, f.0, f.1), fs + [f])
  {
    var b' := Note(b, f.0, f.1);
    forall n, s ensures s in ScriptsOf(b', n) <==> (n, DisallowedLifecycleScript(s)) in fs + [f] {
      assert s in ScriptsOf(b, n) <==> (n, DisallowedLifecycleScript(s)) in fs;
    }
  }

  lemma NoteSquats(b: Buckets, fs: seq<Finding>, f: Finding)
    requires HoldsSquats(b.squats, fs)
    ensures HoldsSquats(Note(b, f.0, f.1).squats, fs + [f])
  {
    if f.1.NameSquatted? {
      InsertSquat(b.squats, fs, f);
    } else {
      forall n | n in b.squats ensures exists i :: LastSquat(fs + [f], n, b.squats[n], i) {
        var i :| LastSquat(fs, n, b.squats[n], i);
        LastSquatStays(fs, f, n, b.squats[n], i);
      }
    }
  }

  /** A later insert under the same name replaces the target. */
  lemma InsertSquat(squats: map<string, string>, fs: seq<Finding>, f: Finding)
    requires HoldsSquats(squats, fs) && f.1.NameSquatted?
    ensures HoldsSquats(squats[f.0 := f.1.target], fs + [f])
  {
    var after, all := squats[f.0 := f.1.target], fs + [f];
    forall n | n in after ensures exists i :: LastSquat(all, n, after[n], i) {
      if n == f.0 {
        assert LastSquat(all, n, f.1.target, |fs|);
      } else {
        var i :| LastSquat(fs, n, squats[n], i);
        LastSquatStays(fs, f, n, squats[n], i);
      }
    }
  }

  lemma LastSquatStays(fs: seq<Finding>, f: Finding, name: string, target: string, i: int)
    requires LastSquat(fs, name, target, i) && !(f.0 == name && f.1.NameSquatted?)
    ensures LastSquat(fs + [f], name, target, i)
  {
  }

  lemma NoteFlags(b: Buckets, fs: seq<Finding>, f: Finding)
    requires HoldsFlags(b, fs)
    ensures HoldsFlags(Note(b, f.0, f.1), fs + [f])
  {
    assert f in fs + [f];
    assert forall g :: g in fs ==> g in fs + [f];
  }

  // Merging the suggestion

  function ParseAll(names: seq<string>): Result<seq<EcosystemMatcher>, MatcherError> {
    if names == [] then Ok([])
    else
      match ParseMatcher(names[0])
      case Err(e) => Err(e)
      case Ok(m) =>
        match ParseAll(names[1..])
        case Err(e) => Err(e)
        case Ok(ms) => Ok([m] + ms)
  }

  function Overrides(s: Suggestion): map<string, Severity> {
    (if s.distTagBlockSeen then map["dist-tag-anomaly" := WarnSeverity] else map[])
    + (if s.signalUnavailableBlockSeen then map["signal-unavailable" := WarnSeverity] else map[])
  }

  /** The policy after the suggested entries are added to it; a name that does not parse is an error. */
  function Merge(p: Policy, s: Suggestion): Result<Policy, MatcherError> {
    match ParseAll(Names(s.nameSquats))
    case Err(e) => Err(e)
    case Ok(squatAllow) =>
      match ParseAll(Names(s.lifecycleScripts))
      case Err(e) => Err(e)
      case Ok(scriptAllow) =>
        Ok(p.(defaults := p.defaults.(nameSquatAllow := p.defaults.nameSquatAllow + squatAllow),
              scripts := p.scripts.(allow := p.scripts.allow + scriptAllow),
              severity := p.severity + Overrides(s)))
  }

  function Names<T>(l: seq<(string, T)>): seq<string> {
    seq(|l|, i requires 0 <= i < |l| => l[i].0)
  }

  /** A suggested entry allows the package it was suggested for exactly when its name is plain. */
  lemma SuggestionEffective(name: string, family: RegistryFamily)
    ensures (ParseMatcher(name).Ok? && Matches(ParseMatcher(name).value, family, name)) <==> PlainName(name)
  {
    match IndexOf(Head(name), ':')
    case None =>
    case Some(i) => assert |name[i + 1..]| < |name|;
  }

  lemma {:induction false} ParseAllPlain(names: seq<string>)
    requires forall n :: n in names ==> PlainName(n)
    ensures ParseAll(names).Ok?
    ensures forall m :: m in ParseAll(names).value <==> m.family.None? && m.name in names
  {
    if names != [] {
      assert names == [names[0]] + names[1..];
      assert PlainName(names[0]);
      ParseAllPlain(names[1..]);
      var rest := ParseAll(names[1..]).value;
      assert ParseAll(names) == Ok([EcosystemMatcher(None, names[0])] + rest);
    }
  }
}
