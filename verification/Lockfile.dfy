/** The deterministic lock of a run: canonical rows, an identity digest, and verification by diff. */
module Lockfile {
  import opened Wrappers
  import opened Sequences
  import opened Ordering
  import opened Dependency
  import opened Signal
  import opened Decision
  import opened Results

  const LOCK_SCHEMA_VERSION: nat := 2

  datatype LockDecision = LockDecision(
    name: string,
    version: string,
    ecosystem: Option<Ecosystem>,
    direct: bool,
    source: string,
    decision: string,
    reasons: seq<Reason>,
    signalKinds: seq<string>)

  datatype Summary = Summary(total: nat, allow: nat, warn: nat, block: nat)

  /** Everything that identifies a lock; the generation time is not part of it. */
  datatype Identity = Identity(
    schemaVersion: nat,
    toolName: string,
    toolVersion: string,
    adapter: string,
    lockfile: string,
    lockfileDigest: string,
    policyDigest: string,
    summary: Summary,
    decisions: seq<LockDecision>)

  datatype Lock = Lock(identity: Identity, generatedAt: Instant)

  /** What a lock records about the inputs of its run. */
  datatype Inputs = Inputs(
    adapter: string, lockfile: string, lockfileDigest: string, policyDigest: string, toolVersion: string)

  // Rows

  function LockSourceKind(s: Source): string {
    match s
    case Registry(_) => "registry"
    case Git(_, _) => "git"
    case GithubShortcut(_) => "github"
    case Tarball(_) => "tarball"
    case File(_) => "file"
    case Workspace => "workspace"
    case PypiArtifact(_) => "pypi"
  }

  predicate ReasonLe(a: Reason, b: Reason) {
    StrLe(Code(a), Code(b))
  }

  predicate RowLe(a: LockDecision, b: LockDecision) {
    StrLe(a.name, b.name) && (a.name == b.name ==> StrLe(a.version, b.version))
  }

  function BuildRow(e: DepResult): LockDecision {
    LockDecision(e.dep.name, e.dep.version, Some(e.dep.ecosystem), e.dep.direct, LockSourceKind(e.dep.source),
      Label(e.decision), Sort(ReasonsOf(e.decision), ReasonLe), SortDedup(Map(e.signals, KindName)))
  }

  function Rows(entries: seq<DepResult>): seq<LockDecision> {
    Sort(Map(entries, BuildRow), RowLe)
  }

  function CountLabel(rows: seq<LockDecision>, outcome: string): nat {
    if rows == [] then 0
    else (if rows[0].decision == outcome then 1 else 0) + CountLabel(rows[1..], outcome)
  }

  function Summarise(rows: seq<LockDecision>): Summary {
    Summary(|rows|, CountLabel(rows, "allow"), CountLabel(rows, "warn"), CountLabel(rows, "block"))
  }

  function BuildLock(inputs: Inputs, entries: seq<DepResult>, generatedAt: Instant): Lock {
    var rows := Rows(entries);
    Lock(
      Identity(LOCK_SCHEMA_VERSION, "installguard", inputs.toolVersion, inputs.adapter, inputs.lockfile,
        inputs.lockfileDigest, inputs.policyDigest, Summarise(rows), rows),
      generatedAt)
  }

  method Build(inputs: Inputs, entries: seq<DepResult>, generatedAt: Instant) returns (lock: Lock)
    ensures lock == BuildLock(inputs, entries, generatedAt)
  {
    var decisions := Map(entries, BuildRow);
    decisions := Sort(decisions, RowLe);
    var summary := Summary(|decisions|, 0, 0, 0);
    for i := 0 to |decisions|
      invariant summary.total == |decisions|
      invariant summary.allow + CountLabel(decisions[i..], "allow") == CountLabel(decisions, "allow")
      invariant summary.warn + CountLabel(decisions[i..], "warn") == CountLabel(decisions, "warn")
      invariant summary.block + CountLabel(decisions[i..], "block") == CountLabel(decisions, "block")
    {
      assert decisions[i..][1..] == decisions[i + 1..];
      if decisions[i].decision == "allow" {
        summary := summary.(allow := summary.allow + 1);
      }
      if decisions[i].decision == "warn" {
        summary := summary.(warn := summary.warn + 1);
      }
      if decisions[i].decision == "block" {
        summary := summary.(block := summary.block + 1);
      }
    }
    return Lock(
      Identity(LOCK_SCHEMA_VERSION, "installguard", inputs.toolVersion, inputs.adapter, inputs.lockfile,
        inputs.lockfileDigest, inputs.policyDigest, summary, decisions),
      generatedAt);
  }

  /** A lock records its inputs and when it was generated. */
  lemma LockRecords(inputs: Inputs, entries: seq<DepResult>, at: Instant)
    ensures var lock := BuildLock(inputs, entries, at);
      && lock.identity.adapter == inputs.adapter && lock.identity.lockfile == inputs.lockfile
      && lock.identity.lockfileDigest == inputs.lockfileDigest && lock.identity.policyDigest == inputs.policyDigest
      && lock.identity.toolVersion == inputs.toolVersion && lock.identity.toolName == "installguard"
      && lock.identity.schemaVersion == 2 && lock.identity.decisions == Rows(entries) && lock.generatedAt == at
  {
  }

  lemma ReasonOrder()
    ensures TotalPreorder(ReasonLe)
  {
    StrOrder();
  }

  lemma RowOrder()
    ensures TotalPreorder(RowLe)
  {
    forall a, b ensures RowLe(a, b) || RowLe(b, a) { RowTotal(a, b); }
    forall a, b, c | RowLe(a, b) && RowLe(b, c) ensures RowLe(a, c) { RowTransitive(a, b, c); }
  }

  lemma RowTotal(a: LockDecision, b: LockDecision)
    ensures RowLe(a, b) || RowLe(b, a)
  {
    StrLeTotal(a.name, b.name);
    StrLeTotal(a.version, b.version);
  }

  lemma RowTransitive(a: LockDecision, b: LockDecision, c: LockDecision)
    requires RowLe(a, b) && RowLe(b, c)
    ensures RowLe(a, c)
  {
    StrLeTransitive(a.name, b.name, c.name);
    if a.name == c.name {
      StrLeAntisymmetric(a.name, b.name);
      StrLeTransitive(a.version, b.version, c.version);
    }
  }

  lemma RowAntisymmetric(a: LockDecision, b: LockDecision)
    requires RowLe(a, b) && RowLe(b, a)
    ensures a.name == b.name && a.version == b.version
  {
    StrLeAntisymmetric(a.name, b.name);
    StrLeAntisymmetric(a.version, b.version);
  }

  // Canonical form

  predicate SameKey(a: DepResult, b: DepResult) {
    a.dep.name == b.dep.name && a.dep.version == b.dep.version
  }

  /** Results about the same name and version give the same row; so it is when no package occurs twice. */
  ghost predicate RowsAgree(entries: seq<DepResult>) {
    forall a, b :: a in entries && b in entries && SameKey(a, b) ==> BuildRow(a) == BuildRow(b)
  }

  lemma DistinctPackagesAgree(entries: seq<DepResult>)
    requires forall i, j :: 0 <= i < j < |entries| ==> !SameKey(entries[i], entries[j])
    ensures RowsAgree(entries)
  {
    forall a, b | a in entries && b in entries && SameKey(a, b) ensures a == b {
      var i :| 0 <= i < |entries| && entries[i] == a;
      var j :| 0 <= j < |entries| && entries[j] == b;
      assert i < j || j < i || i == j;
    }
  }

  lemma BuiltRow(entries: seq<DepResult>, row: LockDecision) returns (e: DepResult)
    requires row in Rows(entries)
    ensures e in entries && row == BuildRow(e)
  {
    var built := Map(entries, BuildRow);
    SortMembers(built, RowLe, row);
    var i :| 0 <= i < |built| && built[i] == row;
    e := entries[i];
  }

  lemma RowsSeparate(entries: seq<DepResult>)
    requires RowsAgree(entries)
    ensures Separates(Rows(entries), RowLe)
  {
    forall a, b | a in Rows(entries) && b in Rows(entries) && RowLe(a, b) && RowLe(b, a) ensures a == b {
      var x := BuiltRow(entries, a);
      var y := BuiltRow(entries, b);
      RowAntisymmetric(a, b);
      assert SameKey(x, y);
    }
  }

  lemma RowsSorted(entries: seq<DepResult>)
    ensures Sorted(Rows(entries), RowLe) && multiset(Rows(entries)) == multiset(Map(entries, BuildRow))
  {
    RowOrder();
    SortSorts(Map(entries, BuildRow), RowLe);
    SortPermutes(Map(entries, BuildRow), RowLe);
  }

  /**
   Lock building is canonical: the rows, and with them the digest, do not depend on the order in
   which dependencies were evaluated, nor on when the lock was generated.
   */
  lemma LockCanonical(
    inputs: Inputs, entries: seq<DepResult>, entries': seq<DepResult>, at: Instant, at': Instant, sha: Identity -> string)
    requires multiset(entries) == multiset(entries') && RowsAgree(entries)
    ensures Sorted(Rows(entries), RowLe) && multiset(Rows(entries)) == multiset(Map(entries, BuildRow))
    ensures Rows(entries) == Rows(entries')
    ensures Digest(BuildLock(inputs, entries, at), sha) == Digest(BuildLock(inputs, entries', at'), sha)
  {
    MapPermutation(entries, entries', BuildRow);
    RowsSorted(entries);
    RowsSorted(entries');
    RowsSeparate(entries);
    SortedUnique(Rows(entries), Rows(entries'), RowLe);
  }

  /** Every order of evaluation gives the same rows. */
  ghost predicate OrderFree(entries: seq<DepResult>) {
    forall entries' :: multiset(entries') == multiset(entries) ==> Rows(entries') == Rows(entries)
  }

  /** The exact reach of that promise: repeated packages must agree on their row. */
  lemma LockCanonicalExact(entries: seq<DepResult>)
    ensures OrderFree(entries) <==> RowsAgree(entries)
  {
    if RowsAgree(entries) {
      forall entries' | multiset(entries') == multiset(entries) ensures Rows(entries') == Rows(entries) {
        LockCanonical(Inputs("", "", "", "", ""), entries, entries', 0, 0, _ => "");
      }
    } else {
      var a, b :| a in entries && b in entries && SameKey(a, b) && BuildRow(a) != BuildRow(b);
      Disagreement(entries, a, b);
    }
  }

  lemma Disagreement(entries: seq<DepResult>, a: DepResult, b: DepResult)
    requires a in entries && b in entries && SameKey(a, b) && BuildRow(a) != BuildRow(b)
    ensures !OrderFree(entries)
  {
    var rest := BringForward(entries, a, b);
    TwoOrders(a, b, rest);
    NotOrderFree(entries, [a, b] + rest, [b, a] + rest);
  }

  lemma NotOrderFree(entries: seq<DepResult>, s: seq<DepResult>, t: seq<DepResult>)
    requires multiset(s) == multiset(entries) == multiset(t) && Rows(s) != Rows(t)
    ensures !OrderFree(entries)
  {
    assert Rows(s) != Rows(entries) || Rows(t) != Rows(entries);
  }

  function OfPackage(name: string, version: string): LockDecision -> bool {
    (row: LockDecision) => row.name == name && row.version == version
  }

  /** Stability keeps the rows of one package in the order of evaluation. */
  lemma TwoOrders(a: DepResult, b: DepResult, rest: seq<DepResult>)
    requires SameKey(a, b) && BuildRow(a) != BuildRow(b)
    ensures Rows([a, b] + rest) != Rows([b, a] + rest)
  {
    FirstOfPackage(a, [b] + rest);
    FirstOfPackage(b, [a] + rest);
    OneByOne(a, b, rest);
    OneByOne(b, a, rest);
    assert Rows([a, b] + rest) != Rows([b, a] + rest);
  }

  lemma FirstOfPackage(a: DepResult, others: seq<DepResult>)
    ensures var kept := Filter(Rows([a] + others), OfPackage(a.dep.name, a.dep.version));
      kept != [] && kept[0] == BuildRow(a)
  {
    var keep := OfPackage(a.dep.name, a.dep.version);
    RowOrder();
    StrLeTotal(a.dep.name, a.dep.name);
    StrLeTotal(a.dep.version, a.dep.version);
    SortStable(Map([a] + others, BuildRow), RowLe, keep);
    assert Map([a] + others, BuildRow) == [BuildRow(a)] + Map(others, BuildRow);
    FilterCons(BuildRow(a), Map(others, BuildRow), keep);
  }

  /** A package installed both at the top level and nested: the lock shows which copy came first. */
  lemma RepeatedPackageOrdered(e: DepResult)
    ensures var top, nested := e.(dep := e.dep.(direct := true)), e.(dep := e.dep.(direct := false));
      SameKey(top, nested) && Rows([top, nested]) != Rows([nested, top])
  {
    var top, nested := e.(dep := e.dep.(direct := true)), e.(dep := e.dep.(direct := false));
    TwoOrders(top, nested, []);
    assert [top, nested] + [] == [top, nested] && [nested, top] + [] == [nested, top];
  }

  /** The name by which a lock records each kind of source. */
  ghost predicate SourceNamed(s: Source, kind: string) {
    && (s.Registry? ==> kind == "registry") && (s.Git? ==> kind == "git") && (s.GithubShortcut? ==> kind == "github")
    && (s.Tarball? ==> kind == "tarball") && (s.File? ==> kind == "file") && (s.Workspace? ==> kind == "workspace")
    && (s.PypiArtifact? ==> kind == "pypi")
  }

  /** What a row says about the package itself. */
  lemma RowRecords(e: DepResult)
    ensures var row := BuildRow(e);
      && row.name == e.dep.name && row.version == e.dep.version && row.ecosystem == Some(e.dep.ecosystem)
      && row.direct == e.dep.direct && SourceNamed(e.dep.source, row.source)
      && (row.decision == "allow" <==> e.decision.Allow?) && (row.decision == "warn" <==> e.decision.Warn?)
      && (row.decision == "block" <==> e.decision.Block?)
  {
  }

  /** A row lists each observed signal kind once, in order, and its reasons in stable code order. */
  lemma RowContents(e: DepResult, code: string)
    ensures StrictlySorted(BuildRow(e).signalKinds)
    ensures forall k :: k in BuildRow(e).signalKinds <==> exists s :: s in e.signals && KindName(s) == k
    ensures Sorted(BuildRow(e).reasons, ReasonLe) && multiset(BuildRow(e).reasons) == multiset(ReasonsOf(e.decision))
    ensures Filter(BuildRow(e).reasons, (r: Reason) => Code(r) == code)
      == Filter(ReasonsOf(e.decision), (r: Reason) => Code(r) == code)
  {
    SortDedupExact(Map(e.signals, KindName));
    forall k ensures k in Map(e.signals, KindName) <==> exists s :: s in e.signals && KindName(s) == k {
      if s :| s in e.signals && KindName(s) == k {
        var i :| 0 <= i < |e.signals| && e.signals[i] == s;
        assert Map(e.signals, KindName)[i] == k;
      }
    }
    ReasonOrder();
    SortSorts(ReasonsOf(e.decision), ReasonLe);
    SortPermutes(ReasonsOf(e.decision), ReasonLe);
    StrLeTotal(code, code);
    SortStable(ReasonsOf(e.decision), ReasonLe, (r: Reason) => Code(r) == code);
  }

  /** The summary counts the run's decisions, and every row is counted once. */
  lemma SummaryExact(entries: seq<DepResult>)
    ensures Summarise(Rows(entries)) ==
      Summary(|entries|, CountRank(entries, 0), CountRank(entries, 1), CountRank(entries, 2))
    ensures CountRank(entries, 0) + CountRank(entries, 1) + CountRank(entries, 2) == |entries|
  {
    var built := Map(entries, BuildRow);
    SortPermutes(built, RowLe);
    CountLabelPermutation(Rows(entries), built, "allow");
    CountLabelPermutation(Rows(entries), built, "warn");
    CountLabelPermutation(Rows(entries), built, "block");
    CountLabels(entries);
  }

  lemma {:induction false} CountLabels(entries: seq<DepResult>)
    ensures var built := Map(entries, BuildRow);
      && CountLabel(built, "allow") == CountRank(entries, 0)
      && CountLabel(built, "warn") == CountRank(entries, 1)
      && CountLabel(built, "block") == CountRank(entries, 2)
    ensures CountRank(entries, 0) + CountRank(entries, 1) + CountRank(entries, 2) == |entries|
  {
    if entries != [] {
      CountLabels(entries[1..]);
      assert Map(entries, BuildRow)[1..] == Map(entries[1..], BuildRow);
    }
  }

  lemma {:induction false} CountLabelPermutation(s: seq<LockDecision>, t: seq<LockDecision>, outcome: string)
    requires multiset(s) == multiset(t)
    ensures CountLabel(s, outcome) == CountLabel(t, outcome)
  {
    SameLength(s, t);
    if s != [] {
      assert s[0] in multiset(t);
      var i :| 0 <= i < |t| && t[i] == s[0];
      SameAfterRemoval(s, t, 0, i);
      assert s[..0] + s[1..] == s[1..];
      CountLabelPermutation(s[1..], t[..i] + t[i + 1..], outcome);
      CountLabelRemove(t, i, outcome);
    }
  }

  lemma {:induction false} CountLabelRemove(t: seq<LockDecision>, i: nat, outcome: string)
    requires i < |t|
    ensures CountLabel(t, outcome) == CountLabel(t[..i] + t[i + 1..], outcome) + if t[i].decision == outcome then 1 else 0
  {
    if i == 0 {
      assert t[..0] + t[1..] == t[1..];
    } else {
      CountLabelRemove(t[1..], i - 1, outcome);
      assert (t[..i] + t[i + 1..])[1..] == t[1..][..i - 1] + t[1..][i..];
    }
  }

  // Digest and verification

  function Digest(lock: Lock, sha: Identity -> string): string {
    sha(lock.identity)
  }

  /** The hash tells these two identities apart. */
  predicate NoCollision(sha: Identity -> string, a: Identity, b: Identity) {
    sha(a) == sha(b) ==> a == b
  }

  datatype Key = Key(name: string, version: string)

  predicate KeyLe(a: Key, b: Key) {
    StrLe(a.name, b.name) && (a.name == b.name ==> StrLe(a.version, b.version))
  }

  lemma KeyOrder()
    ensures TotalOrder(KeyLe)
  {
    forall a, b ensures KeyLe(a, b) || KeyLe(b, a) {
      StrLeTotal(a.name, b.name);
      StrLeTotal(a.version, b.version);
    }
    forall a, b | KeyLe(a, b) && KeyLe(b, a) ensures a == b {
      StrLeAntisymmetric(a.name, b.name);
      StrLeAntisymmetric(a.version, b.version);
    }
    forall a, b, c | KeyLe(a, b) && KeyLe(b, c) ensures KeyLe(a, c) {
      KeyTransitive(a, b, c);
    }
  }

  lemma KeyTransitive(a: Key, b: Key, c: Key)
    requires KeyLe(a, b) && KeyLe(b, c)
    ensures KeyLe(a, c)
  {
    StrLeTransitive(a.name, b.name, c.name);
    if a.name == c.name {
      StrLeAntisymmetric(a.name, b.name);
      StrLeTransitive(a.version, b.version, c.version);
    }
  }

  datatype DiffLine =
    | LockfileChanged(was: string, now: string)
    | PolicyChanged(was: string, now: string)
    | Added(key: Key, decision: string)
    | Changed(key: Key, before: string, after: string)
    | Removed(key: Key)
    | DetailsChanged

  type Decisions = map<Key, string>

  function KeyOf(row: LockDecision): Key {
    Key(row.name, row.version)
  }

  /** The decision recorded for each package; when a package is listed twice, the later row. */
  function DecisionMap(rows: seq<LockDecision>): Decisions {
    if rows == [] then map[]
    else DecisionMap(rows[..|rows| - 1])[KeyOf(rows[|rows| - 1]) := rows[|rows| - 1].decision]
  }

  /** The first twelve characters of a digest. */
  function Short(digest: string): string {
    if |digest| >= 12 then digest[..12] else digest
  }

  method Collect(rows: seq<LockDecision>) returns (m: Decisions)
    ensures m == DecisionMap(rows)
  {
    m := map[];
    for i := 0 to |rows|
      invariant m == DecisionMap(rows[..i])
    {
      assert rows[..i + 1][..i] == rows[..i];
      m := m[KeyOf(rows[i]) := rows[i].decision];
    }
    assert rows[..|rows|] == rows;
  }

  function UpsertLine(k: Key, cur: Decisions, prev: Decisions): seq<DiffLine>
    requires k in cur
  {
    if k !in prev then [Added(k, cur[k])]
    else if prev[k] != cur[k] then [Changed(k, prev[k], cur[k])]
    else []
  }

  function UpsertLines(keys: seq<Key>, cur: Decisions, prev: Decisions): seq<DiffLine>
    requires forall k :: k in keys ==> k in cur
  {
    if keys == [] then []
    else UpsertLine(keys[0], cur, prev) + UpsertLines(keys[1..], cur, prev)
  }

  function RemovalLine(k: Key, cur: Decisions): seq<DiffLine> {
    if k in cur then [] else [Removed(k)]
  }

  function RemovalLines(keys: seq<Key>, cur: Decisions): seq<DiffLine> {
    if keys == [] then []
    else RemovalLine(keys[0], cur) + RemovalLines(keys[1..], cur)
  }

  function SortedKeys(m: Decisions): (keys: seq<Key>)
    ensures forall k :: k in keys <==> k in m
    ensures forall i, j :: 0 <= i < j < |keys| ==> keys[i] != keys[j]
    ensures Sorted(keys, KeyLe)
  {
    KeyOrder();
    SortedSetExact(m.Keys, KeyLe);
    SortedSet(m.Keys, KeyLe)
  }

  function HeaderLines(cur: Identity, prev: Identity): seq<DiffLine> {
    (if cur.lockfileDigest != prev.lockfileDigest
     then [LockfileChanged(Short(prev.lockfileDigest), Short(cur.lockfileDigest))] else [])
    + (if cur.policyDigest != prev.policyDigest
       then [PolicyChanged(Short(prev.policyDigest), Short(cur.policyDigest))] else [])
  }

  /** The lines about packages: additions and changes in key order, then removals in key order. */
  function PackageLines(cur: Decisions, prev: Decisions): seq<DiffLine> {
    UpsertLines(SortedKeys(cur), cur, prev) + RemovalLines(SortedKeys(prev), cur)
  }

  function Diff(cur: Identity, prev: Identity): seq<DiffLine> {
    var lines := HeaderLines(cur, prev) + PackageLines(DecisionMap(cur.decisions), DecisionMap(prev.decisions));
    if lines == [] then [DetailsChanged] else lines
  }

  method VerifyAgainst(lock: Lock, other: Lock, sha: Identity -> string) returns (r: Result<(), seq<DiffLine>>)
    ensures r == if Digest(lock, sha) == Digest(other, sha) then Ok(()) else Err(Diff(lock.identity, other.identity))
    ensures NoCollision(sha, lock.identity, other.identity) ==> (r.Ok? <==> lock.identity == other.identity)
  {
    if Digest(lock, sha) == Digest(other, sha) {
      return Ok(());
    }
    var diffs: seq<DiffLine> := [];
    if lock.identity.lockfileDigest != other.identity.lockfileDigest {
      diffs := diffs + [LockfileChanged(Short(other.identity.lockfileDigest), Short(lock.identity.lockfileDigest))];
    }
    if lock.identity.policyDigest != other.identity.policyDigest {
      diffs := diffs + [PolicyChanged(Short(other.identity.policyDigest), Short(lock.identity.policyDigest))];
    }
    assert diffs == HeaderLines(lock.identity, other.identity);
    var cur := Collect(lock.identity.decisions);
    var prev := Collect(other.identity.decisions);
    diffs := PushUpserts(cur, prev, diffs);
    diffs := PushRemovals(cur, prev, diffs);
    Associate(HeaderLines(lock.identity, other.identity), UpsertLines(SortedKeys(cur), cur, prev),
      RemovalLines(SortedKeys(prev), cur));
    if diffs == [] {
      diffs := [DetailsChanged];
    }
    return Err(diffs);
  }

  method PushUpserts(cur: Decisions, prev: Decisions, base: seq<DiffLine>) returns (diffs: seq<DiffLine>)
    ensures diffs == base + UpsertLines(SortedKeys(cur), cur, prev)
  {
    diffs := base;
    var keys := SortedKeys(cur);
    for i := 0 to |keys|
      invariant diffs + UpsertLines(keys[i..], cur, prev) == base + UpsertLines(keys, cur, prev)
    {
      assert keys[i..][1..] == keys[i + 1..];
      var k := keys[i];
      Associate(diffs, UpsertLine(k, cur, prev), UpsertLines(keys[i + 1..], cur, prev));
      ghost var before := diffs;
      if k !in prev {
        diffs := diffs + [Added(k, cur[k])];
      } else if prev[k] != cur[k] {
        diffs := diffs + [Changed(k, prev[k], cur[k])];
      }
      assert diffs == before + UpsertLine(k, cur, prev);
    }
  }

  method PushRemovals(cur: Decisions, prev: Decisions, base: seq<DiffLine>) returns (diffs: seq<DiffLine>)
    ensures diffs == base + RemovalLines(SortedKeys(prev), cur)
  {
    diffs := base;
    var keys := SortedKeys(prev);
    for i := 0 to |keys|
      invariant diffs + RemovalLines(keys[i..], cur) == base + RemovalLines(keys, cur)
    {
      assert keys[i..][1..] == keys[i + 1..];
      Associate(diffs, RemovalLine(keys[i], cur), RemovalLines(keys[i + 1..], cur));
      ghost var before := diffs;
      if keys[i] !in cur {
        diffs := diffs + [Removed(keys[i])];
      }
      assert diffs == before + RemovalLine(keys[i], cur);
    }
  }
}
