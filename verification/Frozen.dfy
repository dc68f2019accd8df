/** Frozen replay: results rebuilt from a lock instead of a fresh evaluation. */
module Frozen {
  import opened Wrappers
  import opened Sequences
  import opened Ordering
  import opened Dependency
  import opened Signal
  import opened Decision
  import opened Results
  import opened Lockfile

  function SourceFromKind(kind: string): Source {
    if kind == "workspace" then Workspace
    else if kind == "git" then Git("", None)
    else if kind == "github" then GithubShortcut("")
    else if kind == "tarball" then Tarball("")
    else if kind == "file" then File("")
    else if kind == "pypi" then PypiArtifact("")
    else Registry("")
  }

  function AdapterFromLock(adapter: string): string {
    if adapter == "npm" || adapter == "pnpm" || adapter == "yarn" then adapter else "frozen"
  }

  function DecisionFromRow(row: LockDecision): Decision {
    if row.decision == "allow" then Allow
    else if row.decision == "warn" then Warn(row.reasons)
    else Block(row.reasons)
  }

  /** One result, with the details the lock does not keep left empty. */
  function Rebuild(row: LockDecision): DepResult {
    DepResult(
      ResolvedDependency(if row.ecosystem.Some? then row.ecosystem.value else Npm,
        row.name, row.version, None, SourceFromKind(row.source), row.direct, []),
      [],
      DecisionFromRow(row))
  }

  function Replay(lock: Lock): seq<DepResult> {
    Map(lock.identity.decisions, Rebuild)
  }

  /** A row without the signal kinds it was built from. */
  function Bare(row: LockDecision): LockDecision {
    row.(signalKinds := [])
  }

  lemma SourceKindRoundTrip(s: Source)
    ensures LockSourceKind(SourceFromKind(LockSourceKind(s))) == LockSourceKind(s)
    ensures SourceNamed(SourceFromKind(LockSourceKind(s)), LockSourceKind(s))
  {
  }

  /** A rebuilt result has the recorded row, but for its signal kinds. */
  lemma RowRoundTrip(e: DepResult)
    ensures BuildRow(Rebuild(BuildRow(e))) == Bare(BuildRow(e))
    ensures Rank(Rebuild(BuildRow(e)).decision) == Rank(e.decision)
  {
    SourceKindRoundTrip(e.dep.source);
    ReasonOrder();
    SortSorts(ReasonsOf(e.decision), ReasonLe);
    SortIdentity(BuildRow(e).reasons, ReasonLe);
    assert Map([], KindName) == [];
  }

  /** What is rebuilt from any row: unknown decisions block, and rows without an ecosystem are npm's. */
  lemma RebuildRecords(row: LockDecision)
    ensures var e := Rebuild(row);
      && e.dep.name == row.name && e.dep.version == row.version && e.dep.direct == row.direct && e.signals == []
      && (row.ecosystem == None ==> e.dep.ecosystem == Npm)
      && (row.ecosystem.Some? ==> row.ecosystem == Some(e.dep.ecosystem))
      && (e.decision == Allow <==> row.decision == "allow") && (e.decision == Warn(row.reasons) <==> row.decision == "warn")
      && (e.decision == Block(row.reasons) <==> row.decision != "allow" && row.decision != "warn")
  {
  }

  lemma ReplayedRows(inputs: Inputs, entries: seq<DepResult>, at: Instant)
    ensures var rows := Rows(entries); Rows(Replay(BuildLock(inputs, entries, at))) == Map(rows, Bare)
  {
    var rows := Rows(entries);
    var again := Map(Map(rows, Rebuild), BuildRow);
    forall i | 0 <= i < |rows| ensures again[i] == Bare(rows[i]) {
      var e := BuiltRow(entries, rows[i]);
      RowRoundTrip(e);
    }
    assert again == Map(rows, Bare);
    RowOrder();
    SortSorts(Map(entries, BuildRow), RowLe);
    forall i, j | 0 <= i < j < |again| ensures RowLe(again[i], again[j]) {
      assert RowLe(rows[i], rows[j]);
    }
    SortIdentity(again, RowLe);
  }

  ghost predicate Built(row: LockDecision) {
    exists e :: row == BuildRow(e)
  }

  lemma RebuiltRank(row: LockDecision)
    requires Built(row)
    ensures Rank(Rebuild(row).decision) == 0 <==> row.decision == "allow"
    ensures Rank(Rebuild(row).decision) == 1 <==> row.decision == "warn"
    ensures Rank(Rebuild(row).decision) == 2 <==> row.decision == "block"
  {
    var e :| row == BuildRow(e);
    assert row.decision == Label(e.decision);
  }

  lemma {:induction false} CountReplayed(rows: seq<LockDecision>)
    requires forall row :: row in rows ==> Built(row)
    ensures CountRank(Map(rows, Rebuild), 0) == CountLabel(rows, "allow")
    ensures CountRank(Map(rows, Rebuild), 1) == CountLabel(rows, "warn")
    ensures CountRank(Map(rows, Rebuild), 2) == CountLabel(rows, "block")
  {
    if rows != [] {
      assert rows == [rows[0]] + rows[1..];
      CountReplayed(rows[1..]);
      assert Built(rows[0]);
      RebuiltRank(rows[0]);
      assert Map(rows, Rebuild)[1..] == Map(rows[1..], Rebuild);
    }
  }

  /**
   Frozen replay is faithful: rebuilding results from a lock and locking them again gives every row
   back except its signal kinds, the same summary, and the same exit status for any warning limit.
   */
  lemma ReplayFaithful(inputs: Inputs, entries: seq<DepResult>, at: Instant, maxWarn: Option<nat>)
    ensures var lock := BuildLock(inputs, entries, at);
      && Rows(Replay(lock)) == Map(lock.identity.decisions, Bare)
      && Summarise(Rows(Replay(lock))) == lock.identity.summary
      && ExitStatus(Replay(lock), maxWarn) == ExitStatus(entries, maxWarn)
  {
    var lock := BuildLock(inputs, entries, at);
    var rows := Rows(entries);
    ReplayedRows(inputs, entries, at);
    forall row | row in rows ensures Built(row) {
      var e := BuiltRow(entries, row);
    }
    CountReplayed(rows);
    SummaryExact(entries);
    SummaryExact(Replay(lock));
  }

  /** The whole identity survives exactly for known adapters and rows without signals. */
  lemma ReplayIdentity(inputs: Inputs, entries: seq<DepResult>, at: Instant, again: Instant)
    ensures var lock := BuildLock(inputs, entries, at);
      var replayed := BuildLock(inputs.(adapter := AdapterFromLock(inputs.adapter)), Replay(lock), again);
      (replayed.identity == lock.identity) <==>
        (inputs.adapter in {"npm", "pnpm", "yarn", "frozen"} && forall e :: e in entries ==> e.signals == [])
  {
    ReplayFaithful(inputs, entries, at, None);
    BareUnchanged(entries);
  }

  lemma BareUnchanged(entries: seq<DepResult>)
    ensures (Map(Rows(entries), Bare) == Rows(entries)) <==> (forall e :: e in entries ==> e.signals == [])
  {
    var rows := Rows(entries);
    if forall e :: e in entries ==> e.signals == [] {
      forall i | 0 <= i < |rows| ensures Bare(rows[i]) == rows[i] {
        var e := BuiltRow(entries, rows[i]);
        NoKinds(e);
      }
      assert Map(rows, Bare) == rows;
    }
    if Map(rows, Bare) == rows {
      forall e | e in entries ensures e.signals == [] {
        RowOfEntry(entries, e);
        var i :| 0 <= i < |rows| && rows[i] == BuildRow(e);
        assert Map(rows, Bare)[i] == Bare(rows[i]);
        NoKinds(e);
      }
    }
  }

  lemma NoKinds(e: DepResult)
    ensures BuildRow(e).signalKinds == [] <==> e.signals == []
  {
    RowContents(e, "");
    var kinds := BuildRow(e).signalKinds;
    assert forall i :: 0 <= i < |kinds| ==> kinds[i] in kinds;
    if e.signals != [] {
      assert KindName(e.signals[0]) in kinds;
    }
  }

  lemma RowOfEntry(entries: seq<DepResult>, e: DepResult)
    requires e in entries
    ensures BuildRow(e) in Rows(entries)
  {
    var built := Map(entries, BuildRow);
    var i :| 0 <= i < |entries| && entries[i] == e;
    assert built[i] == BuildRow(e);
    SortMembers(built, RowLe, BuildRow(e));
  }
}
