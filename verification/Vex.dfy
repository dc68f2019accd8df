/** The exploitability document: one statement per reported reason, referring to SBOM components. */
module Vex {
  import opened Wrappers
  import opened Sequences
  import opened Ordering
  import opened Dependency
  import opened Decision
  import opened Results
  import opened Sbom
  import PypiNames

  datatype Status = Affected | UnderInvestigation

  /** A statement's vulnerability name, product, status and the sentence for its status. */
  datatype Statement = Statement(
    name: string, product: string, status: Status, action: Option<string>, impact: Option<string>)

  /** The statement for one reason; `summary` renders it as a sentence. */
  function StatementFor(
    lower: PypiNames.Lowering, dep: ResolvedDependency, status: Status, r: Reason, summary: Reason -> string): Statement
  {
    Statement(Code(r), PurlFor(lower, dep), status,
      if status == Affected then Some(summary(r)) else None,
      if status == UnderInvestigation then Some(summary(r)) else None)
  }

  function StatementsFor(lower: PypiNames.Lowering, e: DepResult, summary: Reason -> string): (l: seq<Statement>)
    ensures |l| == |ReasonsOf(e.decision)|
  {
    match e.decision
    case Allow => []
    case Warn(rs) => Map(rs, r => StatementFor(lower, e.dep, UnderInvestigation, r, summary))
    case Block(rs) => Map(rs, r => StatementFor(lower, e.dep, Affected, r, summary))
  }

  function AllStatements(lower: PypiNames.Lowering, entries: seq<DepResult>, summary: Reason -> string): seq<Statement> {
    if entries == [] then [] else StatementsFor(lower, entries[0], summary) + AllStatements(lower, entries[1..], summary)
  }

  predicate StatementLe(a: Statement, b: Statement) {
    StrLe(a.name, b.name) && (a.name == b.name ==> StrLe(a.product, b.product))
  }

  function Statements(lower: PypiNames.Lowering, entries: seq<DepResult>, summary: Reason -> string): seq<Statement> {
    Dedup(Sort(AllStatements(lower, entries, summary), StatementLe), Itself)
  }

  method BuildWithAuthor(lower: PypiNames.Lowering, entries: seq<DepResult>, summary: Reason -> string)
    returns (statements: seq<Statement>)
    ensures statements == Statements(lower, entries, summary)
  {
    statements := AllStatements(lower, entries, summary);
    statements := Sort(statements, StatementLe);
    statements := Dedup(statements, Itself);
  }

  /** `s` states the reason `r` of the result `e`, as an affliction when blocked and a suspicion when warned. */
  ghost predicate States(lower: PypiNames.Lowering, s: Statement, e: DepResult, r: Reason, summary: Reason -> string) {
    && r in ReasonsOf(e.decision)
    && s.name == Code(r) && s.product == PurlFor(lower, e.dep)
    && (e.decision.Block? ==> s.status == Affected && s.action == Some(summary(r)) && s.impact == None)
    && (e.decision.Warn? ==> s.status == UnderInvestigation && s.action == None && s.impact == Some(summary(r)))
  }

  /** `s` states one of the reasons reported for `e`. */
  ghost predicate StatesSome(lower: PypiNames.Lowering, s: Statement, e: DepResult, summary: Reason -> string) {
    exists r :: States(lower, s, e, r, summary)
  }

  lemma StatementsForExact(lower: PypiNames.Lowering, e: DepResult, summary: Reason -> string, s: Statement)
    ensures s in StatementsFor(lower, e, summary) <==> StatesSome(lower, s, e, summary)
  {
    var rs, l := ReasonsOf(e.decision), StatementsFor(lower, e, summary);
    if s in l {
      var i :| 0 <= i < |l| && l[i] == s;
      assert States(lower, s, e, rs[i], summary);
    }
    if r :| States(lower, s, e, r, summary) {
      var i :| 0 <= i < |rs| && rs[i] == r;
      assert l[i] == s;
    }
  }

  lemma {:induction false} AllStatementsExact(
    lower: PypiNames.Lowering, entries: seq<DepResult>, summary: Reason -> string, s: Statement)
    ensures s in AllStatements(lower, entries, summary) <==> exists e :: e in entries && StatesSome(lower, s, e, summary)
  {
    if entries != [] {
      StatementsForExact(lower, entries[0], summary, s);
      AllStatementsExact(lower, entries[1..], summary, s);
      assert entries == [entries[0]] + entries[1..];
      assert AllStatements(lower, entries, summary)
        == StatementsFor(lower, entries[0], summary) + AllStatements(lower, entries[1..], summary);
    }
  }

  /**
   The document states exactly the reported reasons, and every product it names is a component of
   the SBOM built from the same results.
   */
  lemma VexClosed(lower: PypiNames.Lowering, entries: seq<DepResult>, summary: Reason -> string, s: Statement)
    ensures s in Statements(lower, entries, summary) <==> exists e :: e in entries && StatesSome(lower, s, e, summary)
    ensures s in Statements(lower, entries, summary) ==> s.product in Map(Components(lower, entries), RefOf)
  {
    var all := AllStatements(lower, entries, summary);
    AllStatementsExact(lower, entries, summary, s);
    if s in Statements(lower, entries, summary) {
      SortDedupSubset(all, StatementLe, Itself, s);
    }
    if s in all {
      SortDedupKeepsKeys(all, StatementLe, Itself, s);
    }
    if e :| e in entries && StatesSome(lower, s, e, summary) {
      ComponentMembers(lower, entries, s.product);
      assert HasPurl(lower, entries, s.product);
    }
  }

  /** Statements are in the order of their codes and then their products, and no two neighbours are alike. */
  lemma StatementsInOrder(lower: PypiNames.Lowering, entries: seq<DepResult>, summary: Reason -> string, i: nat, j: nat)
    requires i < j < |Statements(lower, entries, summary)|
    ensures var s, t := Statements(lower, entries, summary)[i], Statements(lower, entries, summary)[j];
      && StrLe(s.name, t.name) && (s.name == t.name ==> StrLe(s.product, t.product))
      && (j == i + 1 ==> s != t)
  {
    var all := AllStatements(lower, entries, summary);
    StatementOrder();
    SortSorts(all, StatementLe);
    DedupSorted(Sort(all, StatementLe), StatementLe);
  }

  lemma StatementOrder()
    ensures TotalPreorder(StatementLe)
  {
    StrOrder();
  }
}
