/** The verification diff is a correct patch from the recorded decisions to the current ones. */
module LockPatch {
  import opened Wrappers
  import opened Ordering
  import opened Sequences
  import opened Lockfile

  /** The package a line is about; header lines are about none. */
  function About(line: DiffLine): Option<Key> {
    match line
    case Added(k, _) => Some(k)
    case Changed(k, _, _) => Some(k)
    case Removed(k) => Some(k)
    case _ => None
  }

  /** A reader applying the lines one by one, trusting only what each line says. */
  function Apply(lines: seq<DiffLine>, m: Decisions): Decisions {
    if lines == [] then m else Apply(lines[1..], ApplyLine(lines[0], m))
  }

  function ApplyLine(line: DiffLine, m: Decisions): Decisions {
    match line
    case Added(k, decision) => m[k := decision]
    case Changed(k, _, after) => m[k := after]
    case Removed(k) => m - {k}
    case _ => m
  }

  function CountAbout(lines: seq<DiffLine>, k: Key): nat {
    if lines == [] then 0 else (if About(lines[0]) == Some(k) then 1 else 0) + CountAbout(lines[1..], k)
  }

  predicate Differs(k: Key, cur: Decisions, prev: Decisions) {
    (k in cur) != (k in prev) || (k in cur && k in prev && cur[k] != prev[k])
  }

  lemma {:induction false} ApplyAppend(a: seq<DiffLine>, b: seq<DiffLine>, m: Decisions)
    ensures Apply(a + b, m) == Apply(b, Apply(a, m))
  {
    if a == [] {
      assert a + b == b;
    } else {
      assert (a + b)[1..] == a[1..] + b;
      ApplyAppend(a[1..], b, ApplyLine(a[0], m));
    }
  }

  lemma {:induction false} CountAppend(a: seq<DiffLine>, b: seq<DiffLine>, k: Key)
    ensures CountAbout(a + b, k) == CountAbout(a, k) + CountAbout(b, k)
  {
    if a == [] {
      assert a + b == b;
    } else {
      assert (a + b)[1..] == a[1..] + b;
      CountAppend(a[1..], b, k);
    }
  }

  /** `m` reads the same as `m'` at `k`. */
  predicate SameAt(m: Decisions, m': Decisions, k: Key) {
    (k in m <==> k in m') && (k in m ==> m[k] == m'[k])
  }

  lemma {:induction false} UpsertsApply(keys: seq<Key>, cur: Decisions, prev: Decisions, m: Decisions, k: Key)
    requires Distinct(keys) && forall x :: x in keys ==> x in cur
    requires forall x :: x in keys ==> SameAt(m, prev, x)
    ensures SameAt(Apply(UpsertLines(keys, cur, prev), m), if k in keys then cur else m, k)
  {
    if keys != [] {
      var head := UpsertLine(keys[0], cur, prev);
      ApplyAppend(head, UpsertLines(keys[1..], cur, prev), m);
      var m' := Apply(head, m);
      assert SameAt(m, prev, keys[0]);
      assert forall x :: x != keys[0] ==> SameAt(m', m, x);
      assert SameAt(m', cur, keys[0]);
      forall x | x in keys[1..] ensures x in keys && SameAt(m', prev, x) {
        var i :| 0 <= i < |keys[1..]| && keys[1..][i] == x;
        assert keys[i + 1] == x;
        assert SameAt(m, prev, x);
      }
      UpsertsApply(keys[1..], cur, prev, m', k);
      assert keys == [keys[0]] + keys[1..];
    }
  }

  lemma {:induction false} RemovalsApply(keys: seq<Key>, cur: Decisions, m: Decisions, k: Key)
    ensures var after := Apply(RemovalLines(keys, cur), m);
      if k in keys && k !in cur then k !in after else SameAt(after, m, k)
  {
    if keys != [] {
      var head := RemovalLine(keys[0], cur);
      ApplyAppend(head, RemovalLines(keys[1..], cur), m);
      RemovalsApply(keys[1..], cur, Apply(head, m), k);
      assert keys == [keys[0]] + keys[1..];
    }
  }

  /** Applying the package lines to the recorded decisions gives the current ones. */
  lemma PackageLinesPatch(cur: Decisions, prev: Decisions)
    ensures Apply(PackageLines(cur, prev), prev) == cur
  {
    var upserts, removals := UpsertLines(SortedKeys(cur), cur, prev), RemovalLines(SortedKeys(prev), cur);
    ApplyAppend(upserts, removals, prev);
    var mid, after := Apply(upserts, prev), Apply(removals, Apply(upserts, prev));
    forall k ensures SameAt(after, cur, k) {
      UpsertsApply(SortedKeys(cur), cur, prev, prev, k);
      RemovalsApply(SortedKeys(prev), cur, mid, k);
    }
    SameEverywhere(after, cur);
  }

  lemma SameEverywhere(m: Decisions, m': Decisions)
    requires forall k :: SameAt(m, m', k)
    ensures m == m'
  {
    assert forall k :: k in m ==> SameAt(m, m', k);
    assert forall k :: k in m' ==> SameAt(m, m', k);
    assert m.Keys == m'.Keys;
  }

  lemma {:induction false} UpsertsCount(keys: seq<Key>, cur: Decisions, prev: Decisions, k: Key)
    requires Distinct(keys) && forall x :: x in keys ==> x in cur
    ensures CountAbout(UpsertLines(keys, cur, prev), k) == if k in keys && Differs(k, cur, prev) then 1 else 0
  {
    if keys != [] {
      CountAppend(UpsertLine(keys[0], cur, prev), UpsertLines(keys[1..], cur, prev), k);
      UpsertsCount(keys[1..], cur, prev, k);
      assert keys == [keys[0]] + keys[1..];
    }
  }

  lemma {:induction false} RemovalsCount(keys: seq<Key>, cur: Decisions, k: Key)
    requires Distinct(keys)
    ensures CountAbout(RemovalLines(keys, cur), k) == if k in keys && k !in cur then 1 else 0
  {
    if keys != [] {
      CountAppend(RemovalLine(keys[0], cur), RemovalLines(keys[1..], cur), k);
      RemovalsCount(keys[1..], cur, k);
      assert keys == [keys[0]] + keys[1..];
    }
  }

  /** Each package whose decision differs is reported once, and no other package is reported. */
  lemma PackageLinesCount(cur: Decisions, prev: Decisions, k: Key)
    ensures CountAbout(PackageLines(cur, prev), k) == if Differs(k, cur, prev) then 1 else 0
  {
    var upserts, removals := UpsertLines(SortedKeys(cur), cur, prev), RemovalLines(SortedKeys(prev), cur);
    CountAppend(upserts, removals, k);
    UpsertsCount(SortedKeys(cur), cur, prev, k);
    RemovalsCount(SortedKeys(prev), cur, k);
  }

  /** The decision that the last row about `k` records. */
  ghost predicate LastDecision(rows: seq<LockDecision>, k: Key, decision: string) {
    exists i :: 0 <= i < |rows| && RowAbout(rows[i], k) && rows[i].decision == decision
      && forall j :: i < j < |rows| ==> !RowAbout(rows[j], k)
  }

  predicate RowAbout(row: LockDecision, k: Key) {
    row.name == k.name && row.version == k.version
  }

  /** `m` holds for every package of the rows the decision of its last row, and nothing else. */
  ghost predicate Holds(m: Decisions, rows: seq<LockDecision>) {
    forall k, d :: k in m && m[k] == d <==> LastDecision(rows, k, d)
  }

  lemma {:induction false} DecisionMapHolds(rows: seq<LockDecision>)
    ensures Holds(DecisionMap(rows), rows)
  {
    if rows != [] {
      var init, last := rows[..|rows| - 1], rows[|rows| - 1];
      DecisionMapHolds(init);
      assert rows == init + [last];
      forall k, d ensures k in DecisionMap(rows) && DecisionMap(rows)[k] == d <==> LastDecision(rows, k, d) {
        LastDecisionSnoc(init, last, k, d);
      }
    }
  }

  lemma LastDecisionSnoc(init: seq<LockDecision>, last: LockDecision, k: Key, d: string)
    ensures LastDecision(init + [last], k, d) <==>
      if RowAbout(last, k) then last.decision == d else LastDecision(init, k, d)
  {
    var rows := init + [last];
    if RowAbout(last, k) {
      assert rows[|init|] == last;
    } else {
      if LastDecision(init, k, d) {
        var i :| 0 <= i < |init| && RowAbout(init[i], k) && init[i].decision == d
          && forall j :: i < j < |init| ==> !RowAbout(init[j], k);
        assert rows[i] == init[i];
      }
      if LastDecision(rows, k, d) {
        var i :| 0 <= i < |rows| && RowAbout(rows[i], k) && rows[i].decision == d
          && forall j :: i < j < |rows| ==> !RowAbout(rows[j], k);
        assert rows[i] == init[i];
        assert forall j :: i < j < |init| ==> rows[j] == init[j];
      }
    }
  }

  lemma HoldsOnce(m: Decisions, m': Decisions, rows: seq<LockDecision>)
    requires Holds(m, rows) && Holds(m', rows)
    ensures m == m'
  {
    forall k ensures SameAt(m, m', k) {
      if k in m {
        assert LastDecision(rows, k, m[k]);
      }
      if k in m' {
        assert LastDecision(rows, k, m'[k]);
      }
    }
    SameEverywhere(m, m');
  }

  lemma OnlyMap(m: Decisions, rows: seq<LockDecision>)
    requires Holds(m, rows)
    ensures m == DecisionMap(rows)
  {
    DecisionMapHolds(rows);
    HoldsOnce(m, DecisionMap(rows), rows);
  }

  /**
   Verification is exact. Where the hash tells the two locks apart it accepts precisely the same
   identity. Otherwise its diff is non-empty, turns the recorded decisions into the current ones, and
   reports every differing package once; repeated packages count with their last row.
   */
  lemma VerifyIsPatch(lock: Lock, other: Lock, sha: Identity -> string, cur: Decisions, prev: Decisions, k: Key)
    requires NoCollision(sha, lock.identity, other.identity)
    requires Holds(cur, lock.identity.decisions) && Holds(prev, other.identity.decisions)
    ensures Digest(lock, sha) == Digest(other, sha) <==> lock.identity == other.identity
    ensures var diffs := Diff(lock.identity, other.identity);
      diffs != [] && Apply(diffs, prev) == cur && CountAbout(diffs, k) == if Differs(k, cur, prev) then 1 else 0
  {
    OnlyMap(cur, lock.identity.decisions);
    OnlyMap(prev, other.identity.decisions);
    var header, body := HeaderLines(lock.identity, other.identity), PackageLines(cur, prev);
    HeaderInert(lock.identity, other.identity, prev, k);
    ApplyAppend(header, body, prev);
    CountAppend(header, body, k);
    PackageLinesPatch(cur, prev);
    PackageLinesCount(cur, prev, k);
    DetailsInert(prev, k);
  }

  /** The first twelve characters, or all of a shorter text. */
  predicate Shortened(short: string, text: string) {
    short <= text && |short| == if |text| < 12 then |text| else 12
  }

  /** The lines about the inputs: one for each digest that changed, with both values shortened. */
  lemma HeaderExact(lock: Lock, other: Lock, was: string, now: string)
    ensures var diffs, a, b := Diff(lock.identity, other.identity), lock.identity, other.identity;
      && (LockfileChanged(was, now) in diffs <==>
            a.lockfileDigest != b.lockfileDigest && Shortened(was, b.lockfileDigest) && Shortened(now, a.lockfileDigest))
      && (PolicyChanged(was, now) in diffs <==>
            a.policyDigest != b.policyDigest && Shortened(was, b.policyDigest) && Shortened(now, a.policyDigest))
  {
    var a, b := lock.identity, other.identity;
    HeaderMembers(a, b, was, now);
    PackageLinesKinds(DecisionMap(a.decisions), DecisionMap(b.decisions));
    DiffMembers(a, b, LockfileChanged(was, now));
    DiffMembers(a, b, PolicyChanged(was, now));
  }

  /** The catch-all line stands exactly where no digest and no decision differs. */
  lemma DetailsExact(lock: Lock, other: Lock, cur: Decisions, prev: Decisions)
    requires Holds(cur, lock.identity.decisions) && Holds(prev, other.identity.decisions)
    ensures var a, b := lock.identity, other.identity;
      DetailsChanged in Diff(a, b) <==>
        a.lockfileDigest == b.lockfileDigest && a.policyDigest == b.policyDigest && cur == prev
  {
    OnlyMap(cur, lock.identity.decisions);
    OnlyMap(prev, other.identity.decisions);
    DetailsStand(lock.identity, other.identity);
    NoPackageLines(cur, prev);
  }

  lemma DetailsStand(a: Identity, b: Identity)
    ensures DetailsChanged in Diff(a, b) <==>
      && a.lockfileDigest == b.lockfileDigest && a.policyDigest == b.policyDigest
      && PackageLines(DecisionMap(a.decisions), DecisionMap(b.decisions)) == []
  {
    HeaderMembers(a, b, "", "");
    DetailsNoPackage(DecisionMap(a.decisions), DecisionMap(b.decisions));
    DiffMembers(a, b, DetailsChanged);
  }

  lemma DetailsNoPackage(cur: Decisions, prev: Decisions)
    ensures DetailsChanged !in PackageLines(cur, prev)
  {
    PackageLinesKinds(cur, prev);
    assert About(DetailsChanged).None?;
  }

  lemma DiffMembers(a: Identity, b: Identity, l: DiffLine)
    ensures var header, body := HeaderLines(a, b), PackageLines(DecisionMap(a.decisions), DecisionMap(b.decisions));
      l in Diff(a, b) <==> l in header || l in body || (l == DetailsChanged && header == [] && body == [])
  {
    EitherOr(HeaderLines(a, b), PackageLines(DecisionMap(a.decisions), DecisionMap(b.decisions)), l);
  }

  lemma EitherOr(header: seq<DiffLine>, body: seq<DiffLine>, l: DiffLine)
    ensures l in header + body <==> l in header || l in body
    ensures header + body == [] <==> header == [] && body == []
  {
    assert |header + body| == |header| + |body|;
  }

  lemma HeaderMembers(a: Identity, b: Identity, was: string, now: string)
    ensures LockfileChanged(was, now) in HeaderLines(a, b) <==>
      a.lockfileDigest != b.lockfileDigest && Shortened(was, b.lockfileDigest) && Shortened(now, a.lockfileDigest)
    ensures PolicyChanged(was, now) in HeaderLines(a, b) <==>
      a.policyDigest != b.policyDigest && Shortened(was, b.policyDigest) && Shortened(now, a.policyDigest)
    ensures DetailsChanged !in HeaderLines(a, b)
    ensures HeaderLines(a, b) == [] <==> a.lockfileDigest == b.lockfileDigest && a.policyDigest == b.policyDigest
  {
    ShortExact(was, b.lockfileDigest);
    ShortExact(now, a.lockfileDigest);
    ShortExact(was, b.policyDigest);
    ShortExact(now, a.policyDigest);
  }

  lemma ShortExact(short: string, text: string)
    ensures Shortened(short, text) <==> short == Short(text)
  {
  }

  lemma PackageLinesKinds(cur: Decisions, prev: Decisions)
    ensures forall l :: l in PackageLines(cur, prev) ==> About(l).Some?
  {
    UpsertKinds(SortedKeys(cur), cur, prev);
    RemovalKinds(SortedKeys(prev), cur);
  }

  lemma {:induction false} UpsertKinds(keys: seq<Key>, cur: Decisions, prev: Decisions)
    requires forall k :: k in keys ==> k in cur
    ensures forall l :: l in UpsertLines(keys, cur, prev) ==> About(l).Some?
  {
    if keys != [] {
      UpsertKinds(keys[1..], cur, prev);
    }
  }

  lemma {:induction false} RemovalKinds(keys: seq<Key>, cur: Decisions)
    ensures forall l :: l in RemovalLines(keys, cur) ==> About(l).Some?
  {
    if keys != [] {
      RemovalKinds(keys[1..], cur);
    }
  }

  lemma NoPackageLines(cur: Decisions, prev: Decisions)
    ensures PackageLines(cur, prev) == [] <==> cur == prev
  {
    PackageLinesPatch(cur, prev);
    if cur == prev {
      NoUpserts(SortedKeys(cur), cur);
      NoRemovals(SortedKeys(cur), cur);
    }
  }

  lemma {:induction false} NoUpserts(keys: seq<Key>, cur: Decisions)
    requires forall k :: k in keys ==> k in cur
    ensures UpsertLines(keys, cur, cur) == []
  {
    if keys != [] {
      NoUpserts(keys[1..], cur);
    }
  }

  lemma {:induction false} NoRemovals(keys: seq<Key>, cur: Decisions)
    requires forall k :: k in keys ==> k in cur
    ensures RemovalLines(keys, cur) == []
  {
    if keys != [] {
      NoRemovals(keys[1..], cur);
    }
  }

  // The order of the lines

  /** Lines about packages, in key order and about these keys only. */
  ghost predicate InKeyOrder(lines: seq<DiffLine>, keys: seq<Key>) {
    && (forall i :: 0 <= i < |lines| ==> About(lines[i]).Some? && About(lines[i]).value in keys)
    && (forall i, j :: 0 <= i < j < |lines| ==>
          About(lines[i]).Some? && About(lines[j]).Some? && KeyLe(About(lines[i]).value, About(lines[j]).value))
  }

  lemma ConsKeyOrder(head: seq<DiffLine>, rest: seq<DiffLine>, keys: seq<Key>)
    requires keys != [] && Sorted(keys, KeyLe) && InKeyOrder(rest, keys[1..])
    requires |head| <= 1 && forall l :: l in head ==> About(l) == Some(keys[0])
    ensures InKeyOrder(head + rest, keys)
  {
    WiderKeys(rest, keys);
    if |head| == 1 {
      assert head[0] in head && head == [head[0]];
      HeadInFront(head[0], rest, keys);
    } else {
      assert head + rest == rest;
    }
  }

  lemma WiderKeys(rest: seq<DiffLine>, keys: seq<Key>)
    requires keys != [] && Sorted(keys, KeyLe) && InKeyOrder(rest, keys[1..])
    ensures InKeyOrder(rest, keys)
    ensures forall i :: 0 <= i < |rest| ==> About(rest[i]).Some? && KeyLe(keys[0], About(rest[i]).value)
  {
    forall i | 0 <= i < |rest| ensures About(rest[i]).value in keys && KeyLe(keys[0], About(rest[i]).value) {
      LaterKey(keys, About(rest[i]).value);
    }
  }

  lemma LaterKey(keys: seq<Key>, x: Key)
    requires keys != [] && Sorted(keys, KeyLe) && x in keys[1..]
    ensures x in keys && KeyLe(keys[0], x)
  {
    var k :| 0 <= k < |keys[1..]| && keys[1..][k] == x;
    assert keys[k + 1] == x;
  }

  lemma HeadInFront(line: DiffLine, rest: seq<DiffLine>, keys: seq<Key>)
    requires keys != [] && About(line) == Some(keys[0]) && InKeyOrder(rest, keys)
    requires forall i :: 0 <= i < |rest| ==> About(rest[i]).Some? && KeyLe(keys[0], About(rest[i]).value)
    ensures InKeyOrder([line] + rest, keys)
  {
    var lines := [line] + rest;
    assert forall i :: 0 < i < |lines| ==> lines[i] == rest[i - 1];
  }

  lemma {:induction false} UpsertsInOrder(keys: seq<Key>, cur: Decisions, prev: Decisions)
    requires Sorted(keys, KeyLe) && forall k :: k in keys ==> k in cur
    ensures InKeyOrder(UpsertLines(keys, cur, prev), keys)
    ensures forall l :: l in UpsertLines(keys, cur, prev) ==> !l.Removed?
  {
    if keys != [] {
      SortedTail(keys, KeyLe);
      UpsertsInOrder(keys[1..], cur, prev);
      ConsKeyOrder(UpsertLine(keys[0], cur, prev), UpsertLines(keys[1..], cur, prev), keys);
    }
  }

  lemma {:induction false} RemovalsInOrder(keys: seq<Key>, cur: Decisions)
    requires Sorted(keys, KeyLe)
    ensures InKeyOrder(RemovalLines(keys, cur), keys)
    ensures forall l :: l in RemovalLines(keys, cur) ==> l.Removed?
  {
    if keys != [] {
      SortedTail(keys, KeyLe);
      RemovalsInOrder(keys[1..], cur);
      ConsKeyOrder(RemovalLine(keys[0], cur), RemovalLines(keys[1..], cur), keys);
    }
  }

  /** Additions and changes come first, removals last, and each group is in key order. */
  lemma LinesInOrder(cur: Decisions, prev: Decisions)
    ensures exists upserts, removals ::
      && PackageLines(cur, prev) == upserts + removals
      && InKeyOrder(upserts, SortedKeys(cur)) && (forall l: DiffLine :: l in upserts ==> !l.Removed?)
      && InKeyOrder(removals, SortedKeys(prev)) && (forall l: DiffLine :: l in removals ==> l.Removed?)
  {
    UpsertsInOrder(SortedKeys(cur), cur, prev);
    RemovalsInOrder(SortedKeys(prev), cur);
    assert PackageLines(cur, prev) == UpsertLines(SortedKeys(cur), cur, prev) + RemovalLines(SortedKeys(prev), cur);
  }

  lemma DetailsInert(m: Decisions, k: Key)
    ensures Apply([DetailsChanged], m) == m && CountAbout([DetailsChanged], k) == 0
  {
    assert [DetailsChanged][1..] == [];
  }

  lemma HeaderInert(cur: Identity, prev: Identity, m: Decisions, k: Key)
    ensures Apply(HeaderLines(cur, prev), m) == m && CountAbout(HeaderLines(cur, prev), k) == 0
  {
    var a := if cur.lockfileDigest != prev.lockfileDigest
      then [LockfileChanged(Short(prev.lockfileDigest), Short(cur.lockfileDigest))] else [];
    var b := if cur.policyDigest != prev.policyDigest
      then [PolicyChanged(Short(prev.policyDigest), Short(cur.policyDigest))] else [];
    ApplyAppend(a, b, m);
    CountAppend(a, b, k);
  }
}
