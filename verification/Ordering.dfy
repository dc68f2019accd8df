/**
 The orders the program sorts by, a stable sort, removal of neighbouring duplicates,
 and the sorted enumeration of a set (how an ordered map is walked).
 */
module Ordering {
  import opened Sequences

  ghost predicate TotalPreorder<T(!new)>(le: (T, T) -> bool) {
    && (forall a, b :: le(a, b) || le(b, a))
    && (forall a, b, c :: le(a, b) && le(b, c) ==> le(a, c))
  }

  ghost predicate TotalOrder<T(!new)>(le: (T, T) -> bool) {
    && TotalPreorder(le)
    && (forall a, b :: le(a, b) && le(b, a) ==> a == b)
  }

  /** Lexicographic order on strings. */
  predicate StrLe(a: string, b: string) {
    a == [] || (b != [] && (a[0] < b[0] || (a[0] == b[0] && StrLe(a[1..], b[1..]))))
  }

  /** At the first difference, the character of `a` is the smaller. */
  ghost predicate SmallerAt(a: string, b: string, k: int) {
    0 <= k < |a| && k < |b| && a[..k] == b[..k] && a[k] < b[k]
  }

  /** One text is before another when it is a prefix, or smaller at the first difference. */
  lemma {:induction false} StrLeExact(a: string, b: string)
    ensures StrLe(a, b) <==> a <= b || exists k :: SmallerAt(a, b, k)
  {
    if a != [] && b != [] {
      if a[0] == b[0] {
        StrLeExact(a[1..], b[1..]);
        PrefixStep(a, b);
        SmallerStep(a, b);
      } else {
        assert SmallerAt(a, b, 0) <==> a[0] < b[0];
        assert forall k :: k > 0 && SmallerAt(a, b, k) ==> a[..k][0] == b[..k][0];
      }
    }
  }

  lemma SmallerStep(a: string, b: string)
    requires a != [] && b != [] && a[0] == b[0]
    ensures (exists k :: SmallerAt(a, b, k)) <==> exists k :: SmallerAt(a[1..], b[1..], k)
  {
    if k :| SmallerAt(a, b, k) {
      assert a[1..][..k - 1] == a[..k][1..] == b[1..][..k - 1];
      assert SmallerAt(a[1..], b[1..], k - 1);
    }
    if k :| SmallerAt(a[1..], b[1..], k) {
      assert a[..k + 1] == [a[0]] + a[1..][..k] == b[..k + 1];
      assert SmallerAt(a, b, k + 1);
    }
  }

  lemma PrefixStep(a: string, b: string)
    requires a != [] && b != [] && a[0] == b[0]
    ensures a <= b <==> a[1..] <= b[1..]
  {
    if a <= b {
      assert a[1..] == b[..|a|][1..];
    }
    if a[1..] <= b[1..] {
      assert b[..|a|] == [b[0]] + b[1..][..|a| - 1] == a;
    }
  }

  lemma {:induction false} StrLeTotal(a: string, b: string)
    ensures StrLe(a, b) || StrLe(b, a)
  {
    if a != [] && b != [] {
      StrLeTotal(a[1..], b[1..]);
    }
  }

  lemma {:induction false} StrLeAntisymmetric(a: string, b: string)
    requires StrLe(a, b) && StrLe(b, a)
    ensures a == b
  {
    if a != [] && b != [] {
      StrLeAntisymmetric(a[1..], b[1..]);
      assert a == [a[0]] + a[1..] && b == [b[0]] + b[1..];
    }
  }

  lemma {:induction false} StrLeTransitive(a: string, b: string, c: string)
    requires StrLe(a, b) && StrLe(b, c)
    ensures StrLe(a, c)
  {
    if a != [] && a[0] == b[0] == c[0] {
      StrLeTransitive(a[1..], b[1..], c[1..]);
    }
  }

  lemma StrOrder()
    ensures TotalOrder(StrLe)
  {
    forall a, b ensures StrLe(a, b) || StrLe(b, a) { StrLeTotal(a, b); }
    forall a, b | StrLe(a, b) && StrLe(b, a) ensures a == b { StrLeAntisymmetric(a, b); }
    forall a, b, c | StrLe(a, b) && StrLe(b, c) ensures StrLe(a, c) { StrLeTransitive(a, b, c); }
  }

  // Stable sort

  ghost predicate Sorted<T>(s: seq<T>, le: (T, T) -> bool) {
    forall i, j :: 0 <= i < j < |s| ==> le(s[i], s[j])
  }

  function Insert<T>(x: T, s: seq<T>, le: (T, T) -> bool): seq<T> {
    if s == [] || le(x, s[0]) then [x] + s else [s[0]] + Insert(x, s[1..], le)
  }

  function Sort<T>(s: seq<T>, le: (T, T) -> bool): seq<T> {
    if s == [] then [] else Insert(s[0], Sort(s[1..], le), le)
  }

  lemma {:induction false} InsertPermutes<T>(x: T, s: seq<T>, le: (T, T) -> bool)
    ensures multiset(Insert(x, s, le)) == multiset{x} + multiset(s)
  {
    if s != [] && !le(x, s[0]) {
      InsertPermutes(x, s[1..], le);
      assert s == [s[0]] + s[1..];
    }
  }

  lemma {:induction false} SortPermutes<T>(s: seq<T>, le: (T, T) -> bool)
    ensures multiset(Sort(s, le)) == multiset(s)
    ensures |Sort(s, le)| == |s|
  {
    if s != [] {
      SortPermutes(s[1..], le);
      InsertPermutes(s[0], Sort(s[1..], le), le);
      assert s == [s[0]] + s[1..];
    }
    assert |multiset(Sort(s, le))| == |Sort(s, le)| && |multiset(s)| == |s|;
  }

  lemma SortMembers<T>(s: seq<T>, le: (T, T) -> bool, x: T)
    ensures x in Sort(s, le) <==> x in s
  {
    SortPermutes(s, le);
    assert x in Sort(s, le) <==> x in multiset(Sort(s, le));
    assert x in s <==> x in multiset(s);
  }

  lemma {:induction false} InsertSorted<T(!new)>(x: T, s: seq<T>, le: (T, T) -> bool)
    requires TotalPreorder(le) && Sorted(s, le)
    ensures Sorted(Insert(x, s, le), le)
  {
    if s != [] && !le(x, s[0]) {
      InsertSorted(x, s[1..], le);
      var rest := Insert(x, s[1..], le);
      InsertPermutes(x, s[1..], le);
      forall i | 0 <= i < |rest| ensures le(s[0], rest[i]) {
        assert rest[i] in multiset(rest);
      }
    }
  }

  lemma {:induction false} SortSorts<T(!new)>(s: seq<T>, le: (T, T) -> bool)
    requires TotalPreorder(le)
    ensures Sorted(Sort(s, le), le)
  {
    if s != [] {
      SortSorts(s[1..], le);
      InsertSorted(s[0], Sort(s[1..], le), le);
    }
  }

  /** Sorting something already sorted changes nothing. */
  lemma {:induction false} SortIdentity<T(!new)>(s: seq<T>, le: (T, T) -> bool)
    requires Sorted(s, le)
    ensures Sort(s, le) == s
  {
    if s != [] {
      SortIdentity(s[1..], le);
      assert s == [s[0]] + s[1..];
    }
  }

  /** `le` tells the elements of `s` apart. */
  ghost predicate Separates<T>(s: seq<T>, le: (T, T) -> bool) {
    forall a, b :: a in s && b in s && le(a, b) && le(b, a) ==> a == b
  }

  lemma SortedAppend<T>(s: seq<T>, t: seq<T>, le: (T, T) -> bool)
    requires Sorted(s, le) && Sorted(t, le) && forall x, y :: x in s && y in t ==> le(x, y)
    ensures Sorted(s + t, le)
  {
    forall i, j | 0 <= i < j < |s + t| ensures le((s + t)[i], (s + t)[j]) {
      if i < |s| <= j {
        assert s[i] in s && t[j - |s|] in t;
      }
    }
  }

  lemma SortedTail<T>(s: seq<T>, le: (T, T) -> bool)
    requires s != [] && Sorted(s, le)
    ensures Sorted(s[1..], le)
    ensures Separates(s, le) ==> Separates(s[1..], le)
  {
    assert forall x :: x in s[1..] ==> x in s;
  }

  /** Two sorted arrangements of the same elements agree when `le` tells the elements apart. */
  lemma {:induction false} SortedUnique<T(!new)>(s: seq<T>, t: seq<T>, le: (T, T) -> bool)
    requires multiset(s) == multiset(t) && Sorted(s, le) && Sorted(t, le)
    requires Separates(s, le)
    ensures s == t
  {
    SameLength(s, t);
    if s != [] {
      SameHead(s, t, le);
      SameTails(s, t);
      SortedTail(s, le);
      SortedTail(t, le);
      SortedUnique(s[1..], t[1..], le);
      SameByParts(s, t);
    }
  }

  lemma SameHead<T(!new)>(s: seq<T>, t: seq<T>, le: (T, T) -> bool)
    requires s != [] && t != [] && multiset(s) == multiset(t) && Sorted(s, le) && Sorted(t, le)
    requires Separates(s, le)
    ensures s[0] == t[0]
  {
    assert s[0] in multiset(t) && t[0] in multiset(s);
    var i :| 0 <= i < |t| && t[i] == s[0];
    var j :| 0 <= j < |s| && s[j] == t[0];
    if i > 0 && j > 0 {
      assert le(s[0], s[j]) && le(t[0], t[i]);
    }
  }

  /** Stability: the elements of one equivalence class keep their relative order. */
  lemma {:induction false} InsertStable<T(!new)>(x: T, s: seq<T>, le: (T, T) -> bool, keep: T -> bool)
    requires TotalPreorder(le)
    requires forall a, b :: keep(a) && keep(b) ==> le(a, b)
    ensures Filter(Insert(x, s, le), keep) == (if keep(x) then [x] else []) + Filter(s, keep)
  {
    if s != [] && !le(x, s[0]) {
      var rest := Insert(x, s[1..], le);
      InsertStable(x, s[1..], le, keep);
      FilterCons(s[0], rest, keep);
      assert s == [s[0]] + s[1..];
      FilterCons(s[0], s[1..], keep);
      assert keep(x) ==> !keep(s[0]);
    } else {
      FilterCons(x, s, keep);
    }
  }

  lemma FilterCons<T>(x: T, s: seq<T>, keep: T -> bool)
    ensures Filter([x] + s, keep) == (if keep(x) then [x] else []) + Filter(s, keep)
  {
    assert ([x] + s)[1..] == s;
  }

  lemma {:induction false} SortStable<T(!new)>(s: seq<T>, le: (T, T) -> bool, keep: T -> bool)
    requires TotalPreorder(le)
    requires forall a, b :: keep(a) && keep(b) ==> le(a, b)
    ensures Filter(Sort(s, le), keep) == Filter(s, keep)
  {
    if s != [] {
      SortStable(s[1..], le, keep);
      InsertStable(s[0], Sort(s[1..], le), le, keep);
    }
  }

  // Neighbouring duplicates

  /** How many leading elements of `s` have the key `k`. */
  function RunLength<T, K(==)>(s: seq<T>, key: T -> K, k: K): (n: nat)
    ensures n <= |s| && forall i :: 0 <= i < n ==> key(s[i]) == k
    ensures n < |s| ==> key(s[n]) != k
  {
    if s == [] || key(s[0]) != k then 0 else 1 + RunLength(s[1..], key, k)
  }

  /** Keeps the first element of every run of neighbours that share a key. */
  function Dedup<T, K(==)>(s: seq<T>, key: T -> K): seq<T>
    decreases |s|
  {
    if s == [] then [] else [s[0]] + Dedup(s[1..][RunLength(s[1..], key, key(s[0]))..], key)
  }

  ghost predicate KeysSorted<T>(s: seq<T>, key: T -> string) {
    forall i, j :: 0 <= i < j < |s| ==> StrLe(key(s[i]), key(s[j]))
  }

  ghost predicate StrictlySorted(s: seq<string>) {
    forall i, j :: 0 <= i < j < |s| ==> StrLe(s[i], s[j]) && s[i] != s[j]
  }

  /** Every survivor is an original element and the first one that has its key. */
  ghost predicate FirstWithKey<T>(s: seq<T>, key: T -> string, y: T) {
    exists i :: 0 <= i < |s| && s[i] == y && forall j :: 0 <= j < i ==> key(s[j]) != key(y)
  }

  lemma {:induction false} DedupKeepsKeys<T, K>(s: seq<T>, key: T -> K, x: T)
    requires x in s
    ensures exists y :: y in Dedup(s, key) && key(y) == key(x)
    decreases |s|
  {
    var n := RunLength(s[1..], key, key(s[0]));
    var rest := s[1..][n..];
    assert Dedup(s, key) == [s[0]] + Dedup(rest, key);
    if key(x) == key(s[0]) {
      assert s[0] in Dedup(s, key);
    } else {
      var i :| 0 <= i < |s| && s[i] == x;
      assert i == 0 || s[1..][i - 1] == x;
      assert rest[i - 1 - n] == x;
      DedupKeepsKeys(rest, key, x);
      var y :| y in Dedup(rest, key) && key(y) == key(x);
      assert y in Dedup(s, key);
    }
  }

  lemma {:induction false} DedupSubset<T, K>(s: seq<T>, key: T -> K, y: T)
    requires y in Dedup(s, key)
    ensures y in s
    decreases |s|
  {
    var rest := s[1..][RunLength(s[1..], key, key(s[0]))..];
    if y != s[0] {
      DedupSubset(rest, key, y);
    }
  }

  lemma SortDedupSubset<T, K>(s: seq<T>, le: (T, T) -> bool, key: T -> K, y: T)
    requires y in Dedup(Sort(s, le), key)
    ensures y in s
  {
    DedupSubset(Sort(s, le), key, y);
    SortMembers(s, le, y);
  }

  lemma SortDedupKeepsKeys<T, K>(s: seq<T>, le: (T, T) -> bool, key: T -> K, x: T)
    requires x in s
    ensures exists y :: y in Dedup(Sort(s, le), key) && key(y) == key(x)
  {
    SortMembers(s, le, x);
    DedupKeepsKeys(Sort(s, le), key, x);
  }

  lemma HeadBelowRest<T>(s: seq<T>, key: T -> string, n: nat, y: T)
    requires s != [] && KeysSorted(s, key) && n == RunLength(s[1..], key, key(s[0]))
    requires y in Dedup(s[1..][n..], key)
    ensures StrLe(key(s[0]), key(y)) && key(s[0]) != key(y)
  {
    var rest := s[1..][n..];
    DedupSubset(rest, key, y);
    var i :| 0 <= i < |rest| && rest[i] == y;
    assert y == s[1 + n + i] && s[1 + n] == s[1..][n];
    if key(s[0]) == key(y) {
      StrLeAntisymmetric(key(s[0]), key(s[1 + n]));
      assert false;
    }
  }

  /** De-duplicating a sequence sorted by its keys leaves the keys strictly increasing. */
  lemma {:induction false} DedupStrict<T>(s: seq<T>, key: T -> string)
    requires KeysSorted(s, key)
    ensures StrictlySorted(Map(Dedup(s, key), key))
    decreases |s|
  {
    if s != [] {
      var n := RunLength(s[1..], key, key(s[0]));
      var rest := s[1..][n..];
      DedupStrict(rest, key);
      var d := Dedup(rest, key);
      forall k | 0 <= k < |d| ensures StrLe(key(s[0]), key(d[k])) && key(s[0]) != key(d[k]) {
        HeadBelowRest(s, key, n, d[k]);
      }
      var keys, tail := Map(Dedup(s, key), key), Map(d, key);
      assert forall k :: 0 < k < |keys| ==> keys[k] == tail[k - 1];
    }
  }

  lemma {:induction false} DedupFirst<T>(s: seq<T>, key: T -> string, y: T)
    requires KeysSorted(s, key) && y in Dedup(s, key)
    ensures FirstWithKey(s, key, y)
    decreases |s|
  {
    if y != s[0] {
      var n := RunLength(s[1..], key, key(s[0]));
      DedupFirst(s[1..][n..], key, y);
      DedupHeadKey(s, key, y);
      FirstAfterRun(s, key, y, n);
    }
  }

  lemma FirstAfterRun<T>(s: seq<T>, key: T -> string, y: T, n: nat)
    requires n < |s| && forall i :: 0 <= i < n ==> key(s[1..][i]) == key(s[0])
    requires key(y) != key(s[0]) && FirstWithKey(s[1..][n..], key, y)
    ensures FirstWithKey(s, key, y)
  {
    var rest := s[1..][n..];
    var i :| 0 <= i < |rest| && rest[i] == y && forall j :: 0 <= j < i ==> key(rest[j]) != key(y);
    assert s[1 + n + i] == y;
    forall j | 0 <= j < 1 + n + i ensures key(s[j]) != key(y) {
      assert j == 0 || s[j] == s[1..][j - 1];
      assert j <= n || s[j] == rest[j - 1 - n];
    }
  }

  lemma DedupHeadKey<T>(s: seq<T>, key: T -> string, y: T)
    requires KeysSorted(s, key) && y in Dedup(s, key) && y != s[0]
    ensures key(y) != key(s[0])
  {
    HeadBelowRest(s, key, RunLength(s[1..], key, key(s[0])), y);
  }

  /** De-duplicating keeps the order, and leaves no two neighbours alike. */
  lemma {:induction false} DedupSorted<T>(s: seq<T>, le: (T, T) -> bool)
    requires Sorted(s, le)
    ensures Sorted(Dedup(s, Itself), le)
    ensures forall i :: 0 < i < |Dedup(s, Itself)| ==> Dedup(s, Itself)[i - 1] != Dedup(s, Itself)[i]
    decreases |s|
  {
    if s != [] {
      var n := RunLength(s[1..], Itself, Itself(s[0]));
      var rest := s[1..][n..];
      assert forall i :: 0 <= i < |rest| ==> rest[i] == s[1 + n + i];
      DedupSorted(rest, le);
      var d := Dedup(rest, Itself);
      forall k | 0 <= k < |d| ensures le(s[0], d[k]) {
        DedupSubset(rest, Itself, d[k]);
        var i :| 0 <= i < |rest| && rest[i] == d[k];
        assert d[k] == s[1 + n + i];
      }
      assert d != [] ==> d[0] == rest[0] == s[1..][n] != s[0];
    }
  }

  /** `sort` followed by `dedup` on strings. */
  function SortDedup(s: seq<string>): seq<string> {
    Dedup(Sort(s, StrLe), Itself)
  }

  function Itself<T>(x: T): T {
    x
  }

  /** The result is strictly increasing and has exactly the original members. */
  lemma SortDedupExact(s: seq<string>)
    ensures StrictlySorted(SortDedup(s))
    ensures forall x :: x in SortDedup(s) <==> x in s
  {
    StrOrder();
    SortSorts(s, StrLe);
    var t := Sort(s, StrLe);
    DedupStrict(t, Itself);
    assert Map(SortDedup(s), Itself) == SortDedup(s);
    forall x | x in s ensures x in SortDedup(s) {
      SortDedupKeepsKeys(s, StrLe, Itself, x);
    }
    forall x | x in SortDedup(s) ensures x in s {
      SortDedupSubset(s, StrLe, Itself, x);
    }
  }

  // Ordered maps

  ghost predicate Least<T(!new)>(x: T, s: set<T>, le: (T, T) -> bool) {
    x in s && forall y | y in s :: le(x, y)
  }

  /** The members of a set in increasing order: the order in which an ordered map is iterated. */
  function SortedSet<T(!new, ==)>(s: set<T>, le: (T, T) -> bool): seq<T>
    requires TotalOrder(le)
  {
    if s == {} then []
    else
      LeastExists(s, le);
      var x :| x in s && forall y | y in s :: le(x, y);
      [x] + SortedSet(s - {x}, le)
  }

  lemma {:induction false} LeastExists<T(!new)>(s: set<T>, le: (T, T) -> bool)
    requires TotalOrder(le) && s != {}
    ensures exists x :: Least(x, s, le)
  {
    var z :| z in s;
    var rest := s - {z};
    if rest == {} {
      LeastOfOne(z, s, le);
    } else {
      LeastExists(rest, le);
      var x :| Least(x, rest, le);
      LeastOfMore(x, z, rest, le);
      assert s == rest + {z};
    }
  }

  lemma LeastOfOne<T(!new)>(z: T, s: set<T>, le: (T, T) -> bool)
    requires TotalOrder(le) && z in s && s - {z} == {}
    ensures Least(z, s, le)
  {
    forall y | y in s ensures le(z, y) {
      assert y == z || y in s - {z};
    }
  }

  lemma LeastOfMore<T(!new)>(x: T, z: T, rest: set<T>, le: (T, T) -> bool)
    requires TotalOrder(le) && Least(x, rest, le)
    ensures Least(x, rest + {z}, le) || Least(z, rest + {z}, le)
  {
    if !le(x, z) {
      forall y | y in rest + {z} ensures le(z, y) {
        assert y == z || (le(z, x) && le(x, y));
      }
    }
  }

  /** The members of `s`, each once, in order. */
  ghost predicate Enumerates<T(!new)>(l: seq<T>, s: set<T>, le: (T, T) -> bool) {
    Sorted(l, le) && Distinct(l) && forall x :: x in l <==> x in s
  }

  lemma PrependLeast<T(!new)>(x: T, rest: seq<T>, s: set<T>, le: (T, T) -> bool)
    requires Least(x, s, le) && Enumerates(rest, s - {x}, le)
    ensures Enumerates([x] + rest, s, le)
  {
    var l := [x] + rest;
    forall j | 0 < j < |l| ensures le(x, l[j]) && x != l[j] {
      assert l[j] in rest;
    }
    forall y ensures y in l <==> y in s {
      assert y in rest <==> y in s - {x};
    }
  }

  lemma {:induction false} SortedSetExact<T(!new)>(s: set<T>, le: (T, T) -> bool)
    requires TotalOrder(le)
    ensures Enumerates(SortedSet(s, le), s, le)
  {
    if s != {} {
      LeastExists(s, le);
      var x :| x in s && forall y | y in s :: le(x, y);
      SortedSetExact(s - {x}, le);
      PrependLeast(x, SortedSet(s - {x}, le), s, le);
    }
  }
}
