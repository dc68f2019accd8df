/** Whole-sequence operations and the facts about them that several components share. */
module Sequences {
  import opened Wrappers

  function Map<S, T>(s: seq<S>, f: S -> T): (r: seq<T>)
    ensures |r| == |s| && forall i :: 0 <= i < |s| ==> r[i] == f(s[i])
  {
    if s == [] then [] else [f(s[0])] + Map(s[1..], f)
  }

  function FilterMap<S, T>(s: seq<S>, f: S -> Option<T>): seq<T> {
    if s == [] then []
    else (match f(s[0]) case Some(y) => [y] case None => []) + FilterMap(s[1..], f)
  }

  function Filter<T>(s: seq<T>, keep: T -> bool): seq<T> {
    if s == [] then []
    else (if keep(s[0]) then [s[0]] else []) + Filter(s[1..], keep)
  }

  lemma DistinctAppend<T>(s: seq<T>, x: T)
    requires Distinct(s) && x !in s
    ensures Distinct(s + [x])
  {
  }

  lemma MapMembers<S, T>(s: seq<S>, f: S -> T, y: T)
    ensures y in Map(s, f) <==> exists x :: x in s && f(x) == y
  {
    if y in Map(s, f) {
      var i :| 0 <= i < |s| && Map(s, f)[i] == y;
      assert s[i] in s;
    }
    if x :| x in s && f(x) == y {
      var i :| 0 <= i < |s| && s[i] == x;
      assert Map(s, f)[i] == y;
    }
  }

  /** No element occurs twice. */
  ghost predicate Distinct<T>(s: seq<T>) {
    forall i, j :: 0 <= i < j < |s| ==> s[i] != s[j]
  }

  lemma {:induction false} FilterMapMembers<S, T>(s: seq<S>, f: S -> Option<T>, y: T)
    ensures y in FilterMap(s, f) <==> exists i :: 0 <= i < |s| && f(s[i]) == Some(y)
  {
    if s != [] {
      FilterMapMembers(s[1..], f, y);
      if i :| 0 <= i < |s| && f(s[i]) == Some(y) {
        if i > 0 {
          assert s[1..][i - 1] == s[i];
        }
      }
      if i :| 0 <= i < |s[1..]| && f(s[1..][i]) == Some(y) {
        assert s[i + 1] == s[1..][i];
      }
    }
  }

  lemma {:induction false} FilterMapAppend<S, T>(s: seq<S>, t: seq<S>, f: S -> Option<T>)
    ensures FilterMap(s + t, f) == FilterMap(s, f) + FilterMap(t, f)
  {
    if s == [] {
      assert s + t == t;
    } else {
      assert (s + t)[1..] == s[1..] + t;
      FilterMapAppend(s[1..], t, f);
      Associate(match f(s[0]) case Some(y) => [y] case None => [], FilterMap(s[1..], f), FilterMap(t, f));
    }
  }

  lemma FilterMapOne<S, T>(x: S, f: S -> Option<T>)
    ensures FilterMap([x], f) == match f(x) case Some(y) => [y] case None => []
  {
    assert [x][1..] == [];
  }

  lemma {:induction false} FilterMembers<T>(s: seq<T>, keep: T -> bool, x: T)
    ensures x in Filter(s, keep) <==> x in s && keep(x)
  {
    if s != [] {
      FilterMembers(s[1..], keep, x);
      assert s == [s[0]] + s[1..];
    }
  }

  lemma {:induction false} FilterAppend<T>(s: seq<T>, t: seq<T>, keep: T -> bool)
    ensures Filter(s + t, keep) == Filter(s, keep) + Filter(t, keep)
  {
    if s == [] {
      assert s + t == t;
    } else {
      assert (s + t)[1..] == s[1..] + t;
      FilterAppend(s[1..], t, keep);
      Associate(if keep(s[0]) then [s[0]] else [], Filter(s[1..], keep), Filter(t, keep));
    }
  }

  lemma Associate<T>(a: seq<T>, b: seq<T>, c: seq<T>)
    ensures (a + b) + c == a + (b + c)
  {
  }

  lemma AssociateFive<T>(base: seq<T>, a: seq<T>, b: seq<T>, c: seq<T>, d: seq<T>, e: seq<T>)
    ensures base + (a + b + c + d + e) == base + a + b + c + d + e
  {
    Associate(base, a, b);
    Associate(base, a + b, c);
    Associate(base, a + b + c, d);
    Associate(base, a + b + c + d, e);
  }

  lemma AssociateEight<T>(
    base: seq<T>, a: seq<T>, b: seq<T>, c: seq<T>, d: seq<T>, e: seq<T>, f: seq<T>, g: seq<T>, h: seq<T>)
    ensures base + (a + b + c + d + e + f + g + h) == base + a + b + c + d + e + f + g + h
  {
    AssociateFive(base, a, b, c, d, e);
    Associate(base, a + b + c + d + e, f);
    Associate(base, a + b + c + d + e + f, g);
    Associate(base, a + b + c + d + e + f + g, h);
  }

  lemma MemberOfFive<T>(x: T, a: seq<T>, b: seq<T>, c: seq<T>, d: seq<T>, e: seq<T>)
    ensures x in a + b + c + d + e <==> x in a || x in b || x in c || x in d || x in e
  {
  }

  lemma MemberOfEight<T>(
    x: T, a: seq<T>, b: seq<T>, c: seq<T>, d: seq<T>, e: seq<T>, f: seq<T>, g: seq<T>, h: seq<T>)
    ensures x in a + b + c + d + e + f + g + h <==>
      x in a || x in b || x in c || x in d || x in e || x in f || x in g || x in h
  {
    MemberOfFive(x, a, b, c, d, e);
  }

  lemma {:induction false} MapAppend<S, T>(s: seq<S>, t: seq<S>, f: S -> T)
    ensures Map(s + t, f) == Map(s, f) + Map(t, f)
  {
  }

  lemma RemoveOne<T>(s: seq<T>, i: nat)
    requires i < |s|
    ensures multiset(s) == multiset{s[i]} + multiset(s[..i] + s[i + 1..])
  {
    SplitAround(s, i);
    MultisetThree(s[..i], s[i], s[i + 1..]);
  }

  lemma SplitAround<T>(s: seq<T>, i: nat)
    requires i < |s|
    ensures s == s[..i] + [s[i]] + s[i + 1..]
  {
  }

  lemma SameAfterRemoval<T>(s: seq<T>, t: seq<T>, i: nat, j: nat)
    requires multiset(s) == multiset(t) && i < |s| && j < |t| && s[i] == t[j]
    ensures multiset(s[..i] + s[i + 1..]) == multiset(t[..j] + t[j + 1..])
  {
    RemoveOne(s, i);
    RemoveOne(t, j);
    var a, b := multiset(s[..i] + s[i + 1..]), multiset(t[..j] + t[j + 1..]);
    assert a == multiset(s) - multiset{s[i]};
    assert b == multiset(t) - multiset{t[j]};
  }

  /** Two members of a sequence can be brought to its front, in either order. */
  lemma BringForward<T>(s: seq<T>, x: T, y: T) returns (rest: seq<T>)
    requires x in s && y in s && x != y
    ensures multiset([x, y] + rest) == multiset(s) == multiset([y, x] + rest)
  {
    var i :| 0 <= i < |s| && s[i] == x;
    RemoveOne(s, i);
    var others := s[..i] + s[i + 1..];
    assert y in multiset(others);
    var j :| 0 <= j < |others| && others[j] == y;
    RemoveOne(others, j);
    rest := others[..j] + others[j + 1..];
    TwoInFront(x, y, rest);
    TwoInFront(y, x, rest);
  }

  lemma OneByOne<T>(x: T, y: T, rest: seq<T>)
    ensures [x] + ([y] + rest) == [x, y] + rest
  {
  }

  lemma TwoInFront<T>(x: T, y: T, rest: seq<T>)
    ensures multiset([x, y] + rest) == multiset{x, y} + multiset(rest)
  {
  }

  lemma SameTails<T>(s: seq<T>, t: seq<T>)
    requires s != [] && t != [] && multiset(s) == multiset(t) && s[0] == t[0]
    ensures multiset(s[1..]) == multiset(t[1..])
  {
    SameAfterRemoval(s, t, 0, 0);
    assert s[..0] + s[1..] == s[1..] && t[..0] + t[1..] == t[1..];
  }

  lemma SameByParts<T>(s: seq<T>, t: seq<T>)
    requires s != [] && t != [] && s[0] == t[0] && s[1..] == t[1..]
    ensures s == t
  {
    assert s == [s[0]] + s[1..] && t == [t[0]] + t[1..];
  }

  lemma SameLength<T>(s: seq<T>, t: seq<T>)
    requires multiset(s) == multiset(t)
    ensures |s| == |t|
  {
    assert |multiset(s)| == |s| && |multiset(t)| == |t|;
  }

  lemma MapRemoveOne<S, T>(a: seq<S>, x: S, b: seq<S>, f: S -> T)
    ensures multiset(Map(a + [x] + b, f)) == multiset{f(x)} + multiset(Map(a + b, f))
  {
    MapThree(a, x, b, f);
    MapAppend(a, b, f);
    MultisetThree(Map(a, f), f(x), Map(b, f));
  }

  lemma MapThree<S, T>(a: seq<S>, x: S, b: seq<S>, f: S -> T)
    ensures Map(a + [x] + b, f) == Map(a, f) + [f(x)] + Map(b, f)
  {
  }

  lemma MultisetThree<T>(a: seq<T>, x: T, b: seq<T>)
    ensures multiset(a + [x] + b) == multiset{x} + multiset(a + b)
  {
  }

  /** Mapping a permutation gives a permutation. */
  lemma {:induction false} MapPermutation<S, T>(s: seq<S>, t: seq<S>, f: S -> T)
    requires multiset(s) == multiset(t)
    ensures multiset(Map(s, f)) == multiset(Map(t, f))
  {
    SameLength(s, t);
    if s != [] {
      assert s[0] in multiset(t);
      var i :| 0 <= i < |t| && t[i] == s[0];
      SameAfterRemoval(s, t, 0, i);
      assert s[..0] + s[1..] == s[1..];
      MapPermutation(s[1..], t[..i] + t[i + 1..], f);
      MapRemoveHead(s, f);
      MapRemoveAt(t, i, f);
    }
  }

  lemma MapRemoveHead<S, T>(s: seq<S>, f: S -> T)
    requires s != []
    ensures multiset(Map(s, f)) == multiset{f(s[0])} + multiset(Map(s[1..], f))
  {
    assert Map(s, f) == [f(s[0])] + Map(s[1..], f);
  }

  lemma MapRemoveAt<S, T>(t: seq<S>, i: nat, f: S -> T)
    requires i < |t|
    ensures multiset(Map(t, f)) == multiset{f(t[i])} + multiset(Map(t[..i] + t[i + 1..], f))
  {
    SplitAround(t, i);
    MapRemoveOne(t[..i], t[i], t[i + 1..], f);
  }

  /** Filtering a permutation gives a permutation. */
  lemma {:induction false} FilterPermutation<T>(s: seq<T>, t: seq<T>, keep: T -> bool)
    requires multiset(s) == multiset(t)
    ensures multiset(Filter(s, keep)) == multiset(Filter(t, keep))
  {
    SameLength(s, t);
    if s != [] {
      assert s[0] in multiset(t);
      var i :| 0 <= i < |t| && t[i] == s[0];
      SameAfterRemoval(s, t, 0, i);
      assert s[..0] + s[1..] == s[1..];
      FilterPermutation(s[1..], t[..i] + t[i + 1..], keep);
      FilterRemoveOne(t, i, keep);
    }
  }

  lemma FilterRemoveOne<T>(t: seq<T>, i: nat, keep: T -> bool)
    requires i < |t|
    ensures multiset(Filter(t, keep)) ==
      (if keep(t[i]) then multiset{t[i]} else multiset{}) + multiset(Filter(t[..i] + t[i + 1..], keep))
  {
    assert t == t[..i] + t[i..];
    FilterAppend(t[..i], t[i..], keep);
    FilterAppend(t[..i], t[i + 1..], keep);
    assert t[i..][1..] == t[i + 1..];
  }

  lemma {:induction false} FilterNone<T>(s: seq<T>, keep: T -> bool)
    requires forall x :: x in s ==> !keep(x)
    ensures Filter(s, keep) == []
  {
    if s != [] {
      FilterNone(s[1..], keep);
    }
  }

  lemma {:induction false} FilterSame<T>(s: seq<T>, keep: T -> bool, keep': T -> bool)
    requires forall x :: x in s ==> keep(x) == keep'(x)
    ensures Filter(s, keep) == Filter(s, keep')
  {
    if s != [] {
      FilterSame(s[1..], keep, keep');
    }
  }

  function Both<T>(first: T -> bool, second: T -> bool): T -> bool {
    x => first(x) && second(x)
  }

  lemma {:induction false} FilterTwice<T>(s: seq<T>, first: T -> bool, second: T -> bool)
    ensures Filter(Filter(s, first), second) == Filter(s, Both(first, second))
  {
    if s != [] {
      FilterTwice(s[1..], first, second);
      FilterAppend(if first(s[0]) then [s[0]] else [], Filter(s[1..], first), second);
    }
  }

  lemma FilterFive<T>(a: seq<T>, b: seq<T>, c: seq<T>, d: seq<T>, e: seq<T>, keep: T -> bool)
    ensures Filter(a + b + c + d + e, keep)
      == Filter(a, keep) + Filter(b, keep) + Filter(c, keep) + Filter(d, keep) + Filter(e, keep)
  {
    FilterAppend(a + b + c + d, e, keep);
    FilterAppend(a + b + c, d, keep);
    FilterAppend(a + b, c, keep);
    FilterAppend(a, b, keep);
  }
}
