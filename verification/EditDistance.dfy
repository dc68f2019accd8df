/** The textbook edit distance with adjacent transposition, and what distance one means. */
module EditDistance {

  function Min(x: nat, y: nat): nat {
    if x < y then x else y
  }

  /** Fewest insertions, deletions, substitutions and swaps of neighbours that turn `a` into `b`. */
  ghost function Distance(a: string, b: string): nat
    decreases |a| + |b|
  {
    if a == "" then |b|
    else if b == "" then |a|
    else
      var keep := (if a[0] == b[0] then 0 else 1) + Distance(a[1..], b[1..]);
      var edit := Min(keep, Min(1 + Distance(a[1..], b), 1 + Distance(a, b[1..])));
      if SwappedHeads(a, b) then Min(edit, 1 + Distance(a[2..], b[2..])) else edit
  }

  predicate SwappedHeads(a: string, b: string) {
    |a| >= 2 && |b| >= 2 && a[0] == b[1] && a[1] == b[0]
  }

  lemma {:induction false} ZeroIffEqual(a: string, b: string)
    ensures Distance(a, b) == 0 <==> a == b
    decreases |a| + |b|
  {
    if a != "" && b != "" {
      ZeroIffEqual(a[1..], b[1..]);
      assert a == [a[0]] + a[1..] && b == [b[0]] + b[1..];
    }
  }

  lemma {:induction false} DistanceSymmetric(a: string, b: string)
    ensures Distance(a, b) == Distance(b, a)
    decreases |a| + |b|
  {
    if a != "" && b != "" {
      DistanceSymmetric(a[1..], b[1..]);
      DistanceSymmetric(a[1..], b);
      DistanceSymmetric(a, b[1..]);
      if SwappedHeads(a, b) {
        DistanceSymmetric(a[2..], b[2..]);
      }
    }
  }

  lemma {:induction false} DistanceAtLeastLengths(a: string, b: string)
    ensures Distance(a, b) >= |a| - |b| && Distance(a, b) >= |b| - |a|
    decreases |a| + |b|
  {
    if a != "" && b != "" {
      DistanceAtLeastLengths(a[1..], b[1..]);
      DistanceAtLeastLengths(a[1..], b);
      DistanceAtLeastLengths(a, b[1..]);
      if SwappedHeads(a, b) {
        DistanceAtLeastLengths(a[2..], b[2..]);
      }
    }
  }

  /** Dropping the first character costs one. */
  lemma DropHead(s: string)
    requires s != ""
    ensures Distance(s, s[1..]) == 1 && Distance(s[1..], s) == 1
  {
    ZeroIffEqual(s[1..], s[1..]);
    ZeroIffEqual(s, s[1..]);
    DistanceSymmetric(s, s[1..]);
    if s[1..] != "" {
      assert Distance(s, s[1..]) <= 1 + Distance(s[1..], s[1..]);
    }
  }

  /** One edit spent at the head, everything after it equal. */
  predicate EditedHead(a: string, b: string) {
    || (a != "" && a[1..] == b)
    || (b != "" && a == b[1..])
    || (a != "" && b != "" && a[1..] == b[1..])
    || (SwappedHeads(a, b) && a[2..] == b[2..])
  }

  /** Distance one, read off the recursion: equal after one edit, or one apart behind equal heads. */
  lemma DistanceOneStep(a: string, b: string)
    requires a != "" && b != ""
    ensures Distance(a, b) == 1 <==> a != b && (EditedHead(a, b) || (a[0] == b[0] && Distance(a[1..], b[1..]) == 1))
  {
    ZeroIffEqual(a, b);
    ZeroIffEqual(a[1..], b);
    ZeroIffEqual(a, b[1..]);
    ZeroIffEqual(a[1..], b[1..]);
    if SwappedHeads(a, b) {
      ZeroIffEqual(a[2..], b[2..]);
    }
  }

  lemma DistanceOneAtHead(a: string, b: string)
    requires a == "" || b == "" || a[0] != b[0]
    ensures Distance(a, b) == 1 <==> EditedHead(a, b)
  {
    if a != "" && b != "" {
      DistanceOneStep(a, b);
    }
  }

  lemma DistanceOneSameHead(a: string, b: string)
    requires a != "" && b != "" && a[0] == b[0]
    ensures Distance(a, b) == 1 <==> Distance(a[1..], b[1..]) == 1
  {
    DistanceOneStep(a, b);
    ZeroIffEqual(a[1..], b[1..]);
    if a != b && EditedHead(a, b) {
      EditedSameHead(a, b);
      if a[1..] == b {
        DropHead(b);
      } else {
        DropHead(a);
      }
    }
  }

  /** Behind equal heads only an insertion or a deletion can be the one edit. */
  lemma EditedSameHead(a: string, b: string)
    requires a != "" && b != "" && a[0] == b[0] && a != b && EditedHead(a, b)
    ensures a[1..] == b || a == b[1..]
  {
    assert a == [a[0]] + a[1..] && b == [b[0]] + b[1..];
    if SwappedHeads(a, b) {
      assert a == [a[0], a[1]] + a[2..] && b == [b[0], b[1]] + b[2..];
    }
  }

  /** A common prefix does not matter. */
  lemma {:induction false} DistanceOnePrefix(a: string, b: string, k: nat)
    requires k <= |a| && k <= |b| && a[..k] == b[..k]
    ensures Distance(a, b) == 1 <==> Distance(a[k..], b[k..]) == 1
  {
    if k == 0 {
      assert a[0..] == a && b[0..] == b;
    } else {
      assert a[0] == a[..k][0] && b[0] == b[..k][0];
      DistanceOneSameHead(a, b);
      assert a[1..][..k - 1] == a[..k][1..] && b[1..][..k - 1] == b[..k][1..];
      DistanceOnePrefix(a[1..], b[1..], k - 1);
      assert a[1..][k - 1..] == a[k..] && b[1..][k - 1..] == b[k..];
    }
  }

  /** With the first difference at `k`, distance one means a single edit right there. */
  lemma DistanceOneAt(a: string, b: string, k: nat)
    requires k <= |a| && k <= |b| && a[..k] == b[..k]
    requires k == |a| || k == |b| || a[k] != b[k]
    ensures Distance(a, b) == 1 <==> EditedHead(a[k..], b[k..])
  {
    DistanceOnePrefix(a, b, k);
    DistanceOneAtHead(a[k..], b[k..]);
  }
}
