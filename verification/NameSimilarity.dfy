/** Detection of names that are one edit, or one look-alike character, away from a popular package. */
module NameSimilarity {
  import opened Wrappers
  import opened Sequences
  import opened EditDistance
  import opened Text

  // Distance one, without the distance table

  method AtDistanceOne(a: string, b: string) returns (r: bool)
    ensures r <==> Distance(a, b) == 1
  {
    ZeroIffEqual(a, b);
    DistanceAtLeastLengths(a, b);
    if a == b {
      return false;
    }
    if |a| > |b| + 1 || |b| > |a| + 1 {
      return false;
    }
    if |a| == |b| {
      r := OneSubstitutionOrSwap(a, b);
    } else if |a| < |b| {
      r := OneInsertion(a, b);
    } else {
      DistanceSymmetric(a, b);
      r := OneInsertion(b, a);
    }
  }

  /** Counts differing positions, giving up at the third. */
  method OneSubstitutionOrSwap(a: string, b: string) returns (r: bool)
    requires |a| == |b| && a != b
    ensures r <==> Distance(a, b) == 1
  {
    var diffs := 0;
    var firstDiff: Option<nat> := None;
    ghost var second: nat := 0;
    for i := 0 to |a|
      invariant 0 <= diffs <= 2
      invariant firstDiff.None? <==> diffs == 0
      invariant diffs == 0 ==> a[..i] == b[..i]
      invariant diffs >= 1 ==> firstDiff.value < i && a[..firstDiff.value] == b[..firstDiff.value]
      invariant diffs >= 1 ==> a[firstDiff.value] != b[firstDiff.value]
      invariant diffs == 1 ==> forall m :: firstDiff.value < m < i ==> a[m] == b[m]
      invariant diffs == 2 ==> firstDiff.value < second < i && a[second] != b[second]
      invariant diffs == 2 ==> forall m :: firstDiff.value < m < i && m != second ==> a[m] == b[m]
    {
      if a[i] != b[i] {
        diffs := diffs + 1;
        if diffs > 2 {
          ThreeDifferences(a, b, firstDiff.value, second, i);
          return false;
        }
        if firstDiff.None? {
          firstDiff := Some(i);
        } else {
          second := i;
        }
      }
    }
    assert a == a[..|a|] && b == b[..|b|];
    var k := firstDiff.value;
    DistanceOneAt(a, b, k);
    EditedHeadSameLength(a, b, k);
    if diffs == 1 {
      assert a[k + 1..] == b[k + 1..];
      return true;
    }
    assert a[k + 1..][second - k - 1] != b[k + 1..][second - k - 1];
    if k + 1 < |a| && a[k] == b[k + 1] && a[k + 1] == b[k] {
      return a[k + 2..] == b[k + 2..];
    }
    return false;
  }

  /** For equal lengths only a substitution or a swap is possible at the first difference. */
  lemma EditedHeadSameLength(a: string, b: string, k: nat)
    requires |a| == |b| && k < |a|
    ensures EditedHead(a[k..], b[k..]) <==>
      || a[k + 1..] == b[k + 1..]
      || (k + 1 < |a| && a[k] == b[k + 1] && a[k + 1] == b[k] && a[k + 2..] == b[k + 2..])
  {
    var x, y := a[k..], b[k..];
    assert |x[1..]| != |y| && |x| != |y[1..]|;
    assert x[1..] == a[k + 1..] && y[1..] == b[k + 1..];
    if k + 1 < |a| {
      assert x[2..] == a[k + 2..] && y[2..] == b[k + 2..];
    }
  }

  lemma ThreeDifferences(a: string, b: string, k: nat, m: nat, i: nat)
    requires |a| == |b| && k < m < i < |a|
    requires a[..k] == b[..k] && a[k] != b[k] && a[m] != b[m] && a[i] != b[i]
    ensures Distance(a, b) != 1
  {
    DistanceOneAt(a, b, k);
    EditedHeadSameLength(a, b, k);
    assert a[k + 1..][m - k - 1] != b[k + 1..][m - k - 1];
    assert a[k + 2..][i - k - 2] != b[k + 2..][i - k - 2];
  }

  /** Walks both strings in lockstep, allowing one skip in the longer. */
  method OneInsertion(short: string, long: string) returns (r: bool)
    requires |long| == |short| + 1
    ensures r <==> Distance(short, long) == 1
  {
    var i, j, skipped := 0, 0, false;
    ghost var k := 0;
    while i < |short| && j < |long|
      invariant 0 <= i <= |short| && 0 <= k <= i
      invariant short[..k] == long[..k]
      invariant !skipped ==> j == i == k
      invariant skipped ==> j == i + 1 && k < |short| && short[k] != long[k]
      invariant skipped ==> forall m :: k <= m < i ==> short[m] == long[m + 1]
      decreases 2 * |short| + 1 - i - j
    {
      if short[i] == long[j] {
        i := i + 1;
        j := j + 1;
        if !skipped {
          assert short[..i] == short[..i - 1] + [short[i - 1]] && long[..i] == long[..i - 1] + [long[i - 1]];
          k := i;
        }
      } else if skipped {
        DistanceOneAt(short, long, k);
        InsertionAt(short, long, k);
        assert short[k..][i - k] != long[k + 1..][i - k];
        return false;
      } else {
        skipped := true;
        j := j + 1;
      }
    }
    DistanceOneAt(short, long, k);
    InsertionAt(short, long, k);
    assert short[k..] == long[k + 1..];
    return true;
  }

  /** For lengths one apart only an insertion is possible at the first difference. */
  lemma InsertionAt(short: string, long: string, k: nat)
    requires |long| == |short| + 1 && k <= |short|
    ensures EditedHead(short[k..], long[k..]) <==> short[k..] == long[k + 1..]
  {
    var x, y := short[k..], long[k..];
    assert y[1..] == long[k + 1..];
    assert x != "" ==> |x[1..]| != |y| && |x[1..]| != |y[1..]|;
    assert SwappedHeads(x, y) ==> |x[2..]| != |y[2..]|;
  }

  // Classification

  datatype SquatKind = Typo | Homoglyph

  datatype Classification = Fine | Suspicious(kind: SquatKind, target: string)

  const POPULAR: seq<string> := [
    "axios", "babel", "chalk", "commander", "debug", "dotenv", "express", "fastify", "glob", "got", "jest",
    "lodash", "minimist", "moment", "mongoose", "next", "node-fetch", "nodemon", "prettier", "react", "redux",
    "request", "rxjs", "semver", "tslib", "typescript", "underscore", "uuid", "vue", "webpack", "yargs", "zod"
  ]

  const ALLOWLIST: seq<string> := ["fastly", "nuxt", "preact", "redis", "ulid", "vitest"]

  function FoldChar(c: char): char {
    match c
    case '\U{0430}' => 'a'
    case '\U{0435}' => 'e'
    case '\U{043E}' => 'o'
    case '\U{0440}' => 'p'
    case '\U{0441}' => 'c'
    case '\U{0443}' => 'y'
    case '\U{0445}' => 'x'
    case '\U{03BF}' => 'o'
    case '\U{03B9}' => 'i'
    case '\U{FF41}' => 'a'
    case '\U{FF45}' => 'e'
    case _ => c
  }

  function FoldConfusables(s: string): string {
    Map(s, FoldChar)
  }

  /** Why the sweep considers a popular name at all: byte lengths within one. */
  predicate InReach(popular: string, lower: string) {
    -1 <= ByteLength(lower) - |popular| <= 1
  }

  /** `p` is compared, and is at distance one. */
  ghost predicate Considered(p: string, lower: string) {
    InReach(p, lower) && Distance(lower, p) == 1
  }

  /** The first listed name in reach and at distance one. */
  ghost function FirstNear(names: seq<string>, lower: string): Option<string> {
    if names == [] then None
    else if Considered(names[0], lower) then Some(names[0])
    else FirstNear(names[1..], lower)
  }

  ghost function Classified(name: string): Classification {
    var lower := Lower(name);
    var folded := FoldConfusables(lower);
    if name != "" && name[0] == '@' then Fine
    else if lower in POPULAR || lower in ALLOWLIST then Fine
    else if folded != lower && folded in POPULAR then Suspicious(Homoglyph, folded)
    else if ByteLength(lower) < 4 then Fine
    else
      match FirstNear(POPULAR, lower)
      case Some(target) => Suspicious(Typo, target)
      case None => Fine
  }

  method Classify(name: string) returns (c: Classification)
    ensures c == Classified(name)
  {
    if name != "" && name[0] == '@' {
      return Fine;
    }
    var lower := Lower(name);
    if lower in POPULAR {
      return Fine;
    }
    if lower in ALLOWLIST {
      return Fine;
    }
    var folded := FoldConfusables(lower);
    if folded != lower && folded in POPULAR {
      return Suspicious(Homoglyph, folded);
    }
    if ByteLength(lower) >= 4 {
      c := Sweep(POPULAR, lower);
      return;
    }
    return Fine;
  }

  method Sweep(names: seq<string>, lower: string) returns (c: Classification)
    ensures match FirstNear(names, lower)
      case Some(target) => c == Suspicious(Typo, target)
      case None => c == Fine
  {
    for i := 0 to |names|
      invariant FirstNear(names[i..], lower) == FirstNear(names, lower)
    {
      assert names[i..][1..] == names[i + 1..];
      if InReach(names[i], lower) {
        var near := AtDistanceOne(lower, names[i]);
        if near {
          return Suspicious(Typo, names[i]);
        }
      }
    }
    return Fine;
  }

  /** `t` is the first of `names` at distance one from `lower`. */
  ghost predicate FirstAtDistanceOne(names: seq<string>, lower: string, t: string) {
    exists i :: 0 <= i < |names| && names[i] == t && Distance(lower, t) == 1
      && forall j :: 0 <= j < i ==> Distance(lower, names[j]) != 1
  }

  // Look-alikes

  /** Cyrillic, Greek and full-width letters, and the Latin letters they are taken for. */
  const CONFUSABLES := "\U{0430}\U{0435}\U{043E}\U{0440}\U{0441}\U{0443}\U{0445}\U{03BF}\U{03B9}\U{FF41}\U{FF45}"

  const LATIN := "aeopcyxoiae"

  /** `c` is read as `d`: as the Latin letter it resembles, or else as itself. */
  ghost predicate ReadAs(c: char, d: char) {
    || (c == d && c !in CONFUSABLES)
    || exists k :: 0 <= k < |CONFUSABLES| && CONFUSABLES[k] == c && LATIN[k] == d
  }

  lemma FoldExact(c: char, d: char)
    ensures FoldChar(c) == d <==> ReadAs(c, d)
  {
    assert CONFUSABLES[0] == '\U{0430}' && CONFUSABLES[1] == '\U{0435}' && CONFUSABLES[2] == '\U{043E}'
      && CONFUSABLES[3] == '\U{0440}' && CONFUSABLES[4] == '\U{0441}' && CONFUSABLES[5] == '\U{0443}'
      && CONFUSABLES[6] == '\U{0445}' && CONFUSABLES[7] == '\U{03BF}' && CONFUSABLES[8] == '\U{03B9}'
      && CONFUSABLES[9] == '\U{FF41}' && CONFUSABLES[10] == '\U{FF45}';
  }

  /**
   A name is reported as a look-alike exactly when it is unscoped and on neither list, and each of its
   characters is read as that of a popular name which it is not.
   */
  lemma LookAlikeExact(name: string, target: string)
    ensures Classified(name) == Suspicious(Homoglyph, target) <==>
      var lower := Lower(name);
      && !("@" <= name) && lower !in POPULAR && lower !in ALLOWLIST
      && target in POPULAR && |target| == |lower|
      && forall i :: 0 <= i < |lower| ==> ReadAs(lower[i], target[i])
  {
    var lower := Lower(name);
    forall i | 0 <= i < |lower| && |target| == |lower|
      ensures FoldChar(lower[i]) == target[i] <==> ReadAs(lower[i], target[i])
    {
      FoldExact(lower[i], target[i]);
    }
    FoldedTo(lower, target);
  }

  lemma FoldedTo(lower: string, target: string)
    ensures FoldConfusables(lower) == target <==>
      |target| == |lower| && forall i :: 0 <= i < |lower| ==> FoldChar(lower[i]) == target[i]
  {
  }

  // What the length filter lets through

  /** No character takes more than two bytes. */
  predicate Narrow(s: string) {
    forall i :: 0 <= i < |s| ==> s[i] < '\U{0800}'
  }

  /**
   The filter counts bytes while the distance counts characters. A name at distance one passes it
   exactly when it is ASCII, or has the popular name's length and no character beyond two bytes.
   */
  lemma InReachExact(p: string, lower: string)
    requires Ascii(p) && Distance(lower, p) == 1
    ensures InReach(p, lower) <==> Ascii(lower) || (|lower| == |p| && Narrow(lower))
  {
    var k := FirstDifference(lower, p);
    DistanceOneAt(lower, p, k);
    InReachFrom(p, lower, k);
  }

  lemma InReachFrom(p: string, lower: string, k: nat)
    requires Ascii(p) && k <= |p| && k <= |lower| && lower[..k] == p[..k] && EditedHead(lower[k..], p[k..])
    ensures InReach(p, lower) <==> Ascii(lower) || (|lower| == |p| && Narrow(lower))
  {
    assert lower == p[..k] + lower[k..] && p == p[..k] + p[k..];
    InReachBehind(p[..k], lower[k..], p[k..]);
  }

  lemma InReachBehind(a: string, x: string, y: string)
    requires Ascii(a) && Ascii(y) && EditedHead(x, y)
    ensures InReach(a + y, a + x) <==> Ascii(a + x) || (|x| == |y| && Narrow(a + x))
  {
    if x != "" && x[1..] == y {
      assert a + x == a + [x[0]] + y;
      NewCharacterInReach(a + y, a + x, a, x[0], y);
    } else if x != "" && y != "" && x[1..] == y[1..] {
      assert a + x == a + [x[0]] + y[1..];
      NewCharacterInReach(a + y, a + x, a, x[0], y[1..]);
    } else {
      OnlyOldCharacters(x, y);
      AsciiByteLength(a + x);
    }
  }

  function FirstDifference(a: string, b: string): (k: nat)
    ensures k <= |a| && k <= |b| && a[..k] == b[..k]
    ensures k == |a| || k == |b| || a[k] != b[k]
  {
    if a == "" || b == "" || a[0] != b[0] then 0
    else
      var k := 1 + FirstDifference(a[1..], b[1..]);
      assert a[..k] == [a[0]] + a[1..][..k - 1] && b[..k] == [b[0]] + b[1..][..k - 1];
      k
  }

  /** A character inserted into, or put in place of one of, the popular name's own. */
  lemma NewCharacterInReach(p: string, lower: string, a: string, c: char, b: string)
    requires Ascii(a) && Ascii(b) && lower == a + [c] + b && |p| <= |lower| <= |p| + 1
    ensures InReach(p, lower) <==> Ascii(lower) || (|lower| == |p| && Narrow(lower))
  {
    ByteLengthAround(a, c, b);
    OneNewCharacter(a, c, b);
  }

  /** A deletion or a swap brings in no character that the popular name lacks. */
  lemma OnlyOldCharacters(x: string, y: string)
    requires Ascii(y) && y != "" && (x == y[1..] || (SwappedHeads(x, y) && x[2..] == y[2..]))
    ensures Ascii(x)
  {
    if x != y[1..] {
      assert x == [y[1], y[0]] + y[2..];
    }
  }

  lemma OneNewCharacter(a: string, c: char, b: string)
    requires Ascii(a) && Ascii(b)
    ensures Ascii(a + [c] + b) <==> CharBytes(c) == 1
    ensures Narrow(a + [c] + b) <==> CharBytes(c) <= 2
  {
    var s := a + [c] + b;
    assert s[|a|] == c;
    assert forall i :: 0 <= i < |s| ==> s[i] == if i < |a| then a[i] else if i == |a| then c else b[i - |a| - 1];
  }

  // What classification finds

  lemma PopularAscii(p: string)
    requires p in POPULAR
    ensures Ascii(p)
  {
    var i :| 0 <= i < |POPULAR| && POPULAR[i] == p;
    PopularAsciiAt(i);
  }

  lemma PopularAsciiAt(i: nat)
    requires i < |POPULAR|
    ensures Ascii(POPULAR[i])
  {
  }

  /** Unscoped, on neither list, long enough to be compared, and no look-alike of a popular name. */
  predicate Swept(name: string) {
    var lower := Lower(name);
    && !(name != "" && name[0] == '@')
    && lower !in POPULAR && lower !in ALLOWLIST && FoldConfusables(lower) !in POPULAR
    && ByteLength(lower) >= 4
  }

  /** At distance one, and not skipped by the filter. */
  ghost predicate Caught(p: string, lower: string) {
    Distance(lower, p) == 1 && (Ascii(lower) || (|lower| == |p| && Narrow(lower)))
  }

  /** `t` is the first of `names` that is caught. */
  ghost predicate FirstCaught(names: seq<string>, lower: string, t: string) {
    exists i :: 0 <= i < |names| && names[i] == t && Caught(t, lower)
      && forall j :: 0 <= j < i ==> !Caught(names[j], lower)
  }

  lemma {:induction false} SweepExact(names: seq<string>, lower: string)
    requires forall n :: n in names ==> Ascii(n)
    ensures match FirstNear(names, lower)
      case Some(t) => FirstCaught(names, lower, t)
      case None => forall n :: n in names ==> !Caught(n, lower)
  {
    if names != [] {
      assert names == [names[0]] + names[1..];
      SweepExact(names[1..], lower);
      if Distance(lower, names[0]) == 1 {
        InReachExact(names[0], lower);
      }
      if Caught(names[0], lower) {
        assert FirstCaught(names, lower, names[0]);
      } else if FirstNear(names, lower).Some? {
        LaterCaught(names, lower, FirstNear(names, lower).value);
      }
    }
  }

  lemma LaterCaught(names: seq<string>, lower: string, t: string)
    requires names != [] && !Caught(names[0], lower) && FirstCaught(names[1..], lower, t)
    ensures FirstCaught(names, lower, t)
  {
    var i :| 0 <= i < |names[1..]| && names[1..][i] == t && Caught(t, lower)
      && forall j :: 0 <= j < i ==> !Caught(names[1..][j], lower);
    assert names[i + 1] == t;
    forall j | 0 <= j < i + 1 ensures !Caught(names[j], lower) {
      assert j == 0 || names[j] == names[1..][j - 1];
    }
  }

  /** A swept name is a typo of the first popular name that catches it, and fine when none does. */
  lemma ClassifyExact(name: string)
    requires Swept(name)
    ensures match Classified(name)
      case Fine => forall p :: p in POPULAR ==> !Caught(p, Lower(name))
      case Suspicious(kind, t) => kind == Typo && FirstCaught(POPULAR, Lower(name), t)
  {
    forall p | p in POPULAR ensures Ascii(p) {
      PopularAscii(p);
    }
    SweepExact(POPULAR, Lower(name));
  }

  /** A typo is reported for swept names only, and only of the first popular name that catches it. */
  lemma TypoExact(name: string, target: string)
    ensures Classified(name) == Suspicious(Typo, target) <==> Swept(name) && FirstCaught(POPULAR, Lower(name), target)
  {
    if Swept(name) {
      ClassifyExact(name);
      if FirstCaught(POPULAR, Lower(name), target) {
        assert Caught(target, Lower(name)) && target in POPULAR;
        OneFirstCaught(POPULAR, Lower(name), target, Classified(name).target);
      }
    }
  }

  lemma OneFirstCaught(names: seq<string>, lower: string, t: string, t': string)
    requires FirstCaught(names, lower, t) && FirstCaught(names, lower, t')
    ensures t == t'
  {
    var i :| 0 <= i < |names| && names[i] == t && Caught(t, lower) && forall j :: 0 <= j < i ==> !Caught(names[j], lower);
    var k :| 0 <= k < |names| && names[k] == t' && Caught(t', lower) && forall j :: 0 <= j < k ==> !Caught(names[j], lower);
    assert i == k;
  }

  /** Some popular name is at distance one. */
  ghost predicate Near(lower: string) {
    exists p :: p in POPULAR && Distance(lower, p) == 1
  }

  /**
   The documented promise, that a name at distance one is reported, is kept for a swept name exactly
   when the name is ASCII, or one of its neighbours has its length and it is narrow.
   */
  lemma PromiseExact(name: string)
    requires Swept(name) && Near(Lower(name))
    ensures Classified(name).Suspicious? <==>
      || Ascii(name)
      || (Narrow(Lower(name)) && exists p :: p in POPULAR && |p| == |name| && Distance(Lower(name), p) == 1)
  {
    var lower := Lower(name);
    ClassifyExact(name);
    LowerAscii(name);
    if Classified(name).Suspicious? {
      assert Caught(Classified(name).target, lower) && Classified(name).target in POPULAR;
    }
  }

  lemma LowerAscii(name: string)
    ensures Ascii(Lower(name)) <==> Ascii(name)
  {
    if Ascii(Lower(name)) {
      forall i | 0 <= i < |name| ensures name[i] < '\U{0080}' {
        assert Lower(name)[i] == LowerChar(name[i]);
      }
    }
  }

  /** An ASCII name outside both lists is a typo of the first popular name at distance one, or fine. */
  lemma ClassifyAscii(name: string)
    requires Ascii(name) && |name| >= 4 && name[0] != '@'
    requires Lower(name) !in POPULAR && Lower(name) !in ALLOWLIST
    ensures match Classified(name)
      case Fine => forall p :: p in POPULAR ==> Distance(Lower(name), p) != 1
      case Suspicious(kind, t) => kind == Typo && FirstAtDistanceOne(POPULAR, Lower(name), t)
  {
    LowerAscii(name);
    AsciiByteLength(Lower(name));
    assert FoldConfusables(Lower(name)) == Lower(name);
    ClassifyExact(name);
  }

  /** A name the promise covers and the filter skips: "axios" with a three-byte last character. */
  lemma WideNameMissed()
    ensures Near(Lower("axio\U{4E00}")) && Classified("axio\U{4E00}") == Fine
  {
    var name := "axio\U{4E00}";
    WideName(name);
    assert CharBytes(name[4]) == 3;
    PromiseExact(name);
  }

  lemma WideName(name: string)
    requires name == "axio\U{4E00}"
    ensures Swept(name) && Near(Lower(name)) && !Ascii(name) && Lower(name) == name
  {
    WideText(name);
    WideUnlisted(name);
    WideNeighbour(name);
    assert POPULAR[0] == "axios";
  }

  lemma WideText(name: string)
    requires name == "axio\U{4E00}"
    ensures !Ascii(name) && Lower(name) == name == FoldConfusables(name) && ByteLength(name) == 7
  {
    assert name[4] == '\U{4E00}';
    assert name == "axio" + [name[4]] + "";
    ByteLengthAround("axio", name[4], "");
  }

  lemma WideNeighbour(name: string)
    requires name == "axio\U{4E00}"
    ensures Distance(name, "axios") == 1
  {
    DistanceOneAt(name, "axios", 4);
    assert name[4..][1..] == "axios"[4..][1..];
  }

  lemma WideUnlisted(name: string)
    requires |name| == 5 && !Ascii(name)
    ensures name !in POPULAR && name !in ALLOWLIST
  {
    if name in POPULAR {
      PopularAscii(name);
      assert false;
    }
  }
}
