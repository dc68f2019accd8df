/** The excerpt of a script: the window around a match, trimmed, and how much of the source it holds. */
module Excerpt {
  import opened Wrappers
  import opened ScriptScan

  // White space

  /** A character with the Unicode property White_Space, in UTF-8. */
  predicate White(c: Bytes) {
    if |c| == 1 then 9 <= c[0] <= 13 || c[0] == 32
    else if |c| == 2 then c[0] == 0xC2 && (c[1] == 0x85 || c[1] == 0xA0)
    else |c| == 3 && WhiteOfThree(c[0], c[1], c[2])
  }

  predicate WhiteOfThree(a: U8, b: U8, c: U8) {
    || (a == 0xE1 && b == 0x9A && c == 0x80)
    || (a == 0xE2 && b == 0x80 && (0x80 <= c <= 0x8A || c == 0xA8 || c == 0xA9 || c == 0xAF))
    || (a == 0xE2 && b == 0x81 && c == 0x9F)
    || (a == 0xE3 && b == 0x80 && c == 0x80)
  }

  /** White_Space as the Unicode Character Database lists it. */
  lemma WhiteExact(p: nat)
    requires Scalar(p)
    ensures White(Utf8(p)) <==>
      || 0x9 <= p <= 0xD || p == 0x20 || p == 0x85 || p == 0xA0 || p == 0x1680 || 0x2000 <= p <= 0x200A
      || p == 0x2028 || p == 0x2029 || p == 0x202F || p == 0x205F || p == 0x3000
  {
  }

  /** Marks the positions at which white characters start. */
  type Marks = nat -> bool

  function Whites(s: Bytes): Marks {
    (i: nat) => i < |s| && White(s[i..Ceil(s, i + 1)])
  }

  // Trimming

  /** Only white space between the two positions. */
  ghost predicate Blank(s: Bytes, white: Marks, from: nat, to: nat) {
    forall i: nat :: from <= i < to && CharBoundary(s, i) ==> white(i)
  }

  lemma BlankJoins(s: Bytes, white: Marks, from: nat, mid: nat, to: nat)
    requires Blank(s, white, from, mid) && Blank(s, white, mid, to)
    ensures Blank(s, white, from, to)
  {
  }

  lemma BlankCharacter(s: Bytes, white: Marks, i: nat, to: nat)
    requires white(i) && forall k: nat :: i < k < to ==> !CharBoundary(s, k)
    ensures Blank(s, white, i, to)
  {
  }

  /** Where the window starts once leading white space is trimmed. */
  function TrimLow(s: Bytes, white: Marks, lo: nat, hi: nat): (l: nat)
    requires lo <= hi <= |s| && CharBoundary(s, lo) && CharBoundary(s, hi)
    ensures lo <= l <= hi && CharBoundary(s, l)
    decreases hi - lo
  {
    if lo < hi && white(lo) then TrimLow(s, white, Ceil(s, lo + 1), hi) else lo
  }

  lemma {:induction false} TrimLowExact(s: Bytes, white: Marks, lo: nat, hi: nat)
    requires lo <= hi <= |s| && CharBoundary(s, lo) && CharBoundary(s, hi)
    ensures var l := TrimLow(s, white, lo, hi); Blank(s, white, lo, l) && (l < hi ==> !white(l))
    decreases hi - lo
  {
    if lo < hi && white(lo) {
      var next := Ceil(s, lo + 1);
      TrimLowExact(s, white, next, hi);
      BlankCharacter(s, white, lo, next);
      BlankJoins(s, white, lo, next, TrimLow(s, white, next, hi));
    }
  }

  /** Where the window ends once trailing white space is trimmed. */
  function TrimHigh(s: Bytes, white: Marks, lo: nat, hi: nat): (h: nat)
    requires lo <= hi <= |s| && CharBoundary(s, lo) && CharBoundary(s, hi)
    ensures lo <= h <= hi && CharBoundary(s, h)
  {
    if lo < hi && white(Floor(s, hi - 1)) then TrimHigh(s, white, lo, Floor(s, hi - 1)) else hi
  }

  lemma {:induction false} TrimHighExact(s: Bytes, white: Marks, lo: nat, hi: nat)
    requires lo <= hi <= |s| && CharBoundary(s, lo) && CharBoundary(s, hi)
    ensures var h := TrimHigh(s, white, lo, hi); Blank(s, white, h, hi) && (lo < h ==> !white(Floor(s, h - 1)))
  {
    if lo < hi && white(Floor(s, hi - 1)) {
      var last := Floor(s, hi - 1);
      TrimHighExact(s, white, lo, last);
      BlankCharacter(s, white, last, hi);
      BlankJoins(s, white, TrimHigh(s, white, lo, last), last, hi);
    }
  }

  /** Trimming never reaches into something that begins and ends visibly. */
  lemma TrimmingKeeps(s: Bytes, white: Marks, lo: nat, hi: nat, start: nat, end: nat)
    requires lo <= start < end <= hi <= |s|
    requires CharBoundary(s, lo) && CharBoundary(s, hi) && CharBoundary(s, start) && CharBoundary(s, end)
    requires !white(start) && !white(Floor(s, end - 1))
    ensures TrimLow(s, white, lo, hi) <= start && end <= TrimHigh(s, white, TrimLow(s, white, lo, hi), hi)
  {
    var l, last := TrimLow(s, white, lo, hi), Floor(s, end - 1);
    TrimLowExact(s, white, lo, hi);
    TrimHighExact(s, white, l, hi);
    assert l <= start <= last;
  }

  /** Trimming removes all it can: no shorter stretch leaves out white space alone. */
  lemma TrimmingIsTight(s: Bytes, white: Marks, lo: nat, hi: nat, a: nat, b: nat)
    requires lo <= a <= b <= hi <= |s|
    requires CharBoundary(s, lo) && CharBoundary(s, hi) && CharBoundary(s, a) && CharBoundary(s, b)
    requires Blank(s, white, lo, a) && Blank(s, white, b, hi)
    ensures TrimHigh(s, white, TrimLow(s, white, lo, hi), hi) - TrimLow(s, white, lo, hi) <= b - a
  {
    var l := TrimLow(s, white, lo, hi);
    TrimLowExact(s, white, lo, hi);
    TrimHighWithin(s, white, l, hi, b);
  }

  lemma TrimHighWithin(s: Bytes, white: Marks, lo: nat, hi: nat, b: nat)
    requires lo <= hi <= |s| && CharBoundary(s, lo) && CharBoundary(s, hi)
    requires b <= hi && CharBoundary(s, b) && Blank(s, white, b, hi)
    ensures TrimHigh(s, white, lo, hi) <= lo || TrimHigh(s, white, lo, hi) <= b
  {
    TrimHighExact(s, white, lo, hi);
  }

  /** All but `room` bytes of the stretch are white space at its two ends. */
  ghost predicate CoreWithin(s: Bytes, white: Marks, lo: nat, hi: nat, room: nat) {
    exists a: nat, b: nat ::
      && lo <= a <= b <= hi && CharBoundary(s, a) && CharBoundary(s, b)
      && Blank(s, white, lo, a) && Blank(s, white, b, hi) && b - a <= room
  }

  lemma TrimmedExact(s: Bytes, white: Marks, lo: nat, hi: nat, room: nat)
    requires lo <= hi <= |s| && CharBoundary(s, lo) && CharBoundary(s, hi)
    ensures TrimHigh(s, white, TrimLow(s, white, lo, hi), hi) - TrimLow(s, white, lo, hi) <= room <==>
      CoreWithin(s, white, lo, hi, room)
  {
    TrimLowExact(s, white, lo, hi);
    TrimHighExact(s, white, TrimLow(s, white, lo, hi), hi);
    if a: nat, b: nat :|
      && lo <= a <= b <= hi && CharBoundary(s, a) && CharBoundary(s, b)
      && Blank(s, white, lo, a) && Blank(s, white, b, hi) && b - a <= room
    {
      TrimmingIsTight(s, white, lo, hi, a, b);
    }
  }

  // The excerpt

  function CapturedStart(body: Bytes, start: nat, end: nat): (l: nat)
    requires start <= end <= |body|
    ensures Floor(body, NominalStart(start, end)) <= l <= Ceil(body, NominalEnd(start, end, |body|))
    ensures CharBoundary(body, l)
  {
    TrimLow(body, Whites(body), Floor(body, NominalStart(start, end)), Ceil(body, NominalEnd(start, end, |body|)))
  }

  function CapturedEnd(body: Bytes, start: nat, end: nat): (h: nat)
    requires start <= end <= |body|
    ensures CapturedStart(body, start, end) <= h <= Ceil(body, NominalEnd(start, end, |body|))
    ensures CharBoundary(body, h)
  {
    TrimHigh(body, Whites(body), CapturedStart(body, start, end), Ceil(body, NominalEnd(start, end, |body|)))
  }

  /** Bytes of the source that the excerpt holds. */
  function CapturedLength(body: Bytes, start: nat, end: nat): nat
    requires start <= end <= |body|
  {
    CapturedEnd(body, start, end) - CapturedStart(body, start, end)
  }

  /** U+2026 in UTF-8. */
  const ELLIPSIS: Bytes := [0xE2, 0x80, 0xA6]

  function EllipsisIf(omitted: bool): Bytes {
    if omitted then ELLIPSIS else []
  }

  /** The trimmed window, with an ellipsis on each side where the window left something out. */
  function ExcerptOf(body: Bytes, start: nat, end: nat): Bytes
    requires start <= end <= |body|
  {
    EllipsisIf(Floor(body, NominalStart(start, end)) > 0)
    + body[CapturedStart(body, start, end)..CapturedEnd(body, start, end)]
    + EllipsisIf(Ceil(body, NominalEnd(start, end, |body|)) < |body|)
  }

  method ClipExcerpt(body: Bytes, start: nat, end: nat) returns (s: Bytes)
    requires ValidUtf8(body) && start <= end <= |body|
    ensures s == ExcerptOf(body, start, end)
  {
    var lo, hi, before, after := ClipWindow(body, start, end);
    var from := TrimLow(body, Whites(body), lo, hi);
    var to := TrimHigh(body, Whites(body), from, hi);
    assert from == CapturedStart(body, start, end) && to == CapturedEnd(body, start, end);
    s := [];
    if before {
      s := s + ELLIPSIS;
    }
    assert s == EllipsisIf(lo > 0);
    s := s + body[from..to];
    ghost var unfinished := s;
    if after {
      s := s + ELLIPSIS;
    }
    assert s == unfinished + EllipsisIf(hi < |body|);
  }

  /** Of the stretch, only white space at its two ends is dropped, and all of that. */
  ghost predicate TrimmedTo(s: Bytes, white: Marks, lo: nat, hi: nat, from: nat, to: nat) {
    && lo <= from <= to <= hi <= |s|
    && Blank(s, white, lo, from) && Blank(s, white, to, hi)
    && (from < to ==> !white(from) && !white(Floor(s, to - 1)))
  }

  /**
   The excerpt is the window without the white space at its two ends, and nothing else of it is lost;
   an ellipsis stands on each side where the window does not reach the end of the script.
   */
  lemma ExcerptExact(body: Bytes, start: nat, end: nat, lo: nat, hi: nat)
    requires start <= end <= |body|
    requires lo == Floor(body, NominalStart(start, end)) && hi == Ceil(body, NominalEnd(start, end, |body|))
    ensures exists from: nat, to: nat ::
      && TrimmedTo(body, Whites(body), lo, hi, from, to)
      && ExcerptOf(body, start, end) ==
           (if lo > 0 then ELLIPSIS else []) + body[from..to] + (if hi < |body| then ELLIPSIS else [])
  {
    var from, to := CapturedStart(body, start, end), CapturedEnd(body, start, end);
    TrimmedToCaptured(body, Whites(body), lo, hi, from, to);
  }

  lemma TrimmedToCaptured(s: Bytes, white: Marks, lo: nat, hi: nat, from: nat, to: nat)
    requires lo <= hi <= |s| && CharBoundary(s, lo) && CharBoundary(s, hi)
    requires from == TrimLow(s, white, lo, hi) && to == TrimHigh(s, white, from, hi)
    ensures TrimmedTo(s, white, lo, hi, from, to)
  {
    TrimLowExact(s, white, lo, hi);
    TrimHighExact(s, white, from, hi);
    BothEnds(s, white, lo, hi, from, to);
  }

  lemma BothEnds(s: Bytes, white: Marks, lo: nat, hi: nat, from: nat, to: nat)
    requires lo <= from <= to <= hi <= |s| && Blank(s, white, lo, from) && Blank(s, white, to, hi)
    requires (from < hi ==> !white(from)) && (from < to ==> !white(Floor(s, to - 1)))
    ensures TrimmedTo(s, white, lo, hi, from, to)
  {
  }

  /** The bytes of the ellipses in the excerpt. */
  function EllipsisBytes(body: Bytes, start: nat, end: nat): nat
    requires start <= end <= |body|
  {
    (if Floor(body, NominalStart(start, end)) > 0 then 3 else 0)
    + (if Ceil(body, NominalEnd(start, end, |body|)) < |body| then 3 else 0)
  }

  lemma ExcerptLength(body: Bytes, start: nat, end: nat)
    requires start <= end <= |body|
    ensures |ExcerptOf(body, start, end)| == CapturedLength(body, start, end) + EllipsisBytes(body, start, end)
  {
  }

  /** The excerpt is valid text. */
  lemma ExcerptValid(body: Bytes, start: nat, end: nat)
    requires ValidUtf8(body) && start <= end <= |body|
    ensures ValidUtf8(ExcerptOf(body, start, end))
  {
    var before := EllipsisIf(Floor(body, NominalStart(start, end)) > 0);
    var after := EllipsisIf(Ceil(body, NominalEnd(start, end, |body|)) < |body|);
    EllipsisValid();
    WindowValid(body, CapturedStart(body, start, end), CapturedEnd(body, start, end));
    ValidConcatenation(before, body[CapturedStart(body, start, end)..CapturedEnd(body, start, end)]);
    ValidConcatenation(before + body[CapturedStart(body, start, end)..CapturedEnd(body, start, end)], after);
  }

  lemma EllipsisValid()
    ensures ValidUtf8(ELLIPSIS)
  {
    assert CharLength(ELLIPSIS) == 3 && ELLIPSIS[3..] == [];
  }

  /** It holds no more of the source than the window does, hence at most six bytes over the limit. */
  lemma CapturedBound(body: Bytes, start: nat, end: nat)
    requires ValidUtf8(body) && start <= end <= |body|
    ensures |ExcerptOf(body, start, end)| - EllipsisBytes(body, start, end) <= WindowLength(body, start, end)
    ensures WindowLength(body, start, end) <= Limit(start, end) + 6
  {
    WindowBound(body, start, end);
    ExcerptLength(body, start, end);
  }

  // How much of the source it holds

  /** The documented 80 bytes are kept exactly when the window has no larger core. */
  lemma CapturedExact(body: Bytes, start: nat, end: nat)
    requires start <= end <= |body|
    ensures |ExcerptOf(body, start, end)| - EllipsisBytes(body, start, end) <= 80 <==>
      CoreWithin(body, Whites(body), Floor(body, NominalStart(start, end)),
        Ceil(body, NominalEnd(start, end, |body|)), 80)
  {
    ExcerptLength(body, start, end);
    TrimmedExact(body, Whites(body), Floor(body, NominalStart(start, end)),
      Ceil(body, NominalEnd(start, end, |body|)), EXCERPT_WINDOW);
  }

  /** `part` occurs in `text`. */
  ghost predicate Contains(text: Bytes, part: Bytes) {
    exists i, j :: 0 <= i <= j <= |text| && text[i..j] == part
  }

  /** A match that begins and ends with something visible is kept whole, however long it is. */
  lemma MatchKept(body: Bytes, start: nat, end: nat)
    requires start < end <= |body| && CharBoundary(body, start) && CharBoundary(body, end)
    requires !Whites(body)(start) && !Whites(body)(Floor(body, end - 1))
    ensures Contains(ExcerptOf(body, start, end), body[start..end])
  {
    MatchCaptured(body, start, end);
    var before := EllipsisIf(Floor(body, NominalStart(start, end)) > 0);
    var after := EllipsisIf(Ceil(body, NominalEnd(start, end, |body|)) < |body|);
    InMiddle(ExcerptOf(body, start, end), before, body, after,
      CapturedStart(body, start, end), CapturedEnd(body, start, end), start, end);
  }

  lemma MatchCaptured(body: Bytes, start: nat, end: nat)
    requires start < end <= |body| && CharBoundary(body, start) && CharBoundary(body, end)
    requires !Whites(body)(start) && !Whites(body)(Floor(body, end - 1))
    ensures CapturedStart(body, start, end) <= start < end <= CapturedEnd(body, start, end)
  {
    var lo, hi := Floor(body, NominalStart(start, end)), Ceil(body, NominalEnd(start, end, |body|));
    TrimmingKeeps(body, Whites(body), lo, hi, start, end);
  }

  /** A stretch of a captured stretch is found behind whatever precedes it. */
  lemma InMiddle(
    e: Bytes, before: Bytes, body: Bytes, after: Bytes, from: nat, to: nat, start: nat, end: nat)
    requires from <= start <= end <= to <= |body| && e == before + body[from..to] + after
    ensures Contains(e, body[start..end])
  {
    var core, i, j := body[from..to], start - from, end - from;
    SliceOfSlice(body, from, to, i, j);
    assert e[|before|..|before| + |core|] == core;
    assert e[|before| + i..|before| + j] == core[i..j];
  }

  lemma SliceOfSlice(s: Bytes, from: nat, to: nat, i: nat, j: nat)
    requires from <= to <= |s| && i <= j <= to - from
    ensures s[from..to][i..j] == s[from + i..from + j]
  {
    var a, b := s[from..to][i..j], s[from + i..from + j];
    assert forall k :: 0 <= k < j - i ==> a[k] == s[from..to][i + k] == s[from + i + k] == b[k];
  }

  /** A window whose first and last characters are visible is captured whole. */
  lemma VisibleWindowCaptured(body: Bytes, start: nat, end: nat, lo: nat, hi: nat)
    requires start <= end <= |body| && lo < hi
    requires lo == Floor(body, NominalStart(start, end)) && hi == Ceil(body, NominalEnd(start, end, |body|))
    requires !Whites(body)(lo) && !Whites(body)(Floor(body, hi - 1))
    ensures WindowLength(body, start, end) == hi - lo
    ensures ExcerptOf(body, start, end) == EllipsisIf(lo > 0) + body[lo..hi] + EllipsisIf(hi < |body|)
  {
    Untrimmed(body, Whites(body), lo, hi);
  }

  lemma Untrimmed(s: Bytes, white: Marks, lo: nat, hi: nat)
    requires lo < hi <= |s| && CharBoundary(s, lo) && CharBoundary(s, hi) && !white(lo) && !white(Floor(s, hi - 1))
    ensures TrimLow(s, white, lo, hi) == lo && TrimHigh(s, white, lo, hi) == hi
  {
  }

  // Two scripts beyond the promise

  /** The euro sign. */
  const EURO: Bytes := [0xE2, 0x82, 0xAC]

  function Euros(n: nat): (s: Bytes)
    ensures |s| == 3 * n
  {
    if n == 0 then [] else EURO + Euros(n - 1)
  }

  lemma {:induction false} EuroInside(n: nat, k: nat)
    requires k < n
    ensures Euros(n)[3 * k..3 * k + 3] == EURO
  {
    if k > 0 {
      EuroInside(n - 1, k - 1);
      assert Euros(n)[3 * k..3 * k + 3] == Euros(n - 1)[3 * (k - 1)..3 * (k - 1) + 3];
    }
  }

  lemma {:induction false} EurosValid(n: nat)
    ensures ValidUtf8(Euros(n))
  {
    if n > 0 {
      assert CharLength(Euros(n)) == 3 && Euros(n)[3..] == Euros(n - 1);
      EurosValid(n - 1);
    }
  }

  /** "/dev/tcp/h/1", which the rule `dev-tcp-reverse-shell` matches. */
  const DEV_TCP: Bytes := [47, 100, 101, 118, 47, 116, 99, 112, 47, 104, 47, 49]

  /** The match between two runs of twelve or more euro signs. */
  function AmongEuros(m: nat): Bytes {
    Euros(m + 12) + DEV_TCP + Euros(m + 12)
  }

  lemma AmongEurosValid(m: nat)
    ensures ValidUtf8(AmongEuros(m))
  {
    EurosValid(m + 12);
    AsciiValid(DEV_TCP);
    ValidConcatenation(Euros(m + 12), DEV_TCP);
    ValidConcatenation(Euros(m + 12) + DEV_TCP, Euros(m + 12));
  }

  /** At both ends of the window there is a whole euro sign, and a boundary behind it. */
  lemma AmongEurosEnds(m: nat, lo: nat)
    requires lo == 3 * m
    ensures var s := AmongEuros(m);
      && |s| == 2 * lo + 84 && s[lo + 36..lo + 48] == DEV_TCP
      && s[lo..lo + 3] == EURO && s[lo + 81..lo + 84] == EURO
      && (lo > 0 ==> lo >= 3 && s[lo + 84..lo + 87] == EURO)
  {
    Sandwich(Euros(m + 12), DEV_TCP, lo);
    EuroInside(m + 12, m);
    EuroInside(m + 12, 11);
    if m > 0 {
      EuroInside(m + 12, 12);
    }
  }

  lemma Sandwich(e: Bytes, d: Bytes, lo: nat)
    requires |e| == lo + 36 && |d| == 12
    ensures var s := e + d + e;
      && |s| == 2 * lo + 84 && s[lo + 36..lo + 48] == d
      && s[lo..lo + 3] == e[lo..lo + 3] && s[lo + 81..lo + 84] == e[33..36]
      && (lo >= 3 ==> s[lo + 84..lo + 87] == e[36..39])
  {
  }

  /** The excerpt of the match 36 bytes behind `lo` holds the 84 bytes from `lo` on. */
  ghost predicate Holds84(body: Bytes, lo: nat) {
    && |body| >= lo + 84 && body[lo + 36..lo + 48] == DEV_TCP
    && WindowLength(body, lo + 36, lo + 48) == 84 > EXCERPT_WINDOW
    && ExcerptOf(body, lo + 36, lo + 48) ==
         if lo == 0 then body else [0xE2, 0x80, 0xA6] + body[lo..lo + 84] + [0xE2, 0x80, 0xA6]
  }

  /** A short match whose excerpt holds 84 bytes of the source: twelve euro signs on either side of it. */
  lemma ShortMatchBeyondPromise(m: nat)
    ensures ValidUtf8(AmongEuros(m)) && Holds84(AmongEuros(m), 3 * m)
  {
    AmongEurosValid(m);
    AmongEurosEnds(m, 3 * m);
    EuroWindow(AmongEuros(m), 3 * m);
  }

  lemma WholeBody(body: Bytes)
    ensures EllipsisIf(false) + body + EllipsisIf(false) == body
  {
  }

  lemma EuroWindow(body: Bytes, lo: nat)
    requires |body| == 2 * lo + 84 && body[lo..lo + 3] == EURO && body[lo + 81..lo + 84] == EURO
    requires lo > 0 ==> lo >= 3 && body[lo + 84..lo + 87] == EURO
    ensures body[lo + 36..lo + 48] == DEV_TCP ==> Holds84(body, lo)
  {
    var hi := lo + 84;
    EuroAt(body, lo);
    EuroAt(body, lo + 81);
    if lo > 0 {
      EuroAt(body, hi);
    }
    assert NominalStart(lo + 36, lo + 48) == lo + 2 && NominalEnd(lo + 36, lo + 48, |body|) == lo + 82;
    VisibleWindowCaptured(body, lo + 36, lo + 48, lo, hi);
    WholeBody(body);
    assert lo == 0 ==> body[lo..hi] == body;
  }

  lemma EuroAt(s: Bytes, i: nat)
    requires i + 3 <= |s| && s[i..i + 3] == EURO
    ensures CharBoundary(s, i) && Floor(s, i + 2) == i && !Whites(s)(i)
    ensures CharBoundary(s, i + 3) ==> Ceil(s, i + 1) == i + 3
  {
    assert s[i] == s[i..i + 3][0] && s[i + 1] == s[i..i + 3][1] && s[i + 2] == s[i..i + 3][2];
    assert CharBoundary(s, i) && !CharBoundary(s, i + 1) && !CharBoundary(s, i + 2);
    assert Floor(s, i + 1) == i;
    EuroVisible(s[i..Ceil(s, i + 1)]);
  }

  lemma EuroVisible(c: Bytes)
    requires |c| >= 2 && c[0] == 0xE2 && c[1] == 0x82
    ensures !White(c)
  {
  }

  /** "curl " and "|sh" around an address, which the rule `curl-pipe-shell` matches as a whole. */
  function CurlPipe(address: Bytes): Bytes {
    [99, 117, 114, 108, 32] + address + [124, 115, 104]
  }

  /** Visible ASCII, and none of the `|`, `;` and `&` at which the rule would stop. */
  predicate AddressByte(b: U8) {
    33 <= b < 127 && b != 124 && b != 59 && b != 38
  }

  /** A match has no greatest length, and so the excerpt has none. */
  lemma LongMatchBeyondPromise(address: Bytes)
    requires |address| >= EXCERPT_WINDOW && forall i :: 0 <= i < |address| ==> AddressByte(address[i])
    ensures var body := CurlPipe(address);
      ValidUtf8(body) && ExcerptOf(body, 0, |body|) == body && |body| == |address| + 8 > EXCERPT_WINDOW
  {
    var body := CurlPipe(address);
    AsciiValid(body);
    assert body[0] == 99 && body[1] == 117 && body[|body| - 1] == 104;
    LongVisibleMatch(body);
  }

  lemma LongVisibleMatch(body: Bytes)
    requires |body| > EXCERPT_WINDOW && 33 <= body[0] < 127 && body[1] < 0x80 && 33 <= body[|body| - 1] < 127
    ensures ExcerptOf(body, 0, |body|) == body
  {
    VisibleAscii(body, 0);
    VisibleAscii(body, |body| - 1);
    LongMatchWindow(body, 0, |body|);
    VisibleWindowCaptured(body, 0, |body|, 0, |body|);
    WholeBody(body);
    assert body[0..|body|] == body;
  }

  lemma VisibleAscii(s: Bytes, i: nat)
    requires i < |s| && 33 <= s[i] < 127 && (i + 1 < |s| ==> s[i + 1] < 0x80)
    ensures CharBoundary(s, i) && Floor(s, i) == i && !Whites(s)(i)
  {
    assert Ceil(s, i + 1) == i + 1 && s[i..i + 1] == [s[i]];
  }
}
