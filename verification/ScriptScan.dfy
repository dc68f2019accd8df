/** The excerpt window around a match in a UTF-8 script body. */
module ScriptScan {
  import opened Wrappers

  const EXCERPT_WINDOW: nat := 80

  // UTF-8, section 3 of RFC 3629

  predicate Continuation(b: U8) {
    0x80 <= b < 0xC0
  }

  /** Length of the well-formed character that starts `s`, or 0 when there is none. */
  function CharLength(s: Bytes): (n: nat)
    ensures n <= 4 && n <= |s|
  {
    if s == [] then 0
    else if s[0] < 0x80 then 1
    else if |s| >= 2 && 0xC2 <= s[0] < 0xE0 && Continuation(s[1]) then 2
    else if |s| >= 3 && 0xE0 <= s[0] < 0xF0 && Continuation(s[1]) && Continuation(s[2])
      && (s[0] == 0xE0 ==> s[1] >= 0xA0) && (s[0] == 0xED ==> s[1] < 0xA0) then 3
    else if |s| >= 4 && 0xF0 <= s[0] < 0xF5 && Continuation(s[1]) && Continuation(s[2]) && Continuation(s[3])
      && (s[0] == 0xF0 ==> s[1] >= 0x90) && (s[0] == 0xF4 ==> s[1] < 0x90) then 4
    else 0
  }

  /** What a character may be: a code point that is no surrogate. */
  predicate Scalar(p: nat) {
    p < 0xD800 || 0xE000 <= p < 0x11_0000
  }

  /** The bytes of a character. */
  function Utf8(p: nat): Bytes
    requires Scalar(p)
  {
    if p < 0x80 then [p]
    else if p < 0x800 then [0xC0 + p / 0x40, 0x80 + p % 0x40]
    else if p < 0x1_0000 then [0xE0 + p / 0x1000, 0x80 + p / 0x40 % 0x40, 0x80 + p % 0x40]
    else [0xF0 + p / 0x4_0000, 0x80 + p / 0x1000 % 0x40, 0x80 + p / 0x40 % 0x40, 0x80 + p % 0x40]
  }

  /** `s` starts with this character. */
  predicate Starts(s: Bytes, p: nat) {
    Scalar(p) && Utf8(p) <= s
  }

  /** Text starts with a well-formed character exactly when it starts with the bytes of one. */
  lemma CharLengthExact(s: Bytes)
    ensures CharLength(s) > 0 <==> exists p: nat :: Starts(s, p)
    ensures forall p: nat :: Starts(s, p) ==> CharLength(s) == |Utf8(p)|
  {
    forall p: nat | Starts(s, p) ensures CharLength(s) == |Utf8(p)| {
      EncodedLength(s, p);
    }
    if CharLength(s) > 0 {
      var p := FirstCharacter(s);
    }
  }

  lemma EncodedLength(s: Bytes, p: nat)
    requires Starts(s, p)
    ensures CharLength(s) == |Utf8(p)|
  {
    var c := Utf8(p);
    assert forall i :: 0 <= i < |c| ==> s[i] == c[i];
  }

  lemma FirstCharacter(s: Bytes) returns (p: nat)
    requires CharLength(s) > 0
    ensures Starts(s, p)
  {
    match CharLength(s)
    case 1 => p := s[0];
    case 2 => p := TwoBytes(s[0], s[1]);
    case 3 => p := ThreeBytes(s[0], s[1], s[2]);
    case _ => p := FourBytes(s[0], s[1], s[2], s[3]);
  }

  lemma TwoBytes(a: U8, b: U8) returns (p: nat)
    requires CharLength([a, b]) == 2
    ensures Scalar(p) && Utf8(p) == [a, b]
  {
    var x: int, y: int := a as int - 0xC0, b as int - 0x80;
    p := x * 0x40 + y;
    assert p / 0x40 == x && p % 0x40 == y;
  }

  lemma ThreeBytes(a: U8, b: U8, c: U8) returns (p: nat)
    requires CharLength([a, b, c]) == 3
    ensures Scalar(p) && Utf8(p) == [a, b, c]
  {
    var x: int, y: int, z: int := a as int - 0xE0, b as int - 0x80, c as int - 0x80;
    p := x * 0x1000 + y * 0x40 + z;
    assert p / 0x40 == x * 0x40 + y && p % 0x40 == z;
    assert p / 0x1000 == x && p / 0x40 % 0x40 == y;
  }

  lemma FourBytes(a: U8, b: U8, c: U8, d: U8) returns (p: nat)
    requires CharLength([a, b, c, d]) == 4
    ensures Scalar(p) && Utf8(p) == [a, b, c, d]
  {
    var w: int, x: int := a as int - 0xF0, b as int - 0x80;
    var y: int, z: int := c as int - 0x80, d as int - 0x80;
    p := w * 0x4_0000 + x * 0x1000 + y * 0x40 + z;
    assert p / 0x40 == w * 0x1000 + x * 0x40 + y && p % 0x40 == z;
    assert p / 0x1000 == w * 0x40 + x && p / 0x40 % 0x40 == y;
    assert p / 0x4_0000 == w && p / 0x1000 % 0x40 == x;
  }

  predicate ValidUtf8(s: Bytes)
    decreases |s|
  {
    s == [] || (CharLength(s) > 0 && ValidUtf8(s[CharLength(s)..]))
  }

  /** Between two characters, or at either end. */
  predicate CharBoundary(s: Bytes, i: nat) {
    i == 0 || i == |s| || (i < |s| && !Continuation(s[i]))
  }

  /** In valid text a boundary is never more than three bytes away, on either side. */
  lemma {:induction false} BoundaryNearby(s: Bytes, i: nat)
    requires ValidUtf8(s) && i <= |s|
    ensures exists b: nat :: b <= i <= b + 3 && CharBoundary(s, b)
    ensures exists b: nat :: i <= b <= i + 3 && b <= |s| && CharBoundary(s, b)
    decreases |s|
  {
    if i > 0 {
      var n := CharLength(s);
      StartsCharacter(s, n);
      if i < n {
        assert CharBoundary(s, 0) && CharBoundary(s, n);
      } else {
        BoundaryNearby(s[n..], i - n);
        var lo: nat :| lo <= i - n <= lo + 3 && CharBoundary(s[n..], lo);
        var hi: nat :| i - n <= hi <= i - n + 3 && hi <= |s[n..]| && CharBoundary(s[n..], hi);
        ShiftBoundary(s, n, lo);
        ShiftBoundary(s, n, hi);
        assert CharBoundary(s, n + lo) && CharBoundary(s, n + hi);
      }
    } else {
      assert CharBoundary(s, 0);
    }
  }

  /** The end of a valid character is a boundary. */
  lemma StartsCharacter(s: Bytes, n: nat)
    requires ValidUtf8(s) && s != [] && n == CharLength(s)
    ensures CharBoundary(s, n)
  {
    if n < |s| {
      assert s[n..][0] == s[n];
      assert CharLength(s[n..]) > 0;
    }
  }

  lemma ShiftBoundary(s: Bytes, n: nat, b: nat)
    requires n <= |s| && CharBoundary(s, n) && b <= |s| - n && CharBoundary(s[n..], b)
    ensures CharBoundary(s, n + b)
  {
  }

  // The window

  /** The last boundary up to `i`. */
  function Floor(s: Bytes, i: nat): (b: nat)
    requires i <= |s|
    ensures b <= i && CharBoundary(s, b) && forall k: nat :: b < k <= i ==> !CharBoundary(s, k)
  {
    if CharBoundary(s, i) then i else Floor(s, i - 1)
  }

  /** The first boundary from `i` on. */
  function Ceil(s: Bytes, i: nat): (b: nat)
    requires i <= |s|
    ensures i <= b <= |s| && CharBoundary(s, b) && forall k: nat :: i <= k < b ==> !CharBoundary(s, k)
    decreases |s| - i
  {
    if CharBoundary(s, i) then i else Ceil(s, i + 1)
  }

  method FloorBoundary(s: Bytes, start: nat) returns (i: nat)
    requires start <= |s|
    ensures i == Floor(s, start)
  {
    i := start;
    while i > 0 && !CharBoundary(s, i)
      invariant i <= start && Floor(s, i) == Floor(s, start)
    {
      i := i - 1;
    }
  }

  method CeilBoundary(s: Bytes, start: nat) returns (i: nat)
    requires start <= |s|
    ensures i == Ceil(s, start)
  {
    i := start;
    while i < |s| && !CharBoundary(s, i)
      invariant start <= i <= |s| && Ceil(s, i) == Ceil(s, start)
      decreases |s| - i
    {
      i := i + 1;
    }
  }

  /** The most an excerpt is meant to take: the nominal window, or the match when that is longer. */
  function Limit(start: nat, end: nat): nat
    requires start <= end
  {
    if end - start < EXCERPT_WINDOW then EXCERPT_WINDOW else end - start
  }

  /** Context wanted on each side of the match. */
  function Padding(start: nat, end: nat): nat
    requires start <= end
  {
    (Limit(start, end) - (end - start)) / 2
  }

  /** Where the window starts before it is moved to a boundary. */
  function NominalStart(start: nat, end: nat): nat
    requires start <= end
  {
    if start > Padding(start, end) then start - Padding(start, end) else 0
  }

  /** Where the window ends before it is moved to a boundary, in a body of this length. */
  function NominalEnd(start: nat, end: nat, length: nat): nat
    requires start <= end <= length
  {
    if end + Padding(start, end) < length then end + Padding(start, end) else length
  }

  function WindowLength(body: Bytes, start: nat, end: nat): nat
    requires start <= end <= |body|
  {
    Ceil(body, NominalEnd(start, end, |body|)) - Floor(body, NominalStart(start, end))
  }

  lemma WindowBound(body: Bytes, start: nat, end: nat)
    requires ValidUtf8(body) && start <= end <= |body|
    ensures WindowLength(body, start, end) <= Limit(start, end) + 6
  {
    CloseBoundaries(body, NominalStart(start, end));
    CloseBoundaries(body, NominalEnd(start, end, |body|));
  }

  lemma CloseBoundaries(s: Bytes, i: nat)
    requires ValidUtf8(s) && i <= |s|
    ensures i - 3 <= Floor(s, i) && Ceil(s, i) <= i + 3
  {
    BoundaryNearby(s, i);
  }

  /**
   The window cut around the match `[start, end)`, and whether an ellipsis goes before and after it.
   It holds the match, begins and ends between characters, misses no byte it could include within the
   padding, and is at most six bytes longer than the limit.
   */
  method ClipWindow(body: Bytes, start: nat, end: nat) returns (lo: nat, hi: nat, before: bool, after: bool)
    requires ValidUtf8(body) && start <= end <= |body|
    ensures lo <= start && end <= hi <= |body|
    ensures CharBoundary(body, lo) && CharBoundary(body, hi)
    ensures lo == Floor(body, NominalStart(start, end)) && hi == Ceil(body, NominalEnd(start, end, |body|))
    ensures hi - lo <= Limit(start, end) + 6
    ensures (lo == 0 || start - lo >= Padding(start, end)) && (hi == |body| || hi - end >= Padding(start, end))
    ensures before <==> lo > 0
    ensures after <==> hi < |body|
  {
    var pad := if EXCERPT_WINDOW > end - start then (EXCERPT_WINDOW - (end - start)) / 2 else 0;
    var from := if start > pad then start - pad else 0;
    var to := if end + pad < |body| then end + pad else |body|;
    assert from == NominalStart(start, end) && to == NominalEnd(start, end, |body|);
    lo := FloorBoundary(body, from);
    hi := CeilBoundary(body, to);
    WindowBound(body, start, end);
    before, after := lo > 0, hi < |body|;
  }

  // When the window keeps to the limit

  /** Room the nominal window leaves below the limit: rounding, and what the ends of the body cut off. */
  function Slack(start: nat, end: nat, length: nat): nat
    requires start <= end <= length
  {
    Limit(start, end) - (NominalEnd(start, end, length) - NominalStart(start, end))
  }

  /** There are boundaries around the nominal window that overshoot it by no more than `room` bytes together. */
  ghost predicate BoundariesWithin(body: Bytes, from: nat, to: nat, room: nat) {
    exists b: nat, e: nat ::
      b <= from && to <= e <= |body| && CharBoundary(body, b) && CharBoundary(body, e) && (from - b) + (e - to) <= room
  }

  lemma LimitExact(body: Bytes, start: nat, end: nat)
    requires start <= end <= |body|
    ensures WindowLength(body, start, end) <= Limit(start, end) <==>
      BoundariesWithin(body, NominalStart(start, end), NominalEnd(start, end, |body|), Slack(start, end, |body|))
  {
    var from, to := NominalStart(start, end), NominalEnd(start, end, |body|);
    var lo, hi := Floor(body, from), Ceil(body, to);
    if WindowLength(body, start, end) <= Limit(start, end) {
      assert (from - lo) + (hi - to) <= Slack(start, end, |body|);
    }
    if b: nat, e: nat :|
      b <= from && to <= e <= |body| && CharBoundary(body, b) && CharBoundary(body, e)
      && (from - b) + (e - to) <= Slack(start, end, |body|)
    {
      assert b <= lo && hi <= e;
    }
  }

  /**
   The window takes no more than the documented 80 bytes exactly when the match itself does, and
   boundaries lie close enough to the nominal ends.
   */
  lemma WindowExact(body: Bytes, start: nat, end: nat)
    requires start <= end <= |body|
    ensures WindowLength(body, start, end) <= EXCERPT_WINDOW <==>
      && end - start <= EXCERPT_WINDOW
      && BoundariesWithin(body, NominalStart(start, end), NominalEnd(start, end, |body|), Slack(start, end, |body|))
  {
    LimitExact(body, start, end);
  }

  /** A longer match, itself between boundaries, is the whole window. */
  lemma LongMatchWindow(body: Bytes, start: nat, end: nat)
    requires start <= end <= |body| && end - start > EXCERPT_WINDOW
    requires CharBoundary(body, start) && CharBoundary(body, end)
    ensures Floor(body, NominalStart(start, end)) == start && Ceil(body, NominalEnd(start, end, |body|)) == end
    ensures WindowLength(body, start, end) == end - start
  {
  }

  /** Inside a long body the padding is not cut off, so only rounding leaves room. */
  predicate Unclipped(start: nat, end: nat, length: nat)
    requires start <= end
  {
    Padding(start, end) <= start && end + Padding(start, end) <= length
  }

  /** For such a window both nominal ends must be boundaries; an odd match leaves one byte to spare. */
  lemma UnclippedWindowExact(body: Bytes, start: nat, end: nat)
    requires start <= end <= |body| && Unclipped(start, end, |body|)
    ensures var from, to := NominalStart(start, end), NominalEnd(start, end, |body|);
      WindowLength(body, start, end) <= EXCERPT_WINDOW <==>
        && end - start <= EXCERPT_WINDOW
        && (|| (CharBoundary(body, from) && CharBoundary(body, to))
            || ((end - start) % 2 == 1 && CharBoundary(body, from) && CharBoundary(body, to + 1))
            || ((end - start) % 2 == 1 && from > 0 && CharBoundary(body, from - 1) && CharBoundary(body, to)))
  {
    if end - start <= EXCERPT_WINDOW {
      var from, to := NominalStart(start, end), NominalEnd(start, end, |body|);
      var lo, hi := Floor(body, from), Ceil(body, to);
      assert to - from == EXCERPT_WINDOW - (end - start) % 2;
      assert WindowLength(body, start, end) <= EXCERPT_WINDOW <==> (from - lo) + (hi - to) <= (end - start) % 2;
    }
  }

  /** Cutting valid text at boundaries leaves valid text. */
  lemma {:induction false} PrefixValid(s: Bytes, b: nat)
    requires ValidUtf8(s) && b <= |s| && CharBoundary(s, b)
    ensures ValidUtf8(s[..b]) && ValidUtf8(s[b..])
    decreases |s|
  {
    if b == 0 || b == |s| {
      assert s[..|s|] == s && s[0..] == s;
      assert ValidUtf8(s[..0]) && ValidUtf8(s[|s|..]);
    } else {
      var n := CharLength(s);
      assert n <= b by {
        assert forall k :: 0 < k < n ==> Continuation(s[k]);
      }
      assert s[n..][..b - n] == s[n..b] && s[n..][b - n..] == s[b..];
      assert CharBoundary(s[n..], b - n);
      PrefixValid(s[n..], b - n);
      assert s[..b][n..] == s[n..b];
      SameFirstCharacter(s, b);
    }
  }

  lemma SameFirstCharacter(s: Bytes, b: nat)
    requires b <= |s| && (0 < CharLength(s) <= b || CharLength(s[..b]) > 0)
    ensures CharLength(s[..b]) == CharLength(s)
  {
  }

  /** The excerpt itself is valid UTF-8. */
  lemma WindowValid(body: Bytes, lo: nat, hi: nat)
    requires ValidUtf8(body) && lo <= hi <= |body| && CharBoundary(body, lo) && CharBoundary(body, hi)
    ensures ValidUtf8(body[lo..hi])
  {
    PrefixValid(body, hi);
    assert CharBoundary(body[..hi], lo);
    PrefixValid(body[..hi], lo);
    assert body[..hi][lo..] == body[lo..hi];
  }

  lemma {:induction false} ValidConcatenation(s: Bytes, t: Bytes)
    requires ValidUtf8(s) && ValidUtf8(t)
    ensures ValidUtf8(s + t)
    decreases |s|
  {
    if s == [] {
      assert s + t == t;
    } else {
      var n, whole := CharLength(s), s + t;
      assert whole[..|s|] == s && whole[n..] == s[n..] + t;
      SameFirstCharacter(whole, |s|);
      ValidConcatenation(s[n..], t);
    }
  }

  lemma {:induction false} AsciiValid(s: Bytes)
    requires forall i :: 0 <= i < |s| ==> s[i] < 0x80
    ensures ValidUtf8(s)
  {
    if s != [] {
      AsciiValid(s[1..]);
    }
  }
}
