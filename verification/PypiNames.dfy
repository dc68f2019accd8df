/** The two PyPI name normalisers, against the rule of PEP 503, section "Normalized Names". */
module PypiNames {
  import opened Sequences
  import opened Text

  predicate Separator(c: char) {
    c == '-' || c == '_' || c == '.'
  }

  /** Lowercasing of one character; the result may take several characters. */
  type Lowering = char -> string

  /** What the names rely on: a dash stays, and no other character gives nothing, a separator or a capital. */
  ghost predicate Proper(lower: Lowering) {
    && lower('-') == "-"
    && (forall c :: !Separator(c) ==> lower(c) != "")
    && (forall c, d :: !Separator(c) && d in lower(c) ==> !Separator(d) && lower(d) == [d])
  }

  function AsciiLowering(c: char): string {
    [LowerChar(c)]
  }

  lemma AsciiProper()
    ensures Proper(AsciiLowering)
  {
  }

  // The rule: every run of separators becomes one dash, then everything is lowercased

  function SeparatorRun(s: string): (n: nat)
    ensures n <= |s|
    ensures forall i :: 0 <= i < n ==> Separator(s[i])
    ensures n < |s| ==> !Separator(s[n])
  {
    if s != "" && Separator(s[0]) then 1 + SeparatorRun(s[1..]) else 0
  }

  function Collapse(s: string): string
    decreases |s|
  {
    if s == "" then ""
    else if Separator(s[0]) then "-" + Collapse(s[SeparatorRun(s)..])
    else [s[0]] + Collapse(s[1..])
  }

  function LowerAll(lower: Lowering, s: string): string {
    if s == "" then "" else lower(s[0]) + LowerAll(lower, s[1..])
  }

  function Pep503(lower: Lowering, s: string): string {
    LowerAll(lower, Collapse(s))
  }

  /** What is still to come when the loop stands inside (or outside) a run of separators. */
  function Rest(lower: Lowering, inRun: bool, s: string): string {
    Pep503(lower, if inRun then s[SeparatorRun(s)..] else s)
  }

  /** The output for one character: a dash only at the start of a run. */
  function Emitted(lower: Lowering, inRun: bool, c: char): string {
    if !Separator(c) then lower(c) else if inRun then "" else "-"
  }

  lemma RestStep(lower: Lowering, inRun: bool, s: string)
    requires Proper(lower) && s != ""
    ensures Rest(lower, inRun, s) == Emitted(lower, inRun, s[0]) + Rest(lower, Separator(s[0]), s[1..])
  {
    if Separator(s[0]) {
      assert s[SeparatorRun(s)..] == s[1..][SeparatorRun(s[1..])..];
      LowerHead(lower, '-', Collapse(s[SeparatorRun(s)..]));
    } else {
      assert s[SeparatorRun(s)..] == s;
      LowerHead(lower, s[0], Collapse(s[1..]));
    }
  }

  lemma LowerHead(lower: Lowering, c: char, rest: string)
    ensures LowerAll(lower, [c] + rest) == lower(c) + LowerAll(lower, rest)
  {
    assert ([c] + rest)[1..] == rest;
  }

  method SbomNormalise(lower: Lowering, name: string) returns (out: string)
    requires Proper(lower)
    ensures out == Pep503(lower, name)
  {
    out := "";
    var prevSep := false;
    assert "" + Rest(lower, false, name) == Pep503(lower, name) && name[0..] == name;
    for i := 0 to |name|
      invariant out + Rest(lower, prevSep, name[i..]) == Pep503(lower, name)
    {
      RestStep(lower, prevSep, name[i..]);
      assert name[i..][1..] == name[i + 1..];
      Associate(out, Emitted(lower, prevSep, name[i]), Rest(lower, Separator(name[i]), name[i + 1..]));
      assert out + "" == out;
      if Separator(name[i]) {
        if !prevSep {
          out := out + "-";
          prevSep := true;
        }
      } else {
        out := out + lower(name[i]);
        prevSep := false;
      }
    }
    assert out + Rest(lower, prevSep, name[|name|..]) == out;
  }

  function TrimLeft(s: string): string {
    if s != "" && s[0] == '-' then TrimLeft(s[1..]) else s
  }

  function TrimRight(s: string): string {
    if s != "" && s[|s| - 1] == '-' then TrimRight(s[..|s| - 1]) else s
  }

  /** The adapter's variant: the rule, then dashes trimmed from both ends. */
  function AdapterName(lower: Lowering, s: string): string {
    TrimRight(TrimLeft(Pep503(lower, s)))
  }

  method AdapterNormalise(lower: Lowering, name: string) returns (out: string)
    requires Proper(lower)
    ensures out == AdapterName(lower, name)
  {
    out := "";
    var lastWasSep := false;
    assert "" + Rest(lower, false, name) == Pep503(lower, name) && name[0..] == name;
    for i := 0 to |name|
      invariant out != "" ==> out[0] != '-'
      invariant TrimLeft(out + Rest(lower, lastWasSep, name[i..])) == TrimLeft(Pep503(lower, name))
    {
      AdapterStep(lower, out, lastWasSep, name[i..]);
      EmittedEnds(lower, name[i]);
      assert name[i..][1..] == name[i + 1..];
      if Separator(name[i]) {
        if !lastWasSep && out != "" {
          out := out + "-";
        }
        lastWasSep := true;
      } else {
        out := out + lower(name[i]);
        lastWasSep := false;
      }
    }
    assert out + Rest(lower, lastWasSep, name[|name|..]) == out;
    while out != "" && out[|out| - 1] == '-'
      invariant TrimRight(out) == TrimRight(TrimLeft(Pep503(lower, name)))
      decreases |out|
    {
      out := out[..|out| - 1];
    }
  }

  /** A leading dash may be skipped, since it would be trimmed anyway. */
  lemma AdapterStep(lower: Lowering, out: string, inRun: bool, s: string)
    requires Proper(lower) && s != "" && (out != "" ==> out[0] != '-')
    ensures var next := if Separator(s[0]) && (inRun || out == "") then out else out + Emitted(lower, inRun, s[0]);
      TrimLeft(out + Rest(lower, inRun, s)) == TrimLeft(next + Rest(lower, Separator(s[0]), s[1..]))
  {
    RestStep(lower, inRun, s);
    var emitted, after := Emitted(lower, inRun, s[0]), Rest(lower, Separator(s[0]), s[1..]);
    Associate(out, emitted, after);
    if Separator(s[0]) && inRun {
      assert out + emitted == out;
    } else if Separator(s[0]) && out == "" {
      assert out + after == after && out + (emitted + after) == "-" + after;
      assert ("-" + after)[1..] == after;
    }
  }

  /** What is written for a character that is no separator neither begins nor ends with a dash. */
  lemma EmittedEnds(lower: Lowering, c: char)
    requires Proper(lower)
    ensures Emitted(lower, false, c) != ""
    ensures Emitted(lower, false, c)[0] == '-' <==> Separator(c)
    ensures LastChar(Emitted(lower, false, c)) == '-' <==> Separator(c)
  {
    var e := Emitted(lower, false, c);
    assert e[0] in e && LastChar(e) in e;
  }

  // Canonical names

  /** Lowercase, dashes the only separators, and never two in a row. */
  ghost predicate Normal(lower: Lowering, s: string) {
    && (forall i :: 0 <= i < |s| ==> lower(s[i]) == [s[i]] && (Separator(s[i]) ==> s[i] == '-'))
    && (forall i :: 0 < i < |s| ==> s[i - 1] != '-' || s[i] != '-')
  }

  lemma NormalConcatenation(lower: Lowering, a: string, b: string)
    requires Normal(lower, a) && Normal(lower, b)
    requires a != "" && b != "" ==> LastChar(a) != '-' || b[0] != '-'
    ensures Normal(lower, a + b)
  {
    var s := a + b;
    forall i | 0 < i < |s| ensures s[i - 1] != '-' || s[i] != '-' {
      if i < |a| {
        assert s[i - 1] == a[i - 1] && s[i] == a[i];
      } else if i > |a| {
        assert s[i - 1] == b[i - |a| - 1] && s[i] == b[i - |a|];
      }
    }
  }

  lemma EmittedNormal(lower: Lowering, c: char)
    requires Proper(lower)
    ensures Normal(lower, Emitted(lower, false, c))
  {
    var e := Emitted(lower, false, c);
    assert forall i :: 0 <= i < |e| ==> e[i] in e;
  }

  /** Length of the leading run of separators, or of a single other character. */
  function FirstToken(s: string): (n: nat)
    requires s != ""
    ensures 1 <= n <= |s|
    ensures Separator(s[n - 1]) <==> Separator(s[0])
    ensures n < |s| && Separator(s[0]) ==> !Separator(s[n])
  {
    if Separator(s[0]) then SeparatorRun(s) else 1
  }

  lemma FirstTokenSplits(lower: Lowering, s: string)
    requires Proper(lower) && s != ""
    ensures Pep503(lower, s) == Emitted(lower, false, s[0]) + Pep503(lower, s[FirstToken(s)..])
  {
    RestStep(lower, false, s);
    if Separator(s[0]) {
      assert s[SeparatorRun(s)..] == s[1..][SeparatorRun(s[1..])..];
    }
  }

  lemma {:induction false} CollapseNormal(lower: Lowering, s: string)
    requires Proper(lower)
    ensures Normal(lower, Pep503(lower, s))
    ensures s == "" <==> Pep503(lower, s) == ""
    ensures s != "" ==> (Pep503(lower, s)[0] == '-' <==> Separator(s[0]))
    decreases |s|
  {
    if s != "" {
      var first, rest := Emitted(lower, false, s[0]), s[FirstToken(s)..];
      CollapseNormal(lower, rest);
      FirstTokenSplits(lower, s);
      EmittedEnds(lower, s[0]);
      EmittedNormal(lower, s[0]);
      NormalConcatenation(lower, first, Pep503(lower, rest));
    }
  }

  lemma {:induction false} NormalFixed(lower: Lowering, s: string)
    requires Proper(lower) && Normal(lower, s)
    ensures Pep503(lower, s) == s
  {
    if s != "" {
      assert Normal(lower, s[1..]) by {
        assert forall i :: 0 <= i < |s[1..]| ==> s[1..][i] == s[i + 1];
      }
      NormalFixed(lower, s[1..]);
      if Separator(s[0]) {
        assert SeparatorRun(s[1..]) == 0;
      }
      FirstTokenSplits(lower, s);
      assert s == [s[0]] + s[1..];
    }
  }

  /** The rule produces exactly the canonical names, and fixes them. */
  lemma Pep503Exact(lower: Lowering, s: string)
    requires Proper(lower)
    ensures Normal(lower, s) <==> Pep503(lower, s) == s
    ensures Pep503(lower, Pep503(lower, s)) == Pep503(lower, s)
  {
    CollapseNormal(lower, s);
    NormalFixed(lower, Pep503(lower, s));
    if Normal(lower, s) {
      NormalFixed(lower, s);
    }
  }

  lemma {:induction false} TrimLeftNormal(lower: Lowering, s: string)
    requires Normal(lower, s)
    ensures Normal(lower, TrimLeft(s)) && (TrimLeft(s) != "" ==> TrimLeft(s)[0] != '-')
  {
    if s != "" && s[0] == '-' {
      assert forall i :: 0 <= i < |s[1..]| ==> s[1..][i] == s[i + 1];
      TrimLeftNormal(lower, s[1..]);
    }
  }

  lemma {:induction false} TrimRightNormal(lower: Lowering, s: string)
    requires Normal(lower, s)
    ensures Normal(lower, TrimRight(s)) && TrimRight(s) <= s
    ensures TrimRight(s) != "" ==> LastChar(TrimRight(s)) != '-'
  {
    if s != "" && s[|s| - 1] == '-' {
      TrimRightNormal(lower, s[..|s| - 1]);
    }
  }

  /** The adapter's names are canonical and free of outer dashes; both normalisers fix them. */
  lemma AdapterNameExact(lower: Lowering, s: string)
    requires Proper(lower)
    ensures var n := AdapterName(lower, s);
      && Normal(lower, n) && (n != "" ==> n[0] != '-' && n[|n| - 1] != '-')
      && AdapterName(lower, n) == n
      && Pep503(lower, n) == n
  {
    var p := Pep503(lower, s);
    CollapseNormal(lower, s);
    TrimLeftNormal(lower, p);
    TrimRightNormal(lower, TrimLeft(p));
    NormalFixed(lower, AdapterName(lower, s));
  }

  function LastChar(s: string): char
    requires s != ""
  {
    s[|s| - 1]
  }

  lemma {:induction false} LastSeparator(lower: Lowering, s: string)
    requires Proper(lower) && s != ""
    ensures Pep503(lower, s) != "" && (LastChar(Pep503(lower, s)) == '-' <==> Separator(LastChar(s)))
    decreases |s|
  {
    var n, first := FirstToken(s), Emitted(lower, false, s[0]);
    FirstTokenSplits(lower, s);
    EmittedEnds(lower, s[0]);
    if n < |s| {
      LastSeparator(lower, s[n..]);
      assert LastChar(s[n..]) == LastChar(s);
      assert LastChar(first + Pep503(lower, s[n..])) == LastChar(Pep503(lower, s[n..]));
    } else {
      assert s[n..] == "";
      assert first + Pep503(lower, "") == first;
    }
  }

  /**
   The rule, read piece by piece: one character gives a dash or its lowercase, and two pieces are
   normalised apart unless separators meet, where the second dash is dropped.
   */
  lemma RuleExact(lower: Lowering, a: string, b: string, c: char)
    requires Proper(lower)
    ensures Pep503(lower, "") == "" && Pep503(lower, [c]) == if c in "-_." then "-" else lower(c)
    ensures var dashes := a != "" && b != "" && a[|a| - 1] in "-_." && b[0] in "-_.";
      && (dashes ==> Pep503(lower, b) != "")
      && Pep503(lower, a + b) == Pep503(lower, a) + if dashes then Pep503(lower, b)[1..] else Pep503(lower, b)
  {
    OneCharacter(lower, c);
    RestAppend(lower, false, a, b);
    RestInRun(lower, b);
  }

  /** Behind an open run, the dash of a leading run is not written. */
  lemma RestInRun(lower: Lowering, s: string)
    requires Proper(lower)
    ensures s != "" && Separator(s[0]) ==> Pep503(lower, s) != "" && Rest(lower, true, s) == Pep503(lower, s)[1..]
    ensures s == "" || !Separator(s[0]) ==> Rest(lower, true, s) == Pep503(lower, s)
  {
    if s != "" && Separator(s[0]) {
      RestStep(lower, false, s);
      RestStep(lower, true, s);
      assert Pep503(lower, s) == "-" + Rest(lower, true, s[1..]);
    } else {
      assert s[SeparatorRun(s)..] == s;
    }
  }

  lemma OneCharacter(lower: Lowering, c: char)
    requires Proper(lower)
    ensures Pep503(lower, [c]) == if Separator(c) then "-" else lower(c)
  {
    RestStep(lower, false, [c]);
    assert [c][1..] == "" && Emitted(lower, false, c) + "" == Emitted(lower, false, c);
  }

  /** Whether a run of separators is open behind `s`. */
  predicate Open(inRun: bool, s: string) {
    if s == "" then inRun else Separator(LastChar(s))
  }

  lemma OpenStep(inRun: bool, s: string)
    requires s != ""
    ensures Open(inRun, s) == Open(Separator(s[0]), s[1..])
  {
    assert s[1..] != "" ==> LastChar(s[1..]) == LastChar(s);
  }

  lemma {:induction false} RestAppend(lower: Lowering, inRun: bool, a: string, b: string)
    requires Proper(lower)
    ensures Rest(lower, inRun, a + b) == Rest(lower, inRun, a) + Rest(lower, Open(inRun, a), b)
    decreases |a|
  {
    if a == "" {
      NothingBefore(lower, inRun, b);
    } else {
      RestAppend(lower, Separator(a[0]), a[1..], b);
      OpenStep(inRun, a);
      HeadOfSum(a, b);
      RestStep(lower, inRun, a + b);
      RestStep(lower, inRun, a);
      Associate(Emitted(lower, inRun, a[0]), Rest(lower, Separator(a[0]), a[1..]), Rest(lower, Open(inRun, a), b));
    }
  }

  lemma NothingBefore(lower: Lowering, inRun: bool, b: string)
    ensures Rest(lower, inRun, "" + b) == Rest(lower, inRun, "") + Rest(lower, inRun, b)
  {
    assert "" + b == b && Rest(lower, inRun, "") == "";
  }

  lemma HeadOfSum(a: string, b: string)
    requires a != ""
    ensures (a + b)[0] == a[0] && (a + b)[1..] == a[1..] + b
  {
  }

  /** The adapter drops the one dash that the rule may leave at either end, and nothing else. */
  lemma AdapterTrims(lower: Lowering, s: string)
    requires Proper(lower)
    ensures var n := AdapterName(lower, s);
      Pep503(lower, s) ==
        (if s != "" && Separator(s[0]) then "-" else "") + n
        + (if n != "" && Separator(LastChar(s)) then "-" else "")
  {
    CollapseNormal(lower, s);
    DashesTrimmed(lower, Pep503(lower, s));
    if s != "" {
      LastSeparator(lower, s);
    }
  }

  lemma DashesTrimmed(lower: Lowering, p: string)
    requires Normal(lower, p)
    ensures var n := TrimRight(TrimLeft(p));
      p == (if p != "" && p[0] == '-' then "-" else "") + n + (if n != "" && LastChar(p) == '-' then "-" else "")
  {
    var q := TrimLeft(p);
    TrimLeftNormal(lower, p);
    OneDashLeft(lower, p);
    OneDashRight(lower, q);
    assert q != "" ==> LastChar(q) == LastChar(p);
    assert TrimRight(q) == "" <==> q == "";
    Associate(if p != "" && p[0] == '-' then "-" else "", TrimRight(q), if q != "" && LastChar(q) == '-' then "-" else "");
  }

  lemma OneDashLeft(lower: Lowering, p: string)
    requires Normal(lower, p)
    ensures p == (if p != "" && p[0] == '-' then "-" else "") + TrimLeft(p)
  {
    if p != "" && p[0] == '-' {
      assert TrimLeft(p[1..]) == p[1..];
      assert p == ['-'] + p[1..];
    }
  }

  lemma OneDashRight(lower: Lowering, p: string)
    requires Normal(lower, p)
    ensures p == TrimRight(p) + if p != "" && LastChar(p) == '-' then "-" else ""
  {
    if p != "" && LastChar(p) == '-' {
      var init := p[..|p| - 1];
      assert init != "" ==> LastChar(init) == p[|p| - 2];
      assert TrimRight(init) == init;
      assert p == init + ['-'];
    }
  }

  /** The two normalisers differ exactly on names that begin or end with a separator. */
  lemma NormalisersAgree(lower: Lowering, s: string)
    requires Proper(lower)
    ensures AdapterName(lower, s) == Pep503(lower, s) <==> s == "" || (!Separator(s[0]) && !Separator(LastChar(s)))
  {
    CollapseNormal(lower, s);
    if s != "" {
      LastSeparator(lower, s);
      AdapterNameExact(lower, s);
    }
  }
}
