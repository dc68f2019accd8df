/** Which archive members lie under a build backend's source roots. */
module BackendPath {
  import opened Wrappers
  import opened Sequences
  import opened Ordering
  import Dependency
  import Text

  // Paths as component lists

  datatype Component = RootDir | CurDir | ParentDir | Normal(name: string)

  /** The text between slashes. */
  function Pieces(s: string): (r: seq<string>)
    ensures r != [] && forall p :: p in r ==> '/' !in p
    decreases |s|
  {
    match Dependency.IndexOf(s, '/')
    case None => [s]
    case Some(i) => [s[..i]] + Pieces(s[i + 1..])
  }

  function ComponentOf(piece: string): Option<Component> {
    if piece == "" || piece == "." then None
    else if piece == ".." then Some(ParentDir)
    else Some(Normal(piece))
  }

  /** A Unix path's components: a root, a leading `.` of a relative path, then the pieces that name something. */
  function Components(path: string): seq<Component> {
    var pieces := Pieces(path);
    (if path != "" && path[0] == '/' then [RootDir] else if pieces[0] == "." then [CurDir] else [])
    + FilterMap(pieces, ComponentOf)
  }

  /** A name that can stand between slashes. */
  predicate PartName(p: string) {
    p != "" && p != "." && p != ".." && '/' !in p
  }

  ghost predicate PartNames(parts: seq<string>) {
    forall p :: p in parts ==> PartName(p)
  }

  function Join(parts: seq<string>): string {
    if parts == [] then ""
    else if |parts| == 1 then parts[0]
    else parts[0] + "/" + Join(parts[1..])
  }

  /** The plain names of a path that neither starts at the root nor climbs. */
  function PartsOf(components: seq<Component>): Option<seq<string>> {
    if components == [] then Some([])
    else
      match (components[0], PartsOf(components[1..]))
      case (CurDir, rest) => rest
      case (Normal(name), Some(rest)) => Some([name] + rest)
      case _ => None
  }

  function Prepend(parts: seq<string>, rest: Option<seq<string>>): Option<seq<string>> {
    match rest
    case None => None
    case Some(names) => Some(parts + names)
  }

  method CollectParts(path: string) returns (r: Option<seq<string>>)
    ensures r == PartsOf(Components(path))
  {
    var components := Components(path);
    var parts := [];
    PrependNothing(PartsOf(components));
    for i := 0 to |components|
      invariant Prepend(parts, PartsOf(components[i..])) == PartsOf(components)
    {
      assert components[i..][1..] == components[i + 1..];
      match components[i] {
        case CurDir =>
        case Normal(name) =>
          PrependMore(parts, name, PartsOf(components[i + 1..]));
          parts := parts + [name];
        case _ => return None;
      }
    }
    assert parts + [] == parts;
    return Some(parts);
  }

  lemma PrependNothing(rest: Option<seq<string>>)
    ensures Prepend([], rest) == rest
  {
    assert rest.Some? ==> [] + rest.value == rest.value;
  }

  lemma PrependMore(parts: seq<string>, name: string, rest: Option<seq<string>>)
    ensures Prepend(parts, Prepend([name], rest)) == Prepend(parts + [name], rest)
  {
    if rest.Some? {
      Associate(parts, [name], rest.value);
    }
  }

  /** The text of a normalised path: `.` for the project root itself. */
  function Rendered(parts: seq<string>): string {
    if parts == [] then "." else Join(parts)
  }

  method NormalizeBackendPath(path: string) returns (r: Option<string>)
    ensures r == Normalized(path)
  {
    var parts := CollectParts(path);
    match parts {
      case None => return None;
      case Some(names) =>
        if names == [] {
          return Some(".");
        }
        return Some(Join(names));
    }
  }

  function Normalized(path: string): Option<string> {
    match PartsOf(Components(path))
    case None => None
    case Some(parts) => Some(Rendered(parts))
  }

  // Normalisation

  lemma {:induction false} PartsAreNames(pieces: seq<string>)
    requires forall p :: p in pieces ==> '/' !in p
    ensures var c := FilterMap(pieces, ComponentOf); PartsOf(c).Some? ==> PartNames(PartsOf(c).value)
  {
    if pieces != [] {
      assert pieces == [pieces[0]] + pieces[1..];
      PartsAreNames(pieces[1..]);
      var rest := FilterMap(pieces[1..], ComponentOf);
      match ComponentOf(pieces[0])
      case None => assert [] + rest == rest;
      case Some(c) => assert ([c] + rest)[1..] == rest;
    }
  }

  lemma PathParts(path: string)
    requires PartsOf(Components(path)).Some?
    ensures PartNames(PartsOf(Components(path)).value)
  {
    var pieces := Pieces(path);
    var rest := FilterMap(pieces, ComponentOf);
    PartsAreNames(pieces);
    assert [] + rest == rest && ([CurDir] + rest)[1..] == rest && ([RootDir] + rest)[1..] == rest;
  }

  lemma {:induction false} PiecesOfJoin(parts: seq<string>)
    requires PartNames(parts) && parts != []
    ensures Pieces(Join(parts)) == parts
  {
    var s, head := Join(parts), parts[0];
    assert PartName(head);
    if |parts| > 1 {
      var rest := parts[1..];
      assert PartNames(rest) by {
        assert forall p :: p in rest ==> p in parts;
      }
      PiecesOfJoin(rest);
      assert s[..|head|] == head && s[|head|] == '/' && s[|head| + 1..] == Join(rest);
      Dependency.IndexOfFirst(s, '/', |head|);
    }
  }

  lemma {:induction false} NormalComponents(parts: seq<string>)
    requires PartNames(parts)
    ensures PartsOf(FilterMap(parts, ComponentOf)) == Some(parts)
  {
    if parts != [] {
      assert PartName(parts[0]) && forall p :: p in parts[1..] ==> p in parts;
      NormalComponents(parts[1..]);
      var rest := FilterMap(parts[1..], ComponentOf);
      assert ([Normal(parts[0])] + rest)[1..] == rest;
      assert parts == [parts[0]] + parts[1..];
    }
  }

  lemma JoinStart(parts: seq<string>)
    requires PartNames(parts) && parts != []
    ensures Join(parts) != "" && Join(parts)[0] != '/'
  {
    assert PartName(parts[0]);
    assert parts[0][0] in parts[0];
  }

  /** Nothing of a path is lost in its pieces. */
  lemma {:induction false} PiecesExact(path: string)
    ensures Join(Pieces(path)) == path
    decreases |path|
  {
    match Dependency.IndexOf(path, '/')
    case None =>
    case Some(i) =>
      PiecesExact(path[i + 1..]);
      assert path == path[..i] + "/" + path[i + 1..];
  }

  /** A piece that names something. */
  predicate Named(piece: string) {
    piece != "" && piece != "."
  }

  lemma {:induction false} PartsOfPieces(pieces: seq<string>)
    ensures PartsOf(FilterMap(pieces, ComponentOf)) ==
      if ".." in pieces then None else Some(Filter(pieces, Named))
  {
    if pieces != [] {
      PartsOfPieces(pieces[1..]);
      assert pieces == [pieces[0]] + pieces[1..];
      var rest := FilterMap(pieces[1..], ComponentOf);
      match ComponentOf(pieces[0])
      case None => assert [] + rest == rest && [] + Filter(pieces[1..], Named) == Filter(pieces[1..], Named);
      case Some(c) => assert ([c] + rest)[1..] == rest;
    }
  }

  /** A path is refused when it starts at the root or climbs; otherwise the pieces that name something remain. */
  lemma NormalizedMeans(path: string)
    ensures Normalized(path) ==
      if "/" <= path || ".." in Pieces(path) then None
      else
        var names := Filter(Pieces(path), Named);
        Some(if names == [] then "." else Join(names))
  {
    var rest := FilterMap(Pieces(path), ComponentOf);
    PartsOfPieces(Pieces(path));
    assert [] + rest == rest && ([CurDir] + rest)[1..] == rest && ([RootDir] + rest)[0] == RootDir;
  }

  /** A rendered list of names is read back as the same list. */
  lemma RenderedParts(parts: seq<string>)
    requires PartNames(parts)
    ensures PartsOf(Components(Rendered(parts))) == Some(parts)
  {
    if parts == [] {
      assert Pieces(".") == ["."];
      assert FilterMap(["."], ComponentOf) == [];
      assert [CurDir] + [] == [CurDir] && [CurDir][1..] == [];
    } else {
      PiecesOfJoin(parts);
      JoinStart(parts);
      NormalComponents(parts);
      assert PartName(parts[0]);
      assert [] + FilterMap(parts, ComponentOf) == FilterMap(parts, ComponentOf);
    }
  }

  /** Normalised paths are exactly the renderings of plain name lists: no `..` survives, and they are fixed points. */
  lemma NormalizedExact(path: string, r: string)
    requires Normalized(path) == Some(r)
    ensures Normalized(r) == Some(r)
    ensures exists parts :: PartNames(parts) && r == Rendered(parts) && ".." !in parts
  {
    var parts := PartsOf(Components(path)).value;
    PathParts(path);
    RenderedParts(parts);
    assert PartNames(parts) && r == Rendered(parts) && ".." !in parts;
  }

  // Containment

  /** The string test: equal, or continuing with a slash. */
  predicate WithinRoot(path: string, root: string) {
    root == "." || path == root || (root <= path && |path| > |root| && path[|root|] == '/')
  }

  /** Every name followed by a slash. */
  function Slashed(parts: seq<string>): string {
    if parts == [] then "" else parts[0] + "/" + Slashed(parts[1..])
  }

  lemma {:induction false} JoinSlashed(parts: seq<string>)
    requires parts != []
    ensures Join(parts) + "/" == Slashed(parts)
  {
    if |parts| == 1 {
      assert Slashed(parts[1..]) == "";
      assert parts[0] + "/" + "" == parts[0] + "/";
    } else {
      JoinSlashed(parts[1..]);
      assert parts[0] + "/" + Join(parts[1..]) + "/" == parts[0] + "/" + (Join(parts[1..]) + "/");
    }
  }

  lemma WithinAsPrefix(path: string, root: string)
    requires root != "."
    ensures WithinRoot(path, root) <==> root + "/" <= path + "/"
  {
    if WithinRoot(path, root) {
      assert (path + "/")[..|root|] == root && (path + "/")[|root|] == '/';
    }
    if root + "/" <= path + "/" {
      assert (path + "/")[..|root|] == (root + "/")[..|root|] == root;
      assert (path + "/")[|root|] == (root + "/")[|root|] == '/';
      if |root| <= |path| {
        assert path[..|root|] == (path + "/")[..|root|];
        assert |root| == |path| ==> path == path[..|root|];
        assert |root| < |path| ==> path[|root|] == (path + "/")[|root|];
      }
    }
  }

  lemma {:induction false} SlashedPrefix(xs: seq<string>, ys: seq<string>)
    requires PartNames(xs) && PartNames(ys)
    ensures Slashed(ys) <= Slashed(xs) <==> ys <= xs
  {
    if ys != [] && xs != [] {
      assert PartName(xs[0]) && PartName(ys[0]);
      assert forall p :: p in xs[1..] ==> p in xs;
      assert forall p :: p in ys[1..] ==> p in ys;
      SlashedPrefix(xs[1..], ys[1..]);
      HeadPrefix(xs[0], ys[0], Slashed(xs[1..]), Slashed(ys[1..]));
      PrefixCons(xs, ys);
    }
  }

  lemma PrefixCons(xs: seq<string>, ys: seq<string>)
    requires xs != [] && ys != []
    ensures ys <= xs <==> ys[0] == xs[0] && ys[1..] <= xs[1..]
  {
    if ys[0] == xs[0] && ys[1..] <= xs[1..] {
      assert xs[1..][..|ys| - 1] == ys[1..];
      assert xs[..|ys|] == [xs[0]] + xs[1..][..|ys| - 1] == [ys[0]] + ys[1..] == ys;
    }
    if ys <= xs {
      assert xs[1..|ys|] == xs[..|ys|][1..] == ys[1..];
    }
  }

  lemma HeadPrefix(x: string, y: string, s: string, t: string)
    requires '/' !in x && '/' !in y
    ensures y + "/" + t <= x + "/" + s <==> y == x && t <= s
  {
    var a, b := y + "/" + t, x + "/" + s;
    if a <= b {
      var rest := b[|a|..];
      assert b == a + rest;
      assert a + rest == y + ['/'] + (t + rest);
      assert b == x + ['/'] + s;
      Text.SplitUnique(y, x, t + rest, s, '/');
    }
    if y == x && t <= s {
      assert s == t + s[|t|..];
      assert b == a + s[|t|..];
    }
  }

  /** The string test agrees with the prefix order on name lists. */
  lemma WithinIsPrefix(xs: seq<string>, ys: seq<string>)
    requires PartNames(xs) && PartNames(ys) && xs != []
    ensures WithinRoot(Join(xs), Rendered(ys)) <==> ys <= xs
  {
    if ys != [] {
      PiecesOfJoin(ys);
      assert Join(ys) != "." by {
        assert Join(ys) == "." ==> Pieces(Join(ys)) == ["."];
        assert ys == ["."] ==> PartName(ys[0]);
      }
      WithinAsPrefix(Join(xs), Join(ys));
      JoinSlashed(xs);
      JoinSlashed(ys);
      SlashedPrefix(xs, ys);
    }
  }

  // Selection

  /** Index of the last dot, if any. */
  function LastDot(name: string): (r: Option<nat>)
    ensures r.Some? ==> r.value < |name| && name[r.value] == '.' && '.' !in name[r.value + 1..]
    ensures r.None? ==> '.' !in name
  {
    if name == "" then None
    else if name[|name| - 1] == '.' then Some(|name| - 1)
    else
      var init := name[..|name| - 1];
      assert name == init + [name[|name| - 1]];
      match LastDot(init)
      case None => None
      case Some(i) => assert name[i + 1..] == init[i + 1..] + [name[|name| - 1]]; Some(i)
  }

  /** What follows the last dot of a file name that does not begin with it. */
  function Extension(name: string): Option<string> {
    match LastDot(name)
    case Some(i) => if i > 0 then Some(name[i + 1..]) else None
    case None => None
  }

  predicate IsPython(path: string) {
    var components := Components(path);
    && components != []
    && components[|components| - 1].Normal?
    && var e := Extension(components[|components| - 1].name);
       e.Some? && Text.Lower(e.value) == "py"
  }

  lemma LastDotAt(name: string, i: nat)
    requires i < |name| && name[i] == '.' && '.' !in name[i + 1..]
    ensures LastDot(name) == Some(i)
  {
    var k := LastDot(name).value;
    assert forall j :: i < j < |name| ==> name[j] == name[i + 1..][j - i - 1];
    assert forall j :: k < j < |name| ==> name[j] == name[k + 1..][j - k - 1];
  }

  /** Ends with ".py" in any case, behind at least one character. */
  predicate EndsPy(name: string) {
    |name| > 3 && Text.Lower(name[|name| - 3..]) == ".py"
  }

  lemma ExtensionPy(name: string)
    ensures EndsPy(name) <==> Extension(name).Some? && Text.Lower(Extension(name).value) == "py"
  {
    if EndsPy(name) {
      var i := |name| - 3;
      Text.LowerExact(name[i..], 0);
      Text.LowerExact(name[i..], 1);
      Text.LowerExact(name[i..], 2);
      assert name[i] == '.' && '.' !in name[i + 1..];
      LastDotAt(name, i);
      assert name[i + 1..] == name[i..][1..];
    }
    if Extension(name).Some? && Text.Lower(Extension(name).value) == "py" {
      var i := LastDot(name).value;
      assert |name[i + 1..]| == 2;
      assert Text.Lower(name[i..]) == ".py" by {
        assert name[i..] == ['.'] + name[i + 1..];
      }
    }
  }

  lemma {:induction false} ComponentsOfPieces(pieces: seq<string>)
    ensures var c, names := FilterMap(pieces, ComponentOf), Filter(pieces, Named);
      |c| == |names| && forall i :: 0 <= i < |c| ==> c[i] == if names[i] == ".." then ParentDir else Normal(names[i])
  {
    if pieces != [] {
      ComponentsOfPieces(pieces[1..]);
    }
  }

  /** A member counts as Python exactly when the last piece that names something ends with ".py". */
  lemma IsPythonExact(path: string)
    ensures IsPython(path) <==>
      var names := Filter(Pieces(path), Named);
      names != [] && EndsPy(names[|names| - 1])
  {
    var names := Filter(Pieces(path), Named);
    ComponentsOfPieces(Pieces(path));
    if names != [] {
      ExtensionPy(names[|names| - 1]);
    }
  }

  predicate UnderAny(candidate: string, roots: seq<string>) {
    exists r :: r in roots && WithinRoot(candidate, r)
  }

  /** The path without its first name, when it has more than one, then the whole path. */
  function Variants(path: string): seq<string> {
    match PartsOf(Components(path))
    case None => []
    case Some(parts) =>
      if parts == [] then []
      else if |parts| > 1 then [Join(parts[1..]), Join(parts)]
      else [Join(parts)]
  }

  method ArchivePathVariants(path: string) returns (out: seq<string>)
    ensures out == Variants(path)
  {
    var parts := CollectParts(path);
    match parts {
      case None => return [];
      case Some(names) =>
        if names == [] {
          return [];
        }
        out := [];
        if |names| > 1 {
          out := out + [Join(names[1..])];
        }
        out := out + [Join(names)];
        DistinctVariants(names);
        out := Dedup(out, Itself);
    }
  }

  /** The two variants differ, so dropping repeated neighbours keeps both. */
  lemma DistinctVariants(names: seq<string>)
    requires names != []
    ensures |names| > 1 ==> Dedup([Join(names[1..]), Join(names)], Itself) == [Join(names[1..]), Join(names)]
    ensures Dedup([Join(names)], Itself) == [Join(names)]
  {
    if |names| > 1 {
      assert |Join(names)| == |names[0]| + 1 + |Join(names[1..])|;
    }
  }

  method ArchivePythonPathInBackend(path: string, roots: seq<string>) returns (r: Option<string>)
    ensures r == Selected(path, roots)
  {
    if !IsPython(path) {
      return None;
    }
    var candidates := ArchivePathVariants(path);
    for i := 0 to |candidates|
      invariant FirstUnder(candidates[i..], roots) == FirstUnder(candidates, roots)
    {
      assert candidates[i..][1..] == candidates[i + 1..];
      if UnderAny(candidates[i], roots) {
        return Some(candidates[i]);
      }
    }
    return None;
  }

  function FirstUnder(candidates: seq<string>, roots: seq<string>): Option<string> {
    if candidates == [] then None
    else if UnderAny(candidates[0], roots) then Some(candidates[0])
    else FirstUnder(candidates[1..], roots)
  }

  function Selected(path: string, roots: seq<string>): Option<string> {
    if IsPython(path) then FirstUnder(Variants(path), roots) else None
  }

  /** Some root is a prefix of the names. */
  predicate ExtendsSome(parts: seq<string>, roots: seq<seq<string>>) {
    exists r :: r in roots && r <= parts
  }

  lemma UnderAnyIsPrefix(xs: seq<string>, roots: seq<seq<string>>)
    requires PartNames(xs) && xs != [] && forall r :: r in roots ==> PartNames(r)
    ensures UnderAny(Join(xs), Map(roots, Rendered)) <==> ExtendsSome(xs, roots)
  {
    var texts := Map(roots, Rendered);
    if t :| t in texts && WithinRoot(Join(xs), t) {
      var i :| 0 <= i < |texts| && texts[i] == t;
      WithinIsPrefix(xs, roots[i]);
    }
    if r :| r in roots && r <= xs {
      var i :| 0 <= i < |roots| && roots[i] == r;
      WithinIsPrefix(xs, r);
      assert texts[i] in texts;
    }
  }

  /**
   A Python member is selected exactly when its names, with or without the archive's top directory,
   extend some backend root; the form without the top directory is preferred.
   */
  lemma SelectionExact(path: string, roots: seq<seq<string>>)
    requires forall r :: r in roots ==> PartNames(r)
    ensures Selected(path, Map(roots, Rendered)) ==
      match PartsOf(Components(path))
      case None => None
      case Some(parts) =>
        if !IsPython(path) || parts == [] then None
        else if |parts| > 1 && ExtendsSome(parts[1..], roots) then Some(Join(parts[1..]))
        else if ExtendsSome(parts, roots) then Some(Join(parts))
        else None
  {
    if PartsOf(Components(path)).Some? {
      var parts := PartsOf(Components(path)).value;
      PathParts(path);
      if parts != [] {
        UnderAnyIsPrefix(parts, roots);
        if |parts| > 1 {
          assert forall p :: p in parts[1..] ==> p in parts;
          UnderAnyIsPrefix(parts[1..], roots);
        }
        FirstOfVariants(parts, Map(roots, Rendered));
      }
    }
  }

  lemma FirstOfVariants(parts: seq<string>, texts: seq<string>)
    requires parts != []
    ensures FirstUnder(if |parts| > 1 then [Join(parts[1..]), Join(parts)] else [Join(parts)], texts) ==
      if |parts| > 1 && UnderAny(Join(parts[1..]), texts) then Some(Join(parts[1..]))
      else if UnderAny(Join(parts), texts) then Some(Join(parts))
      else None
  {
    assert [Join(parts[1..]), Join(parts)][1..] == [Join(parts)];
    assert [Join(parts)][1..] == [];
    assert FirstUnder([Join(parts)], texts) == if UnderAny(Join(parts), texts) then Some(Join(parts)) else None;
  }
}
