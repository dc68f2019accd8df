/** The ecosystem-neutral form of a resolved dependency, and the package selectors of a policy. */
module Dependency {
  import opened Wrappers

  datatype Ecosystem = Npm | Pnpm | Yarn | Pypi

  datatype RegistryFamily = NpmFamily | PypiFamily

  function FamilyOf(e: Ecosystem): RegistryFamily {
    if e.Pypi? then PypiFamily else NpmFamily
  }

  function FamilyName(f: RegistryFamily): string {
    match f
    case NpmFamily => "npm"
    case PypiFamily => "pypi"
  }

  datatype Source =
    | Registry(url: string)
    | Git(url: string, reference: Option<string>)
    | Tarball(url: string)
    | File(path: string)
    | GithubShortcut(spec: string)
    | Workspace
    | PypiArtifact(url: string)

  predicate IsExotic(s: Source) {
    !(s.Registry? || s.Workspace? || s.PypiArtifact?)
  }

  datatype ResolvedDependency = ResolvedDependency(
    ecosystem: Ecosystem,
    name: string,
    version: string,
    integrity: Option<string>,
    source: Source,
    direct: bool,
    requestedBy: seq<string>)

  // Package selectors

  /** `family == None` matches the name in every registry family. */
  datatype EcosystemMatcher = EcosystemMatcher(family: Option<RegistryFamily>, name: string)

  datatype MatcherError =
    | Empty
    | UnknownFamily(family: string, full: string)
    | MissingName(family: string)

  predicate Matches(m: EcosystemMatcher, family: RegistryFamily, name: string) {
    m.name == name && (m.family.None? || m.family.value == family)
  }

  predicate AnyMatches(ms: seq<EcosystemMatcher>, family: RegistryFamily, name: string) {
    exists m :: m in ms && Matches(m, family, name)
  }

  /** Index of the first `c` in `s`. */
  function IndexOf(s: string, c: char): (i: Option<nat>)
    ensures i.Some? ==> i.value < |s| && s[i.value] == c && c !in s[..i.value]
    ensures i.None? ==> c !in s
  {
    if s == "" then None
    else if s[0] == c then Some(0)
    else
      match IndexOf(s[1..], c)
      case None => None
      case Some(k) => assert s[..k + 1] == [s[0]] + s[1..][..k]; Some(k + 1)
  }

  function ParseFamily(s: string): Option<RegistryFamily> {
    if s == "npm" then Some(NpmFamily)
    else if s == "pypi" then Some(PypiFamily)
    else None
  }

  /** The part of a selector that may hold a `family:` prefix: everything before the first slash. */
  function Head(s: string): (h: string)
    ensures h <= s
  {
    match IndexOf(s, '/')
    case Some(i) => s[..i]
    case None => s
  }

  function ParseMatcher(s: string): Result<EcosystemMatcher, MatcherError> {
    if s == "" then Err(Empty)
    else
      match IndexOf(Head(s), ':')
      case None => Ok(EcosystemMatcher(None, s))
      case Some(i) =>
        var familyText, after := s[..i], s[i + 1..];
        if after == "" then Err(MissingName(familyText))
        else
          match ParseFamily(familyText)
          case None => Err(UnknownFamily(familyText, s))
          case Some(family) => Ok(EcosystemMatcher(Some(family), after))
  }

  function PrintMatcher(m: EcosystemMatcher): string {
    match m.family
    case Some(f) => FamilyName(f) + ":" + m.name
    case None => m.name
  }

  lemma IndexOfFirst(s: string, c: char, i: nat)
    requires i < |s| && s[i] == c && c !in s[..i]
    ensures IndexOf(s, c) == Some(i)
  {
    assert c in s;
    var k := IndexOf(s, c).value;
    assert forall j | 0 <= j < i :: s[j] == s[..i][j];
    assert forall j | 0 <= j < k :: s[j] == s[..k][j];
  }

  /** No colon sits before the first slash, so a bare selector is not read as a prefixed one. */
  predicate PlainName(name: string) {
    name != "" && ':' !in Head(name)
  }

  lemma ParsePrefixed(f: RegistryFamily, name: string)
    ensures name != "" ==> ParseMatcher(FamilyName(f) + ":" + name) == Ok(EcosystemMatcher(Some(f), name))
    ensures name == "" ==> ParseMatcher(FamilyName(f) + ":" + name) == Err(MissingName(FamilyName(f)))
  {
    assert ':' !in FamilyName(f) && '/' !in FamilyName(f);
    PrefixRead(FamilyName(f), name);
  }

  /** How the prefixed forms read: `npm:` and `pypi:` select a registry family. */
  lemma WrittenForms(name: string)
    requires name != ""
    ensures ParseMatcher("npm:" + name) == Ok(EcosystemMatcher(Some(NpmFamily), name))
    ensures ParseMatcher("pypi:" + name) == Ok(EcosystemMatcher(Some(PypiFamily), name))
  {
    ParsePrefixed(NpmFamily, name);
    ParsePrefixed(PypiFamily, name);
    assert "npm" + ":" == "npm:" && "pypi" + ":" == "pypi:";
  }

  /** A text is read as a name in every family exactly when a slash stands before each of its colons. */
  lemma BareForm(name: string)
    requires name != ""
    ensures ParseMatcher(name) == Ok(EcosystemMatcher(None, name)) <==>
      forall i :: 0 <= i < |name| && name[i] == ':' ==> '/' in name[..i]
  {
    PlainExact(name);
    PlainRead(name);
  }

  lemma PlainRead(name: string)
    ensures ParseMatcher(name) == Ok(EcosystemMatcher(None, name)) <==> PlainName(name)
  {
  }

  /** A name is plain exactly when a slash stands before each of its colons. */
  lemma PlainExact(name: string)
    requires name != ""
    ensures PlainName(name) <==> forall i :: 0 <= i < |name| && name[i] == ':' ==> '/' in name[..i]
  {
    match IndexOf(name, '/')
    case None =>
      if ':' in name {
        var i :| 0 <= i < |name| && name[i] == ':';
        assert '/' !in name[..i];
      }
    case Some(k) =>
      assert forall i | 0 <= i < k :: name[i] == name[..k][i];
      assert forall i | k < i < |name| :: name[..i][k] == '/';
      if ':' in name[..k] {
        var i :| 0 <= i < k && name[..k][i] == ':';
        assert name[..i] <= name[..k] && '/' !in name[..i];
      }
  }

  /** Everything else is an error that names the offending prefix. */
  lemma UnreadableForms(prefix: string, name: string)
    requires ':' !in prefix && '/' !in prefix
    ensures ParseMatcher("") == Err(Empty)
    ensures ParseMatcher(prefix + ":") == Err(MissingName(prefix))
    ensures name != "" && prefix != "npm" && prefix != "pypi" ==>
      ParseMatcher(prefix + ":" + name) == Err(UnknownFamily(prefix, prefix + ":" + name))
  {
    PrefixRead(prefix, "");
    PrefixRead(prefix, name);
    assert prefix + ":" + "" == prefix + ":";
  }

  lemma PrefixRead(prefix: string, name: string)
    requires ':' !in prefix && '/' !in prefix
    ensures var s := prefix + ":" + name;
      IndexOf(Head(s), ':') == Some(|prefix|) && s[..|prefix|] == prefix && s[|prefix| + 1..] == name
  {
    var s := prefix + ":" + name;
    assert s[..|prefix|] == prefix && s[|prefix|] == ':' && s[|prefix| + 1..] == name;
    assert forall i | 0 <= i <= |prefix| :: s[i] != '/';
    assert |Head(s)| > |prefix| && Head(s)[..|prefix|] == prefix;
    IndexOfFirst(Head(s), ':', |prefix|);
  }

  /** Printing and reading back is the identity exactly on the selectors whose name can be read. */
  lemma PrintParseRoundTrip(m: EcosystemMatcher)
    ensures ParseMatcher(PrintMatcher(m)) == Ok(m)
      <==> (if m.family.Some? then m.name != "" else PlainName(m.name))
  {
    match m.family
    case Some(f) => ParsePrefixed(f, m.name);
    case None =>
  }

  /** Whatever parses prints back as the text it was read from. */
  lemma ParsePrintRoundTrip(s: string)
    requires ParseMatcher(s).Ok?
    ensures PrintMatcher(ParseMatcher(s).value) == s
  {
    match IndexOf(Head(s), ':')
    case None =>
    case Some(i) =>
      assert Head(s)[i] == s[i];
      assert s == s[..i] + ":" + s[i + 1..];
  }
}
