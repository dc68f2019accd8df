/** The software bill of materials: package URLs, components and the direct-dependency edge. */
module Sbom {
  import opened Wrappers
  import opened Sequences
  import opened Ordering
  import opened Dependency
  import opened Decision
  import opened Results
  import PypiNames

  // Package URLs

  /** Scoped names keep their slash; every `@` becomes `%40`. */
  function EncodeSegment(name: string): string {
    if name == "" then "" else (if name[0] == '@' then "%40" else [name[0]]) + EncodeSegment(name[1..])
  }

  function DecodeSegment(text: string): string {
    if text == "" then ""
    else if StartsEscape(text) then "@" + DecodeSegment(text[3..])
    else [text[0]] + DecodeSegment(text[1..])
  }

  predicate StartsEscape(text: string) {
    |text| >= 3 && text[0] == '%' && text[1] == '4' && text[2] == '0'
  }

  /** `%40` occurs in the text. */
  ghost predicate HoldsEscape(text: string) {
    exists i :: 0 <= i <= |text| && StartsEscape(text[i..])
  }

  lemma HoldsEscapeStep(text: string)
    requires text != ""
    ensures HoldsEscape(text) <==> StartsEscape(text) || HoldsEscape(text[1..])
  {
    assert text[0..] == text;
    if i :| 0 <= i <= |text| && StartsEscape(text[i..]) {
      assert i == 0 || text[1..][i - 1..] == text[i..];
    }
    if i :| 0 <= i <= |text[1..]| && StartsEscape(text[1..][i..]) {
      assert text[1..][i..] == text[i + 1..];
    }
  }

  /** Encoding is reversible exactly on the names in which `%40` does not occur; it always hides every `@`. */
  lemma {:induction false} EncodeRoundTrip(name: string)
    ensures DecodeSegment(EncodeSegment(name)) == name <==> !HoldsEscape(name)
    ensures '@' !in EncodeSegment(name)
  {
    if name != "" {
      var rest, code := EncodeSegment(name[1..]), EncodeSegment(name);
      assert name == [name[0]] + name[1..];
      EncodeRoundTrip(name[1..]);
      HoldsEscapeStep(name);
      if name[0] == '@' {
        assert code[0] == '%' && code[1] == '4' && code[2] == '0' && code[3..] == rest;
      } else {
        EncodedEscape(name);
        assert code[1..] == rest && code[0] == name[0];
      }
    }
  }

  /** A name that begins with no `@` and its encoding begin with an escape together. */
  lemma EncodedEscape(name: string)
    requires name != "" && name[0] != '@'
    ensures StartsEscape(EncodeSegment(name)) <==> StartsEscape(name)
  {
    EncodedHead(name);
    if |name| >= 2 {
      EncodedHead(name[1..]);
      if |name| >= 3 {
        EncodedHead(name[1..][1..]);
      }
    }
  }

  lemma EncodedHead(name: string)
    requires name != ""
    ensures name[0] != '@' ==> EncodeSegment(name) == [name[0]] + EncodeSegment(name[1..])
    ensures name[0] == '@' ==> EncodeSegment(name)[0] == '%'
  {
  }

  /** The package URL; PyPI names are normalised instead of encoded. */
  function PurlFor(lower: PypiNames.Lowering, dep: ResolvedDependency): string {
    if dep.ecosystem.Pypi? then "pkg:pypi/" + PypiNames.Pep503(lower, dep.name) + "@" + dep.version
    else "pkg:npm/" + EncodeSegment(dep.name) + "@" + dep.version
  }

  /** The written forms: unscoped and scoped npm names, and canonical PyPI names. */
  lemma PurlForms(lower: PypiNames.Lowering, dep: ResolvedDependency)
    ensures !dep.ecosystem.Pypi? && '@' !in dep.name ==>
      PurlFor(lower, dep) == "pkg:npm/" + dep.name + "@" + dep.version
    ensures !dep.ecosystem.Pypi? && "@" <= dep.name && '@' !in dep.name[1..] ==>
      PurlFor(lower, dep) == "pkg:npm/" + ("%40" + dep.name[1..]) + "@" + dep.version
    ensures dep.ecosystem.Pypi? && PypiNames.Proper(lower) && PypiNames.Normal(lower, dep.name) ==>
      PurlFor(lower, dep) == "pkg:pypi/" + dep.name + "@" + dep.version
  {
    if '@' !in dep.name {
      PlainSegment(dep.name);
    }
    if dep.name != "" && '@' !in dep.name[1..] {
      PlainSegment(dep.name[1..]);
    }
    if PypiNames.Proper(lower) && PypiNames.Normal(lower, dep.name) {
      PypiNames.NormalFixed(lower, dep.name);
    }
  }

  lemma {:induction false} PlainSegment(name: string)
    requires '@' !in name
    ensures EncodeSegment(name) == name
  {
    if name != "" {
      PlainSegment(name[1..]);
      assert name == [name[0]] + name[1..];
    }
  }

  /** Reads a package URL: the version follows the first `@`. */
  function ParsePurl(text: string): Option<(RegistryFamily, string, string)> {
    if "pkg:npm/" <= text then
      match SplitAtSign(text[8..])
      case Some((name, version)) => Some((NpmFamily, DecodeSegment(name), version))
      case None => None
    else if "pkg:pypi/" <= text then
      match SplitAtSign(text[9..])
      case Some((name, version)) => Some((PypiFamily, name, version))
      case None => None
    else None
  }

  function SplitAtSign(text: string): Option<(string, string)> {
    match IndexOf(text, '@')
    case Some(i) => Some((text[..i], text[i + 1..]))
    case None => None
  }

  lemma SplitJoined(name: string, version: string)
    ensures SplitAtSign(name + "@" + version).Some?
    ensures '@' !in name ==> SplitAtSign(name + "@" + version) == Some((name, version))
    ensures '@' in name ==> SplitAtSign(name + "@" + version).value.0 < name
    ensures '@' !in SplitAtSign(name + "@" + version).value.0
  {
    var text := name + "@" + version;
    assert text[|name|] == '@' && text[..|name|] == name && text[|name| + 1..] == version;
    if '@' !in name {
      IndexOfFirst(text, '@', |name|);
    } else {
      var k :| 0 <= k < |name| && name[k] == '@';
      var i := IndexOf(text, '@').value;
      assert forall j | 0 <= j < i :: text[j] == text[..i][j];
      assert text[..i] == name[..i];
    }
  }

  /**
   Names the package URL can be read back from. `%40` in an npm name would be read as an encoded `@`;
   a PyPI name is not encoded at all, so it must be canonical already and free of `@`.
   */
  ghost predicate PurlSafe(lower: PypiNames.Lowering, dep: ResolvedDependency) {
    if dep.ecosystem.Pypi? then PypiNames.Normal(lower, dep.name) && '@' !in dep.name
    else !HoldsEscape(dep.name)
  }

  /** A package URL reads back as the registry family, name and version it was made from exactly for safe names. */
  lemma PurlRoundTrip(lower: PypiNames.Lowering, dep: ResolvedDependency)
    requires PypiNames.Proper(lower)
    ensures ParsePurl(PurlFor(lower, dep)) == Some((FamilyOf(dep.ecosystem), dep.name, dep.version))
      <==> PurlSafe(lower, dep)
  {
    if dep.ecosystem.Pypi? {
      PypiRoundTrip(lower, dep);
    } else {
      var code := EncodeSegment(dep.name);
      EncodeRoundTrip(dep.name);
      SplitJoined(code, dep.version);
      Prefixed("pkg:npm/", code, dep.version);
    }
  }

  lemma PypiRoundTrip(lower: PypiNames.Lowering, dep: ResolvedDependency)
    requires PypiNames.Proper(lower) && dep.ecosystem.Pypi?
    ensures ParsePurl(PurlFor(lower, dep)) == Some((PypiFamily, dep.name, dep.version)) <==> PurlSafe(lower, dep)
  {
    var name := PypiNames.Pep503(lower, dep.name);
    Prefixed("pkg:pypi/", name, dep.version);
    CanonicalReadBack(lower, dep.name, name, dep.version);
  }

  lemma CanonicalReadBack(lower: PypiNames.Lowering, name: string, canonical: string, version: string)
    requires PypiNames.Proper(lower) && canonical == PypiNames.Pep503(lower, name)
    ensures SplitAtSign(canonical + "@" + version) == Some((name, version)) <==>
      PypiNames.Normal(lower, name) && '@' !in name
  {
    PypiNames.Pep503Exact(lower, name);
    PypiNames.Pep503Exact(lower, canonical);
    SplitJoined(canonical, version);
    assert name <= canonical ==> PypiNames.Normal(lower, name);
  }

  lemma Prefixed(prefix: string, name: string, version: string)
    requires prefix == "pkg:npm/" || prefix == "pkg:pypi/"
    ensures var text := prefix + name + "@" + version;
      && prefix <= text && text[|prefix|..] == name + "@" + version
      && ("pkg:npm/" <= text <==> prefix == "pkg:npm/")
  {
    var text := prefix + name + "@" + version;
    assert text == prefix + (name + "@" + version);
    assert text[4] == prefix[4];
  }

  /** Package URLs identify packages: same URL, same registry family, name and version. */
  lemma PurlInjective(lower: PypiNames.Lowering, a: ResolvedDependency, b: ResolvedDependency)
    requires PypiNames.Proper(lower) && PurlSafe(lower, a) && PurlSafe(lower, b)
    ensures PurlFor(lower, a) == PurlFor(lower, b) <==>
      FamilyOf(a.ecosystem) == FamilyOf(b.ecosystem) && a.name == b.name && a.version == b.version
  {
    PurlRoundTrip(lower, a);
    PurlRoundTrip(lower, b);
  }

  /** A literal `%40` in a name is mistaken for an encoded `@`. */
  lemma PercentCollides()
    ensures EncodeSegment("a%40") == EncodeSegment("a@")
  {
    assert EncodeSegment("@") == "%40" + EncodeSegment("") == "%40";
    assert EncodeSegment("%40") == "%40" by {
      assert "%40"[1..] == "40" && "40"[1..] == "0" && "0"[1..] == "";
      assert EncodeSegment("0") == "0" && EncodeSegment("40") == "40";
    }
    assert "a%40"[1..] == "%40" && "a@"[1..] == "@";
  }

  // The document

  datatype Property = Property(name: string, value: string)

  datatype Component = Component(
    bomRef: string, name: string, version: string, purl: string, properties: seq<Property>)

  datatype Bom = Bom(components: seq<Component>, dependsOn: seq<string>)

  predicate PropertyLe(a: Property, b: Property) {
    StrLe(a.name, b.name) && (a.name == b.name ==> StrLe(a.value, b.value))
  }

  function DecisionProperty(e: DepResult): Property {
    Property("installguard:decision", Label(e.decision))
  }

  function DirectProperty(e: DepResult): Property {
    Property("installguard:direct", if e.dep.direct then "true" else "false")
  }

  function ReasonProperty(r: Reason): Property {
    Property("installguard:reason", Code(r))
  }

  /** How the package was judged, whether it is direct, and the codes it was reported for. */
  function Properties(e: DepResult): seq<Property> {
    Dedup(Sort([DecisionProperty(e), DirectProperty(e)] + Map(ReasonsOf(e.decision), ReasonProperty), PropertyLe), Itself)
  }

  function ComponentOf(lower: PypiNames.Lowering, e: DepResult): Component {
    Component(PurlFor(lower, e.dep), e.dep.name, e.dep.version, PurlFor(lower, e.dep), Properties(e))
  }

  function ToComponent(lower: PypiNames.Lowering): DepResult -> Component {
    e => ComponentOf(lower, e)
  }

  function RefOf(c: Component): string {
    c.bomRef
  }

  predicate ComponentLe(a: Component, b: Component) {
    StrLe(a.bomRef, b.bomRef)
  }

  predicate IsDirect(e: DepResult) {
    e.dep.direct
  }

  function ToPurl(lower: PypiNames.Lowering): DepResult -> string {
    (e: DepResult) => PurlFor(lower, e.dep)
  }

  function Components(lower: PypiNames.Lowering, entries: seq<DepResult>): seq<Component> {
    Dedup(Sort(Map(entries, ToComponent(lower)), ComponentLe), RefOf)
  }

  function DirectRefs(lower: PypiNames.Lowering, entries: seq<DepResult>): seq<string> {
    SortDedup(Map(Filter(entries, IsDirect), ToPurl(lower)))
  }

  method Build(lower: PypiNames.Lowering, entries: seq<DepResult>) returns (bom: Bom)
    ensures bom == Bom(Components(lower, entries), DirectRefs(lower, entries))
  {
    var components := Map(entries, ToComponent(lower));
    components := Sort(components, ComponentLe);
    components := Dedup(components, RefOf);
    var directRefs := Map(Filter(entries, IsDirect), ToPurl(lower));
    directRefs := Sort(directRefs, StrLe);
    directRefs := Dedup(directRefs, Itself);
    return Bom(components, directRefs);
  }

  lemma ComponentOrder()
    ensures TotalPreorder(ComponentLe)
  {
    StrOrder();
  }

  ghost predicate HasPurl(lower: PypiNames.Lowering, entries: seq<DepResult>, ref: string) {
    exists e :: e in entries && PurlFor(lower, e.dep) == ref
  }

  ghost predicate HasDirectPurl(lower: PypiNames.Lowering, entries: seq<DepResult>, ref: string) {
    exists e :: e in entries && e.dep.direct && PurlFor(lower, e.dep) == ref
  }

  lemma SortedComponents(lower: PypiNames.Lowering, entries: seq<DepResult>)
    ensures KeysSorted(Sort(Map(entries, ToComponent(lower)), ComponentLe), RefOf)
  {
    ComponentOrder();
    SortSorts(Map(entries, ToComponent(lower)), ComponentLe);
  }

  lemma ComponentMembers(lower: PypiNames.Lowering, entries: seq<DepResult>, ref: string)
    ensures ref in Map(Components(lower, entries), RefOf) <==> HasPurl(lower, entries, ref)
  {
    var built, kept := Map(entries, ToComponent(lower)), Components(lower, entries);
    MapMembers(kept, RefOf, ref);
    if c :| c in kept && RefOf(c) == ref {
      SortDedupSubset(built, ComponentLe, RefOf, c);
      MapMembers(entries, ToComponent(lower), c);
    }
    if e :| e in entries && PurlFor(lower, e.dep) == ref {
      MapMembers(entries, ToComponent(lower), ComponentOf(lower, e));
      SortDedupKeepsKeys(built, ComponentLe, RefOf, ComponentOf(lower, e));
    }
  }

  lemma DirectMembers(lower: PypiNames.Lowering, entries: seq<DepResult>, ref: string)
    ensures ref in DirectRefs(lower, entries) <==> HasDirectPurl(lower, entries, ref)
  {
    var direct := Filter(entries, IsDirect);
    SortDedupExact(Map(direct, ToPurl(lower)));
    MapMembers(direct, ToPurl(lower), ref);
    forall e ensures e in direct <==> e in entries && e.dep.direct {
      FilterMembers(entries, IsDirect, e);
    }
  }

  /**
   The document is closed: component references strictly increase and are exactly the package URLs
   of the run, the direct edge lists exactly the direct ones, and every edge ends at a component.
   */
  lemma BomClosed(lower: PypiNames.Lowering, entries: seq<DepResult>)
    ensures StrictlySorted(Map(Components(lower, entries), RefOf)) && StrictlySorted(DirectRefs(lower, entries))
    ensures forall ref :: ref in Map(Components(lower, entries), RefOf) <==> HasPurl(lower, entries, ref)
    ensures forall ref :: ref in DirectRefs(lower, entries) <==> HasDirectPurl(lower, entries, ref)
    ensures forall ref :: ref in DirectRefs(lower, entries) ==> ref in Map(Components(lower, entries), RefOf)
  {
    SortedComponents(lower, entries);
    DedupStrict(Sort(Map(entries, ToComponent(lower)), ComponentLe), RefOf);
    SortDedupExact(Map(Filter(entries, IsDirect), ToPurl(lower)));
    forall ref ensures ref in Map(Components(lower, entries), RefOf) <==> HasPurl(lower, entries, ref) {
      ComponentMembers(lower, entries, ref);
    }
    forall ref ensures ref in DirectRefs(lower, entries) <==> HasDirectPurl(lower, entries, ref) {
      DirectMembers(lower, entries, ref);
    }
    forall ref | HasDirectPurl(lower, entries, ref) ensures HasPurl(lower, entries, ref) {
    }
  }

  /** A component's properties are its decision, whether it is direct, and one entry for each code reported. */
  lemma PropertiesExact(e: DepResult, p: Property)
    ensures p in Properties(e) <==>
      || p == Property("installguard:decision",
                if e.decision.Block? then "block" else if e.decision.Warn? then "warn" else "allow")
      || p == Property("installguard:direct", if e.dep.direct then "true" else "false")
      || (!e.decision.Allow? && exists r :: r in e.decision.reasons && p == Property("installguard:reason", Code(r)))
  {
    var codes := Map(ReasonsOf(e.decision), ReasonProperty);
    var all := [DecisionProperty(e), DirectProperty(e)] + codes;
    MapMembers(ReasonsOf(e.decision), ReasonProperty, p);
    if p in all {
      SortDedupKeepsKeys(all, PropertyLe, Itself, p);
    }
    if p in Properties(e) {
      SortDedupSubset(all, PropertyLe, Itself, p);
    }
  }

  /** They are in the order of their names and then their values, and none is listed twice. */
  lemma PropertiesInOrder(e: DepResult, i: nat, j: nat)
    requires i < j < |Properties(e)|
    ensures var p, q := Properties(e)[i], Properties(e)[j];
      p != q && StrLe(p.name, q.name) && (p.name == q.name ==> StrLe(p.value, q.value))
  {
    var all := [DecisionProperty(e), DirectProperty(e)] + Map(ReasonsOf(e.decision), ReasonProperty);
    PropertyOrder();
    SortSorts(all, PropertyLe);
    DedupSorted(Sort(all, PropertyLe), PropertyLe);
    StrictlyInOrder(Properties(e), i, j);
  }

  lemma PropertyOrder()
    ensures TotalOrder(PropertyLe)
  {
    StrOrder();
  }

  /** Without equal neighbours, a sorted sequence repeats nothing. */
  lemma StrictlyInOrder(s: seq<Property>, i: nat, j: nat)
    requires Sorted(s, PropertyLe) && forall k :: 0 < k < |s| ==> s[k - 1] != s[k]
    requires i < j < |s|
    ensures PropertyLe(s[i], s[j]) && s[i] != s[j]
  {
    PropertyOrder();
    assert PropertyLe(s[i], s[i + 1]) && s[(i + 1) - 1] != s[i + 1];
    assert i + 1 == j || PropertyLe(s[i + 1], s[j]);
  }

  // Which of several results with one URL is kept

  function WithKey<T>(key: T -> string, k: string): T -> bool {
    x => key(x) == k
  }

  /** The first element with a key is the head of the elements with that key. */
  lemma {:induction false} FirstOfFilter<T>(s: seq<T>, key: T -> string, y: T)
    ensures FirstWithKey(s, key, y) <==>
      Filter(s, WithKey(key, key(y))) != [] && Filter(s, WithKey(key, key(y)))[0] == y
  {
    if s != [] {
      FirstOfFilter(s[1..], key, y);
      if key(s[0]) == key(y) {
        FirstAtHead(s, key, y);
      } else {
        FirstInTail(s, key, y);
      }
    }
  }

  lemma FirstAtHead<T>(s: seq<T>, key: T -> string, y: T)
    requires s != [] && key(s[0]) == key(y)
    ensures FirstWithKey(s, key, y) <==> s[0] == y
  {
    if FirstWithKey(s, key, y) {
      var i :| 0 <= i < |s| && s[i] == y && forall j :: 0 <= j < i ==> key(s[j]) != key(y);
      assert i == 0;
    }
  }

  lemma FirstInTail<T>(s: seq<T>, key: T -> string, y: T)
    requires s != [] && key(s[0]) != key(y)
    ensures FirstWithKey(s, key, y) <==> FirstWithKey(s[1..], key, y)
  {
    if FirstWithKey(s[1..], key, y) {
      var i :| 0 <= i < |s[1..]| && s[1..][i] == y && forall j :: 0 <= j < i ==> key(s[1..][j]) != key(y);
      assert s[i + 1] == y;
      assert forall j :: 0 < j < i + 1 ==> s[j] == s[1..][j - 1];
    }
    if FirstWithKey(s, key, y) {
      var i :| 0 <= i < |s| && s[i] == y && forall j :: 0 <= j < i ==> key(s[j]) != key(y);
      assert s[1..][i - 1] == y;
    }
  }

  /** The component is about this result: its URL, its name and version, and its properties. */
  ghost predicate Describes(lower: PypiNames.Lowering, c: Component, e: DepResult) {
    && c.bomRef == c.purl == PurlFor(lower, e.dep)
    && c.name == e.dep.name && c.version == e.dep.version && c.properties == Properties(e)
  }

  /** Of several results with one package URL, the component describes the first. */
  lemma FirstResultWins(lower: PypiNames.Lowering, entries: seq<DepResult>, c: Component)
    requires c in Components(lower, entries)
    ensures exists i ::
      && 0 <= i < |entries| && Describes(lower, c, entries[i])
      && forall j :: 0 <= j < i ==> PurlFor(lower, entries[j].dep) != c.purl
  {
    var built := Map(entries, ToComponent(lower));
    FirstComponent(lower, entries, c);
    var i :| 0 <= i < |built| && built[i] == c && forall j :: 0 <= j < i ==> RefOf(built[j]) != RefOf(c);
    assert Describes(lower, c, entries[i]);
    forall j | 0 <= j < i ensures PurlFor(lower, entries[j].dep) != c.purl {
      assert RefOf(built[j]) != RefOf(c);
    }
  }

  lemma FirstComponent(lower: PypiNames.Lowering, entries: seq<DepResult>, c: Component)
    requires c in Components(lower, entries)
    ensures FirstWithKey(Map(entries, ToComponent(lower)), RefOf, c)
  {
    var built := Map(entries, ToComponent(lower));
    var sorted := Sort(built, ComponentLe);
    SortedComponents(lower, entries);
    DedupFirst(sorted, RefOf, c);
    FirstOfFilter(sorted, RefOf, c);
    SameRefStable(built, c.bomRef);
    FirstOfFilter(built, RefOf, c);
  }

  lemma SameRefStable(built: seq<Component>, ref: string)
    ensures Filter(Sort(built, ComponentLe), WithKey(RefOf, ref)) == Filter(built, WithKey(RefOf, ref))
  {
    ComponentOrder();
    StrLeTotal(ref, ref);
    SortStable(built, ComponentLe, WithKey(RefOf, ref));
  }
}
