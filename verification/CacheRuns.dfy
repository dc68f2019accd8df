/** Whole runs of the cache: every answer comes from the wrapped provider. */
module CacheRuns {
  import opened Wrappers
  import opened Dependency
  import opened Signal
  import opened Cache
  import opened Text

  datatype Provider = Provider(id: string, tool: string, ttl: Ttl)

  /**
   What can happen to the store. A call is two events, its lookup and the provider's reply, and any
   others may come between them; a call whose reply never comes was abandoned.
   */
  datatype Event =
    | Begin(task: nat, dep: ResolvedDependency, now: Instant, disk: Disk)
    | Finish(task: nat, reply: Reply, writtenAt: Instant, disk: Disk)
    | PlainGet(key: string, disk: Disk)
    | Clear
    | ForeignWrite(key: string, stored: Stored)

  /** The store, and what each call that waits for the provider is about. */
  datatype State = State(tree: Tree, waiting: map<nat, ResolvedDependency>)

  function KeyOf(p: Provider, dep: ResolvedDependency): string {
    CacheKey(p.id, dep)
  }

  predicate Ours(p: Provider, key: string) {
    p.id + [SEPARATOR] <= key
  }

  /** Others may write what they like, but under this provider's keys nothing that looks like its entries. */
  predicate Legal(p: Provider, e: Event) {
    e.ForeignWrite? && Ours(p, e.key) && e.stored.Entry? ==>
      e.stored.schema != SCHEMA_VERSION || e.stored.toolVersion != p.tool
  }

  function Step(p: Provider, s: State, e: Event): State {
    match e
    case Begin(task, dep, now, disk) =>
      State(AfterLookup(s.tree, p.tool, KeyOf(p, dep), disk),
        if Hit(s.tree, p.tool, p.ttl, KeyOf(p, dep), now, disk).Some? then s.waiting - {task} else s.waiting[task := dep])
    case Finish(task, reply, writtenAt, disk) =>
      if task !in s.waiting then s
      else State(AfterReply(s.tree, p.tool, KeyOf(p, s.waiting[task]), reply, writtenAt, disk), s.waiting - {task})
    case PlainGet(key, disk) => s.(tree := AfterLookup(s.tree, p.tool, key, disk))
    case Clear => s.(tree := map[])
    case ForeignWrite(key, stored) => s.(tree := s.tree[key := stored])
  }

  /** What the event tells the caller of its call, if anything. */
  function Answered(p: Provider, s: State, e: Event): Option<Reply> {
    match e
    case Begin(_, dep, now, disk) =>
      (match Hit(s.tree, p.tool, p.ttl, KeyOf(p, dep), now, disk)
       case Some(entry) => Some(Ok(entry.signals))
       case None => None)
    case Finish(task, reply, _, _) => if task in s.waiting then Some(reply) else None
    case _ => None
  }

  /** The state after the events of a run. */
  function Run(p: Provider, start: State, events: seq<Event>): State {
    if events == [] then start
    else Step(p, Run(p, start, events[..|events| - 1]), events[|events| - 1])
  }

  /** The event at `j` is the reply to a waiting call with this key. */
  ghost predicate ReplyFor(p: Provider, start: State, events: seq<Event>, j: nat, key: string) {
    && j < |events| && events[j].Finish?
    && var s := Run(p, start, events[..j]);
       events[j].task in s.waiting && KeyOf(p, s.waiting[events[j].task]) == key
  }

  /** That reply was a success, and stored as this entry. */
  ghost predicate WrittenBy(p: Provider, start: State, events: seq<Event>, j: nat, key: string, e: CachedEntry) {
    ReplyFor(p, start, events, j, key) && events[j].reply == Ok(e.signals) && events[j].writtenAt == e.fetchedAt
  }

  /** The store already held the entry when the run began. */
  predicate HeldAtStart(p: Provider, start: State, key: string, e: CachedEntry) {
    key in start.tree && start.tree[key] == Entry(SCHEMA_VERSION, p.tool, e.fetchedAt, e.signals)
  }

  ghost predicate Origin(p: Provider, start: State, events: seq<Event>, key: string, e: CachedEntry) {
    HeldAtStart(p, start, key, e) || exists j: nat :: WrittenBy(p, start, events, j, key, e)
  }

  /** Each of the provider's current entries was there at the start or is a reply to a call for its key. */
  ghost predicate Grounded(p: Provider, start: State, events: seq<Event>) {
    var tree := Run(p, start, events).tree;
    forall key :: key in tree && Ours(p, key) && Current(p.tool, tree[key]) ==>
      Origin(p, start, events, key, CachedEntry(tree[key].fetchedAt, tree[key].signals))
  }

  /** The invariant of every run. */
  lemma {:induction false} RunsStayGrounded(p: Provider, start: State, events: seq<Event>)
    requires forall e :: e in events ==> Legal(p, e)
    ensures Grounded(p, start, events)
  {
    if events != [] {
      var init, last := events[..|events| - 1], events[|events| - 1];
      assert forall e :: e in init ==> e in events;
      RunsStayGrounded(p, start, init);
      assert events == init + [last];
      StepStaysGrounded(p, start, init, last);
    }
  }

  lemma StepStaysGrounded(p: Provider, start: State, events: seq<Event>, e: Event)
    requires Grounded(p, start, events) && Legal(p, e)
    ensures Grounded(p, start, events + [e])
  {
    var s := Run(p, start, events);
    assert (events + [e])[..|events|] == events;
    var after := Run(p, start, events + [e]).tree;
    forall key | key in after && Ours(p, key) && Current(p.tool, after[key])
      ensures Origin(p, start, events + [e], key, CachedEntry(after[key].fetchedAt, after[key].signals))
    {
      var entry := CachedEntry(after[key].fetchedAt, after[key].signals);
      if key in s.tree && after[key] == s.tree[key] {
        OriginStays(p, start, events, e, key, entry);
      } else {
        assert WrittenBy(p, start, events + [e], |events|, key, entry);
      }
    }
  }

  lemma OriginStays(p: Provider, start: State, events: seq<Event>, e: Event, key: string, entry: CachedEntry)
    requires Origin(p, start, events, key, entry)
    ensures Origin(p, start, events + [e], key, entry)
  {
    if !HeldAtStart(p, start, key, entry) {
      var j: nat :| WrittenBy(p, start, events, j, key, entry);
      assert (events + [e])[..j] == events[..j];
      assert WrittenBy(p, start, events + [e], j, key, entry);
    }
  }

  /** How long a reply may be served: the short lifetime when it holds nothing but failures. */
  function Lifetime(p: Provider, sigs: SignalSet): nat {
    if sigs == [] || exists s :: s in sigs && !s.Unavailable? then p.ttl.success else p.ttl.failure
  }

  /** The provider's own reply just now, or an entry of known origin that is neither from the future nor expired. */
  ghost predicate FromProvider(p: Provider, start: State, events: seq<Event>, e: Event, answer: Reply) {
    || (e.Finish? && answer == e.reply)
    || (e.Begin? && exists entry ::
         && Origin(p, start, events, KeyOf(p, e.dep), entry) && answer == Ok(entry.signals)
           && entry.fetchedAt <= e.now < entry.fetchedAt + Lifetime(p, entry.signals))
  }

  /**
   In every run - calls overlapping in any way, reads, clears, writes by others, store failures and a
   clock that may go backwards - whatever a caller is told is what the wrapped provider replied for
   that key: to this very call, or to an earlier one whose entry is within its lifetime.
   */
  lemma AnswersComeFromProvider(p: Provider, start: State, events: seq<Event>, e: Event)
    requires forall x :: x in events ==> Legal(p, x)
    ensures var answer := Answered(p, Run(p, start, events), e);
      answer.Some? ==> FromProvider(p, start, events, e, answer.value)
  {
    if e.Begin? {
      RunsStayGrounded(p, start, events);
      var hit := Hit(Run(p, start, events).tree, p.tool, p.ttl, KeyOf(p, e.dep), e.now, e.disk);
      KeysAreOurs(p, e.dep);
      if hit.Some? {
        assert Origin(p, start, events, KeyOf(p, e.dep), hit.value);
      }
    }
  }

  lemma KeysAreOurs(p: Provider, dep: ResolvedDependency)
    ensures Ours(p, KeyOf(p, dep))
  {
    var own, key := p.id + [SEPARATOR], KeyOf(p, dep);
    assert key == own + (FamilyName(FamilyOf(dep.ecosystem)) + [SEPARATOR] + dep.name + [SEPARATOR] + dep.version);
  }

  // Successes are served

  /** The event at `j` changes what the store holds under this key. */
  ghost predicate Disturbs(p: Provider, start: State, events: seq<Event>, j: nat, key: string) {
    && j < |events|
    && (|| events[j].Clear?
        || (events[j].ForeignWrite? && events[j].key == key)
        || (ReplyFor(p, start, events, j, key) && events[j].reply.Ok? && !events[j].disk.writeFails))
  }

  /** The last thing written under the key is the success that the event at `i` brought. */
  ghost predicate Stored(p: Provider, start: State, events: seq<Event>, i: nat, key: string, sigs: SignalSet) {
    && ReplyFor(p, start, events, i, key) && events[i].reply == Ok(sigs) && !events[i].disk.writeFails
    && forall j: nat :: i < j < |events| ==> !Disturbs(p, start, events, j, key)
  }

  lemma {:induction false} StoredStays(p: Provider, start: State, events: seq<Event>, i: nat, key: string, sigs: SignalSet)
    requires Stored(p, start, events, i, key, sigs)
    ensures var tree := Run(p, start, events).tree;
      key in tree && tree[key] == Entry(SCHEMA_VERSION, p.tool, events[i].writtenAt, sigs)
  {
    var init, last := events[..|events| - 1], events[|events| - 1];
    assert events == init + [last];
    if i < |events| - 1 {
      assert init[..i] == events[..i] && ReplyFor(p, start, init, i, key);
      forall j: nat | i < j < |init| ensures !Disturbs(p, start, init, j, key) {
        assert init[..j] == events[..j] && !Disturbs(p, start, events, j, key);
      }
      StoredStays(p, start, init, i, key, sigs);
      assert !Disturbs(p, start, events, |events| - 1, key);
      StepKeeps(p, Run(p, start, init), last, key);
    }
  }

  lemma StepKeeps(p: Provider, s: State, e: Event, key: string)
    requires key in s.tree && Current(p.tool, s.tree[key])
    requires !e.Clear? && !(e.ForeignWrite? && e.key == key)
    requires e.Finish? && e.task in s.waiting && KeyOf(p, s.waiting[e.task]) == key ==> e.reply.Err? || e.disk.writeFails
    ensures key in Step(p, s, e).tree && Step(p, s, e).tree[key] == s.tree[key]
  {
  }

  /**
   The cache works: once a success is stored, and until something else is written or cleared under its
   key, every call with a readable store is answered with it for as long as its lifetime lasts.
   */
  lemma SuccessIsServed(p: Provider, start: State, events: seq<Event>, i: nat, sigs: SignalSet, e: Event)
    requires e.Begin? && !e.disk.readFails && Stored(p, start, events, i, KeyOf(p, e.dep), sigs)
    requires events[i].writtenAt <= e.now < events[i].writtenAt + Lifetime(p, sigs)
    ensures Answered(p, Run(p, start, events), e) == Some(Ok(sigs))
  {
    StoredStays(p, start, events, i, KeyOf(p, e.dep), sigs);
  }

  /** A key is this provider's exactly when it carries its id, so providers may share a store. */
  lemma ProvidersApart(p: Provider, other: Provider, dep: ResolvedDependency)
    requires SEPARATOR !in p.id && SEPARATOR !in other.id
    ensures Ours(p, KeyOf(other, dep)) <==> p.id == other.id
  {
    KeysAreOurs(other, dep);
    var key := KeyOf(other, dep);
    if Ours(p, key) {
      assert key == p.id + [SEPARATOR] + key[|p.id| + 1..];
      assert key == other.id + [SEPARATOR] + key[|other.id| + 1..];
      SplitUnique(p.id, other.id, key[|p.id| + 1..], key[|other.id| + 1..], SEPARATOR);
    }
  }

  /** The store held nothing servable under this key when the run began. */
  ghost predicate StartsEmpty(p: Provider, start: State, key: string) {
    forall e :: !HeldAtStart(p, start, key, e)
  }

  /** Errors are never remembered: a key whose every reply was an error is never answered from the store. */
  lemma ErrorsAreNotServed(p: Provider, start: State, events: seq<Event>, e: Event)
    requires forall x :: x in events ==> Legal(p, x)
    requires e.Begin? && StartsEmpty(p, start, KeyOf(p, e.dep))
    requires forall j: nat :: ReplyFor(p, start, events, j, KeyOf(p, e.dep)) ==> events[j].reply.Err?
    ensures Answered(p, Run(p, start, events), e) == None
  {
    AnswersComeFromProvider(p, start, events, e);
  }

  /** Two dependencies the provider cannot tell apart: same registry family, name and version. */
  predicate SamePackage(a: ResolvedDependency, b: ResolvedDependency) {
    FamilyOf(a.ecosystem) == FamilyOf(b.ecosystem) && a.name == b.name && a.version == b.version
  }

  /** The event at `j` is the reply to a waiting call about this package. */
  ghost predicate ReplyAbout(p: Provider, start: State, events: seq<Event>, j: nat, dep: ResolvedDependency) {
    && j < |events| && events[j].Finish?
    && var s := Run(p, start, events[..j]);
       events[j].task in s.waiting && SamePackage(s.waiting[events[j].task], dep)
  }

  /** For a provider that always replies the same about a package, an answer from the store is that reply. */
  lemma CacheIsTransparent(p: Provider, start: State, events: seq<Event>, e: Event, reply: Reply)
    requires forall x :: x in events ==> Legal(p, x)
    requires e.Begin? && StartsEmpty(p, start, KeyOf(p, e.dep))
    requires SEPARATOR !in e.dep.name && SEPARATOR !in e.dep.version
    requires forall j: nat :: ReplyAbout(p, start, events, j, e.dep) ==> events[j].reply == reply
    ensures var answer := Answered(p, Run(p, start, events), e); answer.Some? ==> answer.value == reply
  {
    AnswersComeFromProvider(p, start, events, e);
    var answer := Answered(p, Run(p, start, events), e);
    if answer.Some? {
      var entry :| Origin(p, start, events, KeyOf(p, e.dep), entry) && answer == Some(Ok(entry.signals));
      var j: nat :| WrittenBy(p, start, events, j, KeyOf(p, e.dep), entry);
      UnambiguousKey(p.id, e.dep, Run(p, start, events[..j]).waiting[events[j].task]);
      assert ReplyAbout(p, start, events, j, e.dep);
    }
  }

  // Keys

  /** What follows the provider and the registry family in a key. */
  function NameAndVersion(dep: ResolvedDependency): string {
    dep.name + [SEPARATOR] + dep.version
  }

  lemma KeyParts(provider: string, a: ResolvedDependency, b: ResolvedDependency)
    ensures CacheKey(provider, a) == CacheKey(provider, b) <==>
      FamilyOf(a.ecosystem) == FamilyOf(b.ecosystem) && NameAndVersion(a) == NameAndVersion(b)
  {
    var p := provider + [SEPARATOR];
    var fa, fb := FamilyName(FamilyOf(a.ecosystem)), FamilyName(FamilyOf(b.ecosystem));
    var ra, rb := NameAndVersion(a), NameAndVersion(b);
    assert CacheKey(provider, a) == p + (fa + [SEPARATOR] + ra);
    assert CacheKey(provider, b) == p + (fb + [SEPARATOR] + rb);
    if CacheKey(provider, a) == CacheKey(provider, b) {
      assert (p + (fa + [SEPARATOR] + ra))[|p|..] == fa + [SEPARATOR] + ra;
      assert (p + (fb + [SEPARATOR] + rb))[|p|..] == fb + [SEPARATOR] + rb;
      SplitUnique(fa, fb, ra, rb, SEPARATOR);
    }
  }

  /** Without a separator in its name and version, no other package shares a dependency's key. */
  lemma UnambiguousKey(provider: string, a: ResolvedDependency, b: ResolvedDependency)
    requires SEPARATOR !in a.name && SEPARATOR !in a.version && CacheKey(provider, a) == CacheKey(provider, b)
    ensures SamePackage(b, a)
  {
    KeyParts(provider, a, b);
    var s := NameAndVersion(a);
    assert s == NameAndVersion(b);
    assert s[|b.name|] == SEPARATOR;
    assert forall i :: 0 <= i < |s| && i != |a.name| ==> s[i] != SEPARATOR by {
      assert forall i :: 0 <= i < |a.name| ==> s[i] == a.name[i];
      assert forall i :: |a.name| < i < |s| ==> s[i] == a.version[i - |a.name| - 1];
    }
    assert a.name == s[..|a.name|] && a.version == s[|a.name| + 1..];
    assert b.name == s[..|b.name|] && b.version == s[|b.name| + 1..];
  }

  /** Another package under the same key, when a separator stands in the name. */
  lemma AmbiguousName(provider: string, a: ResolvedDependency) returns (b: ResolvedDependency)
    requires SEPARATOR in a.name
    ensures CacheKey(provider, a) == CacheKey(provider, b) && a.name != b.name
  {
    var i :| 0 <= i < |a.name| && a.name[i] == SEPARATOR;
    var rest := a.name[i + 1..];
    b := a.(name := a.name[..i], version := rest + [SEPARATOR] + a.version);
    assert a.name == b.name + [SEPARATOR] + rest;
    Regrouped(b.name, rest, a.version);
    KeyParts(provider, a, b);
    assert |b.name| < |a.name|;
  }

  /** The same, when one stands in the version. */
  lemma AmbiguousVersion(provider: string, a: ResolvedDependency) returns (b: ResolvedDependency)
    requires SEPARATOR in a.version
    ensures CacheKey(provider, a) == CacheKey(provider, b) && a.name != b.name
  {
    var i :| 0 <= i < |a.version| && a.version[i] == SEPARATOR;
    var head := a.version[..i];
    b := a.(name := a.name + [SEPARATOR] + head, version := a.version[i + 1..]);
    assert a.version == head + [SEPARATOR] + b.version;
    Regrouped(a.name, head, b.version);
    KeyParts(provider, a, b);
    assert |b.name| > |a.name|;
  }

  lemma Regrouped(x: string, y: string, z: string)
    ensures (x + [SEPARATOR] + y) + [SEPARATOR] + z == x + [SEPARATOR] + (y + [SEPARATOR] + z)
  {
  }

  /** A dependency has its key to itself exactly when neither its name nor its version holds the separator. */
  lemma CacheKeyExact(provider: string, a: ResolvedDependency)
    ensures (forall b :: CacheKey(provider, a) == CacheKey(provider, b) ==> SamePackage(a, b))
      <==> '\U{001f}' !in a.name && '\U{001f}' !in a.version
  {
    if SEPARATOR !in a.name && SEPARATOR !in a.version {
      forall b | CacheKey(provider, a) == CacheKey(provider, b) ensures SamePackage(a, b) {
        UnambiguousKey(provider, a, b);
      }
    } else if SEPARATOR in a.name {
      var b := AmbiguousName(provider, a);
    } else {
      var b := AmbiguousVersion(provider, a);
    }
  }
}
