/** The persistent signal cache and the provider decorator that consults it. */
module Cache {
  import opened Wrappers
  import opened Dependency
  import opened Signal

  const SCHEMA_VERSION: nat := 2

  /** What the store holds under a key: bytes that no longer parse, or an entry. */
  datatype Stored =
    | Corrupt
    | Entry(schema: nat, toolVersion: string, fetchedAt: Instant, signals: SignalSet)

  type Tree = map<string, Stored>

  datatype CachedEntry = CachedEntry(fetchedAt: Instant, signals: SignalSet)

  /** Written under the current schema by the running tool version. */
  predicate Current(tool: string, s: Stored) {
    s.Entry? && s.schema == SCHEMA_VERSION && s.toolVersion == tool
  }

  datatype CacheError = Sled

  datatype CacheStats = CacheStats(total: nat, usable: nat, staleSchema: nat, staleVersion: nat, unreadable: nat)

  datatype Status = Usable | StaleSchema | StaleVersion | Unreadable

  function StatusOf(tool: string, s: Stored): Status {
    match s
    case Corrupt => Unreadable
    case Entry(schema, version, _, _) =>
      if schema == SCHEMA_VERSION && version == tool then Usable
      else if schema != SCHEMA_VERSION then StaleSchema
      else StaleVersion
  }

  /** The four classes, told apart by what is stored. */
  lemma StatusExact(tool: string, s: Stored)
    ensures StatusOf(tool, s) == Usable <==> s.Entry? && s.schema == 2 && s.toolVersion == tool
    ensures StatusOf(tool, s) == StaleSchema <==> s.Entry? && s.schema != 2
    ensures StatusOf(tool, s) == StaleVersion <==> s.Entry? && s.schema == 2 && s.toolVersion != tool
    ensures StatusOf(tool, s) == Unreadable <==> s == Corrupt
  {
  }

  ghost function KeysWith(tree: Tree, keys: set<string>, tool: string, status: Status): set<string> {
    set k | k in keys && k in tree && StatusOf(tool, tree[k]) == status
  }

  /** What a later lookup would drop. */
  function DropOnNextRead(stats: CacheStats): nat {
    stats.staleSchema + stats.staleVersion + stats.unreadable
  }

  lemma KeysWithGrows(tree: Tree, keys: set<string>, k: string, tool: string, status: Status)
    requires k in tree && k !in keys
    ensures |KeysWith(tree, keys + {k}, tool, status)|
      == |KeysWith(tree, keys, tool, status)| + if StatusOf(tool, tree[k]) == status then 1 else 0
  {
    var grown := KeysWith(tree, keys + {k}, tool, status);
    if StatusOf(tool, tree[k]) == status {
      assert grown == KeysWith(tree, keys, tool, status) + {k};
    } else {
      assert grown == KeysWith(tree, keys, tool, status);
    }
  }

  /** The entries under `keys` that a working read would remove. */
  ghost function Dropped(tree: Tree, keys: set<string>, tool: string): set<string> {
    set k | k in keys && k in tree && k !in AfterLookup(tree, tool, k, WORKING)
  }

  lemma DroppedGrows(tree: Tree, keys: set<string>, k: string, tool: string)
    requires k in tree && k !in keys
    ensures |Dropped(tree, keys + {k}, tool)|
      == |Dropped(tree, keys, tool)| + if StatusOf(tool, tree[k]) == Usable then 0 else 1
  {
    var grown := Dropped(tree, keys + {k}, tool);
    if StatusOf(tool, tree[k]) == Usable {
      assert grown == Dropped(tree, keys, tool);
    } else {
      assert grown == Dropped(tree, keys, tool) + {k};
    }
  }

  /**
   The statistics classify every entry: each count is the number of entries of that status, and the
   drop count is the number of entries a read would really remove.
   */
  ghost predicate Counts(stats: CacheStats, tree: Tree, keys: set<string>, tool: string) {
    && stats.total == |keys| == stats.usable + DropOnNextRead(stats)
    && stats.usable == |KeysWith(tree, keys, tool, Usable)|
    && stats.staleSchema == |KeysWith(tree, keys, tool, StaleSchema)|
    && stats.staleVersion == |KeysWith(tree, keys, tool, StaleVersion)|
    && stats.unreadable == |KeysWith(tree, keys, tool, Unreadable)|
    && DropOnNextRead(stats) == |Dropped(tree, keys, tool)|
  }

  /** The statistics after one more entry of this status. */
  function Tally(stats: CacheStats, status: Status): CacheStats {
    var more := stats.(total := stats.total + 1);
    match status
    case Usable => more.(usable := stats.usable + 1)
    case StaleSchema => more.(staleSchema := stats.staleSchema + 1)
    case StaleVersion => more.(staleVersion := stats.staleVersion + 1)
    case Unreadable => more.(unreadable := stats.unreadable + 1)
  }

  lemma CountsGrow(stats: CacheStats, tree: Tree, keys: set<string>, k: string, tool: string)
    requires Counts(stats, tree, keys, tool) && k in tree && k !in keys
    ensures Counts(Tally(stats, StatusOf(tool, tree[k])), tree, keys + {k}, tool)
  {
    KeysWithGrows(tree, keys, k, tool, Usable);
    KeysWithGrows(tree, keys, k, tool, StaleSchema);
    KeysWithGrows(tree, keys, k, tool, StaleVersion);
    KeysWithGrows(tree, keys, k, tool, Unreadable);
    DroppedGrows(tree, keys, k, tool);
  }

  /** Which store operations fail in one call. */
  datatype Disk = Disk(readFails: bool, removeFails: bool, writeFails: bool)

  const WORKING := Disk(false, false, false)

  function Lookup(tree: Tree, tool: string, key: string, disk: Disk): Result<Option<CachedEntry>, CacheError> {
    if disk.readFails then Err(Sled)
    else if key !in tree then Ok(None)
    else if Current(tool, tree[key]) then Ok(Some(CachedEntry(tree[key].fetchedAt, tree[key].signals)))
    else if disk.removeFails then Err(Sled)
    else Ok(None)
  }

  /** The store after a lookup: an entry that is not current is dropped. */
  function AfterLookup(tree: Tree, tool: string, key: string, disk: Disk): Tree {
    if !disk.readFails && key in tree && !Current(tool, tree[key]) && !disk.removeFails then tree - {key} else tree
  }

  function AfterPut(tree: Tree, tool: string, key: string, signals: SignalSet, now: Instant, disk: Disk): Tree {
    if disk.writeFails then tree else tree[key := Entry(SCHEMA_VERSION, tool, now, signals)]
  }

  class SignalCache {
    var tree: Tree
    const toolVersion: string

    constructor (stored: Tree, toolVersion: string)
      ensures tree == stored && this.toolVersion == toolVersion
    {
      tree := stored;
      this.toolVersion := toolVersion;
    }

    method Get(key: string, disk: Disk) returns (r: Result<Option<SignalSet>, CacheError>)
      modifies this`tree
      ensures tree == AfterLookup(old(tree), toolVersion, key, disk)
      ensures match Lookup(old(tree), toolVersion, key, disk)
        case Ok(Some(e)) => r == Ok(Some(e.signals))
        case Ok(None) => r == Ok(None)
        case Err(e) => r == Err(e)
    {
      var entry := GetWithAge(key, disk);
      match entry {
        case Err(e) => return Err(e);
        case Ok(None) => return Ok(None);
        case Ok(Some(e)) => return Ok(Some(e.signals));
      }
    }

    method GetWithAge(key: string, disk: Disk) returns (r: Result<Option<CachedEntry>, CacheError>)
      modifies this`tree
      ensures tree == AfterLookup(old(tree), toolVersion, key, disk)
      ensures r == Lookup(old(tree), toolVersion, key, disk)
      ensures forall at, sigs :: r == Ok(Some(CachedEntry(at, sigs))) <==>
        !disk.readFails && key in old(tree) && old(tree)[key] == Entry(2, toolVersion, at, sigs)
      ensures r.Err? <==> disk.readFails || (disk.removeFails && key in old(tree) && !Current(toolVersion, old(tree)[key]))
    {
      if disk.readFails {
        return Err(Sled);
      }
      if key !in tree {
        return Ok(None);
      }
      var stored := tree[key];
      if Current(toolVersion, stored) {
        return Ok(Some(CachedEntry(stored.fetchedAt, stored.signals)));
      }
      if disk.removeFails {
        return Err(Sled);
      }
      tree := tree - {key};
      return Ok(None);
    }

    method Put(key: string, signals: SignalSet, now: Instant, disk: Disk) returns (r: Result<(), CacheError>)
      modifies this`tree
      ensures tree == AfterPut(old(tree), toolVersion, key, signals, now, disk)
      ensures r.Err? <==> disk.writeFails
      ensures tree == if disk.writeFails then old(tree) else old(tree)[key := Entry(2, toolVersion, now, signals)]
    {
      if disk.writeFails {
        return Err(Sled);
      }
      tree := tree[key := Entry(SCHEMA_VERSION, toolVersion, now, signals)];
      return Ok(());
    }

    method Clear()
      modifies this`tree
      ensures tree == map[]
    {
      tree := map[];
    }

    method Count(stats: CacheStats, stored: Stored) returns (r: CacheStats)
      ensures r == Tally(stats, StatusOf(toolVersion, stored))
    {
      r := stats.(total := stats.total + 1);
      match stored {
        case Corrupt => r := r.(unreadable := r.unreadable + 1);
        case Entry(schema, version, _, _) =>
          if schema == SCHEMA_VERSION && version == toolVersion {
            r := r.(usable := r.usable + 1);
          } else if schema != SCHEMA_VERSION {
            r := r.(staleSchema := r.staleSchema + 1);
          } else {
            r := r.(staleVersion := r.staleVersion + 1);
          }
      }
    }

    /** Walks every entry and sorts it into one class. */
    method Stats() returns (stats: CacheStats)
      ensures Counts(stats, tree, tree.Keys, toolVersion)
    {
      stats := CacheStats(0, 0, 0, 0, 0);
      var todo := tree.Keys;
      ghost var seen := {};
      while todo != {}
        invariant seen <= tree.Keys && todo == tree.Keys - seen
        invariant Counts(stats, tree, seen, toolVersion)
        decreases todo
      {
        var k :| k in todo;
        CountsGrow(stats, tree, seen, k, toolVersion);
        todo := todo - {k};
        seen := seen + {k};
        stats := Count(stats, tree[k]);
      }
      assert seen == tree.Keys;
    }
  }

  // The decorator

  /** Lifetimes of a cache entry, in nanoseconds. */
  datatype Ttl = Ttl(success: nat, failure: nat)

  predicate AllUnavailable(sigs: SignalSet) {
    sigs != [] && forall s :: s in sigs ==> s.Unavailable?
  }

  function TtlFor(ttl: Ttl, sigs: SignalSet): nat {
    if AllUnavailable(sigs) then ttl.failure else ttl.success
  }

  /** An entry is served while it is neither from the future nor past its lifetime. */
  predicate Servable(ttl: Ttl, e: CachedEntry, now: Instant) {
    0 <= now - e.fetchedAt < TtlFor(ttl, e.signals)
  }

  const SEPARATOR := '\U{001f}'

  function CacheKey(provider: string, dep: ResolvedDependency): string {
    provider + [SEPARATOR] + FamilyName(FamilyOf(dep.ecosystem)) + [SEPARATOR] + dep.name + [SEPARATOR] + dep.version
  }

  type Reply = Result<SignalSet, string>

  /** The entry a call is answered from, when the store holds one that may be served now. */
  function Hit(tree: Tree, tool: string, ttl: Ttl, key: string, now: Instant, disk: Disk): Option<CachedEntry> {
    match Lookup(tree, tool, key, disk)
    case Ok(Some(e)) => if Servable(ttl, e, now) then Some(e) else None
    case _ => None
  }

  /** The store after the provider replied: a success is written, an error is not. */
  function AfterReply(tree: Tree, tool: string, key: string, reply: Reply, writtenAt: Instant, disk: Disk): Tree {
    match reply
    case Ok(sigs) => AfterPut(tree, tool, key, sigs, writtenAt, disk)
    case Err(_) => tree
  }

  /**
   A call has two halves, with the wait for the wrapped provider between them. Other calls run during
   that wait, so the halves are methods of their own; `Signals` is a call that nothing interrupts.
   */
  class CachedProvider {
    const id: string
    const cache: SignalCache
    const ttl: Ttl

    constructor (id: string, cache: SignalCache, ttl: Ttl)
      ensures this.id == id && this.cache == cache && this.ttl == ttl
    {
      this.id := id;
      this.cache := cache;
      this.ttl := ttl;
    }

    /** Up to the wait: a servable entry answers the call. */
    method Consult(dep: ResolvedDependency, now: Instant, disk: Disk) returns (hit: Option<CachedEntry>)
      modifies cache`tree
      ensures hit == Hit(old(cache.tree), cache.toolVersion, ttl, CacheKey(id, dep), now, disk)
      ensures cache.tree == AfterLookup(old(cache.tree), cache.toolVersion, CacheKey(id, dep), disk)
    {
      var entry := cache.GetWithAge(CacheKey(id, dep), disk);
      match entry {
        case Ok(Some(e)) =>
          var age := now - e.fetchedAt;
          var limit := if AllUnavailable(e.signals) then ttl.failure else ttl.success;
          if age >= 0 {
            if age < limit {
              return Some(e);
            }
          }
        case _ =>
      }
      return None;
    }

    /** After the wait: a success is stored, and whatever was replied is passed on. */
    method Remember(dep: ResolvedDependency, reply: Reply, writtenAt: Instant, disk: Disk) returns (r: Reply)
      modifies cache`tree
      ensures r == reply
      ensures cache.tree == AfterReply(old(cache.tree), cache.toolVersion, CacheKey(id, dep), reply, writtenAt, disk)
    {
      match reply {
        case Err(e) => return Err(e);
        case Ok(sigs) =>
          var written := cache.Put(CacheKey(id, dep), sigs, writtenAt, disk);
          return Ok(sigs);
      }
    }

    method Signals(dep: ResolvedDependency, now: Instant, inner: Reply, writtenAt: Instant, disk: Disk)
      returns (r: Reply, asked: bool)
      modifies cache`tree
      ensures var key, tool := CacheKey(id, dep), cache.toolVersion;
        var looked := AfterLookup(old(cache.tree), tool, key, disk);
        match Hit(old(cache.tree), tool, ttl, key, now, disk)
        case Some(e) => r == Ok(e.signals) && !asked && cache.tree == looked
        case None => r == inner && asked && cache.tree == AfterReply(looked, tool, key, inner, writtenAt, disk)
    {
      var hit := Consult(dep, now, disk);
      match hit {
        case Some(e) => return Ok(e.signals), false;
        case None =>
          r := Remember(dep, inner, writtenAt, disk);
          return r, true;
      }
    }
  }
}
