/** The desktop-file cache: a store keyed by path, in memory or with expiry metadata, whose files
    are checked against the file system (given as a snapshot) and an integer clock. */
module Cache {
  import opened Util
  import opened DesktopParser

  type Path = string

  /** What the file system reports for a path: present, with a modification time when one can be read.
      A path missing from the snapshot is a file that does not exist. */
  datatype Metadata = Metadata(modified: Option<int>)

  type FileSystem = map<Path, Metadata>

  /** The default expiry age, 24 hours, in seconds. */
  const DefaultMaxAge: nat := 24 * 60 * 60

  datatype CacheEntry = CacheEntry(desktopFile: DesktopFile, lastModified: int, cachedAt: int)

  /** The modification time `insert` records: the file's, or the clock when it cannot be read. */
  function RecordedMTime(fs: FileSystem, path: Path, now: int): int
  {
    if path in fs && fs[path].modified.Some? then fs[path].modified.value else now
  }

  /** `CacheEntry::is_expired`: the file is gone, or was modified after it was cached, or the entry is
      older than `maxAge`; a clock earlier than the caching time cannot give an age, which also counts. */
  predicate IsExpired(e: CacheEntry, path: Path, fs: FileSystem, now: int, maxAge: nat)
  {
    if path !in fs then true
    else if fs[path].modified.Some? && fs[path].modified.value > e.lastModified then true
    else if now < e.cachedAt then true
    else now - e.cachedAt > maxAge
  }

  /** A missing file, a newer file or an old entry each expire it; a present file that is not newer, with
      an entry within its age, does not, and neither does a file whose modification time cannot be read. */
  lemma IsExpiredMeaning(e: CacheEntry, path: Path, fs: FileSystem, now: int, maxAge: nat)
    ensures path !in fs ==> IsExpired(e, path, fs, now, maxAge)
    ensures path in fs && fs[path].modified.Some? && fs[path].modified.value > e.lastModified
            ==> IsExpired(e, path, fs, now, maxAge)
    ensures now > e.cachedAt + maxAge ==> IsExpired(e, path, fs, now, maxAge)
    ensures (path in fs && (fs[path].modified.None? || fs[path].modified.value <= e.lastModified)
             && e.cachedAt <= now <= e.cachedAt + maxAge) ==> !IsExpired(e, path, fs, now, maxAge)
  {
  }

  /** The entries `retain` keeps: exactly the unexpired ones, unchanged. */
  function Unexpired(entries: map<Path, CacheEntry>, fs: FileSystem, now: int, maxAge: nat): (r: map<Path, CacheEntry>)
    ensures forall p :: p in r <==> p in entries && !IsExpired(entries[p], p, fs, now, maxAge)
    ensures forall p :: p in r ==> r[p] == entries[p]
  {
    map p | p in entries && !IsExpired(entries[p], p, fs, now, maxAge) :: entries[p]
  }

  predicate AnyExpired(entries: map<Path, CacheEntry>, fs: FileSystem, now: int, maxAge: nat)
  {
    exists p :: p in entries && IsExpired(entries[p], p, fs, now, maxAge)
  }

  /** After dropping the expired entries none is left to drop, and dropping again changes nothing. */
  lemma UnexpiredSettles(entries: map<Path, CacheEntry>, fs: FileSystem, now: int, maxAge: nat)
    ensures !AnyExpired(Unexpired(entries, fs, now, maxAge), fs, now, maxAge)
    ensures Unexpired(Unexpired(entries, fs, now, maxAge), fs, now, maxAge) == Unexpired(entries, fs, now, maxAge)
    ensures Unexpired(entries, fs, now, maxAge) == entries <==> !AnyExpired(entries, fs, now, maxAge)
  {
    var r := Unexpired(entries, fs, now, maxAge);
    if r == entries {
      assert !AnyExpired(entries, fs, now, maxAge);
    }
    if !AnyExpired(entries, fs, now, maxAge) {
      assert forall p :: p in entries ==> p in r;
    }
  }

  /** The pairs a map iterates over, each key once; the iteration order of the source's hash map is
      unspecified and modelled here as sorted path order. */
  function Pairs<V>(entries: map<Path, V>): (r: seq<(Path, V)>)
    ensures |r| == |entries|
    ensures forall i :: 0 <= i < |r| ==> r[i].0 in entries && r[i].1 == entries[r[i].0]
    ensures forall p :: p in entries ==> (p, entries[p]) in r
  {
    var keys := SortedKeys(entries.Keys);
    var r := seq(|keys|, i requires 0 <= i < |keys| => (keys[i], entries[keys[i]]));
    assert forall p :: p in entries ==> exists i :: 0 <= i < |keys| && keys[i] == p && r[i] == (p, entries[p]);
    r
  }

  /** The cache without persistence: a map from path to parsed desktop file. */
  class MemoryCache {
    var entries: map<Path, DesktopFile>

    constructor ()
      ensures entries == map[]
    {
      entries := map[];
    }

    function Get(path: Path): (r: Option<DesktopFile>)
      reads this
      ensures r.Some? <==> path in entries
      ensures r.Some? ==> r.value == entries[path]
    {
      if path in entries then Some(entries[path]) else None
    }

    function Len(): (n: nat)
      reads this
      ensures n == |entries.Keys|
    {
      |entries|
    }

    function IsEmpty(): (b: bool)
      reads this
      ensures b <==> Len() == 0
      ensures b <==> entries == map[]
    {
      |entries| == 0
    }

    function Iter(): (r: seq<(Path, DesktopFile)>)
      reads this
      ensures |r| == Len()
      ensures forall p, f :: (p, f) in r <==> p in entries && entries[p] == f
    {
      Pairs(entries)
    }

    /** A memory cache has nothing that can go stale. */
    function NeedsInvalidation(): (b: bool)
      reads this
      ensures !b
    {
      false
    }

    method Insert(path: Path, file: DesktopFile)
      modifies this
      ensures entries == old(entries)[path := file]
      ensures Get(path) == Some(file)
      ensures Len() == old(Len()) + (if path in old(entries) then 0 else 1)
      ensures forall q :: q != path ==> Get(q) == old(Get(q))
    {
      entries := entries[path := file];
    }

    method Remove(path: Path) returns (r: Option<DesktopFile>)
      modifies this
      ensures r == old(Get(path))
      ensures entries == old(entries) - {path}
      ensures Get(path) == None
      ensures r.None? ==> entries == old(entries)
    {
      r := Get(path);
      entries := entries - {path};
    }

    method Clear()
      modifies this
      ensures entries == map[] && Len() == 0 && IsEmpty()
    {
      entries := map[];
    }

    /** Nothing expires in memory. */
    method InvalidateExpired()
      modifies this
      ensures entries == old(entries)
    {
    }

    /** Loading and saving a memory cache do nothing and always succeed. */
    method Load() returns (r: Result<(), string>)
      modifies this
      ensures r.Ok? && entries == old(entries)
    {
      r := Ok(());
    }

    method Save() returns (r: Result<(), string>)
      ensures r.Ok?
    {
      r := Ok(());
    }
  }

  /** The cache that is persisted between runs: each entry remembers the file's modification time
      and when it was cached, and entries older than `maxAge` expire. */
  class FileSystemCache {
    var entries: map<Path, CacheEntry>
    var maxAge: nat

    constructor (maxAge: nat)
      ensures entries == map[] && this.maxAge == maxAge
    {
      entries := map[];
      this.maxAge := maxAge;
    }

    function Get(path: Path): (r: Option<DesktopFile>)
      reads this
      ensures r.Some? <==> path in entries
      ensures r.Some? ==> r.value == entries[path].desktopFile
    {
      if path in entries then Some(entries[path].desktopFile) else None
    }

    function Len(): (n: nat)
      reads this
      ensures n == |entries.Keys|
    {
      |entries|
    }

    function IsEmpty(): (b: bool)
      reads this
      ensures b <==> Len() == 0
      ensures b <==> entries == map[]
    {
      |entries| == 0
    }

    function Files(): (m: map<Path, DesktopFile>)
      reads this
      ensures m.Keys == entries.Keys
      ensures forall p :: p in m ==> m[p] == entries[p].desktopFile
    {
      map p | p in entries :: entries[p].desktopFile
    }

    function Iter(): (r: seq<(Path, DesktopFile)>)
      reads this
      ensures |r| == Len()
      ensures forall p, f :: (p, f) in r <==> p in entries && entries[p].desktopFile == f
    {
      Pairs(Files())
    }

    /** Some entry has expired under the given file system and clock. */
    function NeedsInvalidation(fs: FileSystem, now: int): (b: bool)
      reads this
      ensures b <==> exists p :: p in entries && IsExpired(entries[p], p, fs, now, maxAge)
    {
      AnyExpired(entries, fs, now, maxAge)
    }

    /** `insert`: the entry records the file's modification time and the clock. */
    method Insert(path: Path, file: DesktopFile, fs: FileSystem, now: int)
      modifies this
      ensures entries == old(entries)[path := CacheEntry(file, RecordedMTime(fs, path, now), now)]
      ensures maxAge == old(maxAge)
      ensures Get(path) == Some(file)
      ensures Len() == old(Len()) + (if path in old(entries) then 0 else 1)
      ensures forall q :: q != path ==> Get(q) == old(Get(q))
    {
      entries := entries[path := CacheEntry(file, RecordedMTime(fs, path, now), now)];
    }

    method Remove(path: Path) returns (r: Option<DesktopFile>)
      modifies this
      ensures r == old(Get(path))
      ensures entries == old(entries) - {path} && maxAge == old(maxAge)
      ensures Get(path) == None
      ensures r.None? ==> entries == old(entries)
    {
      r := Get(path);
      entries := entries - {path};
    }

    method Clear()
      modifies this
      ensures entries == map[] && maxAge == old(maxAge) && IsEmpty()
    {
      entries := map[];
    }

    /** `invalidate_expired`: keep exactly the unexpired entries; afterwards nothing needs invalidation. */
    method InvalidateExpired(fs: FileSystem, now: int)
      modifies this
      ensures entries == Unexpired(old(entries), fs, now, maxAge) && maxAge == old(maxAge)
      ensures !NeedsInvalidation(fs, now)
    {
      UnexpiredSettles(entries, fs, now, maxAge);
      entries := Unexpired(entries, fs, now, maxAge);
    }
  }
}
