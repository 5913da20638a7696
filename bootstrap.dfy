/** Building the desktop cache at start-up: walk the desktop directories, parse the `.desktop` files
    that are not cached yet (or all of them when forced), and decide whether to rebuild and save. */
module Bootstrap {
  import opened Util
  import opened DesktopParser
  import opened Cache

  /** One entry produced by the directory walk: its path, the file names from the walk root down to it
      (the root's own name first), whether it is a regular file, and what reading it gives. */
  datatype WalkEntry = WalkEntry(path: Path, names: seq<string>, isFile: bool, contents: Option<string>)

  /** A desktop directory: whether it exists, and what walking it yields in walk order. */
  datatype DesktopDir = DesktopDir(present: bool, walk: seq<WalkEntry>)

  /** The position of the last `.` in `s`. */
  function LastDot(s: string): (r: Option<nat>)
    ensures r.Some? ==> r.value < |s| && s[r.value] == '.' && forall k :: r.value < k < |s| ==> s[k] != '.'
    ensures r.None? ==> forall k :: 0 <= k < |s| ==> s[k] != '.'
    decreases |s|
  {
    if s == [] then None
    else if s[|s| - 1] == '.' then Some(|s| - 1)
    else LastDot(s[..|s| - 1])
  }

  /** `Path::extension` of a file name: the text after the last `.`, unless there is none, the name
      starts with its only `.`, or the name is `..`. */
  function Extension(name: string): Option<string>
  {
    if name == ".." then None
    else match LastDot(name)
      case None => None
      case Some(i) => if i == 0 then None else Some(name[i + 1..])
  }

  /** A name `stem.ext` whose `ext` has no `.` has extension `ext`, unless the stem is empty (a hidden
      name with no other dot) or the name is `..`; the cases `Path::extension` distinguishes. */
  lemma {:induction false} ExtensionOfName(stem: string, ext: string)
    requires '.' !in ext && stem != [] && stem + "." + ext != ".."
    ensures Extension(stem + "." + ext) == Some(ext)
  {
    var name := stem + "." + ext;
    assert name[|stem|] == '.';
    assert forall k :: |stem| < k < |name| ==> name[k] == ext[k - |stem| - 1];
    assert name[|stem| + 1..] == ext;
  }

  /** The edge cases of `Path::extension`. */
  lemma ExtensionExamples()
    ensures Extension("a.desktop") == Some("desktop")
    ensures Extension("a.b.desktop") == Some("desktop")
    ensures Extension("a.") == Some("")
  {
    assert Extension("a.desktop") == Some("desktop") by {
      assert "a" + "." + "desktop" == "a.desktop";
      ExtensionOfName("a", "desktop");
    }
    assert Extension("a.b.desktop") == Some("desktop") by {
      assert "a.b" + "." + "desktop" == "a.b.desktop";
      ExtensionOfName("a.b", "desktop");
    }
    assert Extension("a.") == Some("") by {
      assert "a" + "." + "" == "a." && "a." != "..";
      ExtensionOfName("a", "");
    }
  }

  /** The names `Path::extension` gives no extension. */
  lemma NoExtensionExamples()
    ensures Extension(".desktop") == None
    ensures Extension("..") == None
    ensures Extension("desktop") == None
  {
    assert "." + "desktop" == ".desktop";
    ExtensionOfHidden("desktop");
    ExtensionWithoutDot("desktop");
  }

  /** A name with no `.` has no extension. */
  lemma ExtensionWithoutDot(name: string)
    requires '.' !in name
    ensures Extension(name) == None
  {
  }

  /** A name whose only `.` is its first character has no extension. */
  lemma ExtensionOfHidden(ext: string)
    requires '.' !in ext
    ensures Extension("." + ext) == None
  {
    var name := "." + ext;
    assert name[0] == '.';
    assert forall k :: 0 < k < |name| ==> name[k] == ext[k - 1];
  }

  /** The walk skips every entry whose name starts with `.`, together with everything below it. */
  predicate Visible(e: WalkEntry)
  {
    forall i :: 0 <= i < |e.names| ==> !StartsWith(e.names[i], ".")
  }

  function FileNameOf(e: WalkEntry): string
  {
    if e.names == [] then "" else e.names[|e.names| - 1]
  }

  /** A walked entry the populate pass looks at: visible, a regular file, with extension `desktop`. */
  predicate Candidate(e: WalkEntry)
  {
    Visible(e) && e.isFile && Extension(FileNameOf(e)) == Some("desktop")
  }

  /** `DesktopFile::parse` on the entry: a read failure is an error, otherwise the contents are parsed. */
  function Parsed(e: WalkEntry): Result<DesktopFile, string>
  {
    match e.contents
    case None => Err("Failed to read desktop file: " + e.path)
    case Some(text) => ParseContents(text)
  }

  datatype PopState = PopState(entries: map<Path, CacheEntry>, updated: bool)

  /** One walked entry of `populate_cache_from_dirs`. */
  function Step(st: PopState, e: WalkEntry, force: bool, fs: FileSystem, now: int): PopState
  {
    if !Candidate(e) then st
    else if !force && e.path in st.entries then st
    else match Parsed(e)
      case Err(_) => st
      case Ok(file) => PopState(st.entries[e.path := CacheEntry(file, RecordedMTime(fs, e.path, now), now)], true)
  }

  function Fold(st: PopState, es: seq<WalkEntry>, force: bool, fs: FileSystem, now: int): PopState
    decreases |es|
  {
    if es == [] then st else Fold(Step(st, es[0], force, fs, now), es[1..], force, fs, now)
  }

  /** The walks of the directories that exist, in directory order. */
  function Walked(dirs: seq<DesktopDir>): seq<WalkEntry>
    decreases |dirs|
  {
    if dirs == [] then [] else (if dirs[0].present then dirs[0].walk else []) + Walked(dirs[1..])
  }

  function Populate(entries: map<Path, CacheEntry>, dirs: seq<DesktopDir>, force: bool, fs: FileSystem, now: int): PopState
  {
    Fold(PopState(entries, false), Walked(dirs), force, fs, now)
  }

  lemma FoldStep(st: PopState, es: seq<WalkEntry>, j: nat, force: bool, fs: FileSystem, now: int)
    requires j < |es|
    ensures Fold(st, es[j..], force, fs, now) == Fold(Step(st, es[j], force, fs, now), es[j + 1..], force, fs, now)
  {
    assert es[j..][1..] == es[j + 1..];
  }

  lemma {:induction false} FoldConcat(st: PopState, a: seq<WalkEntry>, b: seq<WalkEntry>, force: bool, fs: FileSystem, now: int)
    ensures Fold(st, a + b, force, fs, now) == Fold(Fold(st, a, force, fs, now), b, force, fs, now)
    decreases |a|
  {
    if a == [] {
      assert a + b == b;
    } else {
      FoldConcat(Step(st, a[0], force, fs, now), a[1..], b, force, fs, now);
      assert (a + b)[0] == a[0] && (a + b)[1..] == a[1..] + b;
    }
  }

  lemma WalkedStep(dirs: seq<DesktopDir>, i: nat)
    requires i < |dirs|
    ensures Walked(dirs[i..]) == (if dirs[i].present then dirs[i].walk else []) + Walked(dirs[i + 1..])
  {
    assert dirs[i..][0] == dirs[i] && dirs[i..][1..] == dirs[i + 1..];
  }

  /** The walk of one existing directory: the inner loop of `populate_cache_from_dirs`. */
  method PopulateFromWalk(cache: FileSystemCache, walk: seq<WalkEntry>, force: bool, fs: FileSystem, now: int,
                          updated0: bool)
    returns (updated: bool)
    modifies cache
    ensures PopState(cache.entries, updated) == Fold(PopState(old(cache.entries), updated0), walk, force, fs, now)
    ensures cache.maxAge == old(cache.maxAge)
  {
    updated := updated0;
    var j := 0;
    while j < |walk|
      invariant j <= |walk| && cache.maxAge == old(cache.maxAge)
      invariant Fold(PopState(cache.entries, updated), walk[j..], force, fs, now)
                == Fold(PopState(old(cache.entries), updated0), walk, force, fs, now)
    {
      FoldStep(PopState(cache.entries, updated), walk, j, force, fs, now);
      updated := PopulateOne(cache, walk[j], force, fs, now, updated);
      j := j + 1;
    }
    assert walk[j..] == [];
  }

  /** One turn of the walk loop: skip what is no candidate or already cached without force, and insert
      what parses. */
  method PopulateOne(cache: FileSystemCache, e: WalkEntry, force: bool, fs: FileSystem, now: int, updated0: bool)
    returns (updated: bool)
    modifies cache
    ensures PopState(cache.entries, updated) == Step(PopState(old(cache.entries), updated0), e, force, fs, now)
    ensures cache.maxAge == old(cache.maxAge)
  {
    updated := updated0;
    if Candidate(e) {
      var alreadyCached := if force then false else cache.Get(e.path).Some?;
      if !alreadyCached {
        var parsed := ParseFile(e);
        if parsed.Ok? {
          cache.Insert(e.path, parsed.value, fs, now);
          updated := true;
        }
      }
    }
  }

  /** `populate_cache_from_dirs`: every walked entry of every existing directory, in order; returns
      whether anything was inserted. */
  method PopulateCacheFromDirs(cache: FileSystemCache, dirs: seq<DesktopDir>, force: bool, fs: FileSystem, now: int)
    returns (updated: bool)
    modifies cache
    ensures PopState(cache.entries, updated) == Populate(old(cache.entries), dirs, force, fs, now)
    ensures cache.maxAge == old(cache.maxAge)
  {
    updated := false;
    var i := 0;
    while i < |dirs|
      invariant i <= |dirs| && cache.maxAge == old(cache.maxAge)
      invariant Fold(PopState(cache.entries, updated), Walked(dirs[i..]), force, fs, now)
                == Populate(old(cache.entries), dirs, force, fs, now)
    {
      ghost var st := PopState(cache.entries, updated);
      DirStep(st, dirs, i, force, fs, now);
      var dir := dirs[i];
      if dir.present {
        updated := PopulateFromWalk(cache, dir.walk, force, fs, now, updated);
      }
      i := i + 1;
    }
  }

  /** One directory of the outer loop: its walk, if it exists, then the rest. */
  lemma DirStep(st: PopState, dirs: seq<DesktopDir>, i: nat, force: bool, fs: FileSystem, now: int)
    requires i < |dirs|
    ensures Fold(st, Walked(dirs[i..]), force, fs, now)
            == Fold(if dirs[i].present then Fold(st, dirs[i].walk, force, fs, now) else st,
                    Walked(dirs[i + 1..]), force, fs, now)
  {
    WalkedStep(dirs, i);
    if dirs[i].present {
      FoldConcat(st, dirs[i].walk, Walked(dirs[i + 1..]), force, fs, now);
    } else {
      assert [] + Walked(dirs[i + 1..]) == Walked(dirs[i + 1..]);
    }
  }

  /** Reading and parsing one walked file. */
  method ParseFile(e: WalkEntry) returns (r: Result<DesktopFile, string>)
    ensures r == Parsed(e)
  {
    if e.contents.None? {
      return Err("Failed to read desktop file: " + e.path);
    }
    r := Parse(e.contents.value);
  }

  /** What one walked entry does: entries that are not candidates, cached paths when not forced, and
      files that fail to parse change nothing; otherwise the parsed file is stored under its full path. */
  lemma StepMeaning(st: PopState, e: WalkEntry, force: bool, fs: FileSystem, now: int)
    ensures var r := Step(st, e, force, fs, now);
            ((!Candidate(e) || (!force && e.path in st.entries) || Parsed(e).Err?) ==> r == st)
            && ((Candidate(e) && (force || e.path !in st.entries) && Parsed(e).Ok?) ==>
                  r.updated && e.path in r.entries && r.entries[e.path].desktopFile == Parsed(e).value
                  && r.entries[e.path].cachedAt == now
                  && forall p :: p != e.path ==> (p in r.entries <==> p in st.entries)
                                                 && (p in r.entries ==> r.entries[p] == st.entries[p]))
  {
  }

  /** An entry that would be stored given the cache a pass started from. */
  predicate Inserts(e: WalkEntry, force: bool, start: map<Path, CacheEntry>)
  {
    Candidate(e) && Parsed(e).Ok? && (force || e.path !in start)
  }

  /** The pass reports an update exactly when some walked entry was inserted. */
  lemma {:induction false} FoldUpdated(st: PopState, es: seq<WalkEntry>, force: bool, fs: FileSystem, now: int)
    ensures Fold(st, es, force, fs, now).updated <==>
              st.updated || exists i :: 0 <= i < |es| && Inserts(es[i], force, st.entries)
    decreases |es|
  {
    if es != [] {
      var st' := Step(st, es[0], force, fs, now);
      FoldUpdated(st', es[1..], force, fs, now);
      if !Inserts(es[0], force, st.entries) {
        assert st' == st;
        assert forall i :: 0 <= i < |es[1..]| ==> es[1..][i] == es[i + 1];
        if exists i :: 0 <= i < |es| && Inserts(es[i], force, st.entries) {
          var i :| 0 <= i < |es| && Inserts(es[i], force, st.entries);
          assert Inserts(es[1..][i - 1], force, st'.entries);
        }
      } else {
        assert st'.updated;
      }
    }
  }

  /** Without `force`, whatever is cached stays exactly as it was. */
  lemma {:induction false} FoldKeepsCached(st: PopState, es: seq<WalkEntry>, fs: FileSystem, now: int)
    ensures var r := Fold(st, es, false, fs, now);
            forall p :: p in st.entries ==> p in r.entries && r.entries[p] == st.entries[p]
    decreases |es|
  {
    if es != [] {
      FoldKeepsCached(Step(st, es[0], false, fs, now), es[1..], fs, now);
    }
  }

  /** Entries are keyed by full path: every walked file that parses is cached under its own path,
      and nothing else is added. */
  lemma {:induction false} FoldKeys(st: PopState, es: seq<WalkEntry>, force: bool, fs: FileSystem, now: int)
    ensures var r := Fold(st, es, force, fs, now);
            (forall i :: 0 <= i < |es| && Candidate(es[i]) && Parsed(es[i]).Ok? ==> es[i].path in r.entries)
            && (forall p :: p in r.entries ==>
                  p in st.entries || exists i :: 0 <= i < |es| && Candidate(es[i]) && Parsed(es[i]).Ok? && es[i].path == p)
            && st.entries.Keys <= r.entries.Keys
    decreases |es|
  {
    if es != [] {
      var st' := Step(st, es[0], force, fs, now);
      var r := Fold(st, es, force, fs, now);
      assert r == Fold(st', es[1..], force, fs, now);
      StepKeys(st, es[0], force, fs, now);
      FoldKeys(st', es[1..], force, fs, now);
      forall i | 0 <= i < |es| && Candidate(es[i]) && Parsed(es[i]).Ok? ensures es[i].path in r.entries {
        if i > 0 {
          assert es[i] == es[1..][i - 1];
        }
      }
      forall p | p in r.entries
        ensures p in st.entries || exists i :: 0 <= i < |es| && Candidate(es[i]) && Parsed(es[i]).Ok? && es[i].path == p
      {
        if p !in st'.entries {
          var i :| 0 <= i < |es[1..]| && Candidate(es[1..][i]) && Parsed(es[1..][i]).Ok? && es[1..][i].path == p;
          assert es[i + 1] == es[1..][i];
        }
      }
    }
  }

  /** `v` is what the pass stores for path `p` on behalf of some parsable candidate of `es` with that
      path: its parsed file, the recorded modification time and the clock as caching time. */
  predicate StoredFrom(es: seq<WalkEntry>, p: Path, v: CacheEntry, fs: FileSystem, now: int)
  {
    exists i :: 0 <= i < |es| && Candidate(es[i]) && Parsed(es[i]).Ok? && es[i].path == p
                && v == CacheEntry(Parsed(es[i]).value, RecordedMTime(fs, p, now), now)
  }

  /** What is stored under each path one walked entry leaves: the old entry, or the parsed file of `e`. */
  lemma StepValues(st: PopState, e: WalkEntry, force: bool, fs: FileSystem, now: int)
    ensures var r := Step(st, e, force, fs, now);
            forall p :: p in r.entries ==>
              (p in st.entries && r.entries[p] == st.entries[p])
              || (Candidate(e) && Parsed(e).Ok? && e.path == p
                  && r.entries[p] == CacheEntry(Parsed(e).value, RecordedMTime(fs, p, now), now))
  {
  }

  /** Every cached value after a pass is either the one cached before or the parsed file of a walked
      candidate with that path, recorded with its modification time and the clock. */
  lemma {:induction false} FoldValues(st: PopState, es: seq<WalkEntry>, force: bool, fs: FileSystem, now: int)
    ensures var r := Fold(st, es, force, fs, now);
            forall p :: p in r.entries ==>
              (p in st.entries && r.entries[p] == st.entries[p]) || StoredFrom(es, p, r.entries[p], fs, now)
    decreases |es|
  {
    if es != [] {
      var st' := Step(st, es[0], force, fs, now);
      var r := Fold(st, es, force, fs, now);
      assert r == Fold(st', es[1..], force, fs, now);
      StepValues(st, es[0], force, fs, now);
      FoldValues(st', es[1..], force, fs, now);
      forall p | p in r.entries
        ensures (p in st.entries && r.entries[p] == st.entries[p]) || StoredFrom(es, p, r.entries[p], fs, now)
      {
        if StoredFrom(es[1..], p, r.entries[p], fs, now) {
          var i :| 0 <= i < |es[1..]| && Candidate(es[1..][i]) && Parsed(es[1..][i]).Ok? && es[1..][i].path == p
                   && r.entries[p] == CacheEntry(Parsed(es[1..][i]).value, RecordedMTime(fs, p, now), now);
          assert es[i + 1] == es[1..][i];
        } else if !(p in st.entries && st'.entries[p] == st.entries[p]) {
          assert es[0].path == p;
        }
      }
    }
  }

  /** Some parsable candidate of `es` has path `p`. */
  predicate Walks(es: seq<WalkEntry>, p: Path)
  {
    exists i :: 0 <= i < |es| && Candidate(es[i]) && Parsed(es[i]).Ok? && es[i].path == p
  }

  /** With `force`, a path some parsable candidate has holds that candidate's file, whatever was cached
      before. */
  lemma {:induction false} FoldForcedValues(st: PopState, es: seq<WalkEntry>, fs: FileSystem, now: int)
    ensures var r := Fold(st, es, true, fs, now);
            forall p :: p in r.entries && Walks(es, p) ==> StoredFrom(es, p, r.entries[p], fs, now)
    decreases |es|
  {
    if es != [] {
      var st' := Step(st, es[0], true, fs, now);
      var r := Fold(st, es, true, fs, now);
      assert r == Fold(st', es[1..], true, fs, now);
      StepForced(st, es[0], fs, now);
      FoldForcedValues(st', es[1..], fs, now);
      FoldValues(st', es[1..], true, fs, now);
      forall p | p in r.entries && Walks(es, p) ensures StoredFrom(es, p, r.entries[p], fs, now) {
        ForcedPath(es, p, fs, now, st'.entries, r.entries);
      }
    }
  }

  lemma StoredFromTail(es: seq<WalkEntry>, p: Path, v: CacheEntry, fs: FileSystem, now: int)
    requires es != [] && StoredFrom(es[1..], p, v, fs, now)
    ensures StoredFrom(es, p, v, fs, now)
  {
    var j :| 0 <= j < |es[1..]| && Candidate(es[1..][j]) && Parsed(es[1..][j]).Ok? && es[1..][j].path == p
             && v == CacheEntry(Parsed(es[1..][j]).value, RecordedMTime(fs, p, now), now);
    assert es[j + 1] == es[1..][j];
  }

  lemma WalksTail(es: seq<WalkEntry>, p: Path, i: nat)
    requires 0 < i < |es| && Candidate(es[i]) && Parsed(es[i]).Ok? && es[i].path == p
    ensures Walks(es[1..], p)
  {
    assert es[1..][i - 1] == es[i];
  }

  /** With `force`, a parsable candidate is stored whatever was cached under its path. */
  lemma StepForced(st: PopState, e: WalkEntry, fs: FileSystem, now: int)
    ensures Candidate(e) && Parsed(e).Ok? ==>
              var r := Step(st, e, true, fs, now);
              e.path in r.entries && r.entries[e.path] == CacheEntry(Parsed(e).value, RecordedMTime(fs, e.path, now), now)
  {
  }

  /** One path of FoldForcedValues's induction step: `mid` is the cache after the first walked entry,
      `fin` the cache after the rest. */
  lemma ForcedPath(es: seq<WalkEntry>, p: Path, fs: FileSystem, now: int, mid: map<Path, CacheEntry>,
                   fin: map<Path, CacheEntry>)
    requires es != []
    requires Candidate(es[0]) && Parsed(es[0]).Ok? ==>
               es[0].path in mid && mid[es[0].path] == CacheEntry(Parsed(es[0]).value, RecordedMTime(fs, es[0].path, now), now)
    requires forall q :: q in fin && Walks(es[1..], q) ==> StoredFrom(es[1..], q, fin[q], fs, now)
    requires forall q :: q in fin ==> (q in mid && fin[q] == mid[q]) || StoredFrom(es[1..], q, fin[q], fs, now)
    requires p in fin && Walks(es, p)
    ensures StoredFrom(es, p, fin[p], fs, now)
  {
    if StoredFrom(es[1..], p, fin[p], fs, now) {
      StoredFromTail(es, p, fin[p], fs, now);
    } else {
      var i :| 0 <= i < |es| && Candidate(es[i]) && Parsed(es[i]).Ok? && es[i].path == p;
      if i > 0 {
        WalksTail(es, p, i);
      } else {
        assert fin[p] == mid[p];
      }
    }
  }

  /** The keys one walked entry adds: its own path, when it is stored, and no other. */
  lemma StepKeys(st: PopState, e: WalkEntry, force: bool, fs: FileSystem, now: int)
    ensures var r := Step(st, e, force, fs, now);
            st.entries.Keys <= r.entries.Keys
            && (Candidate(e) && Parsed(e).Ok? ==> e.path in r.entries)
            && forall p :: p in r.entries ==> p in st.entries || (Candidate(e) && Parsed(e).Ok? && e.path == p)
  {
  }

  /** What `populate_cache_from_dirs` promises, over the existing directories' walks. */
  lemma PopulateFacts(entries: map<Path, CacheEntry>, dirs: seq<DesktopDir>, force: bool, fs: FileSystem, now: int)
    ensures var r := Populate(entries, dirs, force, fs, now);
            var es := Walked(dirs);
            (r.updated <==> exists i :: 0 <= i < |es| && Inserts(es[i], force, entries))
            && (!force ==> forall p :: p in entries ==> p in r.entries && r.entries[p] == entries[p])
            && (forall i :: 0 <= i < |es| && Candidate(es[i]) && Parsed(es[i]).Ok? ==> es[i].path in r.entries)
            && (forall p :: p in r.entries ==>
                  p in entries || exists i :: 0 <= i < |es| && Candidate(es[i]) && Parsed(es[i]).Ok? && es[i].path == p)
            && (forall p :: p in r.entries ==>
                  (p in entries && r.entries[p] == entries[p]) || StoredFrom(es, p, r.entries[p], fs, now))
            && (forall p :: p in r.entries && (p !in entries || (force && Walks(es, p))) ==>
                  StoredFrom(es, p, r.entries[p], fs, now))
  {
    FoldUpdated(PopState(entries, false), Walked(dirs), force, fs, now);
    FoldKeys(PopState(entries, false), Walked(dirs), force, fs, now);
    FoldValues(PopState(entries, false), Walked(dirs), force, fs, now);
    if force {
      FoldForcedValues(PopState(entries, false), Walked(dirs), fs, now);
    } else {
      FoldKeepsCached(PopState(entries, false), Walked(dirs), fs, now);
    }
  }

  /** A directory that does not exist adds nothing to the walk. */
  lemma {:induction false} MissingDirIgnored(dirs: seq<DesktopDir>, k: nat)
    requires k < |dirs| && !dirs[k].present
    ensures Walked(dirs) == Walked(dirs[..k] + dirs[k + 1..])
    decreases k
  {
    if k > 0 {
      MissingDirIgnored(dirs[1..], k - 1);
      assert dirs[1..][..k - 1] + dirs[1..][k..] == (dirs[..k] + dirs[k + 1..])[1..];
      assert (dirs[..k] + dirs[k + 1..])[0] == dirs[0];
    } else {
      assert dirs[..k] + dirs[k + 1..] == dirs[1..];
    }
  }

  /** `load_desktop_cache` after the cache was loaded: rebuild (clear, then a forced pass) when an entry
      has expired or the cache is empty, otherwise an incremental pass; save when it rebuilt or the pass
      stored something. Returns whether it rebuilt and whether it saved. */
  method LoadDesktopCache(cache: FileSystemCache, dirs: seq<DesktopDir>, fs: FileSystem, now: int)
    returns (rebuild: bool, save: bool)
    modifies cache
    ensures rebuild == (old(cache.NeedsInvalidation(fs, now)) || old(cache.IsEmpty()))
    ensures var r := Populate(if rebuild then map[] else old(cache.entries), dirs, rebuild, fs, now);
            cache.entries == r.entries && save == (rebuild || r.updated)
    ensures cache.maxAge == old(cache.maxAge)
  {
    var cacheUpdated := false;
    rebuild := cache.NeedsInvalidation(fs, now) || cache.IsEmpty();
    if rebuild {
      cache.Clear();
      var u := PopulateCacheFromDirs(cache, dirs, true, fs, now);
      cacheUpdated := cacheUpdated || u;
    } else {
      var u := PopulateCacheFromDirs(cache, dirs, false, fs, now);
      cacheUpdated := cacheUpdated || u;
    }
    save := rebuild || cacheUpdated;
  }

  /** How removing the cache file went. */
  datatype RemoveOutcome = Removed | NotFound | Failed(reason: string)

  /** `clear_cache`: a missing cache file, or one that vanished before it could be removed, is not an
      error; only a removal that failed otherwise is. */
  function ClearCache(cacheExists: bool, removal: RemoveOutcome): (r: Result<(), string>)
    ensures r.Err? <==> cacheExists && removal.Failed?
    ensures r.Err? ==> r.error == "Failed to remove cache file"
  {
    if !cacheExists then Ok(())
    else match removal
      case Removed => Ok(())
      case NotFound => Ok(())
      case Failed(_) => Err("Failed to remove cache file")
  }
}
