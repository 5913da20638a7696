/** Resolving the applications that can open a MIME type: the associated desktop ids first, in list
    order, the first one marked as the default, then every other cached entry that declares the type,
    never two main entries for one desktop id, each optionally followed by its actions. */
module ApplicationFinder {
  import opened Util
  import opened DesktopParser
  import MimeAssociations

  type Path = string

  const I32Max: int := 0x7fff_ffff

  datatype ApplicationEntry = ApplicationEntry(
    name: string,
    exec: string,
    desktopFile: Path,
    comment: Option<string>,
    icon: Option<string>,
    isXdg: bool,
    xdgPriority: int,
    isDefault: bool,
    actionId: Option<string>)

  // ---------------------------------------------------------------------------
  // ApplicationEntryBuilder: value in, value out

  datatype ApplicationEntryBuilder = ApplicationEntryBuilder(
    name: Option<string>,
    exec: Option<string>,
    desktopFile: Option<Path>,
    comment: Option<string>,
    icon: Option<string>,
    isXdg: bool,
    xdgPriority: int,
    isDefault: bool,
    actionId: Option<string>)
  {
    function Name(n: string): ApplicationEntryBuilder { this.(name := Some(n)) }
    function Exec(e: string): ApplicationEntryBuilder { this.(exec := Some(e)) }
    function DesktopFilePath(p: Path): ApplicationEntryBuilder { this.(desktopFile := Some(p)) }
    function Comment(c: string): ApplicationEntryBuilder { this.(comment := Some(c)) }
    function Icon(i: string): ApplicationEntryBuilder { this.(icon := Some(i)) }
    function AsXdg(priority: int): ApplicationEntryBuilder { this.(isXdg := true, xdgPriority := priority) }
    function AsXdgDefault(): ApplicationEntryBuilder { this.(isXdg := true, xdgPriority := 0, isDefault := true) }
    function AsAvailable(): ApplicationEntryBuilder { this.(isXdg := false, xdgPriority := -1, isDefault := false) }
    function WithAction(id: string): ApplicationEntryBuilder { this.(actionId := Some(id)) }

    function FromDesktopEntry(entry: DesktopEntry, path: Path): ApplicationEntryBuilder
    {
      this.(name := Some(entry.name), exec := Some(entry.exec), desktopFile := Some(path),
            comment := entry.comment, icon := entry.icon)
    }

    function FromDesktopAction(main: DesktopEntry, action: DesktopAction, id: string, path: Path): ApplicationEntryBuilder
    {
      this.(name := Some(main.name + " - " + action.name), exec := Some(action.exec), desktopFile := Some(path),
            comment := Some("Action: " + action.name),
            icon := if action.icon.Some? then action.icon else main.icon,
            actionId := Some(id))
    }

    /** `build`: the name, the command and the path are required, and checked in that order. */
    function Build(): Result<ApplicationEntry, string>
    {
      if name.None? then Err("Name is required")
      else if exec.None? then Err("Exec is required")
      else if desktopFile.None? then Err("Desktop file path is required")
      else Ok(ApplicationEntry(name.value, exec.value, desktopFile.value, comment, icon,
                               isXdg, xdgPriority, isDefault, actionId))
    }
  }

  const NewBuilder := ApplicationEntryBuilder(None, None, None, None, None, false, -1, false, None)

  /** `build` reports the first missing required field, name before command before path, and otherwise
      copies every field; a new builder is an available entry. */
  lemma BuildMeaning(b: ApplicationEntryBuilder)
    ensures b.Build().Err? <==> b.name.None? || b.exec.None? || b.desktopFile.None?
    ensures b.name.None? ==> b.Build() == Err("Name is required")
    ensures b.name.Some? && b.exec.None? ==> b.Build() == Err("Exec is required")
    ensures b.name.Some? && b.exec.Some? && b.desktopFile.None? ==> b.Build() == Err("Desktop file path is required")
    ensures b.Build().Ok? ==>
              var a := b.Build().value;
              Some(a.name) == b.name && Some(a.exec) == b.exec && Some(a.desktopFile) == b.desktopFile
              && a.comment == b.comment && a.icon == b.icon && a.isXdg == b.isXdg
              && a.xdgPriority == b.xdgPriority && a.isDefault == b.isDefault && a.actionId == b.actionId
    ensures var a := NewBuilder.Name("n").Exec("e").DesktopFilePath("p").Build();
            a.Ok? && !a.value.isXdg && a.value.xdgPriority == -1 && !a.value.isDefault
  {
  }

  /** A later setter call overrides an earlier one, and the placement calls decide the three placement fields. */
  lemma LaterSetterWins(b: ApplicationEntryBuilder, x: string, y: string, p: int, q: int)
    ensures b.Name(x).Name(y) == b.Name(y) && b.Exec(x).Exec(y) == b.Exec(y)
    ensures b.DesktopFilePath(x).DesktopFilePath(y) == b.DesktopFilePath(y)
    ensures b.Comment(x).Comment(y) == b.Comment(y) && b.Icon(x).Icon(y) == b.Icon(y)
    ensures b.WithAction(x).WithAction(y) == b.WithAction(y) && b.AsXdg(p).AsXdg(q) == b.AsXdg(q)
    ensures b.AsXdg(p).AsXdgDefault() == b.AsXdgDefault() && b.AsXdg(p).AsAvailable() == b.AsAvailable()
  {
  }

  // ---------------------------------------------------------------------------
  // find_desktop_file

  /** The pieces that stay components of a path: empty pieces (from repeated or trailing separators)
      and `.` pieces are dropped, as `Path::components` normalises them. */
  function NormalPieces(ps: seq<string>): seq<string>
  {
    if ps == [] then []
    else if ps[0] == [] || ps[0] == "." then NormalPieces(ps[1..])
    else [ps[0]] + NormalPieces(ps[1..])
  }

  function Components(p: Path): seq<string>
  {
    NormalPieces(Split(p, '/'))
  }

  /** `Path::file_name`: the last component, or nothing when there is none or it is `..`. */
  function FileName(p: Path): Option<string>
  {
    var cs := Components(p);
    if cs == [] || cs[|cs| - 1] == ".." then None else Some(cs[|cs| - 1])
  }

  lemma {:induction false} NormalPiecesConcat(a: seq<string>, b: seq<string>)
    ensures NormalPieces(a + b) == NormalPieces(a) + NormalPieces(b)
  {
    if a != [] {
      assert (a + b)[1..] == a[1..] + b;
      NormalPiecesConcat(a[1..], b);
    } else {
      assert a + b == b;
    }
  }

  /** The pieces of `p` followed by a separator and `last`. */
  lemma ComponentsAfter(p: Path, last: string)
    requires '/' !in last
    ensures Components(p + "/" + last) == NormalPieces(Split(p, '/')) + NormalPieces([last])
  {
    assert p + "/" + last == p + ['/'] + last;
    SplitConcat(p, '/', last);
    SplitWithoutSeparator(last, '/');
    NormalPiecesConcat(Split(p, '/'), [last]);
  }

  /** A name written after a directory is the file name of the result, whatever the directory. */
  lemma FileNameOfChild(dir: Path, name: string)
    requires name != [] && '/' !in name && name != "." && name != ".."
    ensures FileName(dir + "/" + name) == Some(name)
  {
    ComponentsAfter(dir, name);
    assert NormalPieces([name]) == [name];
  }

  /** A trailing `/` or `/.` does not change the file name, and a trailing `/..` leaves none. */
  lemma FileNameTrailing(p: Path)
    ensures FileName(p + "/") == FileName(p)
    ensures FileName(p + "/.") == FileName(p)
    ensures FileName(p + "/..") == None
  {
    TrailingDropped(p, "");
    assert p + "/" + "" == p + "/";
    TrailingDropped(p, ".");
    assert p + "/" + "." == p + "/.";
    ComponentsAfter(p, "..");
    assert p + "/" + ".." == p + "/..";
    assert NormalPieces([".."]) == [".."];
  }

  lemma TrailingDropped(p: Path, last: string)
    requires last == [] || last == "."
    ensures Components(p + "/" + last) == Components(p)
  {
    ComponentsAfter(p, last);
    assert NormalPieces([last]) == [];
  }

  type CacheEntries = seq<(Path, DesktopFile)>

  predicate NameIs(e: (Path, DesktopFile), id: string) { FileName(e.0) == Some(id) }
  predicate PathEndsWith(e: (Path, DesktopFile), id: string) { EndsWith(e.0, id) }

  /** The first cached file whose file name is the id. */
  function FindExact(entries: CacheEntries, id: string): (r: Option<nat>)
    ensures r.Some? ==> r.value < |entries| && NameIs(entries[r.value], id)
                        && forall k :: 0 <= k < r.value ==> !NameIs(entries[k], id)
    ensures r.None? ==> forall k :: 0 <= k < |entries| ==> !NameIs(entries[k], id)
  {
    if entries == [] then None
    else if NameIs(entries[0], id) then Some(0)
    else match FindExact(entries[1..], id)
      case None => None
      case Some(k) => Some(k + 1)
  }

  /** The first cached file whose full path ends with the id. */
  function FindSuffix(entries: CacheEntries, id: string): (r: Option<nat>)
    ensures r.Some? ==> r.value < |entries| && PathEndsWith(entries[r.value], id)
                        && forall k :: 0 <= k < r.value ==> !PathEndsWith(entries[k], id)
    ensures r.None? ==> forall k :: 0 <= k < |entries| ==> !PathEndsWith(entries[k], id)
  {
    if entries == [] then None
    else if PathEndsWith(entries[0], id) then Some(0)
    else match FindSuffix(entries[1..], id)
      case None => None
      case Some(k) => Some(k + 1)
  }

  /** `find_desktop_file`: an exact file-name match in cache order, else a path-suffix match, else nothing. */
  function FindDesktopFile(entries: CacheEntries, id: string): (r: Option<nat>)
    ensures r.Some? ==> r.value < |entries|
  {
    if FindExact(entries, id).Some? then FindExact(entries, id) else FindSuffix(entries, id)
  }

  lemma FindDesktopFileMeaning(entries: CacheEntries, id: string)
    ensures var r := FindDesktopFile(entries, id);
            ((exists k :: 0 <= k < |entries| && NameIs(entries[k], id)) ==>
               r.Some? && NameIs(entries[r.value], id) && forall k :: 0 <= k < r.value ==> !NameIs(entries[k], id))
            && ((forall k :: 0 <= k < |entries| ==> !NameIs(entries[k], id)) ==>
               (r.Some? <==> exists k :: 0 <= k < |entries| && PathEndsWith(entries[k], id))
               && (r.Some? ==> PathEndsWith(entries[r.value], id)
                               && forall k :: 0 <= k < r.value ==> !PathEndsWith(entries[k], id)))
  {
  }

  // ---------------------------------------------------------------------------
  // find_for_mime, specified

  /** One result with what produced it: the desktop id it claimed, the cache slot it came from and its
      position in the association list (-1 for an entry that only declares the type). */
  datatype Tagged = Tagged(id: string, source: nat, rank: int, app: ApplicationEntry)

  datatype Acc = Acc(out: seq<Tagged>, seen: set<string>)

  function Apps(ts: seq<Tagged>): (r: seq<ApplicationEntry>)
    ensures |r| == |ts| && forall i :: 0 <= i < |ts| ==> r[i] == ts[i].app
  {
    seq(|ts|, i requires 0 <= i < |ts| => ts[i].app)
  }

  /** A list index as a 32-bit signed priority, saturating at the largest one. */
  function Saturate(k: nat): int
  {
    if k <= I32Max then k else I32Max
  }

  function Built(id: string, src: nat, rank: int, b: ApplicationEntryBuilder): seq<Tagged>
  {
    match b.Build()
    case Ok(app) => [Tagged(id, src, rank, app)]
    case Err(_) => []
  }

  /** The action entries of one file, in the order its actions are visited. */
  function ActionApps(id: string, src: nat, rank: int, entry: DesktopEntry, actions: map<string, DesktopAction>,
                      path: Path, keys: seq<string>, xdg: bool, priority: int): seq<Tagged>
    requires forall i :: 0 <= i < |keys| ==> keys[i] in actions
    decreases |keys|
  {
    if keys == [] then []
    else
      var b := NewBuilder.FromDesktopAction(entry, actions[keys[0]], keys[0], path);
      Built(id, src, rank, if xdg then b.AsXdg(priority) else b.AsAvailable())
      + ActionApps(id, src, rank, entry, actions, path, keys[1..], xdg, priority)
  }

  function ActionKeys(file: DesktopFile): (r: seq<string>)
    ensures forall i :: 0 <= i < |r| ==> r[i] in file.actions
  {
    SortedKeys(file.actions.Keys)
  }

  /** One associated desktop id, at position `k` of the association list. */
  function XdgStep(entries: CacheEntries, includeActions: bool, acc: Acc, id: string, k: nat): Acc
  {
    match FindDesktopFile(entries, id)
    case None => acc
    case Some(src) =>
      if id in acc.seen then acc
      else
        var seen := acc.seen + {id};
        var path := entries[src].0;
        var file := entries[src].1;
        match file.mainEntry
        case None => Acc(acc.out, seen)
        case Some(entry) =>
          var priority := Saturate(k);
          var b := NewBuilder.FromDesktopEntry(entry, path).AsXdg(priority);
          var main := Built(id, src, k, if k == 0 then b.AsXdgDefault() else b);
          var actions := if includeActions
                         then ActionApps(id, src, k, entry, file.actions, path, ActionKeys(file), true, priority)
                         else [];
          Acc(acc.out + main + actions, seen)
  }

  function XdgFold(entries: CacheEntries, includeActions: bool, ids: seq<string>, acc: Acc, k: nat): Acc
    requires k <= |ids|
    decreases |ids| - k
  {
    if k == |ids| then acc else XdgFold(entries, includeActions, ids, XdgStep(entries, includeActions, acc, ids[k], k), k + 1)
  }

  function FileId(path: Path): string
  {
    if FileName(path).Some? then FileName(path).value else ""
  }

  /** One cached file, in cache order, for the entries not reached through the association list. */
  function AvailStep(entries: CacheEntries, mime: string, includeActions: bool, acc: Acc, src: nat): Acc
    requires src < |entries|
  {
    var path := entries[src].0;
    var file := entries[src].1;
    match file.mainEntry
    case None => acc
    case Some(entry) =>
      if mime !in entry.mimeTypes then acc
      else
        var id := FileId(path);
        if id in acc.seen then acc
        else
          var main := Built(id, src, -1, NewBuilder.FromDesktopEntry(entry, path).AsAvailable());
          var actions := if includeActions
                         then ActionApps(id, src, -1, entry, file.actions, path, ActionKeys(file), false, -1)
                         else [];
          Acc(acc.out + main + actions, acc.seen + {id})
  }

  function AvailFold(entries: CacheEntries, mime: string, includeActions: bool, acc: Acc, src: nat): Acc
    requires src <= |entries|
    decreases |entries| - src
  {
    if src == |entries| then acc else AvailFold(entries, mime, includeActions, AvailStep(entries, mime, includeActions, acc, src), src + 1)
  }

  function Ranked(entries: CacheEntries, associations: map<string, seq<string>>, mime: string, includeActions: bool): seq<Tagged>
  {
    var ids := MimeAssociations.GetAssociations(associations, mime);
    AvailFold(entries, mime, includeActions, XdgFold(entries, includeActions, ids, Acc([], {}), 0), 0).out
  }

  // ---------------------------------------------------------------------------
  // find_for_mime, the loops

  lemma AppsAppend(a: seq<Tagged>, id: string, src: nat, rank: int, b: ApplicationEntryBuilder)
    ensures Apps(a + Built(id, src, rank, b)) == Apps(a) + (if b.Build().Ok? then [b.Build().value] else [])
  {
  }

  method PushActions(applications: seq<ApplicationEntry>, ghost tagged: seq<Tagged>,
                     id: string, src: nat, rank: int, entry: DesktopEntry, file: DesktopFile, path: Path,
                     xdg: bool, priority: int)
    returns (r: seq<ApplicationEntry>, ghost t: seq<Tagged>)
    requires applications == Apps(tagged)
    ensures t == tagged + ActionApps(id, src, rank, entry, file.actions, path, ActionKeys(file), xdg, priority)
    ensures r == Apps(t)
  {
    var keys := ActionKeys(file);
    r, t := applications, tagged;
    var j := 0;
    while j < |keys|
      invariant j <= |keys| && r == Apps(t)
      invariant t + ActionApps(id, src, rank, entry, file.actions, path, keys[j..], xdg, priority)
                == tagged + ActionApps(id, src, rank, entry, file.actions, path, keys, xdg, priority)
    {
      var b := NewBuilder.FromDesktopAction(entry, file.actions[keys[j]], keys[j], path);
      b := if xdg then b.AsXdg(priority) else b.AsAvailable();
      ActionAppsStep(t, tagged, id, src, rank, entry, file.actions, path, keys, j, xdg, priority);
      var built := b.Build();
      if built.Ok? {
        r := r + [built.value];
      }
      AppsAppend(t, id, src, rank, b);
      t := t + Built(id, src, rank, b);
      j := j + 1;
    }
    assert keys[j..] == [];
  }

  lemma ActionAppsStep(t: seq<Tagged>, tagged: seq<Tagged>, id: string, src: nat, rank: int, entry: DesktopEntry,
                       actions: map<string, DesktopAction>, path: Path, keys: seq<string>, j: nat, xdg: bool, priority: int)
    requires forall i :: 0 <= i < |keys| ==> keys[i] in actions
    requires j < |keys|
    requires t + ActionApps(id, src, rank, entry, actions, path, keys[j..], xdg, priority)
             == tagged + ActionApps(id, src, rank, entry, actions, path, keys, xdg, priority)
    ensures var b := NewBuilder.FromDesktopAction(entry, actions[keys[j]], keys[j], path);
            (t + Built(id, src, rank, if xdg then b.AsXdg(priority) else b.AsAvailable()))
            + ActionApps(id, src, rank, entry, actions, path, keys[j + 1..], xdg, priority)
            == tagged + ActionApps(id, src, rank, entry, actions, path, keys, xdg, priority)
  {
    assert keys[j..][1..] == keys[j + 1..];
  }

  /** One associated id: the body of the first loop of `find_for_mime`. */
  method AddAssociated(entries: CacheEntries, includeActions: bool, applications: seq<ApplicationEntry>,
                       ghost tagged: seq<Tagged>, seen: set<string>, id: string, k: nat)
    returns (r: seq<ApplicationEntry>, ghost t: seq<Tagged>, seen': set<string>)
    requires applications == Apps(tagged)
    ensures Acc(t, seen') == XdgStep(entries, includeActions, Acc(tagged, seen), id, k) && r == Apps(t)
  {
    r, t, seen' := applications, tagged, seen;
    var found := FindDesktopFile(entries, id);
    if found.Some? {
      var src := found.value;
      if id !in seen {
        seen' := seen + {id};
        var path := entries[src].0;
        var file := entries[src].1;
        if file.mainEntry.Some? {
          var entry := file.mainEntry.value;
          var priority := Saturate(k);
          var b := NewBuilder.FromDesktopEntry(entry, path).AsXdg(priority);
          b := if k == 0 then b.AsXdgDefault() else b;
          var built := b.Build();
          if built.Ok? {
            r := r + [built.value];
          }
          AppsAppend(t, id, src, k, b);
          t := t + Built(id, src, k, b);
          if includeActions {
            r, t := PushActions(r, t, id, src, k, entry, file, path, true, priority);
          }
        }
      }
    }
  }

  /** One cached file: the body of the second loop of `find_for_mime`. */
  method AddAvailable(entries: CacheEntries, mime: string, includeActions: bool, applications: seq<ApplicationEntry>,
                      ghost tagged: seq<Tagged>, seen: set<string>, src: nat)
    returns (r: seq<ApplicationEntry>, ghost t: seq<Tagged>, seen': set<string>)
    requires src < |entries| && applications == Apps(tagged)
    ensures Acc(t, seen') == AvailStep(entries, mime, includeActions, Acc(tagged, seen), src) && r == Apps(t)
  {
    r, t, seen' := applications, tagged, seen;
    var path := entries[src].0;
    var file := entries[src].1;
    if file.mainEntry.Some? {
      var entry := file.mainEntry.value;
      if mime in entry.mimeTypes {
        var id := FileId(path);
        if id !in seen {
          seen' := seen + {id};
          var b := NewBuilder.FromDesktopEntry(entry, path).AsAvailable();
          var built := b.Build();
          if built.Ok? {
            r := r + [built.value];
          }
          AppsAppend(t, id, src, -1, b);
          t := t + Built(id, src, -1, b);
          if includeActions {
            r, t := PushActions(r, t, id, src, -1, entry, file, path, false, -1);
          }
        }
      }
    }
  }

  /** `find_for_mime`: the associated ids in list order, then the cache in its order, a `seen` set of
      desktop ids keeping every id to one main entry. */
  method FindForMime(entries: CacheEntries, associations: map<string, seq<string>>, mime: string, includeActions: bool)
    returns (applications: seq<ApplicationEntry>)
    ensures applications == Apps(Ranked(entries, associations, mime, includeActions))
  {
    applications := [];
    ghost var tagged: seq<Tagged> := [];
    var seen: set<string> := {};
    var ids := MimeAssociations.GetAssociations(associations, mime);
    var k := 0;
    while k < |ids|
      invariant k <= |ids| && applications == Apps(tagged)
      invariant XdgFold(entries, includeActions, ids, Acc(tagged, seen), k)
                == XdgFold(entries, includeActions, ids, Acc([], {}), 0)
    {
      applications, tagged, seen := AddAssociated(entries, includeActions, applications, tagged, seen, ids[k], k);
      k := k + 1;
    }
    var src := 0;
    while src < |entries|
      invariant src <= |entries| && applications == Apps(tagged)
      invariant AvailFold(entries, mime, includeActions, Acc(tagged, seen), src)
                == AvailFold(entries, mime, includeActions, XdgFold(entries, includeActions, ids, Acc([], {}), 0), 0)
    {
      applications, tagged, seen := AddAvailable(entries, mime, includeActions, applications, tagged, seen, src);
      src := src + 1;
    }
  }

  // ---------------------------------------------------------------------------
  // Properties of the ranking

  predicate ActionFields(main: DesktopEntry, a: DesktopAction, app: ApplicationEntry)
  {
    app.name == main.name + " - " + a.name && app.exec == a.exec && app.comment == Some("Action: " + a.name)
    && app.icon == (if a.icon.Some? then a.icon else main.icon)
  }

  /** An entry describes its file: a main entry its desktop entry, an action entry one of the file's actions. */
  predicate FaithfulTo(path: Path, main: DesktopEntry, actions: map<string, DesktopAction>, app: ApplicationEntry)
  {
    app.desktopFile == path
    && (app.actionId.None? ==>
          app.name == main.name && app.exec == main.exec && app.comment == main.comment && app.icon == main.icon)
    && (app.actionId.Some? ==> app.actionId.value in actions && ActionFields(main, actions[app.actionId.value], app))
  }

  predicate Faithful(entries: CacheEntries, t: Tagged)
  {
    t.source < |entries| && entries[t.source].1.mainEntry.Some?
    && FaithfulTo(entries[t.source].0, entries[t.source].1.mainEntry.value, entries[t.source].1.actions, t.app)
  }

  /** An entry reached through the association list: it comes from the first position of its id, which
      resolves to its file; its priority is that position, and it is the default exactly when it is the
      main entry of position 0. */
  predicate XdgFact(entries: CacheEntries, ids: seq<string>, t: Tagged)
  {
    t.app.isXdg && 0 <= t.rank < |ids| && ids[t.rank] == t.id
    && (forall k :: 0 <= k < t.rank ==> ids[k] != t.id)
    && FindDesktopFile(entries, t.id) == Some(t.source) && t.app.xdgPriority == Saturate(t.rank)
    && (t.app.isDefault <==> t.rank == 0 && t.app.actionId.None?)
  }

  /** An available entry: not associated, priority -1, not the default, from a file that declares the type,
      under the file name of its path. */
  predicate AvailFact(entries: CacheEntries, mime: string, t: Tagged)
  {
    !t.app.isXdg && t.app.xdgPriority == -1 && !t.app.isDefault && t.rank == -1
    && t.source < |entries| && entries[t.source].1.mainEntry.Some?
    && mime in entries[t.source].1.mainEntry.value.mimeTypes && t.id == FileId(entries[t.source].0)
  }

  /** Each action entry directly follows an entry of the same file and id (its parent or a sibling). */
  predicate ActionsFollow(ts: seq<Tagged>)
  {
    forall i :: 0 <= i < |ts| && ts[i].app.actionId.Some? ==>
      i > 0 && ts[i - 1].source == ts[i].source && ts[i - 1].id == ts[i].id && ts[i - 1].rank == ts[i].rank
  }

  /** No desktop id has two main entries. */
  predicate MainIdsDistinct(ts: seq<Tagged>)
  {
    forall i, j :: 0 <= i < j < |ts| && ts[i].app.actionId.None? && ts[j].app.actionId.None? ==> ts[i].id != ts[j].id
  }

  predicate IdsSeen(ts: seq<Tagged>, seen: set<string>)
  {
    forall i :: 0 <= i < |ts| ==> ts[i].id in seen
  }

  predicate NoActions(ts: seq<Tagged>)
  {
    forall i :: 0 <= i < |ts| ==> ts[i].app.actionId.None?
  }

  /** What every action entry of a file's block carries. */
  predicate ActionFact(t: Tagged, id: string, src: nat, rank: int, entry: DesktopEntry,
                       actions: map<string, DesktopAction>, path: Path, xdg: bool, priority: int)
  {
    t.id == id && t.source == src && t.rank == rank && t.app.actionId.Some?
    && FaithfulTo(path, entry, actions, t.app) && t.app.isXdg == xdg
    && t.app.xdgPriority == (if xdg then priority else -1) && !t.app.isDefault
  }

  lemma {:induction false} ActionAppsFacts(id: string, src: nat, rank: int, entry: DesktopEntry,
                                          actions: map<string, DesktopAction>, path: Path, keys: seq<string>,
                                          xdg: bool, priority: int)
    requires forall i :: 0 <= i < |keys| ==> keys[i] in actions
    ensures forall t :: t in ActionApps(id, src, rank, entry, actions, path, keys, xdg, priority) ==>
              ActionFact(t, id, src, rank, entry, actions, path, xdg, priority)
    decreases |keys|
  {
    if keys != [] {
      var r := ActionApps(id, src, rank, entry, actions, path, keys, xdg, priority);
      var tl := ActionApps(id, src, rank, entry, actions, path, keys[1..], xdg, priority);
      ActionAppsFacts(id, src, rank, entry, actions, path, keys[1..], xdg, priority);
      var b := NewBuilder.FromDesktopAction(entry, actions[keys[0]], keys[0], path);
      var hd := Built(id, src, rank, if xdg then b.AsXdg(priority) else b.AsAvailable());
      assert r == hd + tl && |hd| == 1;
      var t := hd[0];
      assert t.app.actionId == Some(keys[0]) && keys[0] in actions;
      assert ActionFields(entry, actions[keys[0]], t.app);
    }
  }

  /** Every visited action key yields exactly one action entry, in key order. */
  lemma {:induction false} ActionAppsOnePerKey(id: string, src: nat, rank: int, entry: DesktopEntry,
                                              actions: map<string, DesktopAction>, path: Path, keys: seq<string>,
                                              xdg: bool, priority: int)
    requires forall i :: 0 <= i < |keys| ==> keys[i] in actions
    ensures var r := ActionApps(id, src, rank, entry, actions, path, keys, xdg, priority);
            |r| == |keys| && forall i :: 0 <= i < |keys| ==> r[i].app.actionId == Some(keys[i])
    decreases |keys|
  {
    if keys != [] {
      var r := ActionApps(id, src, rank, entry, actions, path, keys, xdg, priority);
      var tl := ActionApps(id, src, rank, entry, actions, path, keys[1..], xdg, priority);
      ActionAppsOnePerKey(id, src, rank, entry, actions, path, keys[1..], xdg, priority);
      var b := NewBuilder.FromDesktopAction(entry, actions[keys[0]], keys[0], path);
      var hd := Built(id, src, rank, if xdg then b.AsXdg(priority) else b.AsAvailable());
      assert r == hd + tl && |hd| == 1;
      assert hd[0].app.actionId == Some(keys[0]);
      forall i | 1 <= i < |keys| ensures r[i].app.actionId == Some(keys[i]) {
        assert r[i] == tl[i - 1];
      }
    }
  }

  /** With actions asked for, a file's block is its main entry followed directly by one action entry for
      each of the file's actions and no others. */
  lemma BlockActions(entries: CacheEntries, src: nat, id: string, rank: int, b: ApplicationEntryBuilder,
                     xdg: bool, priority: int)
    requires src < |entries| && entries[src].1.mainEntry.Some? && b.Build().Ok? && b.Build().value.actionId.None?
    ensures var blk := Block(entries, true, src, id, rank, b, xdg, priority);
            |blk| == 1 + |entries[src].1.actions.Keys| && blk[0].app.actionId.None?
    ensures var blk := Block(entries, true, src, id, rank, b, xdg, priority);
            forall a :: a in entries[src].1.actions <==> exists i :: 1 <= i < |blk| && blk[i].app.actionId == Some(a)
    ensures var blk := Block(entries, true, src, id, rank, b, xdg, priority);
            forall i, j :: 1 <= i < j < |blk| ==> blk[i].app.actionId != blk[j].app.actionId
  {
    var file := entries[src].1;
    var keys := ActionKeys(file);
    var blk := Block(entries, true, src, id, rank, b, xdg, priority);
    var acts := ActionApps(id, src, rank, file.mainEntry.value, file.actions, entries[src].0, keys, xdg, priority);
    ActionAppsOnePerKey(id, src, rank, file.mainEntry.value, file.actions, entries[src].0, keys, xdg, priority);
    SortedKeysSorted(file.actions.Keys);
    BlockWithActions(entries, src, id, rank, b, xdg, priority);
    forall i | 1 <= i < |blk| ensures blk[i].app.actionId == Some(keys[i - 1]) {
      assert blk[i] == acts[i - 1];
    }
    KeyedTail(blk, keys, file.actions.Keys);
  }

  lemma BlockWithActions(entries: CacheEntries, src: nat, id: string, rank: int, b: ApplicationEntryBuilder,
                         xdg: bool, priority: int)
    requires src < |entries| && entries[src].1.mainEntry.Some? && b.Build().Ok?
    ensures var file := entries[src].1;
            Block(entries, true, src, id, rank, b, xdg, priority)
            == [Tagged(id, src, rank, b.Build().value)]
               + ActionApps(id, src, rank, file.mainEntry.value, file.actions, entries[src].0, ActionKeys(file), xdg, priority)
  {
    assert Built(id, src, rank, b) == [Tagged(id, src, rank, b.Build().value)];
  }

  /** A main entry followed by one entry per key of a list of distinct keys holds exactly those keys, once
      each. */
  lemma KeyedTail(blk: seq<Tagged>, keys: seq<string>, ks: set<string>)
    requires |blk| == 1 + |keys| && |keys| == |ks| && (forall k :: k in ks <==> k in keys)
    requires forall i, j :: 0 <= i < j < |keys| ==> keys[i] != keys[j]
    requires forall i :: 1 <= i < |blk| ==> blk[i].app.actionId == Some(keys[i - 1])
    ensures forall a :: a in ks <==> exists i :: 1 <= i < |blk| && blk[i].app.actionId == Some(a)
    ensures forall i, j :: 1 <= i < j < |blk| ==> blk[i].app.actionId != blk[j].app.actionId
  {
    forall a | a in ks ensures exists i :: 1 <= i < |blk| && blk[i].app.actionId == Some(a) {
      var j :| 0 <= j < |keys| && keys[j] == a;
      assert blk[j + 1].app.actionId == Some(a);
    }
    forall a | exists i :: 1 <= i < |blk| && blk[i].app.actionId == Some(a) ensures a in ks {
      var i :| 1 <= i < |blk| && blk[i].app.actionId == Some(a);
      assert keys[i - 1] == a;
    }
    forall i, j | 1 <= i < j < |blk| ensures blk[i].app.actionId != blk[j].app.actionId {
      assert keys[i - 1] != keys[j - 1];
    }
  }

  /** A block is one main entry followed by action entries, all for one id, file and rank. */
  predicate BlockShape(blk: seq<Tagged>, id: string, src: nat, rank: int)
  {
    |blk| >= 1 && blk[0].app.actionId.None?
    && forall i :: 0 <= i < |blk| ==>
         blk[i].id == id && blk[i].source == src && blk[i].rank == rank && (i > 0 ==> blk[i].app.actionId.Some?)
  }

  lemma AppendBlock(ts: seq<Tagged>, blk: seq<Tagged>, seen: set<string>, id: string, src: nat, rank: int)
    requires ActionsFollow(ts) && MainIdsDistinct(ts) && IdsSeen(ts, seen) && id !in seen
    requires BlockShape(blk, id, src, rank)
    ensures ActionsFollow(ts + blk) && MainIdsDistinct(ts + blk) && IdsSeen(ts + blk, seen + {id})
  {
    var r := ts + blk;
    forall i, j | 0 <= i < j < |r| && r[i].app.actionId.None? && r[j].app.actionId.None?
      ensures r[i].id != r[j].id
    {
      if j >= |ts| {
        assert j == |ts|;
        if i < |ts| { assert r[i].id in seen; }
      }
    }
  }

  /** The entries one resolved file contributes: its main entry, then its actions when they are asked for. */
  function Block(entries: CacheEntries, includeActions: bool, src: nat, id: string, rank: int,
                 b: ApplicationEntryBuilder, xdg: bool, priority: int): seq<Tagged>
    requires src < |entries| && entries[src].1.mainEntry.Some?
  {
    var file := entries[src].1;
    Built(id, src, rank, b)
    + (if includeActions
       then ActionApps(id, src, rank, file.mainEntry.value, file.actions, entries[src].0, ActionKeys(file), xdg, priority)
       else [])
  }

  lemma BlockFacts(entries: CacheEntries, includeActions: bool, src: nat, id: string, rank: int,
                   b: ApplicationEntryBuilder, xdg: bool, priority: int)
    requires src < |entries| && entries[src].1.mainEntry.Some?
    requires b.Build().Ok? && b.Build().value.isXdg == xdg && b.Build().value.actionId.None?
    requires var file := entries[src].1;
             FaithfulTo(entries[src].0, file.mainEntry.value, file.actions, b.Build().value)
    ensures var blk := Block(entries, includeActions, src, id, rank, b, xdg, priority);
            BlockShape(blk, id, src, rank) && (!includeActions ==> NoActions(blk))
            && (forall i :: 0 <= i < |blk| ==> Faithful(entries, blk[i]) && blk[i].app.isXdg == xdg)
            && (forall i :: 0 < i < |blk| ==> blk[i].app.xdgPriority == (if xdg then priority else -1)
                                               && !blk[i].app.isDefault)
  {
    var file := entries[src].1;
    var path := entries[src].0;
    var entry := file.mainEntry.value;
    var blk := Block(entries, includeActions, src, id, rank, b, xdg, priority);
    var main := Built(id, src, rank, b);
    var acts := if includeActions then ActionApps(id, src, rank, entry, file.actions, path, ActionKeys(file), xdg, priority)
                else [];
    assert main == [Tagged(id, src, rank, b.Build().value)];
    assert blk == main + acts;
    ActionAppsFacts(id, src, rank, entry, file.actions, path, ActionKeys(file), xdg, priority);
    forall i | 0 <= i < |blk|
      ensures blk[i].id == id && blk[i].source == src && blk[i].rank == rank && (i > 0 ==> blk[i].app.actionId.Some?)
      ensures Faithful(entries, blk[i]) && blk[i].app.isXdg == xdg
      ensures i > 0 ==> blk[i].app.xdgPriority == (if xdg then priority else -1) && !blk[i].app.isDefault
    {
      if i > 0 {
        assert blk[i] == acts[i - 1] && acts[i - 1] in acts;
      }
    }
  }

  predicate XdgInv(entries: CacheEntries, includeActions: bool, ids: seq<string>, acc: Acc, k: nat)
  {
    k <= |ids|
    && (forall i :: 0 <= i < |acc.out| ==>
          Faithful(entries, acc.out[i]) && XdgFact(entries, ids, acc.out[i]) && acc.out[i].rank < k)
    && IdsSeen(acc.out, acc.seen) && ActionsFollow(acc.out) && MainIdsDistinct(acc.out)
    && (!includeActions ==> NoActions(acc.out))
    && (forall j :: 0 <= j < k && FindDesktopFile(entries, ids[j]).Some? ==> ids[j] in acc.seen)
  }

  /** The builder of the main entry for association position `k`. */
  function XdgBuilder(entry: DesktopEntry, path: Path, k: nat): ApplicationEntryBuilder
  {
    var b := NewBuilder.FromDesktopEntry(entry, path).AsXdg(Saturate(k));
    if k == 0 then b.AsXdgDefault() else b
  }

  /** The block of a first-seen resolvable id at position `k` meets the per-entry facts. */
  lemma XdgBlockFacts(entries: CacheEntries, includeActions: bool, ids: seq<string>, k: nat, src: nat)
    requires k < |ids| && FindDesktopFile(entries, ids[k]) == Some(src) && entries[src].1.mainEntry.Some?
    requires forall j :: 0 <= j < k ==> ids[j] != ids[k]
    ensures var blk := Block(entries, includeActions, src, ids[k], k,
                             XdgBuilder(entries[src].1.mainEntry.value, entries[src].0, k), true, Saturate(k));
            BlockShape(blk, ids[k], src, k) && (!includeActions ==> NoActions(blk))
            && forall i :: 0 <= i < |blk| ==> Faithful(entries, blk[i]) && XdgFact(entries, ids, blk[i])
  {
    BlockFacts(entries, includeActions, src, ids[k], k,
               XdgBuilder(entries[src].1.mainEntry.value, entries[src].0, k), true, Saturate(k));
  }

  lemma XdgPushInv(entries: CacheEntries, includeActions: bool, ids: seq<string>, acc: Acc, k: nat,
                   blk: seq<Tagged>, src: nat)
    requires XdgInv(entries, includeActions, ids, acc, k) && k < |ids| && ids[k] !in acc.seen
    requires BlockShape(blk, ids[k], src, k) && (!includeActions ==> NoActions(blk))
    requires forall i :: 0 <= i < |blk| ==> Faithful(entries, blk[i]) && XdgFact(entries, ids, blk[i])
    ensures XdgInv(entries, includeActions, ids, Acc(acc.out + blk, acc.seen + {ids[k]}), k + 1)
  {
    AppendBlock(acc.out, blk, acc.seen, ids[k], src, k);
    var out := acc.out + blk;
    forall i | 0 <= i < |out| ensures Faithful(entries, out[i]) && XdgFact(entries, ids, out[i]) && out[i].rank < k + 1 {
      if i >= |acc.out| {
        assert out[i] == blk[i - |acc.out|];
      }
    }
  }

  /** A step that adds nothing keeps the invariant, once the id counts as handled. */
  lemma XdgKeepInv(entries: CacheEntries, includeActions: bool, ids: seq<string>, acc: Acc, k: nat, seen: set<string>)
    requires XdgInv(entries, includeActions, ids, acc, k) && k < |ids| && acc.seen <= seen
    requires FindDesktopFile(entries, ids[k]).Some? ==> ids[k] in seen
    ensures XdgInv(entries, includeActions, ids, Acc(acc.out, seen), k + 1)
  {
  }

  lemma XdgStepPush(entries: CacheEntries, includeActions: bool, ids: seq<string>, acc: Acc, k: nat, src: nat)
    requires XdgInv(entries, includeActions, ids, acc, k) && k < |ids| && ids[k] !in acc.seen
    requires FindDesktopFile(entries, ids[k]) == Some(src) && entries[src].1.mainEntry.Some?
    ensures XdgInv(entries, includeActions, ids, XdgStep(entries, includeActions, acc, ids[k], k), k + 1)
  {
    var id := ids[k];
    assert forall j :: 0 <= j < k ==> ids[j] != id;
    XdgBlockFacts(entries, includeActions, ids, k, src);
    var blk := Block(entries, includeActions, src, id, k,
                     XdgBuilder(entries[src].1.mainEntry.value, entries[src].0, k), true, Saturate(k));
    XdgStepIsBlock(entries, includeActions, acc, id, k, src);
    XdgPushInv(entries, includeActions, ids, acc, k, blk, src);
  }

  /** The step for a first-seen id that resolves to a file with a main entry appends that file's block. */
  lemma XdgStepIsBlock(entries: CacheEntries, includeActions: bool, acc: Acc, id: string, k: nat, src: nat)
    requires FindDesktopFile(entries, id) == Some(src) && id !in acc.seen && entries[src].1.mainEntry.Some?
    ensures XdgStep(entries, includeActions, acc, id, k)
            == Acc(acc.out + Block(entries, includeActions, src, id, k,
                                   XdgBuilder(entries[src].1.mainEntry.value, entries[src].0, k), true, Saturate(k)),
                   acc.seen + {id})
  {
    var file := entries[src].1;
    var entry := file.mainEntry.value;
    var main := Built(id, src, k, XdgBuilder(entry, entries[src].0, k));
    var actions := if includeActions
                   then ActionApps(id, src, k, entry, file.actions, entries[src].0, ActionKeys(file), true, Saturate(k))
                   else [];
    assert acc.out + main + actions == acc.out + (main + actions);
  }

  lemma XdgStepInv(entries: CacheEntries, includeActions: bool, ids: seq<string>, acc: Acc, k: nat)
    requires XdgInv(entries, includeActions, ids, acc, k) && k < |ids|
    ensures XdgInv(entries, includeActions, ids, XdgStep(entries, includeActions, acc, ids[k], k), k + 1)
  {
    var id := ids[k];
    var found := FindDesktopFile(entries, id);
    if found.None? || id in acc.seen {
      XdgKeepInv(entries, includeActions, ids, acc, k, acc.seen);
    } else if entries[found.value].1.mainEntry.None? {
      XdgKeepInv(entries, includeActions, ids, acc, k, acc.seen + {id});
    } else {
      XdgStepPush(entries, includeActions, ids, acc, k, found.value);
    }
  }

  lemma {:induction false} XdgFoldInv(entries: CacheEntries, includeActions: bool, ids: seq<string>, acc: Acc, k: nat)
    requires XdgInv(entries, includeActions, ids, acc, k)
    ensures XdgInv(entries, includeActions, ids, XdgFold(entries, includeActions, ids, acc, k), |ids|)
    decreases |ids| - k
  {
    if k < |ids| {
      XdgStepInv(entries, includeActions, ids, acc, k);
      XdgFoldInv(entries, includeActions, ids, XdgStep(entries, includeActions, acc, ids[k], k), k + 1);
    }
  }

  /** The available part after `n` associated entries. */
  predicate AvailInv(entries: CacheEntries, mime: string, includeActions: bool, ids: seq<string>, acc: Acc, n: nat)
  {
    n <= |acc.out|
    && (forall i :: 0 <= i < |acc.out| ==> Faithful(entries, acc.out[i]))
    && (forall i :: 0 <= i < n ==> XdgFact(entries, ids, acc.out[i]))
    && (forall i :: n <= i < |acc.out| ==> AvailFact(entries, mime, acc.out[i]))
    && IdsSeen(acc.out, acc.seen) && ActionsFollow(acc.out) && MainIdsDistinct(acc.out)
    && (!includeActions ==> NoActions(acc.out))
  }

  lemma AvailBlockFacts(entries: CacheEntries, mime: string, includeActions: bool, src: nat)
    requires src < |entries| && entries[src].1.mainEntry.Some? && mime in entries[src].1.mainEntry.value.mimeTypes
    ensures var id := FileId(entries[src].0);
            var blk := Block(entries, includeActions, src, id, -1,
                             NewBuilder.FromDesktopEntry(entries[src].1.mainEntry.value, entries[src].0).AsAvailable(),
                             false, -1);
            BlockShape(blk, id, src, -1) && (!includeActions ==> NoActions(blk))
            && forall i :: 0 <= i < |blk| ==> Faithful(entries, blk[i]) && AvailFact(entries, mime, blk[i])
  {
    BlockFacts(entries, includeActions, src, FileId(entries[src].0), -1,
               NewBuilder.FromDesktopEntry(entries[src].1.mainEntry.value, entries[src].0).AsAvailable(), false, -1);
  }

  lemma AvailPushInv(entries: CacheEntries, mime: string, includeActions: bool, ids: seq<string>, acc: Acc, n: nat,
                     blk: seq<Tagged>, id: string, src: nat)
    requires AvailInv(entries, mime, includeActions, ids, acc, n) && id !in acc.seen
    requires BlockShape(blk, id, src, -1) && (!includeActions ==> NoActions(blk))
    requires forall i :: 0 <= i < |blk| ==> Faithful(entries, blk[i]) && AvailFact(entries, mime, blk[i])
    ensures AvailInv(entries, mime, includeActions, ids, Acc(acc.out + blk, acc.seen + {id}), n)
  {
    AppendBlock(acc.out, blk, acc.seen, id, src, -1);
    var out := acc.out + blk;
    forall i | 0 <= i < |out| ensures Faithful(entries, out[i]) && (n <= i ==> AvailFact(entries, mime, out[i])) {
      if i >= |acc.out| {
        assert out[i] == blk[i - |acc.out|];
      }
    }
  }

  lemma AvailStepPush(entries: CacheEntries, mime: string, includeActions: bool, ids: seq<string>, acc: Acc, n: nat, src: nat)
    requires AvailInv(entries, mime, includeActions, ids, acc, n) && src < |entries|
    requires entries[src].1.mainEntry.Some? && mime in entries[src].1.mainEntry.value.mimeTypes
    requires FileId(entries[src].0) !in acc.seen
    ensures AvailInv(entries, mime, includeActions, ids, AvailStep(entries, mime, includeActions, acc, src), n)
  {
    var path := entries[src].0;
    var id := FileId(path);
    AvailBlockFacts(entries, mime, includeActions, src);
    var blk := Block(entries, includeActions, src, id, -1,
                     NewBuilder.FromDesktopEntry(entries[src].1.mainEntry.value, path).AsAvailable(), false, -1);
    AvailStepIsBlock(entries, mime, includeActions, acc, src);
    AvailPushInv(entries, mime, includeActions, ids, acc, n, blk, id, src);
  }

  lemma AvailStepInv(entries: CacheEntries, mime: string, includeActions: bool, ids: seq<string>, acc: Acc, n: nat, src: nat)
    requires AvailInv(entries, mime, includeActions, ids, acc, n) && src < |entries|
    ensures AvailInv(entries, mime, includeActions, ids, AvailStep(entries, mime, includeActions, acc, src), n)
  {
    var file := entries[src].1;
    if file.mainEntry.Some? && mime in file.mainEntry.value.mimeTypes && FileId(entries[src].0) !in acc.seen {
      AvailStepPush(entries, mime, includeActions, ids, acc, n, src);
    } else {
      assert AvailStep(entries, mime, includeActions, acc, src) == acc;
    }
  }

  lemma {:induction false} AvailFoldInv(entries: CacheEntries, mime: string, includeActions: bool, ids: seq<string>,
                                        acc: Acc, n: nat, src: nat)
    requires AvailInv(entries, mime, includeActions, ids, acc, n) && src <= |entries|
    ensures AvailInv(entries, mime, includeActions, ids, AvailFold(entries, mime, includeActions, acc, src), n)
    decreases |entries| - src
  {
    if src < |entries| {
      AvailStepInv(entries, mime, includeActions, ids, acc, n, src);
      AvailFoldInv(entries, mime, includeActions, ids, AvailStep(entries, mime, includeActions, acc, src), n, src + 1);
    }
  }

  /** What `find_for_mime` promises: associated entries first, then available ones; each entry describes
      its file; associated entries carry their list position as priority and only position 0's main
      entry is the default; available entries declare the type; no desktop id has two main entries;
      actions directly follow their parent, and there are none unless they were asked for. */
  lemma RankedFacts(entries: CacheEntries, associations: map<string, seq<string>>, mime: string, includeActions: bool)
    ensures var r := Ranked(entries, associations, mime, includeActions);
            var ids := MimeAssociations.GetAssociations(associations, mime);
            (forall i, j :: 0 <= i < j < |r| && r[j].app.isXdg ==> r[i].app.isXdg)
            && (forall i :: 0 <= i < |r| ==> Faithful(entries, r[i]))
            && (forall i :: 0 <= i < |r| && r[i].app.isXdg ==> XdgFact(entries, ids, r[i]))
            && (forall i :: 0 <= i < |r| && !r[i].app.isXdg ==> AvailFact(entries, mime, r[i]))
            && ActionsFollow(r) && MainIdsDistinct(r) && (!includeActions ==> NoActions(r))
  {
    var ids := MimeAssociations.GetAssociations(associations, mime);
    XdgFoldInv(entries, includeActions, ids, Acc([], {}), 0);
    var x := XdgFold(entries, includeActions, ids, Acc([], {}), 0);
    AvailFoldInv(entries, mime, includeActions, ids, x, |x.out|, 0);
    AvailInvFacts(entries, mime, includeActions, ids, AvailFold(entries, mime, includeActions, x, 0), |x.out|);
  }

  /** The final invariant read as the promised facts: the first `n` entries are associated, the rest not. */
  lemma AvailInvFacts(entries: CacheEntries, mime: string, includeActions: bool, ids: seq<string>, acc: Acc, n: nat)
    requires AvailInv(entries, mime, includeActions, ids, acc, n)
    ensures var r := acc.out;
            (forall i, j :: 0 <= i < j < |r| && r[j].app.isXdg ==> r[i].app.isXdg)
            && (forall i :: 0 <= i < |r| ==> Faithful(entries, r[i]))
            && (forall i :: 0 <= i < |r| && r[i].app.isXdg ==> XdgFact(entries, ids, r[i]))
            && (forall i :: 0 <= i < |r| && !r[i].app.isXdg ==> AvailFact(entries, mime, r[i]))
            && ActionsFollow(r) && MainIdsDistinct(r) && (!includeActions ==> NoActions(r))
  {
    var r := acc.out;
    assert forall i :: 0 <= i < |r| ==> (r[i].app.isXdg <==> i < n);
  }

  // ---------------------------------------------------------------------------
  // Completeness and order of the ranking

  /** A cached file with a main entry that declares the type. */
  predicate Declares(entries: CacheEntries, mime: string, s: nat)
  {
    s < |entries| && entries[s].1.mainEntry.Some? && mime in entries[s].1.mainEntry.value.mimeTypes
  }

  /** An id the first loop marks as seen: it is in the association list and `find_desktop_file` resolves
      it, whether or not its file has a main entry. */
  predicate Claimed(entries: CacheEntries, ids: seq<string>, id: string)
  {
    id in ids && FindDesktopFile(entries, id).Some?
  }

  /** Some associated main entry of `ts` is the one for position `k`, id `id` and cache slot `src`. */
  predicate ListedAt(ts: seq<Tagged>, id: string, k: nat, src: nat)
  {
    exists i :: 0 <= i < |ts| && ts[i].id == id && ts[i].rank == k && ts[i].source == src
                && ts[i].app.isXdg && ts[i].app.actionId.None?
  }

  /** Some available main entry of `ts`, at or after `n`, is the one for id `id`. */
  predicate ListedAvail(ts: seq<Tagged>, n: nat, id: string)
  {
    exists i :: n <= i < |ts| && ts[i].id == id && !ts[i].app.isXdg && ts[i].app.actionId.None?
  }

  lemma ListedAtPrefix(ts: seq<Tagged>, us: seq<Tagged>, id: string, k: nat, src: nat)
    requires ListedAt(ts, id, k, src) && ts <= us
    ensures ListedAt(us, id, k, src)
  {
    var i :| 0 <= i < |ts| && ts[i].id == id && ts[i].rank == k && ts[i].source == src
             && ts[i].app.isXdg && ts[i].app.actionId.None?;
    assert us[i] == ts[i];
  }

  lemma ListedAvailPrefix(ts: seq<Tagged>, us: seq<Tagged>, n: nat, id: string)
    requires ListedAvail(ts, n, id) && ts <= us
    ensures ListedAvail(us, 0, id)
  {
    var i :| n <= i < |ts| && ts[i].id == id && !ts[i].app.isXdg && ts[i].app.actionId.None?;
    assert us[i] == ts[i];
  }

  /** The first loop in list order: ranks never decrease, `seen` is exactly the resolvable ids so far,
      and every first position of an id whose file has a main entry has been listed. */
  ghost predicate XdgOrderInv(entries: CacheEntries, ids: seq<string>, acc: Acc, k: nat)
  {
    k <= |ids|
    && (forall i, j :: 0 <= i < j < |acc.out| ==> acc.out[i].rank <= acc.out[j].rank)
    && (forall y :: y in acc.seen <==> y in ids[..k] && FindDesktopFile(entries, y).Some?)
    && (forall j :: 0 <= j < k && ids[j] !in ids[..j] && FindDesktopFile(entries, ids[j]).Some?
                    && entries[FindDesktopFile(entries, ids[j]).value].1.mainEntry.Some? ==>
                    ListedAt(acc.out, ids[j], j, FindDesktopFile(entries, ids[j]).value))
  }

  lemma XdgOrderPush(entries: CacheEntries, ids: seq<string>, acc: Acc, k: nat, blk: seq<Tagged>, src: nat)
    requires XdgOrderInv(entries, ids, acc, k) && k < |ids| && ids[k] !in acc.seen
    requires forall i :: 0 <= i < |acc.out| ==> acc.out[i].rank < k
    requires FindDesktopFile(entries, ids[k]) == Some(src)
    requires BlockShape(blk, ids[k], src, k) && blk[0].app.isXdg
    ensures XdgOrderInv(entries, ids, Acc(acc.out + blk, acc.seen + {ids[k]}), k + 1)
  {
    var out := acc.out + blk;
    assert ids[..k + 1] == ids[..k] + [ids[k]];
    forall i, j | 0 <= i < j < |out| ensures out[i].rank <= out[j].rank {
      if j >= |acc.out| {
        assert out[j] == blk[j - |acc.out|];
        if i >= |acc.out| { assert out[i] == blk[i - |acc.out|]; }
      }
    }
    forall j | 0 <= j < k + 1 && ids[j] !in ids[..j] && FindDesktopFile(entries, ids[j]).Some?
               && entries[FindDesktopFile(entries, ids[j]).value].1.mainEntry.Some?
      ensures ListedAt(out, ids[j], j, FindDesktopFile(entries, ids[j]).value)
    {
      if j < k {
        ListedAtPrefix(acc.out, out, ids[j], j, FindDesktopFile(entries, ids[j]).value);
      } else {
        assert out[|acc.out|] == blk[0];
      }
    }
  }

  /** A step that lists nothing: the id is unresolvable, already seen, or its file has no main entry. */
  lemma XdgOrderKeep(entries: CacheEntries, ids: seq<string>, acc: Acc, k: nat)
    requires XdgOrderInv(entries, ids, acc, k) && k < |ids|
    requires FindDesktopFile(entries, ids[k]).None? || ids[k] in acc.seen
             || entries[FindDesktopFile(entries, ids[k]).value].1.mainEntry.None?
    ensures XdgOrderInv(entries, ids, Acc(acc.out, if FindDesktopFile(entries, ids[k]).Some? then acc.seen + {ids[k]} else acc.seen), k + 1)
  {
    assert ids[..k + 1] == ids[..k] + [ids[k]];
  }

  lemma XdgOrderStep(entries: CacheEntries, includeActions: bool, ids: seq<string>, acc: Acc, k: nat)
    requires XdgInv(entries, includeActions, ids, acc, k) && XdgOrderInv(entries, ids, acc, k) && k < |ids|
    ensures XdgOrderInv(entries, ids, XdgStep(entries, includeActions, acc, ids[k], k), k + 1)
  {
    var id := ids[k];
    var found := FindDesktopFile(entries, id);
    if found.None? || id in acc.seen || entries[found.value].1.mainEntry.None? {
      XdgOrderKeep(entries, ids, acc, k);
      assert found.Some? && id in acc.seen ==> acc.seen + {id} == acc.seen;
    } else {
      var src := found.value;
      XdgBlockFacts(entries, includeActions, ids, k, src);
      var blk := Block(entries, includeActions, src, id, k,
                       XdgBuilder(entries[src].1.mainEntry.value, entries[src].0, k), true, Saturate(k));
      XdgStepIsBlock(entries, includeActions, acc, id, k, src);
      XdgOrderPush(entries, ids, acc, k, blk, src);
    }
  }

  lemma {:induction false} XdgOrderFoldInv(entries: CacheEntries, includeActions: bool, ids: seq<string>, acc: Acc, k: nat)
    requires XdgInv(entries, includeActions, ids, acc, k) && XdgOrderInv(entries, ids, acc, k)
    ensures XdgOrderInv(entries, ids, XdgFold(entries, includeActions, ids, acc, k), |ids|)
    decreases |ids| - k
  {
    if k < |ids| {
      XdgStepInv(entries, includeActions, ids, acc, k);
      XdgOrderStep(entries, includeActions, ids, acc, k);
      XdgOrderFoldInv(entries, includeActions, ids, XdgStep(entries, includeActions, acc, ids[k], k), k + 1);
    }
  }

  /** The second loop in cache order after `n` associated entries: sources increase, no listed id is
      `claimed`, every declaring file visited has its id seen, and each id seen beyond `claimed` has an
      available main entry. */
  predicate AvailOrderInv(entries: CacheEntries, mime: string, claimed: set<string>, acc: Acc, n: nat, src: nat)
  {
    n <= |acc.out| && src <= |entries| && claimed <= acc.seen
    && (forall i :: n <= i < |acc.out| ==> acc.out[i].source < src && acc.out[i].id !in claimed)
    && (forall i, j :: n <= i < j < |acc.out| ==> acc.out[i].source <= acc.out[j].source)
    && (forall s :: 0 <= s < src && Declares(entries, mime, s) ==> FileId(entries[s].0) in acc.seen)
    && (forall y :: y in acc.seen && y !in claimed ==> ListedAvail(acc.out, n, y))
  }

  lemma AvailOrderPush(entries: CacheEntries, mime: string, claimed: set<string>, acc: Acc, n: nat, src: nat,
                       blk: seq<Tagged>)
    requires AvailOrderInv(entries, mime, claimed, acc, n, src) && src < |entries|
    requires FileId(entries[src].0) !in acc.seen
    requires BlockShape(blk, FileId(entries[src].0), src, -1) && !blk[0].app.isXdg
    ensures AvailOrderInv(entries, mime, claimed, Acc(acc.out + blk, acc.seen + {FileId(entries[src].0)}), n, src + 1)
  {
    var id := FileId(entries[src].0);
    var out := acc.out + blk;
    AvailOrderSources(entries, mime, claimed, acc, n, src, blk);
    forall y | y in acc.seen + {id} && y !in claimed ensures ListedAvail(out, n, y) {
      if y in acc.seen {
        var i :| n <= i < |acc.out| && acc.out[i].id == y && !acc.out[i].app.isXdg && acc.out[i].app.actionId.None?;
        assert out[i] == acc.out[i];
      } else {
        assert out[|acc.out|] == blk[0];
      }
    }
  }

  lemma AvailOrderSources(entries: CacheEntries, mime: string, claimed: set<string>, acc: Acc, n: nat, src: nat,
                          blk: seq<Tagged>)
    requires AvailOrderInv(entries, mime, claimed, acc, n, src) && src < |entries|
    requires FileId(entries[src].0) !in acc.seen
    requires BlockShape(blk, FileId(entries[src].0), src, -1)
    ensures var out := acc.out + blk;
            (forall i :: n <= i < |out| ==> out[i].source < src + 1 && out[i].id !in claimed)
            && (forall i, j :: n <= i < j < |out| ==> out[i].source <= out[j].source)
  {
    var out := acc.out + blk;
    forall i | n <= i < |out| ensures out[i].source < src + 1 && out[i].id !in claimed {
      if i >= |acc.out| { assert out[i] == blk[i - |acc.out|]; }
    }
    forall i, j | n <= i < j < |out| ensures out[i].source <= out[j].source {
      if j >= |acc.out| {
        assert out[j] == blk[j - |acc.out|];
        if i >= |acc.out| { assert out[i] == blk[i - |acc.out|]; }
      }
    }
  }

  lemma AvailOrderStep(entries: CacheEntries, mime: string, includeActions: bool, claimed: set<string>, acc: Acc,
                       n: nat, src: nat)
    requires AvailOrderInv(entries, mime, claimed, acc, n, src) && src < |entries|
    ensures AvailOrderInv(entries, mime, claimed, AvailStep(entries, mime, includeActions, acc, src), n, src + 1)
  {
    var path := entries[src].0;
    var id := FileId(path);
    if Declares(entries, mime, src) && id !in acc.seen {
      AvailBlockFacts(entries, mime, includeActions, src);
      var blk := Block(entries, includeActions, src, id, -1,
                       NewBuilder.FromDesktopEntry(entries[src].1.mainEntry.value, path).AsAvailable(), false, -1);
      AvailStepIsBlock(entries, mime, includeActions, acc, src);
      AvailOrderPush(entries, mime, claimed, acc, n, src, blk);
    } else {
      AvailStepKeeps(entries, mime, includeActions, acc, src);
      AvailOrderKeep(entries, mime, claimed, acc, n, src);
    }
  }

  /** The step for a declaring file whose id is not yet seen appends that file's block. */
  lemma AvailStepIsBlock(entries: CacheEntries, mime: string, includeActions: bool, acc: Acc, src: nat)
    requires Declares(entries, mime, src) && FileId(entries[src].0) !in acc.seen
    ensures AvailStep(entries, mime, includeActions, acc, src)
            == Acc(acc.out + Block(entries, includeActions, src, FileId(entries[src].0), -1,
                                   NewBuilder.FromDesktopEntry(entries[src].1.mainEntry.value, entries[src].0).AsAvailable(),
                                   false, -1),
                   acc.seen + {FileId(entries[src].0)})
  {
  }

  /** Any other file changes nothing. */
  lemma AvailStepKeeps(entries: CacheEntries, mime: string, includeActions: bool, acc: Acc, src: nat)
    requires src < |entries| && !(Declares(entries, mime, src) && FileId(entries[src].0) !in acc.seen)
    ensures AvailStep(entries, mime, includeActions, acc, src) == acc
  {
  }

  lemma AvailOrderKeep(entries: CacheEntries, mime: string, claimed: set<string>, acc: Acc, n: nat, src: nat)
    requires AvailOrderInv(entries, mime, claimed, acc, n, src) && src < |entries|
    requires !(Declares(entries, mime, src) && FileId(entries[src].0) !in acc.seen)
    ensures AvailOrderInv(entries, mime, claimed, acc, n, src + 1)
  {
  }

  lemma {:induction false} AvailOrderFoldInv(entries: CacheEntries, mime: string, includeActions: bool,
                                             claimed: set<string>, acc: Acc, n: nat, src: nat)
    requires AvailOrderInv(entries, mime, claimed, acc, n, src)
    ensures AvailOrderInv(entries, mime, claimed, AvailFold(entries, mime, includeActions, acc, src), n, |entries|)
    decreases |entries| - src
  {
    if src < |entries| {
      AvailOrderStep(entries, mime, includeActions, claimed, acc, n, src);
      AvailOrderFoldInv(entries, mime, includeActions, claimed, AvailStep(entries, mime, includeActions, acc, src), n, src + 1);
    }
  }

  /** The second loop only appends. */
  lemma {:induction false} AvailFoldPrefix(entries: CacheEntries, mime: string, includeActions: bool, acc: Acc, src: nat)
    requires src <= |entries|
    ensures acc.out <= AvailFold(entries, mime, includeActions, acc, src).out
    decreases |entries| - src
  {
    if src < |entries| {
      var next := AvailStep(entries, mime, includeActions, acc, src);
      assert acc.out <= next.out;
      AvailFoldPrefix(entries, mime, includeActions, next, src + 1);
    }
  }

  /** The two phases of the ranking: the associated part `x`, and the whole result extending it, whose
      entries are associated exactly within the first `|x.out|`. */
  lemma RankedPhases(entries: CacheEntries, associations: map<string, seq<string>>, mime: string, includeActions: bool)
    returns (x: Acc)
    ensures var ids := MimeAssociations.GetAssociations(associations, mime);
            var r := Ranked(entries, associations, mime, includeActions);
            x == XdgFold(entries, includeActions, ids, Acc([], {}), 0)
            && XdgOrderInv(entries, ids, x, |ids|) && x.out <= r
            && (forall i :: 0 <= i < |r| ==> (r[i].app.isXdg <==> i < |x.out|))
  {
    var ids := MimeAssociations.GetAssociations(associations, mime);
    x := XdgFold(entries, includeActions, ids, Acc([], {}), 0);
    XdgFoldInv(entries, includeActions, ids, Acc([], {}), 0);
    XdgOrderFoldInv(entries, includeActions, ids, Acc([], {}), 0);
    AvailFoldInv(entries, mime, includeActions, ids, x, |x.out|, 0);
    AvailInvPrefix(entries, mime, includeActions, ids, AvailFold(entries, mime, includeActions, x, 0), |x.out|);
    AvailFoldPrefix(entries, mime, includeActions, x, 0);
  }

  lemma AvailInvPrefix(entries: CacheEntries, mime: string, includeActions: bool, ids: seq<string>, acc: Acc, n: nat)
    requires AvailInv(entries, mime, includeActions, ids, acc, n)
    ensures forall i :: 0 <= i < |acc.out| ==> (acc.out[i].app.isXdg <==> i < n)
  {
    forall i | 0 <= i < |acc.out| ensures acc.out[i].app.isXdg <==> i < n {
      if i < n { assert XdgFact(entries, ids, acc.out[i]); } else { assert AvailFact(entries, mime, acc.out[i]); }
    }
  }

  /** Every associated id that `find_desktop_file` resolves to a file with a main entry is listed, with
      its first position in the list as rank, and associated entries come in list order. */
  lemma RankedListsAssociated(entries: CacheEntries, associations: map<string, seq<string>>, mime: string,
                              includeActions: bool)
    ensures var r := Ranked(entries, associations, mime, includeActions);
            var ids := MimeAssociations.GetAssociations(associations, mime);
            (forall k :: 0 <= k < |ids| && ids[k] !in ids[..k] && FindDesktopFile(entries, ids[k]).Some?
                         && entries[FindDesktopFile(entries, ids[k]).value].1.mainEntry.Some? ==>
                         ListedAt(r, ids[k], k, FindDesktopFile(entries, ids[k]).value))
            && (forall i, j :: 0 <= i < j < |r| && r[j].app.isXdg ==> r[i].rank <= r[j].rank)
  {
    var r := Ranked(entries, associations, mime, includeActions);
    var ids := MimeAssociations.GetAssociations(associations, mime);
    var x := RankedPhases(entries, associations, mime, includeActions);
    forall k | 0 <= k < |ids| && ids[k] !in ids[..k] && FindDesktopFile(entries, ids[k]).Some?
               && entries[FindDesktopFile(entries, ids[k]).value].1.mainEntry.Some?
      ensures ListedAt(r, ids[k], k, FindDesktopFile(entries, ids[k]).value)
    {
      ListedAtPrefix(x.out, r, ids[k], k, FindDesktopFile(entries, ids[k]).value);
    }
    forall i, j | 0 <= i < j < |r| && r[j].app.isXdg ensures r[i].rank <= r[j].rank {
      assert r[i] == x.out[i] && r[j] == x.out[j];
    }
  }

  /** Every declaring file whose id the association list does not claim has an available main entry
      for that id; no available entry has a claimed id; and available entries come in cache order,
      after all associated ones. */
  lemma RankedListsDeclaring(entries: CacheEntries, associations: map<string, seq<string>>, mime: string,
                             includeActions: bool)
    ensures var r := Ranked(entries, associations, mime, includeActions);
            var ids := MimeAssociations.GetAssociations(associations, mime);
            (forall s :: 0 <= s < |entries| && Declares(entries, mime, s) && !Claimed(entries, ids, FileId(entries[s].0)) ==>
                         ListedAvail(r, 0, FileId(entries[s].0)))
            && (forall i :: 0 <= i < |r| && !r[i].app.isXdg ==> !Claimed(entries, ids, r[i].id))
            && (forall i, j :: 0 <= i < j < |r| && !r[i].app.isXdg ==> !r[j].app.isXdg && r[i].source <= r[j].source)
  {
    var r := Ranked(entries, associations, mime, includeActions);
    var ids := MimeAssociations.GetAssociations(associations, mime);
    var x := RankedPhases(entries, associations, mime, includeActions);
    var n := |x.out|;
    assert ids[..|ids|] == ids;
    assert forall y :: y in x.seen <==> Claimed(entries, ids, y);
    assert AvailOrderInv(entries, mime, x.seen, x, n, 0);
    AvailOrderFoldInv(entries, mime, includeActions, x.seen, x, n, 0);
    var fin := AvailFold(entries, mime, includeActions, x, 0);
    assert fin.out == r;
    forall s | 0 <= s < |entries| && Declares(entries, mime, s) && !Claimed(entries, ids, FileId(entries[s].0))
      ensures ListedAvail(r, 0, FileId(entries[s].0))
    {
      ListedAvailPrefix(r, r, n, FileId(entries[s].0));
    }
  }

  /** At most one result is the default, and it is the main entry of the first associated id. */
  lemma OneDefault(entries: CacheEntries, associations: map<string, seq<string>>, mime: string, includeActions: bool)
    ensures var r := Ranked(entries, associations, mime, includeActions);
            var ids := MimeAssociations.GetAssociations(associations, mime);
            forall i, j :: 0 <= i < |r| && 0 <= j < |r| && r[i].app.isDefault && r[j].app.isDefault ==>
              i == j && 0 < |ids| && r[i].id == ids[0] && r[i].app.xdgPriority == 0 && r[i].app.actionId.None?
  {
    RankedFacts(entries, associations, mime, includeActions);
  }

  lemma {:induction false} XdgFoldUnresolved(entries: CacheEntries, includeActions: bool, ids: seq<string>, acc: Acc, k: nat)
    requires k <= |ids| && forall j :: k <= j < |ids| ==> FindDesktopFile(entries, ids[j]).None?
    ensures XdgFold(entries, includeActions, ids, acc, k) == acc
    decreases |ids| - k
  {
    if k < |ids| {
      XdgFoldUnresolved(entries, includeActions, ids, acc, k + 1);
    }
  }

  lemma {:induction false} AvailFoldUndeclared(entries: CacheEntries, mime: string, includeActions: bool, acc: Acc, src: nat)
    requires src <= |entries|
    requires forall i :: src <= i < |entries| && entries[i].1.mainEntry.Some? ==>
               mime !in entries[i].1.mainEntry.value.mimeTypes
    ensures AvailFold(entries, mime, includeActions, acc, src) == acc
    decreases |entries| - src
  {
    if src < |entries| {
      AvailFoldUndeclared(entries, mime, includeActions, acc, src + 1);
    }
  }

  /** Nothing is found in an empty cache, nor for a type that is neither associated nor declared. */
  lemma NothingToFind(entries: CacheEntries, associations: map<string, seq<string>>, mime: string, includeActions: bool)
    requires entries == [] ||
             (MimeAssociations.GetAssociations(associations, mime) == []
              && forall i :: 0 <= i < |entries| && entries[i].1.mainEntry.Some? ==>
                   mime !in entries[i].1.mainEntry.value.mimeTypes)
    ensures Ranked(entries, associations, mime, includeActions) == []
  {
    var ids := MimeAssociations.GetAssociations(associations, mime);
    XdgFoldUnresolved(entries, includeActions, ids, Acc([], {}), 0);
    AvailFoldUndeclared(entries, mime, includeActions, Acc([], {}), 0);
  }
}
