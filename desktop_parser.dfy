/** Desktop entry files: a line-oriented reader that collects `key=value` fields per section,
    builds the main entry from `[Desktop Entry]` (failing the whole file when it lacks a name or a
    command) and one action per complete `[Desktop Action <id>]` block (dropping broken ones). */
module DesktopParser {
  import opened Util

  const EntryHeader: string := "[Desktop Entry]"
  const ActionPrefix: string := "[Desktop Action "
  const DefaultEntryType: string := "Application"

  datatype DesktopEntry = DesktopEntry(
    entryType: string,
    version: Option<string>,
    name: string,
    genericName: Option<string>,
    exec: string,
    comment: Option<string>,
    icon: Option<string>,
    noDisplay: bool,
    hidden: bool,
    onlyShowIn: seq<string>,
    notShowIn: seq<string>,
    dbusActivatable: bool,
    tryExec: Option<string>,
    path: Option<string>,
    terminal: bool,
    mimeTypes: seq<string>,
    categories: seq<string>,
    implements: seq<string>,
    keywords: seq<string>,
    startupNotify: bool,
    startupWmClass: Option<string>,
    url: Option<string>,
    prefersNonDefaultGpu: bool,
    singleMainWindow: bool,
    actions: seq<string>)

  datatype DesktopAction = DesktopAction(name: string, exec: string, icon: Option<string>)

  datatype DesktopFile = DesktopFile(mainEntry: Option<DesktopEntry>, actions: map<string, DesktopAction>)

  type Fields = map<string, string>

  function Get(fields: Fields, key: string): Option<string>
  {
    if key in fields then Some(fields[key]) else None
  }

  // ---------------------------------------------------------------------------
  // Typed field readers

  /** `parse_bool`: a trimmed, case-insensitive `true`; anything else, or nothing, is false. */
  function ParseBool(value: Option<string>): bool
  {
    match value
    case None => false
    case Some(s) =>
      var t := Trim(s);
      if t == [] then false
      else if EqIgnoreAsciiCase(t, "true") then true
      else if EqIgnoreAsciiCase(t, "false") then false
      else false
  }

  /** `parse_list`: the `;`-separated items, trimmed, without empty ones, in order. */
  function ParseList(value: Option<string>): seq<string>
  {
    match value
    case None => []
    case Some(s) => NonBlankPieces(Split(s, ';'))
  }

  /** `parse_optional_string`: the trimmed value, or nothing when it is absent or blank. */
  function ParseOptionalString(value: Option<string>): Option<string>
  {
    match value
    case None => None
    case Some(s) => if Trim(s) == [] then None else Some(Trim(s))
  }

  function OrElse(o: Option<string>, d: string): string
  {
    if o.Some? then o.value else d
  }

  /** `build_desktop_entry`: `Name` (non-blank) is checked first, then `Exec` (present, non-blank). */
  function BuildDesktopEntry(fields: Fields): Result<DesktopEntry, string>
  {
    var entryType := OrElse(ParseOptionalString(Get(fields, "Type")), DefaultEntryType);
    var name := ParseOptionalString(Get(fields, "Name"));
    if name.None? then Err("Missing Name field")
    else if "Exec" !in fields then Err("Missing Exec field")
    else if Trim(fields["Exec"]) == [] then Err("Missing Exec field")
    else Ok(DesktopEntry(
      entryType,
      ParseOptionalString(Get(fields, "Version")),
      name.value,
      ParseOptionalString(Get(fields, "GenericName")),
      fields["Exec"],
      ParseOptionalString(Get(fields, "Comment")),
      ParseOptionalString(Get(fields, "Icon")),
      ParseBool(Get(fields, "NoDisplay")),
      ParseBool(Get(fields, "Hidden")),
      ParseList(Get(fields, "OnlyShowIn")),
      ParseList(Get(fields, "NotShowIn")),
      ParseBool(Get(fields, "DBusActivatable")),
      ParseOptionalString(Get(fields, "TryExec")),
      ParseOptionalString(Get(fields, "Path")),
      ParseBool(Get(fields, "Terminal")),
      ParseList(Get(fields, "MimeType")),
      ParseList(Get(fields, "Categories")),
      ParseList(Get(fields, "Implements")),
      ParseList(Get(fields, "Keywords")),
      ParseBool(Get(fields, "StartupNotify")),
      ParseOptionalString(Get(fields, "StartupWMClass")),
      ParseOptionalString(Get(fields, "URL")),
      ParseBool(Get(fields, "PrefersNonDefaultGPU")),
      ParseBool(Get(fields, "SingleMainWindow")),
      ParseList(Get(fields, "Actions"))))
  }

  /** `build_desktop_action`: `Name` and `Exec` must be present (they may be empty); `Icon` is copied as is. */
  function BuildDesktopAction(fields: Fields): Result<DesktopAction, string>
  {
    if "Name" !in fields then Err("Missing Name field in action")
    else if "Exec" !in fields then Err("Missing Exec field in action")
    else Ok(DesktopAction(fields["Name"], fields["Exec"], Get(fields, "Icon")))
  }

  // ---------------------------------------------------------------------------
  // The line reader

  /** `trim_start_matches`: the prefix removed as often as it repeats. */
  function TrimStartMatches(s: string, p: string): string
    requires p != []
    decreases |s|
  {
    if StartsWith(s, p) then TrimStartMatches(s[|p|..], p) else s
  }

  /** `trim_end_matches` of one character: every trailing copy removed. */
  function TrimEndMatches(s: string, c: char): string
    decreases |s|
  {
    if s != [] && s[|s| - 1] == c then TrimEndMatches(s[..|s| - 1], c) else s
  }

  /** The action id of an action header: the text between the prefix and the closing brackets. */
  function ActionId(header: string): string
  {
    TrimEndMatches(TrimStartMatches(header, ActionPrefix), ']')
  }

  datatype State = State(
    section: string,
    action: string,
    fields: Fields,
    mainEntry: Option<DesktopEntry>,
    actions: map<string, DesktopAction>)

  const Initial := State("", "", map[], None, map[])

  /** Saving the section that ends: the main entry (its failure fails the file), or a complete
      action under a non-empty id (an incomplete one is dropped); any other section saves nothing. */
  function Flush(st: State): Result<State, string>
  {
    if st.section == EntryHeader then
      match BuildDesktopEntry(st.fields)
      case Err(e) => Err(e)
      case Ok(entry) => Ok(st.(mainEntry := Some(entry)))
    else if StartsWith(st.section, ActionPrefix) && st.action != [] then
      match BuildDesktopAction(st.fields)
      case Err(_) => Ok(st)
      case Ok(a) => Ok(st.(actions := st.actions[st.action := a]))
    else Ok(st)
  }

  predicate IsHeader(line: string)
  {
    StartsWith(line, "[") && EndsWith(line, "]")
  }

  /** One line of `DesktopFile::parse`. */
  function Step(st: State, raw: string): Result<State, string>
  {
    var line := Trim(raw);
    if line == [] || line[0] == '#' then Ok(st)
    else if IsHeader(line) then
      match Flush(st)
      case Err(e) => Err(e)
      case Ok(s) =>
        Ok(s.(section := line, fields := map[],
              action := if StartsWith(line, ActionPrefix) then ActionId(line) else s.action))
    else match Find(line, '=')
      case None => Ok(st)
      case Some(eq) => Ok(st.(fields := st.fields[Trim(line[..eq]) := Trim(line[eq + 1..])]))
  }

  function ParseLines(st: State, ls: seq<string>): Result<State, string>
    decreases |ls|
  {
    if ls == [] then Ok(st)
    else match Step(st, ls[0])
      case Err(e) => Err(e)
      case Ok(s) => ParseLines(s, ls[1..])
  }

  /** The whole file: every line, then the last section saved. */
  function ParseContents(contents: string): Result<DesktopFile, string>
  {
    match ParseLines(Initial, Lines(contents))
    case Err(e) => Err(e)
    case Ok(st) =>
      match Flush(st)
      case Err(e) => Err(e)
      case Ok(s) => Ok(DesktopFile(s.mainEntry, s.actions))
  }

  /** `DesktopFile::parse` over the file's contents: the line loop with the current section,
      action id and fields, returning at the first failing main entry. */
  method Parse(contents: string) returns (r: Result<DesktopFile, string>)
    ensures r == ParseContents(contents)
  {
    var ls := Lines(contents);
    var mainEntry: Option<DesktopEntry> := None;
    var actions: map<string, DesktopAction> := map[];
    var currentSection: string := "";
    var currentAction: string := "";
    var currentFields: Fields := map[];
    var i := 0;
    while i < |ls|
      invariant i <= |ls|
      invariant ParseLines(State(currentSection, currentAction, currentFields, mainEntry, actions), ls[i..])
                == ParseLines(Initial, ls)
    {
      var before := State(currentSection, currentAction, currentFields, mainEntry, actions);
      ParseLinesStep(before, ls, i);
      var next := ReadLine(before, ls[i]);
      if next.Err? {
        return Err(next.error);
      }
      currentSection, currentAction, currentFields := next.value.section, next.value.action, next.value.fields;
      mainEntry, actions := next.value.mainEntry, next.value.actions;
      i := i + 1;
    }
    assert ls[i..] == [];
    var last := SaveSection(State(currentSection, currentAction, currentFields, mainEntry, actions));
    if last.Err? {
      return Err(last.error);
    }
    r := Ok(DesktopFile(last.value.mainEntry, last.value.actions));
  }

  lemma ParseLinesStep(st: State, ls: seq<string>, i: nat)
    requires i < |ls|
    ensures ParseLines(st, ls[i..])
            == match Step(st, ls[i]) case Err(e) => Err(e) case Ok(s) => ParseLines(s, ls[i + 1..])
  {
    assert ls[i..][1..] == ls[i + 1..];
  }

  /** The body of the line loop: a comment or blank line is skipped, a header saves the section that
      ends and starts the next, and a `key=value` line records a field of the current section. */
  method ReadLine(st: State, raw: string) returns (r: Result<State, string>)
    ensures r == Step(st, raw)
  {
    var line := Trim(raw);
    if line == [] || line[0] == '#' {
      r := Ok(st);
    } else if StartsWith(line, "[") && EndsWith(line, "]") {
      var saved := SaveSection(st);
      if saved.Err? {
        return Err(saved.error);
      }
      var action := saved.value.action;
      if StartsWith(line, ActionPrefix) {
        action := ActionId(line);
      }
      r := Ok(saved.value.(section := line, fields := map[], action := action));
    } else {
      var eq := Find(line, '=');
      r := Ok(st);
      if eq.Some? {
        r := Ok(st.(fields := st.fields[Trim(line[..eq.value]) := Trim(line[eq.value + 1..])]));
      }
    }
  }

  /** Saving the section that ends, as the parser does at each header and at the end of the file. */
  method SaveSection(st: State) returns (r: Result<State, string>)
    ensures r == Flush(st)
  {
    r := Ok(st);
    if st.section == EntryHeader {
      var entry := BuildDesktopEntry(st.fields);
      if entry.Err? {
        return Err(entry.error);
      }
      r := Ok(st.(mainEntry := Some(entry.value)));
    } else if StartsWith(st.section, ActionPrefix) && st.action != [] {
      var action := BuildDesktopAction(st.fields);
      if action.Ok? {
        r := Ok(st.(actions := st.actions[st.action := action.value]));
      }
    }
  }

  // ---------------------------------------------------------------------------
  // Properties of the typed readers

  /** A boolean field is true exactly when it reads `true` in any letter case, surrounding
      whitespace aside; missing, blank and other values are false. */
  lemma ParseBoolMeaning(value: Option<string>)
    ensures ParseBool(value) <==> value.Some? && EqIgnoreAsciiCase(Trim(value.value), "true")
    ensures ParseBool(Some("TRUE")) && !ParseBool(Some(" ")) && !ParseBool(Some("yes"))
  {
    assert EqIgnoreAsciiCase("TRUE", "true");
    TrimOfTrimmed("TRUE");
    TrimOfTrimmed("yes");
    TrimEmptyIffAllWhitespace(" ");
  }

  /** A list written as items joined by `;` reads back as the items, in order, when each is
      non-empty, trimmed and free of `;`; every item read is such an item. */
  lemma ParseListOfJoin(items: seq<string>)
    requires forall i :: 0 <= i < |items| ==> items[i] != [] && IsTrimmed(items[i]) && ';' !in items[i]
    ensures ParseList(Some(Join(items, ";"))) == items
    ensures ParseList(Some(Join(items, ";") + ";")) == items
  {
    var j := Join(items, ";");
    assert NonBlankPieces([""]) == [] by {
      assert Trim("") == "";
    }
    assert Split(j + ";", ';') == Split(j, ';') + [""] by {
      assert j + ";" == j + [';'] + "";
      SplitConcat(j, ';', "");
      assert Split("", ';') == [""];
    }
    assert NonBlankPieces(Split(j, ';')) == items by {
      if items == [] {
        assert Split("", ';') == [""];
      } else {
        SplitJoin(items, ';');
        NonBlankPiecesOfValid(items);
      }
    }
    NonBlankPiecesConcat(Split(j, ';'), [""]);
  }

  lemma {:induction false} NonBlankPiecesShape(ps: seq<string>)
    ensures forall i :: 0 <= i < |NonBlankPieces(ps)| ==>
              NonBlankPieces(ps)[i] != [] && IsTrimmed(NonBlankPieces(ps)[i])
  {
    if ps != [] {
      NonBlankPiecesShape(ps[1..]);
      TrimChars(ps[0]);
    }
  }

  /** Each item of a list is non-empty and trimmed, and never contains `;`. */
  lemma ParseListItems(value: Option<string>)
    ensures forall i :: 0 <= i < |ParseList(value)| ==>
              ParseList(value)[i] != [] && IsTrimmed(ParseList(value)[i]) && ';' !in ParseList(value)[i]
  {
    if value.Some? {
      var ps := Split(value.value, ';');
      NonBlankPiecesShape(ps);
      NonBlankPiecesNoChar(ps, ';');
    }
  }

  lemma {:induction false} NonBlankPiecesNoChar(ps: seq<string>, c: char)
    requires forall i :: 0 <= i < |ps| ==> c !in ps[i]
    ensures forall i :: 0 <= i < |NonBlankPieces(ps)| ==> c !in NonBlankPieces(ps)[i]
  {
    if ps != [] {
      NonBlankPiecesNoChar(ps[1..], c);
      TrimChars(ps[0]);
    }
  }

  /** An optional string is present exactly when the value is present and not blank; it is then
      the trimmed value, and reading it again changes nothing. */
  lemma ParseOptionalStringMeaning(value: Option<string>)
    ensures var r := ParseOptionalString(value);
            (r.Some? <==> value.Some? && !AllWhitespace(value.value))
            && (r.Some? ==> r.value == Trim(value.value) && IsTrimmed(r.value) && r.value != [])
            && ParseOptionalString(r) == r
  {
    if value.Some? {
      TrimEmptyIffAllWhitespace(value.value);
      TrimChars(value.value);
      if Trim(value.value) != [] {
        TrimOfTrimmed(Trim(value.value));
      }
    }
  }

  /** The main entry fails exactly when `Name` is missing or blank (reported first) or `Exec` is
      missing or blank; otherwise `Type` defaults to `Application` and each field is read by its type. */
  lemma BuildDesktopEntryMeaning(fields: Fields)
    ensures var r := BuildDesktopEntry(fields);
            (r.Err? <==> "Name" !in fields || AllWhitespace(fields["Name"])
                         || "Exec" !in fields || AllWhitespace(fields["Exec"]))
            && (r.Err? && ("Name" !in fields || AllWhitespace(fields["Name"])) ==> r.error == "Missing Name field")
            && (r.Err? && "Name" in fields && !AllWhitespace(fields["Name"]) ==> r.error == "Missing Exec field")
    ensures var r := BuildDesktopEntry(fields);
            r.Ok? ==>
              r.value.name == Trim(fields["Name"]) && r.value.exec == fields["Exec"]
              && r.value.entryType == (if "Type" in fields && !AllWhitespace(fields["Type"])
                                       then Trim(fields["Type"]) else DefaultEntryType)
              && r.value.icon == ParseOptionalString(Get(fields, "Icon"))
              && r.value.mimeTypes == ParseList(Get(fields, "MimeType"))
              && r.value.terminal == ParseBool(Get(fields, "Terminal"))
              && r.value.noDisplay == ParseBool(Get(fields, "NoDisplay"))
              && r.value.hidden == ParseBool(Get(fields, "Hidden"))
    ensures var r := BuildDesktopEntry(fields);
            r.Ok? ==>
              r.value.version == ParseOptionalString(Get(fields, "Version"))
              && r.value.genericName == ParseOptionalString(Get(fields, "GenericName"))
              && r.value.comment == ParseOptionalString(Get(fields, "Comment"))
              && r.value.tryExec == ParseOptionalString(Get(fields, "TryExec"))
              && r.value.path == ParseOptionalString(Get(fields, "Path"))
              && r.value.startupWmClass == ParseOptionalString(Get(fields, "StartupWMClass"))
              && r.value.url == ParseOptionalString(Get(fields, "URL"))
    ensures var r := BuildDesktopEntry(fields);
            r.Ok? ==>
              r.value.onlyShowIn == ParseList(Get(fields, "OnlyShowIn"))
              && r.value.notShowIn == ParseList(Get(fields, "NotShowIn"))
              && r.value.categories == ParseList(Get(fields, "Categories"))
              && r.value.implements == ParseList(Get(fields, "Implements"))
              && r.value.keywords == ParseList(Get(fields, "Keywords"))
              && r.value.actions == ParseList(Get(fields, "Actions"))
    ensures var r := BuildDesktopEntry(fields);
            r.Ok? ==>
              r.value.dbusActivatable == ParseBool(Get(fields, "DBusActivatable"))
              && r.value.startupNotify == ParseBool(Get(fields, "StartupNotify"))
              && r.value.prefersNonDefaultGpu == ParseBool(Get(fields, "PrefersNonDefaultGPU"))
              && r.value.singleMainWindow == ParseBool(Get(fields, "SingleMainWindow"))
  {
    if "Name" in fields { TrimEmptyIffAllWhitespace(fields["Name"]); }
    if "Exec" in fields { TrimEmptyIffAllWhitespace(fields["Exec"]); }
    if "Type" in fields { TrimEmptyIffAllWhitespace(fields["Type"]); }
  }

  /** An action is built exactly when `Name` and `Exec` are both present. */
  lemma BuildDesktopActionMeaning(fields: Fields)
    ensures BuildDesktopAction(fields).Ok? <==> "Name" in fields && "Exec" in fields
    ensures BuildDesktopAction(fields).Ok? ==>
              BuildDesktopAction(fields).value == DesktopAction(fields["Name"], fields["Exec"], Get(fields, "Icon"))
  {
  }

  // ---------------------------------------------------------------------------
  // Properties of the line reader

  /** Blank lines, comments, and lines that are neither a bracketed header nor hold a `=`, change nothing. */
  lemma StepIgnored(st: State, raw: string)
    requires var line := Trim(raw); line == [] || line[0] == '#' || (!IsHeader(line) && '=' !in line)
    ensures Step(st, raw) == Ok(st)
  {
  }

  /** A `key=value` line splits at its first `=`, so the value may hold more `=`; both sides are
      trimmed and the pair replaces any earlier value of the key in the section. */
  lemma StepField(st: State, raw: string, key: string, value: string)
    requires Trim(raw) == key + "=" + value && '=' !in key
    requires key == [] || (key[0] != '#' && key[0] != '[')
    ensures Step(st, raw) == Ok(st.(fields := st.fields[Trim(key) := Trim(value)]))
  {
    var line := Trim(raw);
    assert line != [] && line[0] != '#' && !IsHeader(line) && Find(line, '=') == Some(|key|) by {
      assert line == key + ['='] + value;
      FindAfter(key, '=', value);
      if key == [] {
        assert line[0] == '=';
      } else {
        assert line[0] == key[0];
      }
    }
    assert line[..|key|] == key && line[|key| + 1..] == value;
    StepAssignment(st, raw, |key|);
  }

  /** A line that is neither blank, a comment nor a header, with its first `=` at `eq`, sets a field. */
  lemma StepAssignment(st: State, raw: string, eq: nat)
    requires Trim(raw) != [] && Trim(raw)[0] != '#' && !IsHeader(Trim(raw)) && Find(Trim(raw), '=') == Some(eq)
    ensures Step(st, raw) == Ok(st.(fields := st.fields[Trim(Trim(raw)[..eq]) := Trim(Trim(raw)[eq + 1..])]))
  {
  }

  /** A later value of a key in the same section overrides an earlier one. */
  lemma LaterFieldWins(st: State, key: string, v1: string, v2: string)
    requires '=' !in key && key != [] && key[0] != '#' && key[0] != '[' && IsTrimmed(key)
    requires IsTrimmed(v1) && IsTrimmed(v2)
    ensures ParseLines(st, [key + "=" + v1, key + "=" + v2]) == Ok(st.(fields := st.fields[key := v2]))
  {
    var st1 := st.(fields := st.fields[key := v1]);
    var st2 := st1.(fields := st1.fields[key := v2]);
    assert Step(st, key + "=" + v1) == Ok(st1) by {
      AssignmentStep(st, key, v1);
    }
    assert Step(st1, key + "=" + v2) == Ok(st2) by {
      AssignmentStep(st1, key, v2);
    }
    OverrideTwice(st, key, v1, v2);
    ParseTwoLines(st, key + "=" + v1, key + "=" + v2, st1, st2);
  }

  lemma OverrideTwice(st: State, key: string, v1: string, v2: string)
    ensures var st1 := st.(fields := st.fields[key := v1]);
            st1.(fields := st1.fields[key := v2]) == st.(fields := st.fields[key := v2])
  {
    assert st.fields[key := v1][key := v2] == st.fields[key := v2];
  }

  lemma ParseTwoLines(st: State, a: string, b: string, s1: State, s2: State)
    requires Step(st, a) == Ok(s1) && Step(s1, b) == Ok(s2)
    ensures ParseLines(st, [a, b]) == Ok(s2)
  {
    assert [a, b][1..] == [b];
    assert ParseLines(s1, [b]) == (match Step(s1, b) case Err(e) => Err(e) case Ok(s) => ParseLines(s, []));
  }

  /** `StepField` for a trimmed line. */
  lemma AssignmentStep(st: State, key: string, value: string)
    requires '=' !in key && key != [] && key[0] != '#' && key[0] != '[' && IsTrimmed(key)
    requires IsTrimmed(value)
    ensures Step(st, key + "=" + value) == Ok(st.(fields := st.fields[key := value]))
  {
    TrimmedAssignment(key, value);
    TrimOfTrimmed(key);
    TrimOfTrimmed(value);
    StepField(st, key + "=" + value, key, value);
  }

  lemma TrimmedAssignment(key: string, value: string)
    requires IsTrimmed(key) && key != [] && IsTrimmed(value)
    ensures Trim(key + "=" + value) == key + "=" + value
  {
    var line := key + "=" + value;
    assert line[0] == key[0];
    if value != [] {
      assert line[|line| - 1] == value[|value| - 1];
    } else {
      assert line[|line| - 1] == '=';
    }
    TrimOfTrimmed(line);
  }

  /** What ending a section saves: a broken main entry fails, a complete main entry becomes the
      main entry, a complete action is stored under its id, a broken action and every other section
      save nothing; the section, its id and fields are kept. */
  lemma FlushMeaning(st: State)
    ensures st.section == EntryHeader ==>
              (Flush(st).Err? <==> BuildDesktopEntry(st.fields).Err?)
              && (Flush(st).Ok? ==> Flush(st).value.mainEntry == Some(BuildDesktopEntry(st.fields).value)
                                    && Flush(st).value.actions == st.actions)
    ensures st.section != EntryHeader ==> Flush(st).Ok? && Flush(st).value.mainEntry == st.mainEntry
    ensures StartsWith(st.section, ActionPrefix) && st.action != [] && BuildDesktopAction(st.fields).Ok? ==>
              Flush(st).value.actions == st.actions[st.action := BuildDesktopAction(st.fields).value]
    ensures ((BuildDesktopAction(st.fields).Err? || st.action == [] || !StartsWith(st.section, ActionPrefix))
             && st.section != EntryHeader) ==> Flush(st) == Ok(st)
    ensures Flush(st).Ok? ==> Flush(st).value.section == st.section && Flush(st).value.fields == st.fields
                              && Flush(st).value.action == st.action
  {
  }

  /** A header ends the current section (failing only where `Flush` fails) and starts the new one with
      no fields; an action header sets the action id. */
  lemma StepHeader(st: State, raw: string)
    requires var line := Trim(raw); line != [] && IsHeader(line)
    ensures Step(st, raw).Err? <==> Flush(st).Err?
    ensures Step(st, raw).Ok? ==>
              var s := Step(st, raw).value;
              s.section == Trim(raw) && s.fields == map[]
              && s.mainEntry == Flush(st).value.mainEntry && s.actions == Flush(st).value.actions
              && (StartsWith(Trim(raw), ActionPrefix) ==> s.action == ActionId(Trim(raw)))
  {
    assert Trim(raw)[0] == '[';
  }

  /** The id of `[Desktop Action id]` is `id` for an id that neither starts with the prefix nor ends in `]`. */
  lemma ActionIdOfHeader(id: string)
    requires !StartsWith(id, ActionPrefix)
    requires id == [] || id[|id| - 1] != ']'
    ensures ActionId(ActionPrefix + id + "]") == id
  {
    var h := ActionPrefix + id + "]";
    assert h[..|ActionPrefix|] == ActionPrefix;
    assert h[|ActionPrefix|..] == id + "]";
    NotPrefixAppended(id, ']');
    assert TrimStartMatches(h, ActionPrefix) == TrimStartMatches(id + "]", ActionPrefix) == id + "]";
    assert (id + "]")[..|id + "]"| - 1] == id;
    assert TrimEndMatches(id + "]", ']') == TrimEndMatches(id, ']') == id;
  }

  lemma NotPrefixAppended(id: string, c: char)
    requires !StartsWith(id, ActionPrefix) && c != ' '
    ensures !StartsWith(id + [c], ActionPrefix)
  {
    var n := |ActionPrefix|;
    if |id| + 1 == n {
      assert (id + [c])[n - 1] != ActionPrefix[n - 1];
    } else if |id| >= n {
      assert (id + [c])[..n] == id[..n];
    }
  }

  /** An empty file has no main entry and no actions. */
  lemma ParseEmpty()
    ensures ParseContents("") == Ok(DesktopFile(None, map[]))
  {
    assert Lines("") == [""];
    assert Trim("") == "";
    assert ParseLines(Initial, [""]) == ParseLines(Initial, []);
  }

  /** Once a line fails, the rest of the file is not read: failure is final. */
  lemma {:induction false} ParseLinesConcat(st: State, a: seq<string>, b: seq<string>)
    ensures ParseLines(st, a + b) ==
              match ParseLines(st, a)
              case Err(e) => Err(e)
              case Ok(s) => ParseLines(s, b)
    decreases |a|
  {
    if a == [] {
      assert a + b == b;
    } else {
      assert (a + b)[1..] == a[1..] + b;
      match Step(st, a[0])
      case Err(_) =>
      case Ok(s) => ParseLinesConcat(s, a[1..], b);
    }
  }

  /** A `[Desktop Entry]` section without a valid name or command, followed by any header, fails the whole file. */
  lemma BrokenEntryFailsFile(st: State, header: string, rest: seq<string>)
    requires st.section == EntryHeader && BuildDesktopEntry(st.fields).Err?
    requires Trim(header) != [] && IsHeader(Trim(header))
    ensures ParseLines(st, [header] + rest).Err?
  {
    FlushMeaning(st);
    StepHeader(st, header);
  }

  /** The same section left open at the end of the file fails it too. */
  lemma BrokenEntryAtEnd(contents: string)
    requires ParseLines(Initial, Lines(contents)).Ok?
    requires var st := ParseLines(Initial, Lines(contents)).value;
             st.section == EntryHeader && BuildDesktopEntry(st.fields).Err?
    ensures ParseContents(contents).Err?
  {
    FlushMeaning(ParseLines(Initial, Lines(contents)).value);
  }

  /** An incomplete action block is dropped without failing the file; a complete last block is kept. */
  lemma LastActionCollected(contents: string)
    requires ParseLines(Initial, Lines(contents)).Ok?
    requires var st := ParseLines(Initial, Lines(contents)).value;
             StartsWith(st.section, ActionPrefix) && st.action != []
    ensures var st := ParseLines(Initial, Lines(contents)).value;
            ParseContents(contents).Ok?
            && (BuildDesktopAction(st.fields).Ok? ==>
                  ParseContents(contents).value.actions == st.actions[st.action := BuildDesktopAction(st.fields).value])
            && (BuildDesktopAction(st.fields).Err? ==> ParseContents(contents).value.actions == st.actions)
  {
    var st := ParseLines(Initial, Lines(contents)).value;
    FlushMeaning(st);
  }
}
