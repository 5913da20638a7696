/** The merged association map read from every `mimeapps.list` on the search path: a
    `[Default Applications]` line replaces the list of its MIME type, an `[Added Associations]`
    line appends to it, and files are read from the last to the first so that earlier files win. */
module MimeAssociations {
  import opened Util

  const DefaultSection: string := "[Default Applications]"
  const AddedSection: string := "[Added Associations]"

  /** `split(';').filter(non-empty).map(trim)`: pieces empty before trimming are dropped,
      a piece of only whitespace survives as the empty string. */
  function KeepTrimmed(ps: seq<string>): (r: seq<string>)
    ensures |r| <= |ps|
  {
    if ps == [] then []
    else if ps[0] == [] then KeepTrimmed(ps[1..])
    else [Trim(ps[0])] + KeepTrimmed(ps[1..])
  }

  function Apps(value: string): seq<string>
  {
    KeepTrimmed(Split(value, ';'))
  }

  datatype State = State(section: string, associations: map<string, seq<string>>)

  /** One line of `parse_mimeapps_file`. */
  function Step(st: State, raw: string): State
  {
    var line := Trim(raw);
    if line == [] || line[0] == '#' then st
    else if StartsWith(line, "[") && EndsWith(line, "]") then st.(section := line)
    else if st.section != DefaultSection && st.section != AddedSection then st
    else match Find(line, '=')
      case None => st
      case Some(eq) =>
        var mime := Trim(line[..eq]);
        var apps := Apps(line[eq + 1..]);
        if apps == [] then st
        else if st.section == DefaultSection then st.(associations := st.associations[mime := apps])
        else st.(associations := st.associations[mime := GetOr(st.associations, mime, []) + apps])
  }

  function ParseLines(st: State, ls: seq<string>): State
    decreases |ls|
  {
    if ls == [] then st else ParseLines(Step(st, ls[0]), ls[1..])
  }

  lemma {:induction false} ParseLinesConcat(st: State, a: seq<string>, b: seq<string>)
    ensures ParseLines(st, a + b) == ParseLines(ParseLines(st, a), b)
    decreases |a|
  {
    if a != [] {
      assert (a + b)[1..] == a[1..] + b;
      ParseLinesConcat(Step(st, a[0]), a[1..], b);
    } else {
      assert a + b == b;
    }
  }

  /** The map after reading one file's contents into `associations`, starting outside any section. */
  function ParseFile(contents: string, associations: map<string, seq<string>>): map<string, seq<string>>
  {
    ParseLines(State("", associations), Lines(contents)).associations
  }

  lemma ParseLinesStep(st: State, ls: seq<string>, i: nat)
    requires i < |ls|
    ensures ParseLines(st, ls[i..]) == ParseLines(Step(st, ls[i]), ls[i + 1..])
  {
    assert ls[i..][1..] == ls[i + 1..];
  }

  /** The body of the line loop: one line read into the current section and the map. */
  method ReadLine(section: string, associations: map<string, seq<string>>, raw: string)
    returns (section': string, associations': map<string, seq<string>>)
    ensures State(section', associations') == Step(State(section, associations), raw)
  {
    section', associations' := section, associations;
    var line := Trim(raw);
    if line == [] || line[0] == '#' {
    } else if StartsWith(line, "[") && EndsWith(line, "]") {
      section' := line;
    } else if section == DefaultSection || section == AddedSection {
      var eq := Find(line, '=');
      if eq.Some? {
        var mime := Trim(line[..eq.value]);
        var apps := Apps(line[eq.value + 1..]);
        if apps != [] {
          if section == DefaultSection {
            associations' := associations[mime := apps];
          } else {
            associations' := associations[mime := GetOr(associations, mime, []) + apps];
          }
        }
      }
    }
  }

  /** `parse_mimeapps_file`: the line loop with the current section, updating the map. */
  method ParseMimeappsFile(contents: string, associations: map<string, seq<string>>)
    returns (r: map<string, seq<string>>)
    ensures r == ParseFile(contents, associations)
  {
    var ls := Lines(contents);
    var currentSection: string := "";
    r := associations;
    var i := 0;
    while i < |ls|
      invariant i <= |ls|
      invariant ParseLines(State(currentSection, r), ls[i..]) == ParseLines(State("", associations), ls)
    {
      ParseLinesStep(State(currentSection, r), ls, i);
      currentSection, r := ReadLine(currentSection, r, ls[i]);
      i := i + 1;
    }
  }

  /** `load`: the files in reverse order, an unreadable file (`None`) skipped. */
  function LoadFiles(files: seq<Option<string>>): map<string, seq<string>>
    decreases |files|
  {
    if files == [] then map[]
    else
      var rest := LoadFiles(files[1..]);
      if files[0].Some? then ParseFile(files[0].value, rest) else rest
  }

  /** Directly from the loop of `load`: from the last file down to the first. */
  method Load(files: seq<Option<string>>) returns (associations: map<string, seq<string>>)
    ensures associations == LoadFiles(files)
  {
    associations := map[];
    var i := |files|;
    while i > 0
      invariant 0 <= i <= |files|
      invariant associations == LoadFiles(files[i..])
    {
      i := i - 1;
      assert files[i..][1..] == files[i + 1..];
      if files[i].Some? {
        associations := ParseMimeappsFile(files[i].value, associations);
      }
    }
  }

  /** `get_associations`: the stored list, or the empty list for an unknown MIME type. */
  function GetAssociations(associations: map<string, seq<string>>, mime: string): (r: seq<string>)
    ensures mime in associations ==> r == associations[mime]
    ensures mime !in associations ==> r == []
  {
    GetOr(associations, mime, [])
  }

  // ---------------------------------------------------------------------------
  // Properties of one line

  /** A blank line, a comment, a bracketed line and any line outside the two sections leave
      the map as it is; only a bracketed line changes the section, to itself. */
  lemma StepIgnored(st: State, raw: string)
    ensures var line := Trim(raw);
            var r := Step(st, raw);
            (line == [] || line[0] == '#' ==> r == st)
            && (line != [] && line[0] != '#' && StartsWith(line, "[") && EndsWith(line, "]") ==>
                  r == State(line, st.associations))
            && (st.section != DefaultSection && st.section != AddedSection ==> r.associations == st.associations)
            && ('=' !in line ==> r.associations == st.associations)
  {
  }

  /** Inside a section, a line `mime=value` with at least one app replaces (Default) or extends
      (Added) the list of the trimmed MIME type and changes no other key; with no app it changes nothing. */
  lemma StepAssignment(st: State, raw: string, mime: string, value: string)
    requires st.section == DefaultSection || st.section == AddedSection
    requires Trim(raw) == mime + "=" + value
    requires '=' !in mime && (mime == [] || mime[0] != '#')
    requires !(StartsWith(Trim(raw), "[") && EndsWith(Trim(raw), "]"))
    ensures var r := Step(st, raw).associations;
            var apps := Apps(value);
            (apps == [] ==> r == st.associations)
            && (apps != [] && st.section == DefaultSection ==> r == st.associations[Trim(mime) := apps])
            && (apps != [] && st.section == AddedSection ==>
                  r == st.associations[Trim(mime) := GetOr(st.associations, Trim(mime), []) + apps])
  {
    var line := Trim(raw);
    assert line == mime + ['='] + value;
    FindAfter(mime, '=', value);
    assert line[..|mime|] == mime;
    assert line[|mime| + 1..] == value;
    if mime != [] {
      assert line[0] == mime[0];
    } else {
      assert line[0] == '=';
    }
  }

  // ---------------------------------------------------------------------------
  // Properties of the app list

  lemma {:induction false} KeepTrimmedEmpty(ps: seq<string>)
    ensures KeepTrimmed(ps) == [] <==> forall i :: 0 <= i < |ps| ==> ps[i] == []
  {
    if ps != [] {
      KeepTrimmedEmpty(ps[1..]);
      if ps[0] == [] {
        assert forall i :: 1 <= i < |ps| ==> ps[i] == ps[1..][i - 1];
      }
    }
  }

  lemma {:induction false} JoinOfEmpties(ps: seq<string>, c: char)
    requires forall i :: 0 <= i < |ps| ==> ps[i] == []
    ensures forall k :: 0 <= k < |Join(ps, [c])| ==> Join(ps, [c])[k] == c
  {
    if |ps| > 1 { JoinOfEmpties(ps[1..], c); }
  }

  /** A value yields no app exactly when it is made of `;` alone (or is empty). */
  lemma AppsEmptyIffOnlySeparators(value: string)
    ensures Apps(value) == [] <==> forall k :: 0 <= k < |value| ==> value[k] == ';'
  {
    var ps := Split(value, ';');
    KeepTrimmedEmpty(ps);
    JoinSplit(value, ';');
    if forall i :: 0 <= i < |ps| ==> ps[i] == [] {
      JoinOfEmpties(ps, ';');
    } else {
      var i :| 0 <= i < |ps| && ps[i] != [];
      JoinContainsPiece(ps, [';'], i);
      assert ps[i][0] in value;
    }
  }

  /** Neither repeats nor whitespace-only pieces are removed: `a; ;a` gives three apps. */
  lemma AppsKeepRepeatsAndBlanks()
    ensures Apps("a; ;a") == ["a", "", "a"]
  {
    assert "a; ;a" == "a" + [';'] + (" " + [';'] + "a");
    SplitAroundSeparator("a", ';', " " + [';'] + "a");
    SplitAroundSeparator(" ", ';', "a");
    SplitWithoutSeparator("a", ';');
    TrimOfTrimmed("a");
    TrimEmptyIffAllWhitespace(" ");
    assert Split("a; ;a", ';') == ["a", " ", "a"];
  }

  // ---------------------------------------------------------------------------
  // Properties of a file and of the search path

  lemma Headers()
    ensures IsTrimmed(DefaultSection) && IsTrimmed(AddedSection) && DefaultSection != AddedSection
    ensures '\n' !in DefaultSection && '\n' !in AddedSection
  {
  }

  /** Both section headers select their own section. */
  lemma StepHeader(st: State, name: string)
    requires name == DefaultSection || name == AddedSection
    ensures Step(st, name) == st.(section := name)
  {
    Headers();
    TrimOfTrimmed(name);
  }

  /** `mime=value` is read as an assignment to `mime`: the key is trimmed and holds no `=`, and the
      line is neither a comment nor a bracketed header. The key may be empty or start with `[`. */
  predicate AssignmentLine(mime: string, value: string)
  {
    IsTrimmed(mime) && '=' !in mime && (mime == [] || mime[0] != '#')
    && !(StartsWith(mime + "=" + value, "[") && EndsWith(mime + "=" + value, "]"))
  }

  /** An empty key is stored as it is: `=x.desktop` in `[Default Applications]` sets the key `""`. */
  lemma EmptyKeyStored(m: map<string, seq<string>>)
    ensures Step(State(DefaultSection, m), "=x.desktop").associations == m["" := ["x.desktop"]]
  {
    var v := "x.desktop";
    assert "" + "=" + v == "=x.desktop";
    assert "=x.desktop"[..1] != "[" by { assert "=x.desktop"[..1][0] == '='; }
    assert IsTrimmed(v) && ';' !in v;
    AppsOfOne(v);
    StepAssign(State(DefaultSection, m), "", v);
  }

  /** `[a=b` does not end in `]`, so it is no header but an assignment to the key `[a`. */
  lemma OpenBracketKeyStored(m: map<string, seq<string>>)
    ensures Step(State(DefaultSection, m), "[a=b").associations == m["[a" := ["b"]]
  {
    assert "[a" + "=" + "b" == "[a=b";
    assert !EndsWith("[a=b", "]");
    assert IsTrimmed("[a") && IsTrimmed("b") && ';' !in "b";
    AppsOfOne("b");
    StepAssign(State(DefaultSection, m), "[a", "b");
  }

  /** A trimmed value without `;` is a single app. */
  lemma AppsOfOne(v: string)
    requires v != [] && IsTrimmed(v) && ';' !in v
    ensures Apps(v) == [v]
  {
    SplitWithoutSeparator(v, ';');
    TrimOfTrimmed(v);
  }

  /** A trimmed `mime=value` line with at least one app, in one of the two sections. */
  lemma StepAssign(st: State, mime: string, value: string)
    requires st.section == DefaultSection || st.section == AddedSection
    requires AssignmentLine(mime, value)
    requires IsTrimmed(value) && Apps(value) != []
    ensures Step(st, mime + "=" + value).associations ==
              if st.section == DefaultSection then st.associations[mime := Apps(value)]
              else st.associations[mime := GetOr(st.associations, mime, []) + Apps(value)]
  {
    TrimmedLine(mime, value);
    TrimOfTrimmed(mime);
    StepAssignment(st, mime + "=" + value, mime, value);
  }

  lemma TrimmedLine(mime: string, value: string)
    requires IsTrimmed(mime) && IsTrimmed(value)
    ensures Trim(mime + "=" + value) == mime + "=" + value
  {
    var line := mime + "=" + value;
    if mime != [] {
      assert line[0] == mime[0];
    } else {
      assert line[0] == '=';
    }
    if value != [] {
      assert line[|line| - 1] == value[|value| - 1];
    } else {
      assert line[|line| - 1] == '=';
    }
    TrimOfTrimmed(line);
  }

  /** The lines of a text ending in two newline-free lines. */
  lemma LinesEndingIn(pre: string, a: string, b: string)
    requires '\n' !in a && '\n' !in b
    ensures Lines(pre + "\n" + a + "\n" + b) == Lines(pre) + [a, b]
  {
    assert pre + "\n" + a + "\n" + b == pre + ['\n'] + (a + ['\n'] + b);
    SplitConcat(pre, '\n', a + ['\n'] + b);
    SplitAroundSeparator(a, '\n', b);
    SplitWithoutSeparator(b, '\n');
  }

  lemma ReadDefaultThenLine(st: State, mime: string, value: string)
    requires AssignmentLine(mime, value)
    requires IsTrimmed(value) && Apps(value) != []
    ensures var r := ParseLines(st, [DefaultSection, mime + "=" + value]).associations;
            mime in r && r[mime] == Apps(value)
  {
    var line := mime + "=" + value;
    StepHeader(st, DefaultSection);
    var st1 := Step(st, DefaultSection);
    StepAssign(st1, mime, value);
    assert ParseLines(st, [DefaultSection, line]) == ParseLines(st1, [line]);
    assert ParseLines(st1, [line]) == Step(st1, line);
  }

  /** Reading, in any starting map, a file that ends with a `[Default Applications]` header and a
      `mime=value` line gives that MIME type exactly the apps of the value. */
  lemma FileEndingInDefault(pre: string, mime: string, value: string, acc: map<string, seq<string>>)
    requires AssignmentLine(mime, value) && '\n' !in mime
    requires IsTrimmed(value) && '\n' !in value && Apps(value) != []
    ensures var r := ParseFile(pre + "\n" + DefaultSection + "\n" + mime + "=" + value, acc);
            mime in r && r[mime] == Apps(value)
  {
    var line := mime + "=" + value;
    assert '\n' !in line by {
      assert line == mime + ['='] + value;
    }
    Headers();
    assert pre + "\n" + DefaultSection + "\n" + mime + "=" + value == pre + "\n" + DefaultSection + "\n" + line;
    LinesEndingIn(pre, DefaultSection, line);
    ParseLinesConcat(State("", acc), Lines(pre), [DefaultSection, line]);
    ReadDefaultThenLine(ParseLines(State("", acc), Lines(pre)), mime, value);
  }

  /** Files are applied from the last to the first: the first readable file is read last. */
  lemma LoadFirstFileLast(files: seq<Option<string>>)
    requires files != [] && files[0].Some?
    ensures LoadFiles(files) == ParseFile(files[0].value, LoadFiles(files[1..]))
  {
  }

  /** The section in effect after one line: a bracketed line opens its section, any other keeps it. */
  function NextSection(section: string, raw: string): string
  {
    var line := Trim(raw);
    if line != [] && line[0] != '#' && StartsWith(line, "[") && EndsWith(line, "]") then line else section
  }

  function SectionAfter(section: string, ls: seq<string>): string
    decreases |ls|
  {
    if ls == [] then section else SectionAfter(NextSection(section, ls[0]), ls[1..])
  }

  /** The apps of an assignment line, the pieces after its first `=`. */
  function LineApps(raw: string): seq<string>
  {
    var line := Trim(raw);
    match Find(line, '=')
    case None => []
    case Some(eq) => Apps(line[eq + 1..])
  }

  /** Under `section`, the line is an assignment with at least one app to the trimmed MIME type `mime`. */
  predicate Assigns(section: string, raw: string, mime: string)
  {
    (section == DefaultSection || section == AddedSection)
    && var line := Trim(raw);
    line != [] && line[0] != '#' && !(StartsWith(line, "[") && EndsWith(line, "]"))
    && Find(line, '=').Some? && Trim(line[..Find(line, '=').value]) == mime && LineApps(raw) != []
  }

  /** No line of `ls`, read from `section` on, assigns to `mime`. */
  predicate Untouched(section: string, ls: seq<string>, mime: string)
    decreases |ls|
  {
    ls == [] || (!Assigns(section, ls[0], mime) && Untouched(NextSection(section, ls[0]), ls[1..], mime))
  }

  /** A line changes the section as `NextSection` says, whatever the map, and leaves the entry of every
      MIME type it does not assign to as it was. */
  lemma StepFrame(st: State, raw: string, mime: string)
    ensures Step(st, raw).section == NextSection(st.section, raw)
    ensures !Assigns(st.section, raw, mime) ==>
              (mime in Step(st, raw).associations <==> mime in st.associations)
              && (mime in st.associations ==> Step(st, raw).associations[mime] == st.associations[mime])
  {
  }

  /** A Default line for `mime` sets its entry to the line's apps, whatever it held before. */
  lemma StepDefaultLine(st: State, raw: string, mime: string)
    requires st.section == DefaultSection && Assigns(st.section, raw, mime)
    ensures mime in Step(st, raw).associations && Step(st, raw).associations[mime] == LineApps(raw)
    ensures Step(st, raw).section == DefaultSection
  {
  }

  lemma {:induction false} ParseLinesSection(st: State, ls: seq<string>)
    ensures ParseLines(st, ls).section == SectionAfter(st.section, ls)
    decreases |ls|
  {
    if ls != [] {
      StepFrame(st, ls[0], "");
      ParseLinesSection(Step(st, ls[0]), ls[1..]);
    }
  }

  /** Lines that do not assign to `mime` keep its entry. */
  lemma {:induction false} ParseLinesUntouched(st: State, ls: seq<string>, mime: string)
    requires Untouched(st.section, ls, mime)
    ensures var r := ParseLines(st, ls).associations;
            (mime in r <==> mime in st.associations) && (mime in r ==> r[mime] == st.associations[mime])
    decreases |ls|
  {
    if ls != [] {
      StepFrame(st, ls[0], mime);
      ParseLinesUntouched(Step(st, ls[0]), ls[1..], mime);
    }
  }

  /** Reading lines whose line `i` is a Default line for `mime`, with no later line assigning to it,
      leaves `mime` with that line's apps, whatever map the lines are read into. */
  lemma ParseLinesDefaultWins(st0: State, ls: seq<string>, mime: string, i: nat)
    requires i < |ls| && SectionAfter(st0.section, ls[..i]) == DefaultSection && Assigns(DefaultSection, ls[i], mime)
    requires Untouched(DefaultSection, ls[i + 1..], mime)
    ensures var r := ParseLines(st0, ls).associations;
            mime in r && r[mime] == LineApps(ls[i])
  {
    var st1 := ParseLines(st0, ls[..i]);
    var st2 := Step(st1, ls[i]);
    ParseLinesAt(st0, ls, i);
    ParseLinesSection(st0, ls[..i]);
    StepDefaultLine(st1, ls[i], mime);
    ParseLinesUntouched(st2, ls[i + 1..], mime);
  }

  /** Reading lines is reading those before `i`, then line `i`, then the rest. */
  lemma ParseLinesAt(st: State, ls: seq<string>, i: nat)
    requires i < |ls|
    ensures ParseLines(st, ls) == ParseLines(Step(ParseLines(st, ls[..i]), ls[i]), ls[i + 1..])
  {
    var st1 := ParseLines(st, ls[..i]);
    calc {
      ParseLines(st, ls);
    == { assert ls == ls[..i] + ls[i..]; ParseLinesConcat(st, ls[..i], ls[i..]); }
      ParseLines(st1, ls[i..]);
    == { ParseLinesStep(st1, ls, i); }
      ParseLines(Step(st1, ls[i]), ls[i + 1..]);
    }
  }

  lemma ParseFileDefaultWins(contents: string, acc: map<string, seq<string>>, mime: string, i: nat)
    requires var ls := Lines(contents);
             i < |ls| && SectionAfter("", ls[..i]) == DefaultSection && Assigns(DefaultSection, ls[i], mime)
             && Untouched(DefaultSection, ls[i + 1..], mime)
    ensures var r := ParseFile(contents, acc);
            mime in r && r[mime] == LineApps(Lines(contents)[i])
  {
    ParseLinesDefaultWins(State("", acc), Lines(contents), mime, i);
  }

  /** So a Default line for a MIME type in the first readable file, with no later line of that file
      assigning to the type, decides its list: later files make no difference. */
  lemma FirstFileDefaultWins(files: seq<Option<string>>, mime: string, i: nat)
    requires files != [] && files[0].Some?
    requires var ls := Lines(files[0].value);
             i < |ls| && SectionAfter("", ls[..i]) == DefaultSection && Assigns(DefaultSection, ls[i], mime)
             && Untouched(DefaultSection, ls[i + 1..], mime)
    ensures GetAssociations(LoadFiles(files), mime) == LineApps(Lines(files[0].value)[i])
    ensures GetAssociations(LoadFiles(files), mime) == GetAssociations(LoadFiles([files[0]]), mime)
  {
    ParseFileDefaultWins(files[0].value, LoadFiles(files[1..]), mime, i);
    ParseFileDefaultWins(files[0].value, map[], mime, i);
    assert [files[0]][1..] == [];
  }

  /** A Default line followed, under `[Added Associations]`, by a line for the same MIME type
      gives the Default apps followed by the Added ones; no app is dropped as a repeat. */
  lemma DefaultThenAdded(st: State, mime: string, value1: string, value2: string)
    requires st.section == DefaultSection
    requires AssignmentLine(mime, value1) && AssignmentLine(mime, value2)
    requires IsTrimmed(value1) && IsTrimmed(value2) && Apps(value1) != [] && Apps(value2) != []
    ensures var r := ParseLines(st, [mime + "=" + value1, AddedSection, mime + "=" + value2]).associations;
            mime in r && r[mime] == Apps(value1) + Apps(value2)
  {
    var l1 := mime + "=" + value1;
    var l2 := mime + "=" + value2;
    StepAssign(st, mime, value1);
    var st1 := Step(st, l1);
    StepHeader(st1, AddedSection);
    var st2 := Step(st1, AddedSection);
    StepAssign(st2, mime, value2);
    assert ParseLines(st, [l1, AddedSection, l2]) == ParseLines(st1, [AddedSection, l2]);
    assert ParseLines(st1, [AddedSection, l2]) == ParseLines(st2, [l2]);
    assert ParseLines(st2, [l2]) == Step(st2, l2);
  }
}
