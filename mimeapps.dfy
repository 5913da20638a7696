/** The user's `mimeapps.list`: two tables from MIME type to an ordered list of desktop ids
    (`[Default Applications]` and `[Added Associations]`), read from and written back to the
    INI-like text, and edited through set, add and remove, optionally expanding a `*` pattern
    over the MIME types already present. */
module MimeApps {
  import opened Util

  const DefaultSection: string := "[Default Applications]"
  const AddedSection: string := "[Added Associations]"

  /** The two tables. A BTreeMap is a map; its iteration order is `SortedKeys`. */
  datatype Tables = Tables(defaultApps: map<string, seq<string>>, addedAssociations: map<string, seq<string>>)

  const EmptyTables := Tables(map[], map[])

  datatype Section = DefaultApplications | AddedAssociations

  function Table(t: Tables, sec: Section): map<string, seq<string>>
  {
    if sec == DefaultApplications then t.defaultApps else t.addedAssociations
  }

  function WithTable(t: Tables, sec: Section, m: map<string, seq<string>>): (r: Tables)
    ensures Table(r, sec) == m
    ensures sec == DefaultApplications ==> r.addedAssociations == t.addedAssociations
    ensures sec == AddedAssociations ==> r.defaultApps == t.defaultApps
  {
    if sec == DefaultApplications then t.(defaultApps := m) else t.(addedAssociations := m)
  }

  // ---------------------------------------------------------------------------
  // DesktopList::dedup

  predicate Distinct(xs: seq<string>)
  {
    forall i, j :: 0 <= i < j < |xs| ==> xs[i] != xs[j]
  }

  /** The list with every repeated handler removed, keeping first occurrences in order. */
  function Dedup(xs: seq<string>): (r: seq<string>)
    ensures Distinct(r)
    ensures forall x :: x in r <==> x in xs
    ensures |r| <= |xs|
  {
    if xs == [] then []
    else
      var r := Dedup(xs[..|xs| - 1]);
      var x := xs[|xs| - 1];
      assert xs == xs[..|xs| - 1] + [x];
      if x in r then r else r + [x]
  }

  /** The position of the first occurrence of `x`. */
  function FirstIndex(xs: seq<string>, x: string): (k: nat)
    requires x in xs
    ensures k < |xs| && xs[k] == x && x !in xs[..k]
  {
    if xs[0] == x then 0
    else
      var k := FirstIndex(xs[1..], x);
      assert xs[..k + 1] == [xs[0]] + xs[1..][..k];
      k + 1
  }

  /** Extending a list does not move the first occurrence of an element it already held. */
  lemma {:induction false} FirstIndexPrefix(xs: seq<string>, y: string, x: string)
    requires x in xs
    ensures FirstIndex(xs + [y], x) == FirstIndex(xs, x)
  {
    if xs[0] != x {
      assert (xs + [y])[1..] == xs[1..] + [y];
      FirstIndexPrefix(xs[1..], y, x);
    }
  }

  /** Every element of `r` occurs in `xs`, and `r` lists them in the order of their first occurrences. */
  predicate InFirstOrder(xs: seq<string>, r: seq<string>)
  {
    (forall i :: 0 <= i < |r| ==> r[i] in xs)
    && forall i, j :: 0 <= i < j < |r| ==> r[i] in xs && r[j] in xs && FirstIndex(xs, r[i]) < FirstIndex(xs, r[j])
  }

  lemma PrefixFirstIndices(init: seq<string>, x: string, r: seq<string>)
    requires forall i :: 0 <= i < |r| ==> r[i] in init
    ensures forall i :: 0 <= i < |r| ==> FirstIndex(init + [x], r[i]) == FirstIndex(init, r[i])
  {
    forall i | 0 <= i < |r| ensures FirstIndex(init + [x], r[i]) == FirstIndex(init, r[i]) {
      FirstIndexPrefix(init, x, r[i]);
    }
  }

  /** A repeated element leaves the order of first occurrences as it was. */
  lemma KeepFirstOrder(init: seq<string>, x: string, r: seq<string>)
    requires InFirstOrder(init, r)
    ensures InFirstOrder(init + [x], r)
  {
    PrefixFirstIndices(init, x, r);
  }

  /** A new element occurs first after every earlier one. */
  lemma AppendFirstOrder(init: seq<string>, x: string, r: seq<string>)
    requires InFirstOrder(init, r) && x !in init
    ensures InFirstOrder(init + [x], r + [x])
  {
    var xs := init + [x];
    var r1 := r + [x];
    PrefixFirstIndices(init, x, r);
    assert FirstIndex(xs, x) == |init| by {
      assert xs[|init|] == x && xs[..|init|] == init;
    }
    forall i, j | 0 <= i < j < |r1| ensures r1[i] in xs && r1[j] in xs && FirstIndex(xs, r1[i]) < FirstIndex(xs, r1[j]) {
      assert r1[i] == r[i];
      if j < |r| {
        assert r1[j] == r[j];
      }
    }
  }

  /** The kept handlers are the first occurrences, in the order they first occur. */
  lemma {:induction false} DedupFirstOrder(xs: seq<string>)
    ensures InFirstOrder(xs, Dedup(xs))
  {
    if xs != [] {
      var init := xs[..|xs| - 1];
      var x := xs[|xs| - 1];
      assert xs == init + [x];
      DedupFirstOrder(init);
      if x in Dedup(init) {
        KeepFirstOrder(init, x, Dedup(init));
      } else {
        AppendFirstOrder(init, x, Dedup(init));
      }
    }
  }

  /** A list that has no repeats is left as it is. */
  lemma {:induction false} DedupOfDistinct(xs: seq<string>)
    requires Distinct(xs)
    ensures Dedup(xs) == xs
  {
    if xs != [] {
      var init := xs[..|xs| - 1];
      DedupOfDistinct(init);
      assert xs[|xs| - 1] !in init;
      assert xs == init + [xs[|xs| - 1]];
    }
  }

  lemma DedupIdempotent(xs: seq<string>)
    ensures Dedup(Dedup(xs)) == Dedup(xs)
  {
    DedupOfDistinct(Dedup(xs));
  }

  /** `DesktopList::dedup`: a `seen` list grows while the list is filtered left to right. */
  method DedupList(xs: seq<string>) returns (r: seq<string>)
    ensures r == Dedup(xs)
  {
    var seen: seq<string> := [];
    r := [];
    for i := 0 to |xs|
      invariant r == Dedup(xs[..i])
      invariant seen == r
    {
      assert xs[..i + 1][..i] == xs[..i];
      if xs[i] !in seen {
        seen := seen + [xs[i]];
        r := r + [xs[i]];
      }
    }
    assert xs[..|xs|] == xs;
  }

  // ---------------------------------------------------------------------------
  // Parsing

  /** `value.split(';').map(trim).filter(non-empty)`. */
  function Handlers(value: string): seq<string>
  {
    NonBlankPieces(Split(value, ';'))
  }

  /** `str::split_once('=')`. */
  function SplitOnce(line: string, c: char): (r: Option<(string, string)>)
    ensures r.None? <==> c !in line
    ensures r.Some? ==> line == r.value.0 + [c] + r.value.1 && c !in r.value.0
  {
    match Find(line, c)
    case None => None
    case Some(i) => (assert line == line[..i] + [c] + line[i + 1..]; Some((line[..i], line[i + 1..])))
  }

  datatype ParseState = ParseState(section: Option<Section>, tables: Tables)

  const Initial := ParseState(None, EmptyTables)

  /** One line of `MimeApps::parse`. Only the two exact section headers change the section;
      an assignment outside them, or one with no handler, changes nothing. */
  function Step(st: ParseState, raw: string): ParseState
  {
    var line := Trim(raw);
    if line == [] || line[0] == '#' then st
    else if line == DefaultSection then st.(section := Some(DefaultApplications))
    else if line == AddedSection then st.(section := Some(AddedAssociations))
    else match SplitOnce(line, '=')
      case None => st
      case Some((key, value)) =>
        var hs := Handlers(value);
        match st.section
        case None => st
        case Some(sec) =>
          if hs == [] then st
          else
            var m := Table(st.tables, sec);
            var mime := Trim(key);
            st.(tables := WithTable(st.tables, sec, m[mime := Dedup(GetOr(m, mime, []) + hs)]))
  }

  function ParseFrom(st: ParseState, ls: seq<string>): ParseState
    decreases |ls|
  {
    if ls == [] then st else ParseFrom(Step(st, ls[0]), ls[1..])
  }

  lemma {:induction false} ParseFromConcat(st: ParseState, a: seq<string>, b: seq<string>)
    ensures ParseFrom(st, a + b) == ParseFrom(ParseFrom(st, a), b)
    decreases |a|
  {
    if a != [] {
      assert (a + b)[1..] == a[1..] + b;
      ParseFromConcat(Step(st, a[0]), a[1..], b);
    } else {
      assert a + b == b;
    }
  }

  /** The tables `MimeApps::parse` reads from the text. */
  /** What one line does: only the two exact headers move the section (any other bracketed line
      leaves it as it was); an assignment with handlers in a section appends them to its MIME type
      and removes repeats, touching no other key and not the other table; anything else changes nothing. */
  lemma StepMeaning(st: ParseState, raw: string)
    ensures var line := Trim(raw);
            var r := Step(st, raw);
            (line != DefaultSection && line != AddedSection ==> r.section == st.section)
            && (st.section.None? || '=' !in line || line == [] || line[0] == '#' ==> r.tables == st.tables)
    ensures var line := Trim(raw);
            line != [] && line[0] != '#' && line != DefaultSection && line != AddedSection
            && SplitOnce(line, '=').Some? && st.section.Some? ==>
              var (key, value) := SplitOnce(line, '=').value;
              var sec := st.section.value;
              var m := Table(st.tables, sec);
              var r := Step(st, raw).tables;
              (Handlers(value) == [] ==> r == st.tables)
              && (Handlers(value) != [] ==>
                    Table(r, sec) == m[Trim(key) := Dedup(GetOr(m, Trim(key), []) + Handlers(value))]
                    && Table(r, Other(sec)) == Table(st.tables, Other(sec)))
  {
  }

  function Other(sec: Section): Section
  {
    if sec == DefaultApplications then AddedAssociations else DefaultApplications
  }

  function ParseText(contents: string): Tables
  {
    ParseFrom(Initial, Lines(contents)).tables
  }

  /** `MimeApps::parse`, line by line with the current section and the two tables as state. */
  method Parse(contents: string) returns (t: Tables)
    ensures t == ParseText(contents)
  {
    var ls := Lines(contents);
    var section: Option<Section> := None;
    var defaultApps: map<string, seq<string>> := map[];
    var added: map<string, seq<string>> := map[];
    var i := 0;
    while i < |ls|
      invariant i <= |ls|
      invariant ParseFrom(ParseState(section, Tables(defaultApps, added)), ls[i..]) == ParseFrom(Initial, ls)
    {
      ghost var before := ParseState(section, Tables(defaultApps, added));
      var line := Trim(ls[i]);
      if line == [] || line[0] == '#' {
      } else if line == DefaultSection {
        section := Some(DefaultApplications);
      } else if line == AddedSection {
        section := Some(AddedAssociations);
      } else {
        var kv := SplitOnce(line, '=');
        if kv.Some? {
          var hs := Handlers(kv.value.1);
          var mime := Trim(kv.value.0);
          if section == Some(DefaultApplications) && hs != [] {
            var list := DedupList(GetOr(defaultApps, mime, []) + hs);
            defaultApps := defaultApps[mime := list];
          } else if section == Some(AddedAssociations) && hs != [] {
            var list := DedupList(GetOr(added, mime, []) + hs);
            added := added[mime := list];
          }
        }
      }
      assert ParseState(section, Tables(defaultApps, added)) == Step(before, ls[i]);
      assert ls[i..][1..] == ls[i + 1..];
      i := i + 1;
    }
    t := Tables(defaultApps, added);
  }

  // ---------------------------------------------------------------------------
  // Writing

  /** `mime=h1;h2;` */
  function EntryLine(mime: string, hs: seq<string>): string
  {
    mime + "=" + Join(hs, ";") + ";"
  }

  /** One line per MIME type in key order, skipping empty lists. */
  function EntryLines(m: map<string, seq<string>>, keys: seq<string>): seq<string>
    requires forall i :: 0 <= i < |keys| ==> keys[i] in m
  {
    if keys == [] then []
    else if m[keys[0]] == [] then EntryLines(m, keys[1..])
    else [EntryLine(keys[0], m[keys[0]])] + EntryLines(m, keys[1..])
  }

  /** A section is omitted when its table is empty; otherwise the header, the entries and a blank line. */
  function SectionLines(name: string, m: map<string, seq<string>>): seq<string>
  {
    if |m| == 0 then [] else [name] + EntryLines(m, SortedKeys(m.Keys)) + [""]
  }

  function OutputLines(t: Tables): seq<string>
  {
    SectionLines(DefaultSection, t.defaultApps) + SectionLines(AddedSection, t.addedAssociations)
  }

  /** The text `MimeApps::write` produces: every line followed by a newline. */
  function Serialize(t: Tables): (text: string)
    ensures text == [] <==> |t.defaultApps| == 0 && |t.addedAssociations| == 0
    ensures text != [] ==> text[|text| - 1] == '\n'
  {
    UnLinesEnd(OutputLines(t));
    UnLines(OutputLines(t))
  }

  // ---------------------------------------------------------------------------
  // What makes a table survive a write and a read unchanged

  predicate ValidHandler(h: string)
  {
    h != [] && IsTrimmed(h) && ';' !in h && '\n' !in h
  }

  predicate ValidMime(k: string)
  {
    IsTrimmed(k) && '=' !in k && '\n' !in k && (k == [] || k[0] != '#')
  }

  predicate ValidList(hs: seq<string>)
  {
    hs != [] && Distinct(hs) && forall i :: 0 <= i < |hs| ==> ValidHandler(hs[i])
  }

  predicate ValidTable(m: map<string, seq<string>>)
  {
    forall k :: k in m ==> ValidMime(k) && ValidList(m[k])
  }

  predicate WellFormed(t: Tables)
  {
    ValidTable(t.defaultApps) && ValidTable(t.addedAssociations)
  }

  /** The handler list written by `EntryLine` is read back by `Handlers`. */
  lemma HandlersOfJoin(hs: seq<string>)
    requires ValidList(hs)
    ensures Handlers(Join(hs, ";") + ";") == hs
  {
    var j := Join(hs, ";");
    assert j + ";" == j + [';'] + "";
    SplitConcat(j, ';', "");
    SplitJoin(hs, ';');
    assert Split("", ';') == [""];
    NonBlankPiecesConcat(hs, [""]);
    NonBlankPiecesOfValid(hs);
  }

  lemma EntryLineReadBack(k: string, hs: seq<string>)
    requires ValidMime(k) && ValidList(hs)
    ensures var line := EntryLine(k, hs);
            Trim(line) == line && line != [] && line[0] != '#' && line != DefaultSection && line != AddedSection
            && SplitOnce(line, '=') == Some((k, Join(hs, ";") + ";"))
  {
    var line := EntryLine(k, hs);
    var v := Join(hs, ";") + ";";
    assert line == k + ['='] + v;
    assert line[|line| - 1] == ';';
    assert line[0] != '#' by { if k == [] { assert line[0] == '='; } else { assert line[0] == k[0]; } }
    assert !IsWhitespace(line[0]) by { if k == [] { assert line[0] == '='; } else { assert line[0] == k[0]; } }
    TrimOfTrimmed(line);
    FindAfter(k, '=', v);
    assert line[..|k|] == k;
    assert line[|k| + 1..] == v;
  }

  lemma {:induction false} JoinNoChar(xs: seq<string>, sep: string, c: char)
    requires c !in sep
    requires forall i :: 0 <= i < |xs| ==> c !in xs[i]
    ensures c !in Join(xs, sep)
  {
    if |xs| > 1 { JoinNoChar(xs[1..], sep, c); }
  }

  lemma EntryLineHasNoNewline(k: string, hs: seq<string>)
    requires ValidMime(k) && ValidList(hs)
    ensures '\n' !in EntryLine(k, hs)
  {
    JoinNoChar(hs, ";", '\n');
  }

  /** What `Step` needs to know about a written entry line. */
  lemma EntryLineParts(k: string, hs: seq<string>)
    requires ValidMime(k) && ValidList(hs)
    ensures var line := EntryLine(k, hs);
            Trim(line) == line && line != [] && line[0] != '#' && line != DefaultSection && line != AddedSection
            && SplitOnce(line, '=') == Some((k, Join(hs, ";") + ";"))
            && Handlers(Join(hs, ";") + ";") == hs && hs != [] && Trim(k) == k && Dedup([] + hs) == hs
  {
    EntryLineReadBack(k, hs);
    HandlersOfJoin(hs);
    TrimOfTrimmed(k);
    DedupOfDistinct(hs);
    assert [] + hs == hs;
  }

  /** Reading one written entry line into a section that does not yet have its MIME type adds it. */
  lemma StepEntryLine(st: ParseState, sec: Section, k: string, hs: seq<string>)
    requires st.section == Some(sec)
    requires ValidMime(k) && ValidList(hs)
    requires k !in Table(st.tables, sec)
    ensures Step(st, EntryLine(k, hs)) == st.(tables := WithTable(st.tables, sec, Table(st.tables, sec)[k := hs]))
  {
    EntryLineParts(k, hs);
  }

  /** The table obtained by inserting the entries of `keys` one after another. */
  function InsertKeys(acc: map<string, seq<string>>, m: map<string, seq<string>>, keys: seq<string>): map<string, seq<string>>
    requires forall i :: 0 <= i < |keys| ==> keys[i] in m
    decreases |keys|
  {
    if keys == [] then acc else InsertKeys(acc[keys[0] := m[keys[0]]], m, keys[1..])
  }

  lemma {:induction false} InsertAllKeys(acc: map<string, seq<string>>, m: map<string, seq<string>>, keys: seq<string>)
    requires forall i :: 0 <= i < |keys| ==> keys[i] in m
    ensures forall k :: k in InsertKeys(acc, m, keys) <==> k in acc || k in keys
    ensures forall k :: k in keys ==> InsertKeys(acc, m, keys)[k] == m[k]
    ensures forall k :: k in acc && k !in keys ==> InsertKeys(acc, m, keys)[k] == acc[k]
    decreases |keys|
  {
    if keys != [] {
      InsertAllKeys(acc[keys[0] := m[keys[0]]], m, keys[1..]);
    }
  }

  lemma InsertSortedKeys(m: map<string, seq<string>>)
    ensures InsertKeys(map[], m, SortedKeys(m.Keys)) == m
  {
    InsertAllKeys(map[], m, SortedKeys(m.Keys));
  }

  /** Reading the entry lines of `keys`, all distinct and new to section `sec`, inserts them in turn. */
  lemma {:induction false} ReadEntryLines(st: ParseState, sec: Section, m: map<string, seq<string>>, keys: seq<string>)
    requires st.section == Some(sec)
    requires ValidTable(m)
    requires forall i :: 0 <= i < |keys| ==> keys[i] in m
    requires forall i, j :: 0 <= i < j < |keys| ==> keys[i] != keys[j]
    requires forall i :: 0 <= i < |keys| ==> keys[i] !in Table(st.tables, sec)
    ensures ParseFrom(st, EntryLines(m, keys))
         == st.(tables := WithTable(st.tables, sec, InsertKeys(Table(st.tables, sec), m, keys)))
    decreases |keys|
  {
    if keys == [] {
      assert WithTable(st.tables, sec, Table(st.tables, sec)) == st.tables;
    } else {
      var k0 := keys[0];
      var m0 := Table(st.tables, sec);
      StepEntryLine(st, sec, k0, m[k0]);
      var st1 := st.(tables := WithTable(st.tables, sec, m0[k0 := m[k0]]));
      assert EntryLines(m, keys) == [EntryLine(k0, m[k0])] + EntryLines(m, keys[1..]);
      assert forall i :: 0 <= i < |keys[1..]| ==> keys[1..][i] !in Table(st1.tables, sec) by {
        forall i | 0 <= i < |keys[1..]| ensures keys[1..][i] !in Table(st1.tables, sec) {
          assert keys[1..][i] == keys[i + 1] != keys[0];
        }
      }
      ReadEntryLines(st1, sec, m, keys[1..]);
      assert WithTable(st1.tables, sec, InsertKeys(m0[k0 := m[k0]], m, keys[1..]))
          == WithTable(st.tables, sec, InsertKeys(m0, m, keys));
    }
  }

  lemma {:induction false} EntryLinesNoNewline(m: map<string, seq<string>>, keys: seq<string>)
    requires ValidTable(m)
    requires forall i :: 0 <= i < |keys| ==> keys[i] in m
    ensures NoNewlines(EntryLines(m, keys))
    decreases |keys|
  {
    if keys != [] {
      EntryLinesNoNewline(m, keys[1..]);
      if m[keys[0]] != [] {
        EntryLineHasNoNewline(keys[0], m[keys[0]]);
        NoNewlinesConcat([EntryLine(keys[0], m[keys[0]])], EntryLines(m, keys[1..]));
      }
    }
  }

  lemma SectionHeaders()
    ensures '\n' !in DefaultSection && '\n' !in AddedSection && DefaultSection != AddedSection
    ensures IsTrimmed(DefaultSection) && IsTrimmed(AddedSection)
    ensures DefaultSection[0] != '#' && AddedSection[0] != '#'
  {
  }

  lemma SectionLinesNoNewline(name: string, m: map<string, seq<string>>)
    requires ValidTable(m) && '\n' !in name
    ensures NoNewlines(SectionLines(name, m))
  {
    if |m| != 0 {
      var keys := SortedKeys(m.Keys);
      EntryLinesNoNewline(m, keys);
      NoNewlinesConcat([name], EntryLines(m, keys));
      NoNewlinesConcat([name] + EntryLines(m, keys), [""]);
    }
  }

  /** The header of a written section selects its section. */
  lemma StepHeader(st: ParseState, sec: Section, name: string)
    requires (sec == DefaultApplications && name == DefaultSection) || (sec == AddedAssociations && name == AddedSection)
    ensures Step(st, name) == st.(section := Some(sec))
  {
    SectionHeaders();
    TrimOfTrimmed(name);
  }

  /** Reading a written section: the header selects the section and the entries rebuild its table. */
  lemma ReadSection(st: ParseState, sec: Section, name: string, m: map<string, seq<string>>)
    requires ValidTable(m)
    requires Table(st.tables, sec) == map[]
    requires (sec == DefaultApplications && name == DefaultSection) || (sec == AddedAssociations && name == AddedSection)
    ensures |m| != 0 ==> ParseFrom(st, SectionLines(name, m)) == ParseState(Some(sec), WithTable(st.tables, sec, m))
    ensures |m| == 0 ==> ParseFrom(st, SectionLines(name, m)) == st
  {
    if |m| != 0 {
      var keys := SortedKeys(m.Keys);
      var entries := EntryLines(m, keys);
      var st1 := st.(section := Some(sec));
      var st2 := ParseFrom(st1, entries);
      assert ParseFrom(st, SectionLines(name, m)) == ParseFrom(st2, [""]) by {
        StepHeader(st, sec, name);
        assert SectionLines(name, m) == [name] + (entries + [""]);
        ParseFromConcat(st, [name], entries + [""]);
        ParseFromConcat(st1, entries, [""]);
      }
      assert st2 == ParseState(Some(sec), WithTable(st.tables, sec, m)) by {
        SortedKeysSorted(m.Keys);
        ReadEntryLines(st1, sec, m, keys);
        InsertSortedKeys(m);
      }
    }
  }

  /** Writing well-formed tables and reading the text back gives the same tables. */
  lemma ParseSerialize(t: Tables)
    requires WellFormed(t)
    ensures ParseText(Serialize(t)) == t
  {
    var d := SectionLines(DefaultSection, t.defaultApps);
    var a := SectionLines(AddedSection, t.addedAssociations);
    SerializedLines(t);
    ReadDefaultSection(t);
    ReadAddedSection(ParseFrom(Initial, d), t.addedAssociations);
    ParseFromConcat(Initial, d, a + [""]);
  }

  /** The lines of the written text: the two sections, then the empty piece after the last newline. */
  lemma SerializedLines(t: Tables)
    requires WellFormed(t)
    ensures Lines(Serialize(t))
            == SectionLines(DefaultSection, t.defaultApps) + (SectionLines(AddedSection, t.addedAssociations) + [""])
  {
    OutputNoNewlines(t);
    LinesUnLines(OutputLines(t));
    AppendEmptyLine(SectionLines(DefaultSection, t.defaultApps), SectionLines(AddedSection, t.addedAssociations));
  }

  lemma AppendEmptyLine(d: seq<string>, a: seq<string>)
    ensures d + a + [""] == d + (a + [""])
  {
  }

  /** No written line holds a newline. */
  lemma OutputNoNewlines(t: Tables)
    requires WellFormed(t)
    ensures NoNewlines(OutputLines(t))
  {
    SectionHeaders();
    SectionLinesNoNewline(DefaultSection, t.defaultApps);
    SectionLinesNoNewline(AddedSection, t.addedAssociations);
    NoNewlinesConcat(SectionLines(DefaultSection, t.defaultApps), SectionLines(AddedSection, t.addedAssociations));
  }

  lemma ReadDefaultSection(t: Tables)
    requires WellFormed(t)
    ensures ParseFrom(Initial, SectionLines(DefaultSection, t.defaultApps)).tables == Tables(t.defaultApps, map[])
  {
    ReadSection(Initial, DefaultApplications, DefaultSection, t.defaultApps);
  }

  lemma ReadAddedSection(st: ParseState, m: map<string, seq<string>>)
    requires ValidTable(m) && st.tables.addedAssociations == map[]
    ensures ParseFrom(st, SectionLines(AddedSection, m) + [""]).tables == Tables(st.tables.defaultApps, m)
  {
    var a := SectionLines(AddedSection, m);
    ParseFromConcat(st, a, [""]);
    ReadSection(st, AddedAssociations, AddedSection, m);
    assert ParseFrom(ParseFrom(st, a), [""]) == ParseFrom(st, a);
  }

  // ---------------------------------------------------------------------------
  // What parsing produces is always well formed

  lemma NonBlankPiecesValid(ps: seq<string>)
    requires forall i :: 0 <= i < |ps| ==> ';' !in ps[i] && '\n' !in ps[i]
    ensures forall i :: 0 <= i < |NonBlankPieces(ps)| ==> ValidHandler(NonBlankPieces(ps)[i])
  {
    if ps != [] {
      NonBlankPiecesValid(ps[1..]);
      TrimChars(ps[0]);
    }
  }

  lemma HandlersValid(value: string)
    requires '\n' !in value
    ensures forall i :: 0 <= i < |Handlers(value)| ==> ValidHandler(Handlers(value)[i])
  {
    var ps := Split(value, ';');
    assert forall i :: 0 <= i < |ps| ==> '\n' !in ps[i] by {
      JoinSplit(value, ';');
      forall i | 0 <= i < |ps| ensures '\n' !in ps[i] {
        JoinContainsPiece(ps, [';'], i);
      }
    }
    NonBlankPiecesValid(ps);
  }

  /** The MIME type of a trimmed line that does not start with `#` is valid. */
  lemma MimeOfLineValid(line: string, key: string, value: string)
    requires line == key + ['='] + value && '=' !in key
    requires IsTrimmed(line) && line != [] && line[0] != '#' && '\n' !in line
    ensures ValidMime(Trim(key))
  {
    var a, b := TrimIsSlice(key);
    var k := Trim(key);
    assert forall c :: c in k ==> c in key;
    assert forall c :: c in key ==> c in line by {
      forall c | c in key ensures c in line { var j :| 0 <= j < |key| && key[j] == c; assert line[j] == c; }
    }
    if k != [] {
      assert k[0] == key[a];
      assert a == 0;
      assert k[0] == line[0];
    }
  }

  lemma DedupValidList(xs: seq<string>)
    requires xs != []
    requires forall i :: 0 <= i < |xs| ==> ValidHandler(xs[i])
    ensures ValidList(Dedup(xs))
  {
    assert xs[0] in Dedup(xs);
    forall i | 0 <= i < |Dedup(xs)| ensures ValidHandler(Dedup(xs)[i]) {
      assert Dedup(xs)[i] in xs;
    }
  }

  lemma StepWellFormed(st: ParseState, raw: string)
    requires WellFormed(st.tables)
    requires '\n' !in raw
    ensures WellFormed(Step(st, raw).tables)
  {
    var line := Trim(raw);
    if line == [] || line[0] == '#' || line == DefaultSection || line == AddedSection {
    } else if SplitOnce(line, '=').Some? && st.section.Some? {
      var (key, value) := SplitOnce(line, '=').value;
      assert ValidMime(Trim(key)) && forall i :: 0 <= i < |Handlers(value)| ==> ValidHandler(Handlers(value)[i]) by {
        AssignmentValid(raw, key, value);
      }
      if Handlers(value) != [] {
        MergeValid(Table(st.tables, st.section.value), Trim(key), Handlers(value));
      }
    }
  }

  /** The MIME type and the handlers of an assignment line are valid. */
  lemma AssignmentValid(raw: string, key: string, value: string)
    requires '\n' !in raw && Trim(raw) != [] && Trim(raw)[0] != '#'
    requires Trim(raw) == key + ['='] + value && '=' !in key
    ensures ValidMime(Trim(key))
    ensures forall i :: 0 <= i < |Handlers(value)| ==> ValidHandler(Handlers(value)[i])
  {
    var line := Trim(raw);
    TrimChars(raw);
    assert forall c :: c in value ==> c in line by {
      forall c | c in value ensures c in line { var j :| 0 <= j < |value| && value[j] == c; assert line[|key| + 1 + j] == c; }
    }
    HandlersValid(value);
    MimeOfLineValid(line, key, value);
  }

  /** Adding valid handlers to a valid table under a valid MIME type keeps it valid. */
  lemma MergeValid(m: map<string, seq<string>>, mime: string, hs: seq<string>)
    requires ValidTable(m) && ValidMime(mime) && hs != []
    requires forall i :: 0 <= i < |hs| ==> ValidHandler(hs[i])
    ensures ValidTable(m[mime := Dedup(GetOr(m, mime, []) + hs)])
  {
    var old_ := GetOr(m, mime, []);
    var merged := Dedup(old_ + hs);
    assert ValidList(merged) by {
      assert old_ != [] ==> ValidList(old_);
      ConcatValid(old_, hs);
      DedupValidList(old_ + hs);
    }
    UpdateValid(m, mime, merged);
  }

  lemma UpdateValid(m: map<string, seq<string>>, mime: string, hs: seq<string>)
    requires ValidTable(m) && ValidMime(mime) && ValidList(hs)
    ensures ValidTable(m[mime := hs])
  {
    forall k | k in m[mime := hs] ensures ValidMime(k) && ValidList(m[mime := hs][k]) {
      if k != mime {
        assert k in m;
      }
    }
  }

  lemma ConcatValid(a: seq<string>, b: seq<string>)
    requires forall i :: 0 <= i < |a| ==> ValidHandler(a[i])
    requires forall i :: 0 <= i < |b| ==> ValidHandler(b[i])
    ensures forall i :: 0 <= i < |a + b| ==> ValidHandler((a + b)[i])
  {
    forall i | 0 <= i < |a + b| ensures ValidHandler((a + b)[i]) {
      if i < |a| { assert (a + b)[i] == a[i]; } else { assert (a + b)[i] == b[i - |a|]; }
    }
  }

  lemma {:induction false} ParseFromWellFormed(st: ParseState, ls: seq<string>)
    requires WellFormed(st.tables)
    requires NoNewlines(ls)
    ensures WellFormed(ParseFrom(st, ls).tables)
    decreases |ls|
  {
    if ls != [] {
      StepWellFormed(st, ls[0]);
      ParseFromWellFormed(Step(st, ls[0]), ls[1..]);
    }
  }

  /** Every table `parse` produces has valid MIME types and non-empty, duplicate-free lists of valid handlers. */
  lemma ParseTextWellFormed(contents: string)
    ensures WellFormed(ParseText(contents))
  {
    ParseFromWellFormed(Initial, Lines(contents));
  }

  /** Writing what was read and reading it again gives what was read. */
  lemma ParseWriteParse(contents: string)
    ensures ParseText(Serialize(ParseText(contents))) == ParseText(contents)
  {
    ParseTextWellFormed(contents);
    ParseSerialize(ParseText(contents));
  }

  // ---------------------------------------------------------------------------
  // Edits

  /** The closures `set_handler`, `add_handler` and `remove_handler` pass to `apply_to_mimes`. */
  datatype Edit = SetTo(handlers: seq<string>) | AddOne(handler: string) | RemoveOne(target: Option<string>)

  function Without(xs: seq<string>, x: string): (r: seq<string>)
    ensures x !in r
    ensures forall y :: y in r <==> y in xs && y != x
  {
    if xs == [] then []
    else if xs[0] == x then Without(xs[1..], x)
    else [xs[0]] + Without(xs[1..], x)
  }

  lemma {:induction false} WithoutAbsent(xs: seq<string>, x: string)
    requires x !in xs
    ensures Without(xs, x) == xs
  {
    if xs != [] { WithoutAbsent(xs[1..], x); }
  }

  /** `retain` works element by element, so it splits over concatenation: the kept handlers stay in
      their original order. */
  lemma {:induction false} WithoutConcat(a: seq<string>, b: seq<string>, x: string)
    ensures Without(a + b, x) == Without(a, x) + Without(b, x)
    decreases |a|
  {
    if a == [] {
      assert a + b == b;
    } else {
      assert (a + b)[0] == a[0] && (a + b)[1..] == a[1..] + b;
      WithoutConcat(a[1..], b, x);
    }
  }

  /** Removing a handler that occurs once leaves the handlers before it and after it, in order. */
  lemma WithoutOne(a: seq<string>, b: seq<string>, x: string)
    requires x !in a && x !in b
    ensures Without(a + [x] + b, x) == a + b
  {
    var list := a + [x] + b;
    assert list[..|a|] == a && list[|a|] == x && list[|a| + 1..] == b;
    RemoveAtFirst(list, x, |a|);
    WithoutAbsent(b, x);
  }

  /** Every other handler keeps its number of occurrences. */
  lemma {:induction false} WithoutCounts(xs: seq<string>, x: string)
    ensures multiset(Without(xs, x)) == multiset(xs)[x := 0]
    decreases |xs|
  {
    if xs != [] {
      WithoutCounts(xs[1..], x);
      assert xs == [xs[0]] + xs[1..];
      assert multiset(xs) == multiset{xs[0]} + multiset(xs[1..]);
    }
  }

  function ApplyEdit(list: seq<string>, e: Edit): seq<string>
  {
    match e
    case SetTo(hs) => Dedup(hs)
    case AddOne(h) => if h in list then list else list + [h]
    case RemoveOne(Some(t)) => Without(list, t)
    case RemoveOne(None) => []
  }

  /** The handlers before the first occurrence of `t` are kept as they are, and the rest is `retain`ed. */
  lemma RemoveAtFirst(list: seq<string>, t: string, k: nat)
    requires k < |list| && list[k] == t && t !in list[..k]
    ensures Without(list, t) == list[..k] + Without(list[k + 1..], t)
  {
    var a, b := list[..k], list[k + 1..];
    calc {
      Without(list, t);
      { assert list == a + [t] + b; }
      Without(a + [t] + b, t);
      { WithoutConcat(a + [t], b, t); }
      Without(a + [t], t) + Without(b, t);
      { WithoutConcat(a, [t], t); }
      Without(a, t) + Without([t], t) + Without(b, t);
      { assert Without([t], t) == []; }
      Without(a, t) + Without(b, t);
      { WithoutAbsent(a, t); }
      a + Without(b, t);
    }
  }

  /** Each edit reaches its goal on any list; repeating it changes nothing more. */
  lemma ApplyEditMeaning(list: seq<string>, e: Edit)
    ensures e.SetTo? ==> ApplyEdit(list, e) == Dedup(e.handlers)
    ensures e.AddOne? ==> (e.handler in ApplyEdit(list, e)
                           && (forall x :: x in ApplyEdit(list, e) <==> x in list || x == e.handler)
                           && ApplyEdit(list, e)[..|list|] == list)
    ensures e.AddOne? ==> (e.handler in list ==> ApplyEdit(list, e) == list)
                          && (e.handler !in list ==> ApplyEdit(list, e) == list + [e.handler])
    ensures e.RemoveOne? && e.target.Some? ==> (e.target.value !in ApplyEdit(list, e)
                           && (forall x :: x != e.target.value ==> (x in ApplyEdit(list, e) <==> x in list))
                           && multiset(ApplyEdit(list, e)) == multiset(list)[e.target.value := 0])
    ensures e.RemoveOne? && e.target.Some? && e.target.value !in list ==> ApplyEdit(list, e) == list
    ensures e.RemoveOne? && e.target.Some? && e.target.value in list ==>
              var k := FirstIndex(list, e.target.value);
              ApplyEdit(list, e) == list[..k] + ApplyEdit(list[k + 1..], e)
    ensures e.RemoveOne? && e.target.None? ==> ApplyEdit(list, e) == []
    ensures ApplyEdit(ApplyEdit(list, e), e) == ApplyEdit(list, e)
  {
    if e.RemoveOne? && e.target.Some? {
      RemoveFacts(list, e.target.value);
    }
  }

  /** What `retain` with a handler gives, gathered for ApplyEditMeaning. */
  lemma RemoveFacts(list: seq<string>, t: string)
    ensures multiset(Without(list, t)) == multiset(list)[t := 0]
    ensures Without(Without(list, t), t) == Without(list, t)
    ensures t !in list ==> Without(list, t) == list
    ensures t in list ==> Without(list, t) == list[..FirstIndex(list, t)] + Without(list[FirstIndex(list, t) + 1..], t)
  {
    WithoutAbsent(Without(list, t), t);
    WithoutCounts(list, t);
    if t !in list {
      WithoutAbsent(list, t);
    } else {
      RemoveAtFirst(list, t, FirstIndex(list, t));
    }
  }

  /** `apply_to_mimes` over resolved targets: the edit applied to each target in turn,
      a missing MIME type starting as an empty list. */
  function EditAll(m: map<string, seq<string>>, targets: seq<string>, e: Edit): map<string, seq<string>>
    decreases |targets|
  {
    if targets == [] then m
    else EditAll(m[targets[0] := ApplyEdit(GetOr(m, targets[0], []), e)], targets[1..], e)
  }

  /** One step of the edit loop: the `i`-th target edited, then the rest. */
  lemma EditAllStep(m: map<string, seq<string>>, targets: seq<string>, i: nat, e: Edit)
    requires i < |targets|
    ensures EditAll(m, targets[i..], e)
            == EditAll(m[targets[i] := ApplyEdit(GetOr(m, targets[i], []), e)], targets[i + 1..], e)
  {
    assert targets[i..][1..] == targets[i + 1..];
  }

  /** The body of the edit loop for one MIME type's list. */
  method EditEntry(entry: seq<string>, e: Edit) returns (edited: seq<string>)
    ensures edited == ApplyEdit(entry, e)
  {
    match e {
      case SetTo(hs) =>
        edited := DedupList(hs);
      case AddOne(h) =>
        edited := if h in entry then entry else entry + [h];
      case RemoveOne(target) =>
        edited := if target.Some? then Without(entry, target.value) else [];
    }
  }

  /** Editing the targets in turn is the same as editing each distinct target once: the targets hold
      their edited list, every other MIME type its old one, and only the targets are added. */
  lemma {:induction false} EditAllFacts(m: map<string, seq<string>>, targets: seq<string>, e: Edit)
    ensures forall k :: k in EditAll(m, targets, e) <==> k in m || k in targets
    ensures forall k :: k in targets ==> EditAll(m, targets, e)[k] == ApplyEdit(GetOr(m, k, []), e)
    ensures forall k :: k in m && k !in targets ==> EditAll(m, targets, e)[k] == m[k]
    decreases |targets|
  {
    if targets != [] {
      var t0 := targets[0];
      var m1 := m[t0 := ApplyEdit(GetOr(m, t0, []), e)];
      EditAllFacts(m1, targets[1..], e);
      ApplyEditMeaning(GetOr(m, t0, []), e);
      forall k | k in targets ensures k in EditAll(m, targets, e) && EditAll(m, targets, e)[k] == ApplyEdit(GetOr(m, k, []), e) {
        if k != t0 { assert k in targets[1..]; }
      }
    }
  }

  /** `default_apps.retain(|_, list| !list.is_empty())`. */
  function DropEmpty(m: map<string, seq<string>>): (r: map<string, seq<string>>)
    ensures forall k :: k in r <==> k in m && m[k] != []
    ensures forall k :: k in r ==> r[k] == m[k]
  {
    map k | k in m && m[k] != [] :: m[k]
  }

  /** `resolve_targets`: the pattern itself unless wildcards are expanded and it has a `*`;
      otherwise the keys of both tables (Default first, each in key order) that the glob matches. */
  function ResolveTargets(t: Tables, pattern: string, expand: bool): (r: seq<string>)
    ensures !expand || '*' !in pattern ==> r == [pattern]
    ensures expand && '*' in pattern ==>
              forall x :: x in r <==> (x in t.defaultApps || x in t.addedAssociations) && GlobMatches(pattern, x)
    ensures |r| <= |t.defaultApps| + |t.addedAssociations| || r == [pattern]
  {
    if !expand || '*' !in pattern then [pattern]
    else Matching(SortedKeys(t.defaultApps.Keys), pattern) + Matching(SortedKeys(t.addedAssociations.Keys), pattern)
  }

  function Matching(keys: seq<string>, pattern: string): (r: seq<string>)
    ensures forall x :: x in r <==> x in keys && GlobMatches(pattern, x)
    ensures |r| <= |keys|
  {
    if keys == [] then []
    else if GlobMatches(pattern, keys[0]) then [keys[0]] + Matching(keys[1..], pattern)
    else Matching(keys[1..], pattern)
  }

  /** The branch of `apply_to_mimes` for an empty target list without expansion can never run. */
  lemma TargetsNeverEmptyWithoutExpansion(t: Tables, pattern: string)
    ensures ResolveTargets(t, pattern, false) != []
  {
  }

  /** The default table after `set_handler`, `add_handler` (`removeAfter` false) or
      `remove_handler` (`removeAfter` true, which then drops every empty list). */
  function EditDefaults(t: Tables, pattern: string, expand: bool, e: Edit): map<string, seq<string>>
  {
    var edited := EditAll(t.defaultApps, ResolveTargets(t, pattern, expand), e);
    if e.RemoveOne? then DropEmpty(edited) else edited
  }

  /** After an edit of `pattern`, each resolved target holds the edited list, every other MIME type is
      as it was, and no key is added except the targets. A removal then drops every empty list. */
  lemma EditDefaultsMeaning(t: Tables, pattern: string, expand: bool, e: Edit)
    ensures var targets := ResolveTargets(t, pattern, expand);
            var r := EditDefaults(t, pattern, expand, e);
            (!e.RemoveOne? ==>
               r.Keys == t.defaultApps.Keys + (set x | x in targets)
               && (forall k :: k in targets ==> r[k] == ApplyEdit(GetOr(t.defaultApps, k, []), e))
               && (forall k :: k in t.defaultApps && k !in targets ==> r[k] == t.defaultApps[k]))
            && (e.RemoveOne? ==>
               (forall k :: k in r ==> r[k] != [])
               && (forall k :: k in targets ==> (k in r <==> ApplyEdit(GetOr(t.defaultApps, k, []), e) != []))
               && (forall k :: k in targets && k in r ==> r[k] == ApplyEdit(GetOr(t.defaultApps, k, []), e))
               && (forall k :: k in t.defaultApps && k !in targets ==>
                     (k in r <==> t.defaultApps[k] != []) && (k in r ==> r[k] == t.defaultApps[k])))
  {
    EditAllFacts(t.defaultApps, ResolveTargets(t, pattern, expand), e);
  }

  /** `set_handler` of a MIME type without expansion: that type holds the handlers without repeats. */
  lemma SetLiteral(t: Tables, mime: string, hs: seq<string>, expand: bool)
    requires !expand || '*' !in mime
    ensures var r := EditDefaults(t, mime, expand, SetTo(hs));
            mime in r && r[mime] == Dedup(hs)
            && (forall k :: k in r && k != mime ==> k in t.defaultApps && r[k] == t.defaultApps[k])
  {
    EditDefaultsMeaning(t, mime, expand, SetTo(hs));
  }

  /** After `remove_handler(mime, Some(h))` no target holds `h`; after `remove_handler(mime, None)` no target is left. */
  lemma RemoveMeaning(t: Tables, pattern: string, expand: bool, target: Option<string>)
    ensures var r := EditDefaults(t, pattern, expand, RemoveOne(target));
            forall k :: k in ResolveTargets(t, pattern, expand) ==>
              (target.None? ==> k !in r) && (target.Some? && k in r ==> target.value !in r[k])
  {
    var targets := ResolveTargets(t, pattern, expand);
    EditDefaultsMeaning(t, pattern, expand, RemoveOne(target));
    forall k | k in targets {
      ApplyEditMeaning(GetOr(t.defaultApps, k, []), RemoveOne(target));
    }
  }

  /** Adding a handler once or twice leaves the same tables, for every pattern and either expansion flag. */
  lemma AddTwice(t: Tables, pattern: string, h: string, expand: bool)
    ensures var once := Tables(EditDefaults(t, pattern, expand, AddOne(h)), t.addedAssociations);
            EditDefaults(once, pattern, expand, AddOne(h)) == once.defaultApps
  {
    var once := Tables(EditDefaults(t, pattern, expand, AddOne(h)), t.addedAssociations);
    SameTargetsAfterAdd(t, pattern, expand, h);
    EditAllAgain(t.defaultApps, ResolveTargets(t, pattern, expand), ResolveTargets(once, pattern, expand), AddOne(h));
  }

  /** Editing the same set of targets a second time changes nothing, as every edit is idempotent. */
  lemma EditAllAgain(m: map<string, seq<string>>, ts: seq<string>, us: seq<string>, e: Edit)
    requires forall x :: x in us <==> x in ts
    ensures EditAll(EditAll(m, ts, e), us, e) == EditAll(m, ts, e)
  {
    var d1 := EditAll(m, ts, e);
    var d2 := EditAll(d1, us, e);
    EditAllFacts(m, ts, e);
    EditAllFacts(d1, us, e);
    forall k | k in us ensures d2[k] == d1[k] {
      ApplyEditMeaning(GetOr(m, k, []), e);
    }
    assert d2.Keys == d1.Keys;
  }

  /** An add only creates keys among its own targets, so resolving the pattern again finds the same ones. */
  lemma SameTargetsAfterAdd(t: Tables, pattern: string, expand: bool, h: string)
    ensures var once := Tables(EditDefaults(t, pattern, expand, AddOne(h)), t.addedAssociations);
            forall x :: x in ResolveTargets(once, pattern, expand) <==> x in ResolveTargets(t, pattern, expand)
  {
    var t1 := ResolveTargets(t, pattern, expand);
    EditAllFacts(t.defaultApps, t1, AddOne(h));
  }

  lemma {:induction false} MatchingNone(keys: seq<string>, pattern: string)
    requires forall i :: 0 <= i < |keys| ==> !GlobMatches(pattern, keys[i])
    ensures Matching(keys, pattern) == []
  {
    if keys != [] { MatchingNone(keys[1..], pattern); }
  }

  /** A wildcard that matches no known MIME type edits nothing; only a removal still drops the empty lists. */
  lemma NoMatchNoChange(t: Tables, pattern: string, e: Edit)
    requires '*' in pattern
    requires forall k :: k in t.defaultApps || k in t.addedAssociations ==> !GlobMatches(pattern, k)
    ensures EditDefaults(t, pattern, true, e) == if e.RemoveOne? then DropEmpty(t.defaultApps) else t.defaultApps
  {
    assert ResolveTargets(t, pattern, true) == [] by {
      MatchingNone(SortedKeys(t.defaultApps.Keys), pattern);
      MatchingNone(SortedKeys(t.addedAssociations.Keys), pattern);
    }
  }

  // ---------------------------------------------------------------------------
  // The object

  /** `MimeApps`: the two tables, edited in place. */
  class MimeAppsFile {
    var defaultApps: map<string, seq<string>>
    var addedAssociations: map<string, seq<string>>

    function Snapshot(): Tables
      reads this
    {
      Tables(defaultApps, addedAssociations)
    }

    /** `MimeApps::parse` */
    constructor FromText(contents: string)
      ensures Snapshot() == ParseText(contents)
      ensures WellFormed(Snapshot())
    {
      var t := Parse(contents);
      ParseTextWellFormed(contents);
      defaultApps := t.defaultApps;
      addedAssociations := t.addedAssociations;
    }

    /** `MimeApps::write` */
    function Write(): (text: string)
      reads this
      ensures WellFormed(Snapshot()) ==> ParseText(text) == Snapshot()
    {
      var text := Serialize(Snapshot());
      assert WellFormed(Snapshot()) ==> ParseText(text) == Snapshot() by {
        if WellFormed(Snapshot()) {
          ParseSerialize(Snapshot());
        }
      }
      text
    }

    /** `handlers_for`: the default list of a MIME type, if it has one. */
    function HandlersFor(mime: string): (r: Option<seq<string>>)
      reads this
      ensures r.Some? <==> mime in defaultApps
      ensures r.Some? ==> r.value == defaultApps[mime]
    {
      if mime in defaultApps then Some(defaultApps[mime]) else None
    }

    /** `apply_to_mimes`: the edit applied to each resolved target's default list in turn. */
    method ApplyToMimes(pattern: string, expand: bool, e: Edit)
      modifies this
      ensures defaultApps == EditAll(old(defaultApps), ResolveTargets(old(Snapshot()), pattern, expand), e)
      ensures addedAssociations == old(addedAssociations)
    {
      var targets := ResolveTargets(Snapshot(), pattern, expand);
      ghost var start := defaultApps;
      for i := 0 to |targets|
        invariant EditAll(start, targets, e) == EditAll(defaultApps, targets[i..], e)
        invariant addedAssociations == old(addedAssociations)
      {
        var mime := targets[i];
        var edited := EditEntry(GetOr(defaultApps, mime, []), e);
        EditAllStep(defaultApps, targets, i, e);
        defaultApps := defaultApps[mime := edited];
      }
    }

    method SetHandler(pattern: string, handlers: seq<string>, expand: bool)
      modifies this
      ensures defaultApps == EditDefaults(old(Snapshot()), pattern, expand, SetTo(handlers))
      ensures addedAssociations == old(addedAssociations)
    {
      ApplyToMimes(pattern, expand, SetTo(handlers));
    }

    method AddHandler(pattern: string, handler: string, expand: bool)
      modifies this
      ensures defaultApps == EditDefaults(old(Snapshot()), pattern, expand, AddOne(handler))
      ensures addedAssociations == old(addedAssociations)
    {
      ApplyToMimes(pattern, expand, AddOne(handler));
    }

    method RemoveHandler(pattern: string, handler: Option<string>, expand: bool)
      modifies this
      ensures defaultApps == EditDefaults(old(Snapshot()), pattern, expand, RemoveOne(handler))
      ensures addedAssociations == old(addedAssociations)
    {
      ApplyToMimes(pattern, expand, RemoveOne(handler));
      defaultApps := map k | k in defaultApps && defaultApps[k] != [] :: defaultApps[k];
    }
  }

  /** Setting and then removing the only handler of a MIME type leaves no entry for it. */
  lemma SetThenRemove(t: Tables, mime: string, h: string)
    ensures var t1 := Tables(EditDefaults(t, mime, false, SetTo([h])), t.addedAssociations);
            mime !in EditDefaults(t1, mime, false, RemoveOne(Some(h)))
  {
    var t1 := Tables(EditDefaults(t, mime, false, SetTo([h])), t.addedAssociations);
    SetLiteral(t, mime, [h], false);
    assert Dedup([h]) == [h];
    assert Without([h], h) == [];
    EditDefaultsMeaning(t1, mime, false, RemoveOne(Some(h)));
  }
}
