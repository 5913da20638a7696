/** The external selector: each candidate is offered as a line `<marker> <name>`, the chosen line comes
    back on standard output, and its marker is stripped to find the application by name. The process
    itself is not modelled; what it did is a parameter. */
module Selector {
  import opened Util
  import opened ApplicationFinder

  const RegexHandlerPrefix: string := "regex-handler-"

  /** The four markers, each a bracketed word. */
  predicate IsMarker(m: string)
  {
    m == "[regex]" || m == "[default]" || m == "[xdg]" || m == "[available]"
  }

  /** `Path::starts_with` with a base of one plain component: it compares whole components, so it holds
      only when the path's first component is the base text exactly. */
  predicate PathStartsWithComponent(p: string, base: string)
  {
    p == base || StartsWith(p, base + "/")
  }

  /** `marker_for_app` as written: the regex check goes through `Path::starts_with`. */
  function MarkerForAppAsWritten(app: ApplicationEntry): (m: string)
    ensures IsMarker(m)
  {
    if PathStartsWithComponent(app.desktopFile, RegexHandlerPrefix) then "[regex]"
    else if app.isDefault then "[default]"
    else if app.isXdg then "[xdg]"
    else "[available]"
  }

  /** The regex handler entries the program builds are named `regex-handler-<priority>.desktop`; the
      component comparison never recognises such a name. */
  lemma RegexHandlerMissedAsWritten()
    ensures var app := ApplicationEntry("Handler", "handler %u", "regex-handler-5.desktop", None, None,
                                        false, -1, false, None);
            MarkerForAppAsWritten(app) == "[available]" && MarkerForApp(app) == "[regex]"
  {
    var p: string := "regex-handler-5.desktop";
    assert p[..14] == RegexHandlerPrefix;
    assert p[14] == '5';
    assert !StartsWith(p, RegexHandlerPrefix + "/") by {
      assert (RegexHandlerPrefix + "/")[14] == '/';
    }
  }

  /** The marker with the regex check on the text of the path, as the launcher's own auto-open test
      makes it: regex handlers first, then the default, then associated, then merely available. */
  function MarkerForApp(app: ApplicationEntry): (m: string)
    ensures IsMarker(m)
  {
    if StartsWith(app.desktopFile, RegexHandlerPrefix) then "[regex]"
    else if app.isDefault then "[default]"
    else if app.isXdg then "[xdg]"
    else "[available]"
  }

  /** Every entry named like a regex handler is marked as one, whatever its other flags; the others get
      the first of default, associated, available that applies. */
  lemma MarkerForAppMeaning(app: ApplicationEntry)
    ensures MarkerForApp(app) == "[regex]" <==> StartsWith(app.desktopFile, RegexHandlerPrefix)
    ensures MarkerForApp(app) == "[default]" <==> !StartsWith(app.desktopFile, RegexHandlerPrefix) && app.isDefault
    ensures MarkerForApp(app) == "[xdg]"
            <==> !StartsWith(app.desktopFile, RegexHandlerPrefix) && !app.isDefault && app.isXdg
    ensures MarkerForApp(app) == "[available]"
            <==> !StartsWith(app.desktopFile, RegexHandlerPrefix) && !app.isDefault && !app.isXdg
    ensures PathStartsWithComponent(app.desktopFile, RegexHandlerPrefix) ==> MarkerForApp(app) == "[regex]"
  {
    if PathStartsWithComponent(app.desktopFile, RegexHandlerPrefix) {
      var p := app.desktopFile;
      if p != RegexHandlerPrefix {
        assert p[..|RegexHandlerPrefix|] == (RegexHandlerPrefix + "/")[..|RegexHandlerPrefix|];
      }
    }
  }

  /** `strip_marker`: text after a leading `[...]`, up to the first `]`, with its leading whitespace
      removed; anything else is returned unchanged. */
  function StripMarker(selection: string): string
  {
    if selection != [] && selection[0] == '[' then
      match Find(selection[1..], ']')
      case Some(idx) => TrimStart(selection[1..][idx + 1..])
      case None => selection
    else selection
  }

  /** Without a leading `[` closed by a `]` the selection is kept; with one, what follows the first `]`
      is kept less its leading whitespace. */
  lemma StripMarkerMeaning(selection: string)
    ensures !(selection != [] && selection[0] == '[' && ']' in selection[1..]) ==> StripMarker(selection) == selection
    ensures (selection != [] && selection[0] == '[' && ']' in selection[1..]) ==>
              exists k :: 1 <= k < |selection| && selection[k] == ']' && ']' !in selection[1..k]
                           && StripMarker(selection) == TrimStart(selection[k + 1..])
  {
    if selection != [] && selection[0] == '[' && ']' in selection[1..] {
      var idx := Find(selection[1..], ']').value;
      var k := idx + 1;
      assert selection[1..][idx + 1..] == selection[k + 1..];
      assert selection[1..k] == selection[1..][..idx];
      assert selection[k] == ']';
    }
  }

  /** A selection opening with `[` whose first `]` is at `k` strips to what follows that `]`, less its
      leading whitespace. */
  lemma StripAt(s: string, k: nat)
    requires 0 < k < |s| && s[0] == '[' && s[k] == ']' && ']' !in s[1..k]
    ensures StripMarker(s) == TrimStart(s[k + 1..])
  {
    var r := Find(s[1..], ']');
    assert s[1..][k - 1] == ']';
    var idx := r.value;
    assert s[1..][..k - 1] == s[1..k];
    assert forall j :: 0 <= j < k - 1 ==> s[1..][j] == s[1..k][j];
    assert idx == k - 1;
    assert s[1..][idx + 1..] == s[k + 1..];
  }

  /** A bracketed marker, a space and a name that does not start with whitespace strip back to the name. */
  lemma StripBracketed(inner: string, name: string)
    requires ']' !in inner
    requires name == [] || !IsWhitespace(name[0])
    ensures StripMarker("[" + inner + "]" + " " + name) == name
  {
    var s := "[" + inner + "]" + " " + name;
    var k := |inner| + 1;
    assert s[1..k] == inner;
    StripAt(s, k);
    assert s[k + 1..] == " " + name;
    assert (" " + name)[1..] == name && IsWhitespace(' ');
    assert TrimStart(name) == name;
  }

  function Bracketed(word: string): string
  {
    "[" + word + "]"
  }

  /** Each marker is `[`, a word without `]`, and `]`. */
  lemma MarkerBracketed(m: string)
    requires IsMarker(m)
    ensures 2 <= |m| && m == "[" + m[1..|m| - 1] + "]" && ']' !in m[1..|m| - 1]
  {
    var w: string;
    if m == "[regex]" {
      w := "regex";
    } else if m == "[default]" {
      w := "default";
    } else if m == "[xdg]" {
      w := "xdg";
    } else {
      w := "available";
    }
    assert m == Bracketed(w);
    assert Bracketed(w)[1..|w| + 1] == w;
  }

  /** The round trip of one offered line: stripping the marker gives the application's name back, with
      the marker as written and with the corrected one alike. */
  lemma StripMarkerRoundTrip(app: ApplicationEntry)
    requires app.name == [] || !IsWhitespace(app.name[0])
    ensures StripMarker(MarkerForAppAsWritten(app) + " " + app.name) == app.name
    ensures StripMarker(MarkerForApp(app) + " " + app.name) == app.name
  {
    MarkerLineStrips(MarkerForAppAsWritten(app), app.name);
    MarkerLineStrips(MarkerForApp(app), app.name);
  }

  lemma MarkerLineStrips(m: string, name: string)
    requires IsMarker(m) && (name == [] || !IsWhitespace(name[0]))
    ensures StripMarker(m + " " + name) == name
  {
    MarkerBracketed(m);
    StripBracketed(m[1..|m| - 1], name);
  }

  /** The lines written to the selector, one per application in order, each with the marker as
      `marker_for_app` writes it; a line strips back to its application's name. */
  function Menu(applications: seq<ApplicationEntry>): (lines: seq<string>)
    ensures |lines| == |applications|
    ensures forall i :: 0 <= i < |lines| && (applications[i].name == [] || !IsWhitespace(applications[i].name[0]))
                        ==> StripMarker(lines[i]) == applications[i].name
  {
    var lines := seq(|applications|, i requires 0 <= i < |applications| =>
                       MarkerForAppAsWritten(applications[i]) + " " + applications[i].name);
    MenuLinesStrip(applications, lines);
    lines
  }

  lemma MenuLinesStrip(applications: seq<ApplicationEntry>, lines: seq<string>)
    requires |lines| == |applications|
    requires forall i :: 0 <= i < |lines| ==> lines[i] == MarkerForAppAsWritten(applications[i]) + " " + applications[i].name
    ensures forall i :: 0 <= i < |lines| && (applications[i].name == [] || !IsWhitespace(applications[i].name[0]))
                        ==> StripMarker(lines[i]) == applications[i].name
  {
    forall i | 0 <= i < |lines| && (applications[i].name == [] || !IsWhitespace(applications[i].name[0])) {
      StripMarkerRoundTrip(applications[i]);
    }
  }

  /** `position`: the first application with the given name. */
  function Position(applications: seq<ApplicationEntry>, name: string): (r: Option<nat>)
    ensures r.None? <==> forall j :: 0 <= j < |applications| ==> applications[j].name != name
    ensures r.Some? ==> r.value < |applications| && applications[r.value].name == name
                        && forall j :: 0 <= j < r.value ==> applications[j].name != name
    decreases |applications|
  {
    if applications == [] then None
    else if applications[0].name == name then Some(0)
    else match Position(applications[1..], name)
      case None => None
      case Some(i) =>
        assert forall j :: 1 <= j <= i ==> applications[j] == applications[1..][j - 1];
        Some(i + 1)
  }

  function Names(applications: seq<ApplicationEntry>): (names: seq<string>)
    ensures |names| == |applications| && forall i :: 0 <= i < |names| ==> names[i] == applications[i].name
  {
    seq(|applications|, i requires 0 <= i < |applications| => applications[i].name)
  }

  /** What the selector process did: it could not be started or talked to (with the error message the
      runner gives), or it exited, successfully or not, with what it printed. */
  datatype SelectorOutcome = Failed(message: string) | Exited(success: bool, stdout: string)

  /** `SelectorRunner::run` once the process has produced `outcome` for the lines `Menu(applications)`. */
  function Run(command: string, applications: seq<ApplicationEntry>, outcome: SelectorOutcome): Result<Option<nat>, string>
  {
    if applications == [] then Ok(None)
    else if Trim(command) == [] then Err("Selector command is empty")
    else match outcome
      case Failed(message) => Err(message)
      case Exited(success, stdout) =>
        if !success then Ok(None)
        else
          var selection := Trim(stdout);
          if selection == [] then Ok(None)
          else match Position(applications, StripMarker(selection))
            case Some(i) => Ok(Some(i))
            case None =>
              Err("Selector returned unknown selection `" + selection + "` (expected one of ["
                  + Join(Names(applications), ", ") + "])")
  }

  /** The guards come before anything runs; a cancelled or empty selection is no choice; a choice is
      the first application carrying the stripped name, and a name that none carries is an error. */
  lemma RunMeaning(command: string, applications: seq<ApplicationEntry>, outcome: SelectorOutcome)
    ensures applications == [] ==> Run(command, applications, outcome) == Ok(None)
    ensures applications != [] && Trim(command) == [] ==> Run(command, applications, outcome) == Err("Selector command is empty")
    ensures applications != [] && Trim(command) != [] && outcome.Exited? && (!outcome.success || Trim(outcome.stdout) == [])
            ==> Run(command, applications, outcome) == Ok(None)
    ensures Run(command, applications, outcome).Ok? && Run(command, applications, outcome).value.Some? ==>
              var i := Run(command, applications, outcome).value.value;
              outcome.Exited? && i < |applications|
              && applications[i].name == StripMarker(Trim(outcome.stdout))
              && forall j :: 0 <= j < i ==> applications[j].name != applications[i].name
    ensures (applications != [] && Trim(command) != [] && outcome.Exited? && outcome.success
             && Trim(outcome.stdout) != []
             && forall j :: 0 <= j < |applications| ==> applications[j].name != StripMarker(Trim(outcome.stdout)))
            ==> Run(command, applications, outcome).Err?
                && StartsWith(Run(command, applications, outcome).error, "Selector returned unknown selection")
  {
    var r := Run(command, applications, outcome);
    if applications != [] && Trim(command) != [] && outcome.Exited? && outcome.success && Trim(outcome.stdout) != []
       && Position(applications, StripMarker(Trim(outcome.stdout))).None? {
      var selection := Trim(outcome.stdout);
      var msg := "Selector returned unknown selection `" + selection + "` (expected one of ["
                 + Join(Names(applications), ", ") + "])";
      assert r.error == msg;
      assert msg[..|"Selector returned unknown selection"|] == "Selector returned unknown selection";
    }
  }

  /** Echoing back one offered line, as a selector does when the user picks it, selects that
      application, or the first one of the same name. */
  lemma RunPicksOfferedLine(command: string, applications: seq<ApplicationEntry>, i: nat)
    requires i < |applications| && Trim(command) != []
    requires IsTrimmed(applications[i].name)
    ensures Run(command, applications, Exited(true, Menu(applications)[i])) == Ok(Position(applications, applications[i].name))
    ensures Position(applications, applications[i].name).Some?
    ensures Position(applications, applications[i].name).value <= i
  {
    var app := applications[i];
    var line := Menu(applications)[i];
    var m := MarkerForAppAsWritten(app);
    assert Trim(line) != [] && StripMarker(Trim(line)) == app.name by {
      assert line == m + " " + app.name;
      TrimmedLine(m, app.name);
      StripMarkerRoundTrip(app);
    }
    RunSelected(command, applications, line);
  }

  /** A successful selection of a name some application carries picks the first such application. */
  lemma RunSelected(command: string, applications: seq<ApplicationEntry>, stdout: string)
    requires applications != [] && Trim(command) != [] && Trim(stdout) != []
    requires Position(applications, StripMarker(Trim(stdout))).Some?
    ensures Run(command, applications, Exited(true, stdout)) == Ok(Position(applications, StripMarker(Trim(stdout))))
  {
  }

  /** A marker line with a trimmed name is already trimmed, or trims to the marker when the name is empty;
      either way stripping it gives the name. */
  lemma TrimmedLine(m: string, name: string)
    requires IsMarker(m) && IsTrimmed(name)
    ensures Trim(m + " " + name) != []
    ensures StripMarker(Trim(m + " " + name)) == StripMarker(m + " " + name)
  {
    MarkerBracketed(m);
    var s := m + " " + name;
    assert s[0] == '[';
    assert TrimStart(s) == s;
    if name == [] {
      TrimmedMarkerAlone(m);
      assert s == m + " ";
    } else {
      assert s[|s| - 1] == name[|name| - 1];
      assert TrimEnd(s) == s;
    }
  }

  /** A marker followed by a single space trims to the marker, and both strip to nothing. */
  lemma TrimmedMarkerAlone(m: string)
    requires IsMarker(m)
    ensures TrimEnd(m + " ") == m != []
    ensures StripMarker(m) == StripMarker(m + " ") == []
  {
    MarkerBracketed(m);
    BracketedAlone(m[1..|m| - 1]);
  }

  lemma BracketedAlone(inner: string)
    requires ']' !in inner
    ensures var m := "[" + inner + "]"; TrimEnd(m + " ") == m && StripMarker(m) == StripMarker(m + " ") == []
  {
    var m := "[" + inner + "]";
    var s := m + " ";
    assert IsWhitespace(' ') && !IsWhitespace(']');
    assert s[..|s| - 1] == m;
    assert m[|m| - 1] == ']';
    assert TrimEnd(m) == m;
    StripBracketed(inner, "");
    assert "[" + inner + "]" + " " + "" == s;
    FindAfter(inner, ']', "");
    assert m[1..] == inner + "]" + "";
    assert m[1..][|inner| + 1..] == [];
  }
}
