/** Turning a desktop entry's `Exec` line into an argument vector for one file: escaped `%%` becomes
    `%`, the field codes for files, URLs, icon, name and location are dropped, and the file path is
    appended after the whitespace-separated words. */
module Executor {
  import opened Util

  /** The field codes removed, in the order they are removed. */
  const FieldCodes: seq<string> := ["%u", "%U", "%f", "%F", "%i", "%c", "%k"]

  /** Removing each code in turn. */
  function RemoveCodes(s: string, codes: seq<string>): string
    requires forall i :: 0 <= i < |codes| ==> codes[i] != []
    decreases |codes|
  {
    if codes == [] then s else RemoveCodes(ReplaceAll(s, codes[0], ""), codes[1..])
  }

  /** The `Exec` line after unescaping `%%`, dropping the field codes and trimming. */
  function CleanExec(exec: string): string
  {
    Trim(RemoveCodes(ReplaceAll(exec, "%%", "%"), FieldCodes))
  }

  /** `prepare_command`: an error when nothing is left of the command, otherwise its words then the path. */
  function PrepareCommand(exec: string, filePath: string): Result<seq<string>, string>
  {
    var clean := CleanExec(exec);
    if clean == [] then Err("Empty exec command") else Ok(SplitWhitespace(clean) + [filePath])
  }

  /** Fails, with "Empty exec command", exactly when the cleaned command is blank; otherwise the result
      holds at least the command and the path, the path last, every other element a word with no
      whitespace in it (quotes are not honoured), the first one starting the cleaned command. */
  lemma PrepareCommandMeaning(exec: string, filePath: string)
    ensures var r := PrepareCommand(exec, filePath);
            (r.Err? <==> CleanExec(exec) == []) && (r.Err? ==> r.error == "Empty exec command")
            && (r.Ok? ==>
                  |r.value| >= 2 && r.value[|r.value| - 1] == filePath
                  && r.value[..|r.value| - 1] == SplitWhitespace(CleanExec(exec))
                  && (forall i :: 0 <= i < |r.value| - 1 ==> IsWord(r.value[i]))
                  && StartsWith(CleanExec(exec), r.value[0]))
  {
    var clean := CleanExec(exec);
    if clean != [] {
      TrimChars(RemoveCodes(ReplaceAll(exec, "%%", "%"), FieldCodes));
      TrimOfTrimmed(clean);
      SplitWhitespaceEmptyIffBlank(clean);
      var r := SplitWhitespace(clean) + [filePath];
      assert r[0] == SplitWhitespace(clean)[0];
      assert r[..|r| - 1] == SplitWhitespace(clean);
    }
  }

  lemma NoCharNoOccurrence(s: string, p: string, c: char)
    requires c !in s && p != [] && p[0] == c
    ensures !Contains(s, p)
  {
    forall i ensures !OccursAt(s, p, i) {
      if 0 <= i && i + |p| <= |s| {
        assert s[i..i + |p|][0] == s[i];
      }
    }
  }

  lemma {:induction false} RemoveCodesWithoutPercent(s: string, codes: seq<string>)
    requires forall i :: 0 <= i < |codes| ==> codes[i] != [] && codes[i][0] == '%'
    requires '%' !in s
    ensures RemoveCodes(s, codes) == s
    decreases |codes|
  {
    if codes != [] {
      NoCharNoOccurrence(s, codes[0], '%');
      RemoveCodesWithoutPercent(s, codes[1..]);
    }
  }

  /** A command line without `%` is only trimmed. */
  lemma CleanExecWithoutPercent(exec: string)
    requires '%' !in exec
    ensures CleanExec(exec) == Trim(exec)
  {
    NoCharNoOccurrence(exec, "%%", '%');
    RemoveCodesWithoutPercent(exec, FieldCodes);
  }

  /** `%%` is unescaped before the field codes are removed, so `%%f` ends up removed like `%f`: a
      command followed by `%%f` prepares like the command alone. */
  lemma EscapedCodeDropped(a: string, filePath: string)
    requires '%' !in a
    ensures PrepareCommand(a + "%%f", filePath) == PrepareCommand(a, filePath)
  {
    UnescapeBefore(a);
    CodesAfter(a);
    CleanExecWithoutPercent(a);
  }

  /** A one-word command followed by `%%f`, such as `app %%f`, runs that word on the path. */
  lemma WordThenEscapedCode(w: string, filePath: string)
    requires IsWord(w) && '%' !in w
    ensures PrepareCommand(w + " %%f", filePath) == Ok([w, filePath])
  {
    calc {
      PrepareCommand(w + " %%f", filePath);
    == { assert w + " %%f" == (w + " ") + "%%f"; EscapedCodeDropped(w + " ", filePath); }
      PrepareCommand(w + " ", filePath);
    == { PrepareWord(w, filePath); }
      Ok([w, filePath]);
    }
  }

  lemma PrepareWord(w: string, filePath: string)
    requires IsWord(w) && '%' !in w
    ensures PrepareCommand(w + " ", filePath) == Ok([w, filePath])
  {
    var s := w + " ";
    calc {
      PrepareCommand(s, filePath);
    == { assert '%' !in s; CleanExecWithoutPercent(s); TrimWordSpace(w); }
      Ok(SplitWhitespace(w) + [filePath]);
    == { SplitWhitespaceWord(w); }
      Ok([w] + [filePath]);
    == { assert [w] + [filePath] == [w, filePath]; }
      Ok([w, filePath]);
    }
  }

  lemma TrimWordSpace(w: string)
    requires IsWord(w)
    ensures Trim(w + " ") == w
  {
    var s := w + " ";
    assert TrimStart(s) == s by { assert s[0] == w[0]; }
    assert s[..|s| - 1] == w;
    assert TrimEnd(w) == w;
  }

  lemma SplitWhitespaceWord(w: string)
    requires IsWord(w)
    ensures SplitWhitespace(w) == [w]
  {
    assert TrimStart(w) == w;
    var n := WordLength(w);
    assert n == |w|;
    assert w[..n] == w && w[n..] == [];
    assert SplitWhitespace([]) == [];
  }

  lemma UnescapeBefore(a: string)
    requires '%' !in a
    ensures ReplaceAll(a + "%%f", "%%", "%") == a + "%f"
  {
    ReplaceAfterPlain(a, "%%f", "%%", "%");
    assert "%%f"[..2] == "%%" && "%%f"[2..] == "f";
    assert ReplaceAll("f", "%%", "%") == "f";
  }

  /** `%u` and `%U` leave `%f` alone, `%f` removes it, and the codes after it find nothing. */
  lemma CodesAfter(a: string)
    requires '%' !in a
    ensures RemoveCodes(a + "%f", FieldCodes) == a
  {
    var b := a + "%f";
    var c1, c2, c3 := FieldCodes[1..], FieldCodes[2..], FieldCodes[3..];
    calc {
      RemoveCodes(b, FieldCodes);
    == { assert FieldCodes[0] == "%u"; PlainThenOtherCode(a, "%u"); RemoveFirstCode(b, b, FieldCodes); }
      RemoveCodes(b, c1);
    == { assert c1[0] == "%U" && c1[1..] == c2; PlainThenOtherCode(a, "%U"); RemoveFirstCode(b, b, c1); }
      RemoveCodes(b, c2);
    == { assert c2[0] == "%f" && c2[1..] == c3; PlainThenF(a); RemoveFirstCode(b, a, c2); }
      RemoveCodes(a, c3);
    == { RemoveCodesWithoutPercent(a, c3); }
      a;
    }
  }

  lemma RemoveFirstCode(s: string, t: string, codes: seq<string>)
    requires codes != [] && forall i :: 0 <= i < |codes| ==> codes[i] != []
    requires ReplaceAll(s, codes[0], "") == t
    ensures RemoveCodes(s, codes) == RemoveCodes(t, codes[1..])
  {
  }

  lemma PlainThenOtherCode(a: string, code: string)
    requires '%' !in a && (code == "%u" || code == "%U")
    ensures ReplaceAll(a + "%f", code, "") == a + "%f"
  {
    ReplaceAfterPlain(a, "%f", code, "");
    KeepsOtherCode(code);
  }

  lemma PlainThenF(a: string)
    requires '%' !in a
    ensures ReplaceAll(a + "%f", "%f", "") == a
  {
    ReplaceAfterPlain(a, "%f", "%f", "");
    assert "%f"[..2] == "%f" && "%f"[2..] == [];
    assert a + [] == a;
  }

  /** Text before an occurrence that cannot start there is copied unchanged. */
  lemma {:induction false} ReplaceAfterPlain(a: string, b: string, from: string, to: string)
    requires from != [] && from[0] !in a
    ensures ReplaceAll(a + b, from, to) == a + ReplaceAll(b, from, to)
    decreases |a|
  {
    if a == [] {
      assert a + b == b;
    } else {
      calc {
        ReplaceAll(a + b, from, to);
      == { assert (a + b)[0] == a[0] && (a + b)[1..] == a[1..] + b; ReplaceSkip(a + b, from, to); }
        [a[0]] + ReplaceAll(a[1..] + b, from, to);
      == { ReplaceAfterPlain(a[1..], b, from, to); }
        [a[0]] + (a[1..] + ReplaceAll(b, from, to));
      == { assert a == [a[0]] + a[1..]; }
        a + ReplaceAll(b, from, to);
      }
    }
  }

  /** A character that does not start `from` is copied. */
  lemma ReplaceSkip(s: string, from: string, to: string)
    requires from != [] && s != [] && s[0] != from[0]
    ensures ReplaceAll(s, from, to) == [s[0]] + ReplaceAll(s[1..], from, to)
  {
    if |s| < |from| {
      assert ReplaceAll(s[1..], from, to) == s[1..];
      assert s == [s[0]] + s[1..];
    } else {
      assert s[..|from|][0] == s[0];
    }
  }

  /** `%f` holds no other two-character code. */
  lemma KeepsOtherCode(code: string)
    requires code == "%u" || code == "%U"
    ensures ReplaceAll("%f", code, "") == "%f"
  {
    assert "%f"[..2][1] == 'f' != code[1];
    assert "%f"[1..] == "f";
    assert ReplaceAll("f", code, "") == "f";
  }
}
