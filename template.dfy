/** `{name}` substitution in command templates: a set variable between braces is replaced by its
    value, `{{` stays literal, and anything else, including an unknown or unclosed name, is copied. */
module Template {
  import opened Util

  /** What rendering `t` with `vars` gives, one construct at a time from the left. */
  function Expand(vars: map<string, string>, t: string): string
    decreases |t|
  {
    if t == [] then []
    else if t[0] == '{' && |t| > 1 then
      if t[1] == '{' then "{{" + Expand(vars, t[2..])
      else match Find(t[1..], '}')
        case None => t
        case Some(k) =>
          var name := t[1..k + 1];
          (if name in vars then vars[name] else t[..k + 2]) + Expand(vars, t[k + 2..])
    else [t[0]] + Expand(vars, t[1..])
  }

  /** With no variables a template renders as itself. */
  lemma {:induction false} ExpandNoVariables(t: string)
    ensures Expand(map[], t) == t
    decreases |t|
  {
    if t != [] {
      if t[0] == '{' && |t| > 1 {
        if t[1] == '{' {
          ExpandNoVariables(t[2..]);
          assert t == "{{" + t[2..];
        } else if Find(t[1..], '}').Some? {
          var k := Find(t[1..], '}').value;
          ExpandNoVariables(t[k + 2..]);
          assert t == t[..k + 2] + t[k + 2..];
        }
      } else {
        ExpandNoVariables(t[1..]);
        assert t == [t[0]] + t[1..];
      }
    }
  }

  /** A character other than `{` is copied. */
  lemma ExpandPlain(vars: map<string, string>, c: char, rest: string)
    requires c != '{'
    ensures Expand(vars, [c] + rest) == [c] + Expand(vars, rest)
  {
    assert ([c] + rest)[1..] == rest;
  }

  /** `{{` is copied and does not start a name. */
  lemma ExpandDoubleBrace(vars: map<string, string>, rest: string)
    ensures Expand(vars, "{{" + rest) == "{{" + Expand(vars, rest)
  {
    assert ("{{" + rest)[2..] == rest;
  }

  /** `{name}` becomes the variable's value when it is set, and stays as written when it is not; the
      value itself is not scanned again. */
  lemma ExpandName(vars: map<string, string>, name: string, rest: string)
    requires '}' !in name && (name == [] || name[0] != '{')
    ensures Expand(vars, "{" + name + "}" + rest)
            == (if name in vars then vars[name] else "{" + name + "}") + Expand(vars, rest)
  {
    var t := "{" + name + "}" + rest;
    var k := |name|;
    assert |t| > 1 && t[0] == '{' && t[1] != '{' && Find(t[1..], '}') == Some(k) by {
      assert t[1..] == name + "}" + rest;
      FindAfter(name, '}', rest);
    }
    assert t[1..k + 1] == name && t[..k + 2] == "{" + name + "}" && t[k + 2..] == rest;
    ExpandAtName(vars, t, k);
  }

  /** The single-brace case of `Expand` once the closing brace is found at `k` of the rest. */
  lemma ExpandAtName(vars: map<string, string>, t: string, k: nat)
    requires |t| > 1 && t[0] == '{' && t[1] != '{' && Find(t[1..], '}') == Some(k)
    ensures Expand(vars, t) == (if t[1..k + 1] in vars then vars[t[1..k + 1]] else t[..k + 2]) + Expand(vars, t[k + 2..])
  {
  }

  /** A `{` with no `}` after it is copied with the rest of the template. */
  lemma ExpandUnclosed(vars: map<string, string>, s: string)
    requires '}' !in s && (s == [] || s[0] != '{')
    ensures Expand(vars, "{" + s) == "{" + s
  {
    var t := "{" + s;
    assert t[1..] == s;
    if s == [] {
      assert Expand(vars, []) == [];
    }
  }

  /** The set variable in a template on its own renders as its value. */
  lemma ExpandVariableAlone(vars: map<string, string>, name: string)
    requires name in vars && '}' !in name && (name == [] || name[0] != '{')
    ensures Expand(vars, "{" + name + "}") == vars[name]
  {
    ExpandName(vars, name, "");
    assert "{" + name + "}" + "" == "{" + name + "}";
    assert vars[name] + "" == vars[name];
  }

  lemma StepPlain(vars: map<string, string>, t: string, i: nat)
    requires i < |t| && (t[i] != '{' || i + 1 == |t|)
    ensures Expand(vars, t[i..]) == [t[i]] + Expand(vars, t[i + 1..])
  {
    assert t[i..][1..] == t[i + 1..];
  }

  lemma StepDoubleBrace(vars: map<string, string>, t: string, i: nat)
    requires i + 1 < |t| && t[i] == '{' && t[i + 1] == '{'
    ensures Expand(vars, t[i..]) == "{{" + Expand(vars, t[i + 2..])
  {
    assert t[i..] == "{{" + t[i + 2..];
    ExpandDoubleBrace(vars, t[i + 2..]);
  }

  lemma StepName(vars: map<string, string>, t: string, start: nat, i: nat)
    requires start < i < |t| && t[start] == '{' && t[i] == '}' && '}' !in t[start + 1..i]
    requires t[start + 1] != '{'
    ensures Expand(vars, t[start..])
            == (if t[start + 1..i] in vars then vars[t[start + 1..i]] else t[start..i + 1]) + Expand(vars, t[i + 1..])
  {
    var name := t[start + 1..i];
    assert t[start..] == "{" + name + "}" + t[i + 1..];
    assert t[start..i + 1] == "{" + name + "}";
    ExpandName(vars, name, t[i + 1..]);
  }

  /** The single-brace branch once the scan for `}` has stopped at `i`: what it emits and where the
      scan resumes. */
  lemma NameBranch(vars: map<string, string>, t: string, start: nat, name: string, i: nat, found: bool)
    returns (piece: string, next: nat)
    requires start + 1 < |t| && t[start] == '{' && t[start + 1] != '{'
    requires start < i <= |t| && name == t[start + 1..i] && '}' !in name
    requires found ==> i < |t| && t[i] == '}'
    requires !found ==> i == |t|
    ensures piece == if found && name in vars then vars[name] else if found then t[start..i + 1] else t[start..]
    ensures next == if found then i + 1 else i
    ensures Expand(vars, t[start..]) == piece + Expand(vars, t[next..])
  {
    if found {
      StepName(vars, t, start, i);
      piece := if name in vars then vars[name] else t[start..i + 1];
      next := i + 1;
    } else {
      assert t[start + 1..] == name;
      StepUnclosed(vars, t, start);
      assert t[i..] == [];
      assert t[start..] + Expand(vars, t[i..]) == t[start..] + [];
      piece, next := t[start..], i;
    }
  }

  lemma StepUnclosed(vars: map<string, string>, t: string, start: nat)
    requires start + 1 < |t| && t[start] == '{' && t[start + 1] != '{' && '}' !in t[start + 1..]
    ensures Expand(vars, t[start..]) == t[start..]
  {
    assert t[start..] == "{" + t[start + 1..];
    ExpandUnclosed(vars, t[start + 1..]);
  }

  /** The variables a template engine substitutes. */
  class TemplateEngine {
    var variables: map<string, string>

    constructor ()
      ensures variables == map[]
    {
      variables := map[];
    }

    method Set(key: string, value: string)
      modifies this
      ensures variables == old(variables)[key := value]
      ensures GetVariable(key) == Some(value)
      ensures forall k :: k != key ==> GetVariable(k) == old(GetVariable(k))
    {
      variables := variables[key := value];
    }

    method Clear()
      modifies this
      ensures variables == map[]
      ensures forall k :: !HasVariable(k)
    {
      variables := map[];
    }

    function HasVariable(key: string): (b: bool)
      reads this
      ensures b <==> key in variables
    {
      key in variables
    }

    function GetVariable(key: string): (r: Option<string>)
      reads this
      ensures r.Some? <==> HasVariable(key)
      ensures r.Some? ==> r.value == variables[key]
    {
      if key in variables then Some(variables[key]) else None
    }

    /** `render`: a scan over the template characters with index `i`. */
    method Render(template: string) returns (result: string)
      ensures result == Expand(variables, template)
    {
      var vars := variables;
      var t := template;
      result := [];
      var i := 0;
      while i < |t|
        invariant i <= |t|
        invariant result + Expand(vars, t[i..]) == Expand(vars, t)
      {
        var piece, next := RenderAt(vars, t, i);
        Regroup(result, piece, Expand(vars, t[next..]));
        result := result + piece;
        i := next;
      }
      assert t[i..] == [];
    }

    /** `render_args`: each argument rendered, in order. */
    function RenderArgs(args: seq<string>): (r: seq<string>)
      reads this
      ensures |r| == |args| && forall k :: 0 <= k < |args| ==> r[k] == Expand(variables, args[k])
    {
      seq(|args|, k requires 0 <= k < |args| reads this => Expand(variables, args[k]))
    }
  }

  lemma Regroup(a: string, b: string, c: string)
    ensures a + (b + c) == (a + b) + c
  {
  }

  /** One turn of the `render` loop at `i`: `{{` is copied, a single `{` starts a name, any other
      character is copied; `next` is where the scan resumes. */
  method RenderAt(vars: map<string, string>, t: string, i: nat) returns (piece: string, next: nat)
    requires i < |t|
    ensures i < next <= |t|
    ensures Expand(vars, t[i..]) == piece + Expand(vars, t[next..])
  {
    if t[i] == '{' && i + 1 < |t| {
      if t[i + 1] == '{' {
        StepDoubleBrace(vars, t, i);
        piece := [t[i], t[i + 1]];
        next := i + 2;
      } else {
        piece, next := RenderName(vars, t, i);
      }
    } else {
      StepPlain(vars, t, i);
      piece := [t[i]];
      next := i + 1;
    }
  }

  /** The single-brace branch of `render` at `start`: scan for `}`, substitute a set variable, or copy
      the text from `start` through the `}` (or to the end) unchanged. */
  method RenderName(vars: map<string, string>, t: string, start: nat) returns (piece: string, next: nat)
    requires start + 1 < |t| && t[start] == '{' && t[start + 1] != '{'
    ensures start < next <= |t|
    ensures Expand(vars, t[start..]) == piece + Expand(vars, t[next..])
  {
    var name, i, found := ScanName(t, start);
    ghost var emitted, resumed := NameBranch(vars, t, start, name, i, found);
    if found {
      if name in vars {
        piece := vars[name];
      } else {
        piece := CopyThrough(t, start, i);
      }
      next := i + 1;
    } else {
      piece := CopyThrough(t, start, i);
      next := i;
    }
    assert piece == emitted && next == resumed;
  }

  /** The scan for the closing brace: stops at the first `}` after `start`, or at the end. */
  method ScanName(t: string, start: nat) returns (name: string, i: nat, found: bool)
    requires start < |t|
    ensures start < i <= |t| && name == t[start + 1..i] && '}' !in name
    ensures found ==> i < |t| && t[i] == '}'
    ensures !found ==> i == |t|
  {
    i := start + 1;
    name := [];
    found := false;
    while i < |t|
      invariant start < i <= |t| && name == t[start + 1..i] && '}' !in name && !found
    {
      if t[i] == '}' {
        found := true;
        return;
      }
      name := name + [t[i]];
      i := i + 1;
    }
  }

  /** Copying positions `start` through `i` of the template, those that exist. */
  method CopyThrough(t: string, start: nat, i: nat) returns (piece: string)
    requires start <= i <= |t|
    ensures i < |t| ==> piece == t[start..i + 1]
    ensures i == |t| ==> piece == t[start..]
  {
    piece := [];
    var j := start;
    while j <= i
      invariant start <= j <= i + 1 && piece == t[start..if j < |t| then j else |t|]
    {
      if j < |t| {
        assert t[start..j + 1] == t[start..j] + [t[j]];
        piece := piece + [t[j]];
      }
      j := j + 1;
    }
  }
}
