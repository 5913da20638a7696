/** Shared vocabulary for the model: optional and fallible values, the string operations of
    Rust's standard library that the repository relies on (trim, split, find, replace,
    split_whitespace, ASCII case folding), and the key order of a BTreeMap. */
module Util {

  datatype Option<+T> = None | Some(value: T)

  datatype Result<+T, +E> = Ok(value: T) | Err(error: E)

  function GetOr<K, V>(m: map<K, V>, k: K, default: V): V
  {
    if k in m then m[k] else default
  }

  // ---------------------------------------------------------------------------
  // Whitespace and trimming

  /** Rust's `char::is_whitespace`: the Unicode White_Space code points. */
  predicate IsWhitespace(c: char)
  {
    var n := c as int;
    (0x9 <= n <= 0xD) || n == 0x20 || n == 0x85 || n == 0xA0 || n == 0x1680
    || (0x2000 <= n <= 0x200A) || n == 0x2028 || n == 0x2029 || n == 0x202F
    || n == 0x205F || n == 0x3000
  }

  predicate AllWhitespace(s: string)
  {
    forall i :: 0 <= i < |s| ==> IsWhitespace(s[i])
  }

  /** `str::trim_start`: drop the leading whitespace. */
  function TrimStart(s: string): string
  {
    if s != [] && IsWhitespace(s[0]) then TrimStart(s[1..]) else s
  }

  /** `str::trim_end`: drop the trailing whitespace. */
  function TrimEnd(s: string): string
  {
    if s != [] && IsWhitespace(s[|s| - 1]) then TrimEnd(s[..|s| - 1]) else s
  }

  /** `str::trim`: both. */
  function Trim(s: string): string
  {
    TrimEnd(TrimStart(s))
  }

  predicate IsTrimmed(s: string)
  {
    s == [] || (!IsWhitespace(s[0]) && !IsWhitespace(s[|s| - 1]))
  }

  // The facts about trimming are lemmas rather than postconditions: attached to the functions they
  // would be unfolded for every string in every proof.

  /** `trim_start` removes a whitespace prefix and stops at the first other character. */
  lemma {:induction false} TrimStartFacts(s: string)
    ensures var r := TrimStart(s);
            |r| <= |s| && r == s[|s| - |r|..] && AllWhitespace(s[..|s| - |r|])
            && (r == [] || !IsWhitespace(r[0]))
  {
    if s != [] && IsWhitespace(s[0]) {
      TrimStartFacts(s[1..]);
      var r := TrimStart(s);
      assert s[..|s| - |r|] == [s[0]] + s[1..][..|s| - 1 - |r|];
    }
  }

  /** `trim_end` removes a whitespace suffix and stops at the last other character. */
  lemma {:induction false} TrimEndFacts(s: string)
    ensures var r := TrimEnd(s);
            |r| <= |s| && r == s[..|r|] && AllWhitespace(s[|r|..])
            && (r == [] || !IsWhitespace(r[|r| - 1]))
  {
    if s != [] && IsWhitespace(s[|s| - 1]) {
      var s' := s[..|s| - 1];
      TrimEndFacts(s');
      var r := TrimEnd(s);
      assert s[|r|..] == s'[|r|..] + [s[|s| - 1]];
    }
  }

  /** The trimmed text is a slice of the original with only whitespace around it, and is itself trimmed. */
  lemma TrimIsSlice(s: string) returns (a: nat, b: nat)
    ensures a <= b <= |s| && Trim(s) == s[a..b]
    ensures AllWhitespace(s[..a]) && AllWhitespace(s[b..])
    ensures IsTrimmed(Trim(s))
  {
    var t := TrimStart(s);
    TrimStartFacts(s);
    TrimEndFacts(t);
    var r := TrimEnd(t);
    a, b := |s| - |t|, |s| - |t| + |r|;
    assert r == s[a..b];
    assert s[b..] == t[|r|..];
    if r != [] {
      assert r[0] == t[0];
    }
  }

  /** A trimmed text keeps all its characters, so it has none the original lacks. */
  lemma TrimChars(s: string)
    ensures |Trim(s)| <= |s|
    ensures IsTrimmed(Trim(s))
    ensures forall c :: c in Trim(s) ==> c in s
  {
    var a, b := TrimIsSlice(s);
    forall c | c in Trim(s) ensures c in s {
      var k :| 0 <= k < |Trim(s)| && Trim(s)[k] == c;
      assert s[a + k] == c;
    }
  }

  lemma TrimOfTrimmed(s: string)
    requires IsTrimmed(s)
    ensures Trim(s) == s
  {
  }

  lemma TrimEmptyIffAllWhitespace(s: string)
    ensures Trim(s) == [] <==> AllWhitespace(s)
  {
    var t := TrimStart(s);
    TrimStartFacts(s);
    TrimEndFacts(t);
    if t == [] {
      assert s[..|s|] == s;
    } else {
      assert s[|s| - |t|] == t[0];
    }
  }

  // ---------------------------------------------------------------------------
  // Prefixes, suffixes, search

  predicate StartsWith(s: string, p: string)
  {
    |p| <= |s| && s[..|p|] == p
  }

  predicate EndsWith(s: string, p: string)
  {
    |p| <= |s| && s[|s| - |p|..] == p
  }

  /** `str::find(c)`: the index of the first occurrence of `c`. */
  function Find(s: string, c: char): (r: Option<nat>)
    ensures r.None? <==> c !in s
    ensures r.Some? ==> r.value < |s| && s[r.value] == c && c !in s[..r.value]
  {
    if s == [] then None
    else if s[0] == c then Some(0)
    else match Find(s[1..], c)
      case None => None
      case Some(i) => (assert s[..i + 1] == [s[0]] + s[1..][..i]; Some(i + 1))
  }

  /** The first occurrence of `c` follows a prefix without it. */
  lemma {:induction false} FindAfter(a: string, c: char, b: string)
    requires c !in a
    ensures Find(a + [c] + b, c) == Some(|a|)
  {
    if a != [] {
      assert (a + [c] + b)[1..] == a[1..] + [c] + b;
      FindAfter(a[1..], c, b);
    }
  }

  // ---------------------------------------------------------------------------
  // Splitting and joining

  /** `str::split(c)`: the pieces between occurrences of `c`; always at least one piece. */
  function Split(s: string, c: char): (r: seq<string>)
    ensures |r| >= 1
    ensures forall i :: 0 <= i < |r| ==> c !in r[i]
    decreases |s|
  {
    if s == [] then [[]]
    else
      var rest := Split(s[1..], c);
      if s[0] == c then [[]] + rest else [[s[0]] + rest[0]] + rest[1..]
  }

  /** `join(sep)`: the pieces with `sep` between consecutive ones. */
  function Join(xs: seq<string>, sep: string): string
  {
    if |xs| == 0 then []
    else if |xs| == 1 then xs[0]
    else xs[0] + sep + Join(xs[1..], sep)
  }

  lemma {:induction false} SplitWithoutSeparator(a: string, c: char)
    requires c !in a
    ensures Split(a, c) == [a]
  {
    if a != [] {
      SplitWithoutSeparator(a[1..], c);
      assert a == [a[0]] + a[1..];
    }
  }

  /** Splitting distributes over a separator written between two texts. */
  lemma {:induction false} SplitConcat(a: string, c: char, b: string)
    ensures Split(a + [c] + b, c) == Split(a, c) + Split(b, c)
  {
    var s := a + [c] + b;
    if a == [] {
      assert s[1..] == b;
    } else {
      assert s[1..] == a[1..] + [c] + b;
      SplitConcat(a[1..], c, b);
    }
  }

  lemma SplitAroundSeparator(a: string, c: char, b: string)
    requires c !in a
    ensures Split(a + [c] + b, c) == [a] + Split(b, c)
  {
    SplitConcat(a, c, b);
    SplitWithoutSeparator(a, c);
  }

  /** Joining the pieces of a split gives back the text. */
  lemma {:induction false} JoinSplit(s: string, c: char)
    ensures Join(Split(s, c), [c]) == s
    decreases |s|
  {
    if s != [] {
      var rest := Split(s[1..], c);
      JoinSplit(s[1..], c);
      if s[0] == c {
        assert ([[]] + rest)[1..] == rest;
      } else if |rest| > 1 {
        var r := Split(s, c);
        assert r[1..] == rest[1..];
      }
      assert s == [s[0]] + s[1..];
    }
  }

  /** Splitting a join of separator-free pieces gives back the pieces. */
  lemma {:induction false} SplitJoin(xs: seq<string>, c: char)
    requires |xs| >= 1
    requires forall i :: 0 <= i < |xs| ==> c !in xs[i]
    ensures Split(Join(xs, [c]), c) == xs
    decreases |xs|
  {
    if |xs| > 1 {
      SplitJoin(xs[1..], c);
      SplitAroundSeparator(xs[0], c, Join(xs[1..], [c]));
    } else {
      SplitWithoutSeparator(xs[0], c);
    }
  }

  lemma {:induction false} JoinContainsPiece(xs: seq<string>, sep: string, i: nat)
    requires i < |xs|
    ensures forall c :: c in xs[i] ==> c in Join(xs, sep)
  {
    if i > 0 { JoinContainsPiece(xs[1..], sep, i - 1); }
  }

  /** The pieces trimmed, the empty ones dropped, in order. */
  function NonBlankPieces(ps: seq<string>): seq<string>
  {
    if ps == [] then []
    else
      var t := Trim(ps[0]);
      if t == [] then NonBlankPieces(ps[1..]) else [t] + NonBlankPieces(ps[1..])
  }


  lemma {:induction false} NonBlankPiecesConcat(a: seq<string>, b: seq<string>)
    ensures NonBlankPieces(a + b) == NonBlankPieces(a) + NonBlankPieces(b)
  {
    if a != [] {
      assert (a + b)[1..] == a[1..] + b;
      NonBlankPiecesConcat(a[1..], b);
    } else {
      assert a + b == b;
    }
  }

  lemma {:induction false} NonBlankPiecesOfValid(hs: seq<string>)
    requires forall i :: 0 <= i < |hs| ==> hs[i] != [] && IsTrimmed(hs[i])
    ensures NonBlankPieces(hs) == hs
  {
    if hs != [] {
      TrimOfTrimmed(hs[0]);
      NonBlankPiecesOfValid(hs[1..]);
      assert hs == [hs[0]] + hs[1..];
    }
  }

  /** `s.lines()` for callers that trim every line and skip the blank ones: the pieces between
      newlines. Rust's `lines` also removes a '\r' before each '\n' and yields no final empty
      line; both are whitespace or blank, so no caller here can tell the difference. */
  function Lines(s: string): (r: seq<string>)
    ensures NoNewlines(r)
  {
    Split(s, '\n')
  }

  /** The text made of `ls` one line at a time, each followed by a newline (`writeln!`). */
  function UnLines(ls: seq<string>): string
  {
    if ls == [] then [] else ls[0] + "\n" + UnLines(ls[1..])
  }

  /** Joined lines are empty only when there are none, and otherwise end with a newline. */
  lemma {:induction false} UnLinesEnd(ls: seq<string>)
    ensures UnLines(ls) == [] <==> ls == []
    ensures ls != [] ==> UnLines(ls)[|UnLines(ls)| - 1] == '\n'
  {
    if ls != [] {
      UnLinesEnd(ls[1..]);
      if ls[1..] == [] {
        assert UnLines(ls) == ls[0] + "\n";
      }
    }
  }

  lemma {:induction false} UnLinesConcat(a: seq<string>, b: seq<string>)
    ensures UnLines(a + b) == UnLines(a) + UnLines(b)
  {
    if a != [] {
      assert (a + b)[1..] == a[1..] + b;
      UnLinesConcat(a[1..], b);
    } else {
      assert a + b == b;
    }
  }

  /** Lines written one by one are read back one by one, followed by the empty tail. */
  predicate NoNewlines(ls: seq<string>)
  {
    forall i :: 0 <= i < |ls| ==> '\n' !in ls[i]
  }

  lemma NoNewlinesConcat(a: seq<string>, b: seq<string>)
    requires NoNewlines(a) && NoNewlines(b)
    ensures NoNewlines(a + b)
  {
    forall i | 0 <= i < |a + b| ensures '\n' !in (a + b)[i] {
      if i >= |a| { assert (a + b)[i] == b[i - |a|]; }
    }
  }

  lemma {:induction false} LinesUnLines(ls: seq<string>)
    requires NoNewlines(ls)
    ensures Lines(UnLines(ls)) == ls + [""]
  {
    if ls != [] {
      LinesUnLines(ls[1..]);
      SplitAroundSeparator(ls[0], '\n', UnLines(ls[1..]));
      assert ls[0] + "\n" + UnLines(ls[1..]) == ls[0] + ['\n'] + UnLines(ls[1..]);
    }
  }

  // ---------------------------------------------------------------------------
  // split_whitespace

  /** Length of the leading run of non-whitespace characters. */
  function WordLength(s: string): (n: nat)
    ensures n <= |s|
    ensures forall i :: 0 <= i < n ==> !IsWhitespace(s[i])
    ensures n < |s| ==> IsWhitespace(s[n])
  {
    if s == [] || IsWhitespace(s[0]) then 0 else 1 + WordLength(s[1..])
  }

  predicate IsWord(w: string)
  {
    w != [] && forall i :: 0 <= i < |w| ==> !IsWhitespace(w[i])
  }

  /** `str::split_whitespace`: the maximal runs of non-whitespace characters, in order. */
  function SplitWhitespace(s: string): (r: seq<string>)
    ensures forall i :: 0 <= i < |r| ==> IsWord(r[i])
    decreases |s|
  {
    var t := TrimStart(s);
    if t == [] then []
    else
      TrimStartFacts(s);
      var n := WordLength(t);
      [t[..n]] + SplitWhitespace(t[n..])
  }

  lemma TrimEndKeepsWord(t: string, n: nat)
    requires n <= |t|
    requires forall i :: 0 <= i < n ==> !IsWhitespace(t[i])
    ensures n <= |TrimEnd(t)| && TrimEnd(t)[..n] == t[..n]
  {
    TrimEndFacts(t);
  }

  /** There are no words exactly when the text is blank; otherwise the first word starts the trimmed text. */
  lemma {:induction false} SplitWhitespaceEmptyIffBlank(s: string)
    ensures SplitWhitespace(s) == [] <==> Trim(s) == []
    ensures SplitWhitespace(s) != [] ==> StartsWith(Trim(s), SplitWhitespace(s)[0])
  {
    var t := TrimStart(s);
    TrimStartFacts(s);
    if t != [] {
      var n := WordLength(t);
      TrimEndKeepsWord(t, n);
    }
  }

  // ---------------------------------------------------------------------------
  // replace

  predicate OccursAt(s: string, p: string, i: int)
  {
    0 <= i && i + |p| <= |s| && s[i..i + |p|] == p
  }

  ghost predicate Contains(s: string, p: string)
  {
    exists i :: OccursAt(s, p, i)
  }

  /** `str::replace(from, to)`: every non-overlapping occurrence of `from`, scanning left to right. */
  function ReplaceAll(s: string, from: string, to: string): (r: string)
    requires from != []
    ensures !Contains(s, from) ==> r == s
    decreases |s|
  {
    if |s| < |from| then s
    else if s[..|from|] == from then (assert OccursAt(s, from, 0); to + ReplaceAll(s[|from|..], from, to))
    else
      var rest := ReplaceAll(s[1..], from, to);
      assert Contains(s[1..], from) ==> Contains(s, from) by {
        if Contains(s[1..], from) {
          var i :| OccursAt(s[1..], from, i);
          assert s[1..][i..i + |from|] == s[i + 1..i + 1 + |from|];
          assert OccursAt(s, from, i + 1);
        }
      }
      assert !Contains(s, from) ==> s == [s[0]] + s[1..];
      [s[0]] + rest
  }

  // ---------------------------------------------------------------------------
  // ASCII case folding

  function AsciiLowerChar(c: char): char
  {
    if 'A' <= c <= 'Z' then (c as int + 32) as char else c
  }

  /** `str::to_ascii_lowercase`. */
  function AsciiLower(s: string): (r: string)
    ensures |r| == |s|
    ensures forall i :: 0 <= i < |s| ==> r[i] == AsciiLowerChar(s[i])
  {
    seq(|s|, i requires 0 <= i < |s| => AsciiLowerChar(s[i]))
  }

  /** `str::eq_ignore_ascii_case`. */
  predicate EqIgnoreAsciiCase(a: string, b: string)
  {
    AsciiLower(a) == AsciiLower(b)
  }

  /** Lowering twice is lowering once. */
  lemma AsciiLowerIdempotent(s: string)
    ensures AsciiLower(AsciiLower(s)) == AsciiLower(s)
  {
  }

  /** A character that is not an ASCII letter occurs in the lowered text exactly where it occurs in the
      original. */
  lemma AsciiLowerKeepsSymbol(s: string, c: char)
    requires !('A' <= c <= 'Z') && !('a' <= c <= 'z')
    ensures c in AsciiLower(s) <==> c in s
  {
    if c in s {
      var k :| 0 <= k < |s| && s[k] == c;
      assert AsciiLower(s)[k] == c;
    }
    if c in AsciiLower(s) {
      var k :| 0 <= k < |s| && AsciiLower(s)[k] == c;
      assert s[k] == c;
    }
  }

  lemma {:induction false} AsciiLowerTrimStart(s: string)
    ensures TrimStart(AsciiLower(s)) == AsciiLower(TrimStart(s))
    decreases |s|
  {
    if s != [] {
      assert AsciiLower(s)[1..] == AsciiLower(s[1..]);
      if IsWhitespace(s[0]) {
        AsciiLowerTrimStart(s[1..]);
      }
    }
  }

  lemma {:induction false} AsciiLowerTrimEnd(s: string)
    ensures TrimEnd(AsciiLower(s)) == AsciiLower(TrimEnd(s))
    decreases |s|
  {
    if s != [] {
      assert AsciiLower(s)[..|s| - 1] == AsciiLower(s[..|s| - 1]);
      if IsWhitespace(s[|s| - 1]) {
        AsciiLowerTrimEnd(s[..|s| - 1]);
      }
    }
  }

  /** Whitespace is not a letter, so trimming and lowering commute. */
  lemma AsciiLowerTrim(s: string)
    ensures Trim(AsciiLower(s)) == AsciiLower(Trim(s))
  {
    AsciiLowerTrimStart(s);
    AsciiLowerTrimEnd(TrimStart(s));
  }

  // ---------------------------------------------------------------------------
  // The key order of a BTreeMap<String, _>: lexicographic by code point, which is the byte
  // order of the UTF-8 encoding that Rust compares.

  predicate LexLess(a: string, b: string)
    decreases |a|
  {
    if a == [] then b != []
    else if b == [] then false
    else if a[0] != b[0] then a[0] < b[0]
    else LexLess(a[1..], b[1..])
  }

  lemma {:induction false} LexLessIrreflexive(a: string)
    ensures !LexLess(a, a)
  {
    if a != [] { LexLessIrreflexive(a[1..]); }
  }

  lemma {:induction false} LexLessAsymmetric(a: string, b: string)
    ensures LexLess(a, b) ==> !LexLess(b, a)
    decreases |a|
  {
    if a != [] && b != [] && a[0] == b[0] { LexLessAsymmetric(a[1..], b[1..]); }
  }

  lemma {:induction false} LexLessTransitive(a: string, b: string, c: string)
    ensures LexLess(a, b) && LexLess(b, c) ==> LexLess(a, c)
    decreases |a|
  {
    if a != [] && b != [] && c != [] && a[0] == b[0] && b[0] == c[0] {
      LexLessTransitive(a[1..], b[1..], c[1..]);
    }
  }

  lemma {:induction false} LexLessTotal(a: string, b: string)
    ensures a == b || LexLess(a, b) || LexLess(b, a)
    decreases |a|
  {
    if a != [] && b != [] && a[0] == b[0] {
      LexLessTotal(a[1..], b[1..]);
      if a[1..] == b[1..] { assert a == [a[0]] + a[1..] && b == [b[0]] + b[1..]; }
    }
  }

  predicate IsLeast(m: string, s: set<string>)
  {
    m in s && forall y :: y in s && y != m ==> LexLess(m, y)
  }

  lemma {:induction false} LeastExists(s: set<string>)
    requires s != {}
    ensures exists m :: IsLeast(m, s)
    decreases |s|
  {
    var x :| x in s;
    if s == {x} {
      assert IsLeast(x, s);
    } else {
      LeastExists(s - {x});
      var m :| IsLeast(m, s - {x});
      LexLessTotal(x, m);
      if LexLess(x, m) {
        forall y | y in s && y != x ensures LexLess(x, y) {
          if y != m { LexLessTransitive(x, m, y); }
        }
        assert IsLeast(x, s);
      } else {
        assert IsLeast(m, s);
      }
    }
  }

  lemma LeastUnique(s: set<string>)
    ensures forall m1, m2 :: IsLeast(m1, s) && IsLeast(m2, s) ==> m1 == m2
  {
    forall m1, m2 | IsLeast(m1, s) && IsLeast(m2, s) ensures m1 == m2 {
      LexLessAsymmetric(m1, m2);
    }
  }

  predicate StrictlySorted(xs: seq<string>)
  {
    forall i, j :: 0 <= i < j < |xs| ==> LexLess(xs[i], xs[j])
  }

  /** The keys of a BTreeMap in iteration order: every key once (sortedness is `SortedKeysSorted`). */
  function SortedKeys(s: set<string>): (r: seq<string>)
    ensures |r| == |s|
    ensures forall k :: k in s <==> k in r
    decreases |s|
  {
    if s == {} then []
    else
      LeastExists(s);
      LeastUnique(s);
      var m :| IsLeast(m, s);
      [m] + SortedKeys(s - {m})
  }

  /** The keys come in strictly increasing order, so none twice. */
  lemma {:induction false} SortedKeysSorted(s: set<string>)
    ensures StrictlySorted(SortedKeys(s))
    ensures forall i, j :: 0 <= i < j < |SortedKeys(s)| ==> SortedKeys(s)[i] != SortedKeys(s)[j]
    decreases |s|
  {
    var r := SortedKeys(s);
    if s != {} {
      LeastExists(s);
      LeastUnique(s);
      var m :| IsLeast(m, s);
      var rest := SortedKeys(s - {m});
      assert r == [m] + rest;
      SortedKeysSorted(s - {m});
      forall j | 0 <= j < |rest| ensures LexLess(m, rest[j]) { assert rest[j] in s - {m}; }
      assert StrictlySorted(r) by {
        forall i, j | 0 <= i < j < |r| ensures LexLess(r[i], r[j]) {
          if i > 0 { assert r[i] == rest[i - 1] && r[j] == rest[j - 1]; }
        }
      }
    }
    StrictlySortedDistinct(r);
  }

  lemma StrictlySortedDistinct(xs: seq<string>)
    requires StrictlySorted(xs)
    ensures forall i, j :: 0 <= i < j < |xs| ==> xs[i] != xs[j]
  {
    forall i, j | 0 <= i < j < |xs| ensures xs[i] != xs[j] { LexLessIrreflexive(xs[i]); }
  }

  // ---------------------------------------------------------------------------
  // Glob patterns as the `wildmatch` crate reads them: `*` matches any run of characters,
  // `?` exactly one, every other character itself (case-sensitive).

  predicate GlobMatches(pattern: string, text: string)
    decreases |pattern| + |text|
  {
    if pattern == [] then text == []
    else if pattern[0] == '*' then GlobMatches(pattern[1..], text) || (text != [] && GlobMatches(pattern, text[1..]))
    else text != [] && (pattern[0] == '?' || pattern[0] == text[0]) && GlobMatches(pattern[1..], text[1..])
  }

  /** Every pattern matches its own text. */
  lemma {:induction false} GlobMatchesItself(p: string)
    ensures GlobMatches(p, p)
  {
    if p != [] {
      GlobMatchesItself(p[1..]);
      if p[0] == '*' {
        assert p[1..] == p[1..][0..];
      }
    }
  }

  /** A lone `*` matches every text. */
  lemma {:induction false} GlobStarMatchesAll(t: string)
    ensures GlobMatches("*", t)
  {
    if t != [] {
      GlobStarMatchesAll(t[1..]);
    }
  }

  /** Without wildcards a pattern matches only itself. */
  lemma {:induction false} GlobLiteral(p: string, t: string)
    requires '*' !in p && '?' !in p
    ensures GlobMatches(p, t) <==> p == t
    decreases |p|
  {
    if p != [] && t != [] {
      GlobLiteral(p[1..], t[1..]);
      if p[0] == t[0] && p[1..] == t[1..] {
        assert p == [p[0]] + p[1..] && t == [t[0]] + t[1..];
      }
    }
  }
}
