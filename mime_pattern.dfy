/** Matching a MIME type against a pattern such as `image/` followed by `*`: ASCII case is ignored, surrounding
    whitespace is trimmed, and glob wildcards are honoured only between two full `type/subtype` texts. */
module MimePattern {
  import opened Util

  /** `matches`: equal ignoring case; otherwise, once trimmed, both non-empty and either equal ignoring
      case, or both containing `/` and the lowered pattern, when it has a wildcard, globbing the lowered
      target. */
  predicate Matches(pattern: string, target: string)
  {
    if EqIgnoreAsciiCase(pattern, target) then true
    else
      var p := Trim(pattern);
      var t := Trim(target);
      if p == [] || t == [] then false
      else
        var pn := AsciiLower(p);
        var tn := AsciiLower(t);
        if pn == tn then true
        else if '/' !in pn || '/' !in tn then false
        else if '*' in pn || '?' in pn then GlobMatches(pn, tn)
        else pn == tn
  }

  /** Texts equal up to ASCII case match, so every text matches itself. */
  lemma MatchesReflexive(pattern: string, target: string)
    ensures EqIgnoreAsciiCase(pattern, target) ==> Matches(pattern, target)
    ensures Matches(pattern, pattern)
  {
  }

  /** A side that trims to nothing matches only a text equal to it up to case. */
  lemma BlankMatchesNothingElse(pattern: string, target: string)
    requires Trim(pattern) == [] || Trim(target) == []
    ensures Matches(pattern, target) <==> EqIgnoreAsciiCase(pattern, target)
  {
  }

  /** Without `/` on either side, once trimmed, only equality ignoring case and surrounding whitespace
      matches: wildcards are not honoured. */
  lemma NoSlashMeansEquality(pattern: string, target: string)
    requires '/' !in Trim(pattern) || '/' !in Trim(target)
    ensures Matches(pattern, target)
            <==> EqIgnoreAsciiCase(pattern, target)
                 || (Trim(pattern) != [] && Trim(target) != [] && EqIgnoreAsciiCase(Trim(pattern), Trim(target)))
  {
    AsciiLowerKeepsSymbol(Trim(pattern), '/');
    AsciiLowerKeepsSymbol(Trim(target), '/');
  }

  /** Between two trimmed-non-empty texts that both contain `/`, matching is exactly the glob match of the
      lowered, trimmed pattern against the lowered, trimmed target. */
  lemma MatchesIsGlob(pattern: string, target: string)
    requires Trim(pattern) != [] && Trim(target) != []
    requires '/' in Trim(pattern) && '/' in Trim(target)
    ensures Matches(pattern, target) <==> GlobMatches(AsciiLower(Trim(pattern)), AsciiLower(Trim(target)))
  {
    var pn := AsciiLower(Trim(pattern));
    var tn := AsciiLower(Trim(target));
    AsciiLowerKeepsSymbol(Trim(pattern), '/');
    AsciiLowerKeepsSymbol(Trim(target), '/');
    AsciiLowerKeepsSymbol(Trim(pattern), '*');
    AsciiLowerKeepsSymbol(Trim(pattern), '?');
    if EqIgnoreAsciiCase(pattern, target) {
      AsciiLowerTrim(pattern);
      AsciiLowerTrim(target);
      assert pn == tn;
    }
    if pn == tn {
      GlobMatchesItself(pn);
    }
    if '*' !in pn && '?' !in pn {
      GlobLiteral(pn, tn);
    }
  }

  /** Matching ignores ASCII case entirely: lowering either argument beforehand changes nothing. */
  lemma MatchesIgnoresCase(pattern: string, target: string)
    ensures Matches(AsciiLower(pattern), AsciiLower(target)) == Matches(pattern, target)
  {
    AsciiLowerIdempotent(pattern);
    AsciiLowerIdempotent(target);
    AsciiLowerTrim(pattern);
    AsciiLowerTrim(target);
    AsciiLowerIdempotent(Trim(pattern));
    AsciiLowerIdempotent(Trim(target));
  }

  /** A type prefix followed by `*` matches every subtype of that type. */
  lemma {:induction false} PrefixStar(prefix: string, rest: string)
    requires '*' !in prefix && '?' !in prefix
    ensures GlobMatches(prefix + "*", prefix + rest)
    decreases |prefix|
  {
    if prefix == [] {
      assert prefix + "*" == "*" && prefix + rest == rest;
      GlobStarMatchesAll(rest);
    } else {
      PrefixStar(prefix[1..], rest);
      assert (prefix + "*")[1..] == prefix[1..] + "*";
      assert (prefix + rest)[1..] == prefix[1..] + rest;
    }
  }

  /** The wildcard pattern made of `image/` and `*` matches `image/png`. */
  lemma WildcardExample()
    ensures Matches("image/*", "image/png")
  {
    var star: string := "image/*";
    var png: string := "image/png";
    assert Trim(star) == star;
    assert Trim(png) == png;
    assert AsciiLower(star) == star;
    assert AsciiLower(png) == png;
    PrefixStar("image/", "png");
    assert "image/" + "*" == star && "image/" + "png" == png;
    assert star[5] == '/' && png[5] == '/' && star[6] == '*';
  }

  /** The wildcard pattern made of `text/` and `*` does not match `image/png`: the types differ
      before the wildcard. */
  lemma MismatchedTypeExample()
    ensures !Matches("text/*", "image/png")
  {
    var star: string := "text/*";
    var png: string := "image/png";
    assert Trim(star) == star;
    assert Trim(png) == png;
    assert AsciiLower(star)[0] == 't' && AsciiLower(png)[0] == 'i';
  }

  /** Case does not matter, and an empty side matches nothing. */
  lemma CaseAndEmptyExamples()
    ensures Matches("image/jpeg", "image/jpeg")
    ensures Matches("APPLICATION/JSON", "application/json")
    ensures !Matches("", "application/json")
    ensures !Matches("text/plain", "")
  {
    var upper: string := "APPLICATION/JSON";
    var lower: string := "application/json";
    assert AsciiLower(upper) == lower;
    assert AsciiLower(lower) == lower;
    assert |AsciiLower("")| == 0 && |AsciiLower(lower)| == 16 && |AsciiLower("text/plain")| == 10;
  }
}
