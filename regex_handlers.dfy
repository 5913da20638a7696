/** Handlers chosen by regular expression: each definition's patterns are compiled, the handlers are
    ordered by descending priority, and a candidate is given to the first handler one of whose
    patterns matches it. The regular-expression engine is a parameter: `compiles` says whether a
    pattern is accepted, `isMatch` whether an accepted pattern matches a text. */
module RegexHandlers {
  import opened Util

  /** A handler as configured; `priority` is the source's `i32`, only ever compared. */
  datatype Definition = Definition(exec: string, regexes: seq<string>, terminal: bool, priority: int,
                                   notes: Option<string>)

  /** A handler ready to match: a compiled regular expression is represented by its pattern text. */
  datatype RegexHandler = RegexHandler(exec: string, terminal: bool, priority: int, notes: Option<string>,
                                       patterns: seq<string>, compiled: seq<string>)

  datatype Store = Store(definitions: seq<Definition>, handlers: seq<RegexHandler>)

  /** The handler built from a definition whose patterns all compile. */
  function HandlerOf(d: Definition): RegexHandler
  {
    RegexHandler(d.exec, d.terminal, d.priority, d.notes, d.regexes, d.regexes)
  }

  // ---------------------------------------------------------------------------
  // Matching

  /** `RegexHandler::matches`: `any` over the compiled patterns, from the first. */
  predicate AnyMatches(compiled: seq<string>, candidate: string, isMatch: (string, string) -> bool)
    decreases |compiled|
  {
    compiled != [] && (isMatch(compiled[0], candidate) || AnyMatches(compiled[1..], candidate, isMatch))
  }

  predicate Matches(h: RegexHandler, candidate: string, isMatch: (string, string) -> bool)
  {
    AnyMatches(h.compiled, candidate, isMatch)
  }

  /** A handler matches exactly when one of its patterns does; with no patterns it never matches. */
  lemma {:induction false} AnyMatchesMeaning(compiled: seq<string>, candidate: string, isMatch: (string, string) -> bool)
    ensures AnyMatches(compiled, candidate, isMatch)
            <==> exists k :: 0 <= k < |compiled| && isMatch(compiled[k], candidate)
    ensures compiled == [] ==> !AnyMatches(compiled, candidate, isMatch)
    decreases |compiled|
  {
    if compiled != [] {
      AnyMatchesMeaning(compiled[1..], candidate, isMatch);
      if exists k :: 0 <= k < |compiled| && isMatch(compiled[k], candidate) {
        var k :| 0 <= k < |compiled| && isMatch(compiled[k], candidate);
        if k > 0 {
          assert compiled[1..][k - 1] == compiled[k];
        }
      }
      if AnyMatches(compiled[1..], candidate, isMatch) {
        var k :| 0 <= k < |compiled[1..]| && isMatch(compiled[1..][k], candidate);
        assert compiled[k + 1] == compiled[1..][k];
      }
    }
  }

  /** `find_handler`'s position: the first handler that matches. */
  function FindIndex(handlers: seq<RegexHandler>, candidate: string, isMatch: (string, string) -> bool): (r: Option<nat>)
    ensures r.None? <==> forall k :: 0 <= k < |handlers| ==> !Matches(handlers[k], candidate, isMatch)
    ensures r.Some? ==> r.value < |handlers| && Matches(handlers[r.value], candidate, isMatch)
                        && forall k :: 0 <= k < r.value ==> !Matches(handlers[k], candidate, isMatch)
    decreases |handlers|
  {
    if handlers == [] then None
    else if Matches(handlers[0], candidate, isMatch) then Some(0)
    else match FindIndex(handlers[1..], candidate, isMatch)
      case None => None
      case Some(i) =>
        assert forall k :: 1 <= k <= i ==> handlers[k] == handlers[1..][k - 1];
        Some(i + 1)
  }

  /** `RegexHandlerStore::find_handler`. */
  function FindHandler(store: Store, candidate: string, isMatch: (string, string) -> bool): (r: Option<RegexHandler>)
    ensures r.None? <==> forall k :: 0 <= k < |store.handlers| ==> !Matches(store.handlers[k], candidate, isMatch)
    ensures r.Some? ==> r.value in store.handlers && Matches(r.value, candidate, isMatch)
  {
    match FindIndex(store.handlers, candidate, isMatch)
    case None => None
    case Some(i) => Some(store.handlers[i])
  }

  function Len(store: Store): (n: nat)
    ensures n == |store.handlers|
  {
    |store.handlers|
  }

  function IsEmpty(store: Store): (b: bool)
    ensures b <==> Len(store) == 0
  {
    store.handlers == []
  }

  // ---------------------------------------------------------------------------
  // Ordering: the stable sort by descending priority

  predicate SortedByPriority(hs: seq<RegexHandler>)
  {
    forall i, j :: 0 <= i < j < |hs| ==> hs[i].priority >= hs[j].priority
  }

  /** The handlers of one priority, in order. */
  function WithPriority(hs: seq<RegexHandler>, p: int): seq<RegexHandler>
    decreases |hs|
  {
    if hs == [] then []
    else (if hs[0].priority == p then [hs[0]] else []) + WithPriority(hs[1..], p)
  }

  /** `h` placed after every handler of higher priority and before the rest. */
  function InsertByPriority(h: RegexHandler, hs: seq<RegexHandler>): seq<RegexHandler>
    decreases |hs|
  {
    if hs == [] || hs[0].priority <= h.priority then [h] + hs
    else [hs[0]] + InsertByPriority(h, hs[1..])
  }

  /** `sort_by(|a, b| b.priority.cmp(&a.priority))`, a stable sort, as an insertion sort from the back. */
  function SortByPriority(hs: seq<RegexHandler>): seq<RegexHandler>
    decreases |hs|
  {
    if hs == [] then [] else InsertByPriority(hs[0], SortByPriority(hs[1..]))
  }

  lemma {:induction false} InsertKeepsHandlers(h: RegexHandler, hs: seq<RegexHandler>)
    ensures multiset(InsertByPriority(h, hs)) == multiset(hs) + multiset{h}
    decreases |hs|
  {
    if hs != [] && hs[0].priority > h.priority {
      InsertKeepsHandlers(h, hs[1..]);
      assert hs == [hs[0]] + hs[1..];
    }
  }

  lemma {:induction false} InsertKeepsSorted(h: RegexHandler, hs: seq<RegexHandler>)
    requires SortedByPriority(hs)
    ensures SortedByPriority(InsertByPriority(h, hs))
    decreases |hs|
  {
    if hs != [] && hs[0].priority > h.priority {
      var rest := InsertByPriority(h, hs[1..]);
      InsertKeepsSorted(h, hs[1..]);
      InsertKeepsHandlers(h, hs[1..]);
      forall j | 0 <= j < |rest| ensures rest[j].priority <= hs[0].priority {
        assert rest[j] in multiset(rest);
        if rest[j] != h {
          assert rest[j] in hs[1..];
          var m :| 0 <= m < |hs[1..]| && hs[1..][m] == rest[j];
          assert hs[m + 1] == rest[j];
        }
      }
      SortedCons(hs[0], rest);
    }
  }

  lemma SortedCons(x: RegexHandler, rest: seq<RegexHandler>)
    requires SortedByPriority(rest) && forall j :: 0 <= j < |rest| ==> rest[j].priority <= x.priority
    ensures SortedByPriority([x] + rest)
  {
    var r := [x] + rest;
    forall i, j | 0 <= i < j < |r| ensures r[i].priority >= r[j].priority {
      assert r[j] == rest[j - 1];
      if i > 0 {
        assert r[i] == rest[i - 1];
      }
    }
  }

  lemma {:induction false} InsertKeepsPriorityOrder(h: RegexHandler, hs: seq<RegexHandler>, p: int)
    ensures h.priority == p ==> WithPriority(InsertByPriority(h, hs), p) == [h] + WithPriority(hs, p)
    ensures h.priority != p ==> WithPriority(InsertByPriority(h, hs), p) == WithPriority(hs, p)
    decreases |hs|
  {
    if hs == [] || hs[0].priority <= h.priority {
      assert ([h] + hs)[0] == h && ([h] + hs)[1..] == hs;
    } else {
      var rest := InsertByPriority(h, hs[1..]);
      var r := [hs[0]] + rest;
      assert r[0] == hs[0] && r[1..] == rest;
      InsertKeepsPriorityOrder(h, hs[1..], p);
      if hs[0].priority == p {
        assert h.priority != p;
        assert WithPriority(r, p) == [hs[0]] + WithPriority(rest, p);
        assert WithPriority(hs, p) == [hs[0]] + WithPriority(hs[1..], p);
      } else {
        assert WithPriority(r, p) == WithPriority(rest, p);
        assert WithPriority(hs, p) == WithPriority(hs[1..], p);
      }
    }
  }

  /** The sort orders by descending priority, keeps every handler and, within one priority, keeps the
      original order: the handlers of each priority appear in the order they were given. */
  lemma {:induction false} SortByPriorityFacts(hs: seq<RegexHandler>)
    ensures SortedByPriority(SortByPriority(hs))
    ensures multiset(SortByPriority(hs)) == multiset(hs) && |SortByPriority(hs)| == |hs|
    ensures forall p :: WithPriority(SortByPriority(hs), p) == WithPriority(hs, p)
    decreases |hs|
  {
    if hs != [] {
      SortByPriorityFacts(hs[1..]);
      var rest := SortByPriority(hs[1..]);
      InsertKeepsSorted(hs[0], rest);
      InsertKeepsHandlers(hs[0], rest);
      assert hs == [hs[0]] + hs[1..];
      forall p ensures WithPriority(SortByPriority(hs), p) == WithPriority(hs, p) {
        InsertKeepsPriorityOrder(hs[0], rest, p);
        if hs[0].priority == p {
          assert WithPriority(hs, p) == [hs[0]] + WithPriority(hs[1..], p);
        } else {
          assert WithPriority(hs, p) == WithPriority(hs[1..], p);
        }
      }
      assert |SortByPriority(hs)| == |multiset(SortByPriority(hs))|;
    }
  }

  // ---------------------------------------------------------------------------
  // Construction

  const CompileErrorPrefix: string := "Failed to compile regex"

  function CompileError(pattern: string, exec: string): string
  {
    CompileErrorPrefix + " `" + pattern + "` for handler `" + exec + "`"
  }

  /** The first pattern the engine refuses. */
  function FirstRefused(patterns: seq<string>, compiles: string -> bool): (r: Option<nat>)
    ensures r.None? <==> forall k :: 0 <= k < |patterns| ==> compiles(patterns[k])
    ensures r.Some? ==> r.value < |patterns| && !compiles(patterns[r.value])
                        && forall k :: 0 <= k < r.value ==> compiles(patterns[k])
    decreases |patterns|
  {
    if patterns == [] then None
    else if !compiles(patterns[0]) then Some(0)
    else match FirstRefused(patterns[1..], compiles)
      case None => None
      case Some(i) =>
        assert forall k :: 1 <= k <= i ==> patterns[k] == patterns[1..][k - 1];
        Some(i + 1)
  }

  /** The inner loop of `from_definitions`: every pattern compiled, or the error for the first refused. */
  function CompileOne(d: Definition, compiles: string -> bool): Result<RegexHandler, string>
  {
    match FirstRefused(d.regexes, compiles)
    case Some(k) => Err(CompileError(d.regexes[k], d.exec))
    case None => Ok(HandlerOf(d))
  }

  /** The outer loop: the definitions compiled in order, stopping at the first error. */
  function CompileAll(defs: seq<Definition>, compiles: string -> bool): Result<seq<RegexHandler>, string>
    decreases |defs|
  {
    if defs == [] then Ok([])
    else match CompileAll(defs[..|defs| - 1], compiles)
      case Err(e) => Err(e)
      case Ok(hs) =>
        match CompileOne(defs[|defs| - 1], compiles)
        case Err(e) => Err(e)
        case Ok(h) => Ok(hs + [h])
  }

  /** What `from_definitions` returns. */
  function StoreFrom(defs: seq<Definition>, compiles: string -> bool): Result<Store, string>
  {
    match CompileAll(defs, compiles)
    case Err(e) => Err(e)
    case Ok(hs) => Ok(Store(defs, SortByPriority(hs)))
  }

  /** Once an error has been met, the remaining definitions are not looked at. */
  lemma {:induction false} ErrorSticks(defs: seq<Definition>, compiles: string -> bool, i: nat, e: string)
    requires i <= |defs| && CompileAll(defs[..i], compiles) == Err(e)
    ensures CompileAll(defs, compiles) == Err(e)
    decreases |defs|
  {
    if i < |defs| {
      var init := defs[..|defs| - 1];
      assert init[..i] == defs[..i];
      ErrorSticks(init, compiles, i, e);
    } else {
      assert defs[..i] == defs;
    }
  }

  /** `from_definitions` as the source writes it: nested loops that push each compiled pattern and each
      compiled handler, return the first compile error, then sort. */
  method FromDefinitions(definitions: seq<Definition>, compiles: string -> bool) returns (r: Result<Store, string>)
    ensures r == StoreFrom(definitions, compiles)
  {
    var compiledHandlers: seq<RegexHandler> := [];
    var i := 0;
    while i < |definitions|
      invariant i <= |definitions|
      invariant CompileAll(definitions[..i], compiles) == Ok(compiledHandlers)
    {
      var d := definitions[i];
      var compiledPatterns: seq<string> := [];
      var j := 0;
      while j < |d.regexes|
        invariant j <= |d.regexes| && compiledPatterns == d.regexes[..j]
        invariant forall k :: 0 <= k < j ==> compiles(d.regexes[k])
      {
        var pattern := d.regexes[j];
        if !compiles(pattern) {
          assert definitions[..i + 1][..i] == definitions[..i];
          assert CompileAll(definitions[..i + 1], compiles) == Err(CompileError(pattern, d.exec));
          ErrorSticks(definitions, compiles, i + 1, CompileError(pattern, d.exec));
          r := Err(CompileError(pattern, d.exec));
          return;
        }
        compiledPatterns := compiledPatterns + [pattern];
        j := j + 1;
      }
      assert compiledPatterns == d.regexes;
      assert definitions[..i + 1][..i] == definitions[..i];
      compiledHandlers := compiledHandlers + [RegexHandler(d.exec, d.terminal, d.priority, d.notes, d.regexes,
                                                           compiledPatterns)];
      i := i + 1;
    }
    assert definitions[..i] == definitions;
    r := Ok(Store(definitions, SortByPriority(compiledHandlers)));
  }

  /** Compiling succeeds exactly when every pattern compiles; each handler then comes from one
      definition, in definition order. */
  lemma {:induction false} CompileAllFacts(defs: seq<Definition>, compiles: string -> bool)
    ensures CompileAll(defs, compiles).Ok?
            <==> forall i, k :: 0 <= i < |defs| && 0 <= k < |defs[i].regexes| ==> compiles(defs[i].regexes[k])
    ensures CompileAll(defs, compiles).Ok? ==>
              |CompileAll(defs, compiles).value| == |defs|
              && forall i :: 0 <= i < |defs| ==> CompileAll(defs, compiles).value[i] == HandlerOf(defs[i])
    ensures CompileAll(defs, compiles).Err? ==> StartsWith(CompileAll(defs, compiles).error, CompileErrorPrefix)
    decreases |defs|
  {
    if defs != [] {
      var init := defs[..|defs| - 1];
      var last := defs[|defs| - 1];
      CompileAllFacts(init, compiles);
      assert forall i :: 0 <= i < |init| ==> init[i] == defs[i];
      var c := CompileOne(last, compiles);
      if c.Err? {
        var k := FirstRefused(last.regexes, compiles).value;
        assert CompileError(last.regexes[k], last.exec)[..|CompileErrorPrefix|] == CompileErrorPrefix;
      }
    }
  }

  /** `from_definitions` fails exactly when some pattern does not compile, with the compile error; on
      success the store holds one handler per definition, sorted by descending priority, each priority's
      handlers in definition order, and is as long as the definition list. */
  lemma StoreFromFacts(defs: seq<Definition>, compiles: string -> bool)
    ensures StoreFrom(defs, compiles).Err?
            <==> exists i, k :: 0 <= i < |defs| && 0 <= k < |defs[i].regexes| && !compiles(defs[i].regexes[k])
    ensures StoreFrom(defs, compiles).Err? ==> StartsWith(StoreFrom(defs, compiles).error, CompileErrorPrefix)
    ensures StoreFrom(defs, compiles).Ok? ==>
              var s := StoreFrom(defs, compiles).value;
              s.definitions == defs && Len(s) == |defs| && SortedByPriority(s.handlers)
              && multiset(s.handlers) == multiset(CompileAll(defs, compiles).value)
              && (forall p :: WithPriority(s.handlers, p) == WithPriority(CompileAll(defs, compiles).value, p))
              && |CompileAll(defs, compiles).value| == |defs|
              && forall i :: 0 <= i < |defs| ==> CompileAll(defs, compiles).value[i] == HandlerOf(defs[i])
  {
    CompileAllFacts(defs, compiles);
    if CompileAll(defs, compiles).Ok? {
      SortByPriorityFacts(CompileAll(defs, compiles).value);
    }
  }

  /** The handlers of a store built by `from_definitions` are exactly those of its definitions. */
  lemma StoreHandlers(defs: seq<Definition>, compiles: string -> bool)
    requires StoreFrom(defs, compiles).Ok?
    ensures forall i :: 0 <= i < |defs| ==> HandlerOf(defs[i]) in StoreFrom(defs, compiles).value.handlers
    ensures forall h :: h in StoreFrom(defs, compiles).value.handlers ==>
              exists i :: 0 <= i < |defs| && h == HandlerOf(defs[i])
  {
    StoreFromFacts(defs, compiles);
    var s := StoreFrom(defs, compiles).value;
    var hs := CompileAll(defs, compiles).value;
    forall i | 0 <= i < |defs| ensures HandlerOf(defs[i]) in s.handlers {
      assert hs[i] == HandlerOf(defs[i]);
      assert hs[i] in multiset(hs);
    }
    forall h | h in s.handlers ensures exists i :: 0 <= i < |defs| && h == HandlerOf(defs[i]) {
      assert h in multiset(s.handlers);
      var i :| 0 <= i < |hs| && hs[i] == h;
      assert h == HandlerOf(defs[i]);
    }
  }

  /** In a store built by `from_definitions`, the handler found for a candidate matches it and has the
      highest priority of all matching handlers; none is found only when no handler matches. */
  lemma FindHandlerHighestPriority(defs: seq<Definition>, compiles: string -> bool, candidate: string,
                                   isMatch: (string, string) -> bool)
    requires StoreFrom(defs, compiles).Ok?
    ensures var s := StoreFrom(defs, compiles).value;
            var r := FindHandler(s, candidate, isMatch);
            (r.None? <==> forall i :: 0 <= i < |defs| ==> !Matches(HandlerOf(defs[i]), candidate, isMatch))
            && (r.Some? ==> Matches(r.value, candidate, isMatch)
                            && forall i :: 0 <= i < |defs| && Matches(HandlerOf(defs[i]), candidate, isMatch)
                                           ==> defs[i].priority <= r.value.priority)
  {
    var s := StoreFrom(defs, compiles).value;
    assert SortedByPriority(s.handlers) by { StoreFromFacts(defs, compiles); }
    StoreHandlers(defs, compiles);
    SameHandlers(s.handlers, defs, candidate, isMatch);
    if FindIndex(s.handlers, candidate, isMatch).Some? {
      FirstMatchHighest(s.handlers, defs, candidate, isMatch);
    }
  }

  /** The handlers are exactly those of the definitions, so one matches exactly when a definition does. */
  lemma SameHandlers(hs: seq<RegexHandler>, defs: seq<Definition>, candidate: string, isMatch: (string, string) -> bool)
    requires forall i :: 0 <= i < |defs| ==> HandlerOf(defs[i]) in hs
    requires forall h :: h in hs ==> exists i :: 0 <= i < |defs| && h == HandlerOf(defs[i])
    ensures (forall k :: 0 <= k < |hs| ==> !Matches(hs[k], candidate, isMatch))
            <==> forall i :: 0 <= i < |defs| ==> !Matches(HandlerOf(defs[i]), candidate, isMatch)
  {
    if forall i :: 0 <= i < |defs| ==> !Matches(HandlerOf(defs[i]), candidate, isMatch) {
      forall k | 0 <= k < |hs| ensures !Matches(hs[k], candidate, isMatch) {
        assert hs[k] in hs;
      }
    }
  }

  /** In a list sorted by non-increasing priority, the first match has the highest priority of all the
      definitions' handlers that match. */
  lemma FirstMatchHighest(hs: seq<RegexHandler>, defs: seq<Definition>, candidate: string, isMatch: (string, string) -> bool)
    requires SortedByPriority(hs) && forall i :: 0 <= i < |defs| ==> HandlerOf(defs[i]) in hs
    requires FindIndex(hs, candidate, isMatch).Some?
    ensures forall i :: 0 <= i < |defs| && Matches(HandlerOf(defs[i]), candidate, isMatch)
                        ==> defs[i].priority <= hs[FindIndex(hs, candidate, isMatch).value].priority
  {
    var m := FindIndex(hs, candidate, isMatch).value;
    forall i | 0 <= i < |defs| && Matches(HandlerOf(defs[i]), candidate, isMatch)
      ensures defs[i].priority <= hs[m].priority
    {
      var j :| 0 <= j < |hs| && hs[j] == HandlerOf(defs[i]);
      if m < j {
        assert hs[m].priority >= hs[j].priority;
      }
    }
  }
}
