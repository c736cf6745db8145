/**
 Choosing a route or gate for a path (src/data/GateRegistry.cpp:19-130 and src/data/RouteRegistry.cpp:84-144).
 The loops take the entries of a hash map in any order; the rule they find does not depend on it.
 */
module Gates {
  import opened Chars
  import opened Wildcard
  import opened Languages
  import opened StringOrder

  // ----- order of patterns ----------------------------------------------------------------------

  /** a is preferred to b: longer, or as long and smaller. */
  predicate Beats(a: string, b: string) { |a| > |b| || (|a| == |b| && Less(a, b)) }

  lemma BeatsTotal(a: string, b: string)
    ensures a == b || Beats(a, b) || Beats(b, a)
  {
    LessTotal(a, b);
  }

  lemma BeatsNotBoth(a: string, b: string)
    requires Beats(a, b)
    ensures !Beats(b, a) && a != b
  {
    if Less(a, b) {
      LessNotBoth(a, b);
    }
  }

  lemma BeatsTransitive(a: string, b: string, c: string)
    requires Beats(a, b) && Beats(b, c)
    ensures Beats(a, c)
  {
    if |a| == |b| == |c| {
      LessTransitive(a, b, c);
    }
  }

  // ----- the best pattern -----------------------------------------------------------------------

  /** The pattern of `patterns` that accepts the path and beats every other that does. */
  ghost predicate IsBest(patterns: set<string>, path: string, p: string)
  {
    && p in patterns && Accepts(p, path)
    && forall q :: q in patterns && Accepts(q, path) && q != p ==> Beats(p, q)
  }

  ghost predicate NoneAccepts(patterns: set<string>, path: string) { forall p :: p in patterns ==> !Accepts(p, path) }

  /** The best pattern is the longest that accepts the path, and of those the one that is smaller at the first place
      where they differ. */
  lemma BestExactly(patterns: set<string>, path: string, p: string)
    ensures IsBest(patterns, path, p)
            <==> && p in patterns && Accepts(p, path)
                 && forall q :: q in patterns && Accepts(q, path) && q != p
                      ==> |q| < |p| || (|q| == |p| && exists k: nat :: SmallerAt(p, q, k))
  {
    hide Accepts, SmallerAt;
    forall q: string ensures Beats(p, q) <==> |q| < |p| || (|q| == |p| && exists k: nat :: SmallerAt(p, q, k)) {
      LessExactly(p, q);
    }
  }

  lemma BestUnique(patterns: set<string>, path: string, p: string, q: string)
    requires IsBest(patterns, path, p) && IsBest(patterns, path, q)
    ensures p == q
  {
    if p != q {
      BeatsNotBoth(p, q);
    }
  }

  /** The best of the patterns seen so far, if any accepts the path. */
  ghost predicate BestOf(patterns: set<string>, path: string, best: Option<string>)
  {
    if best.Some? then IsBest(patterns, path, best.value) else forall q :: q in patterns ==> !Accepts(q, path)
  }

  lemma BestExtends(seen: set<string>, path: string, best: Option<string>, p: string)
    requires BestOf(seen, path, best)
    ensures !Accepts(p, path) ==> BestOf(seen + {p}, path, best)
    ensures Accepts(p, path) && (best.None? || Beats(p, best.value)) ==> BestOf(seen + {p}, path, Some(p))
    ensures Accepts(p, path) && best.Some? && !Beats(p, best.value) ==> BestOf(seen + {p}, path, best)
  {
    hide Accepts, Beats;
    if Accepts(p, path) && best.Some? {
      BeatsTotal(p, best.value);
      if Beats(p, best.value) {
        forall q | q in seen && Accepts(q, path) && q != p ensures Beats(p, q) {
          if q != best.value {
            BeatsTransitive(p, best.value, q);
          }
        }
      }
    }
  }

  /** The rule of the best pattern. */
  ghost function BestRule<R>(rules: map<string, R>, path: string): Option<R>
  {
    if exists p :: IsBest(rules.Keys, path, p) then (var p :| IsBest(rules.Keys, path, p); Some(rules[p])) else None
  }

  lemma BestRuleIs<R>(rules: map<string, R>, path: string, best: Option<string>)
    requires BestOf(rules.Keys, path, best)
    ensures BestRule(rules, path) == if best.None? then None else Some(rules[best.value])
  {
    hide Accepts, Beats;
    if best.Some? {
      var p :| IsBest(rules.Keys, path, p) && BestRule(rules, path) == Some(rules[p]);
      BestUnique(rules.Keys, path, p, best.value);
    }
  }

  method LessThan(a: string, b: string) returns (r: bool)
    ensures r <==> Less(a, b)
  {
    var i := 0;
    assert a[0..] == a && b[0..] == b;
    while i < |a| && i < |b| && a[i] == b[i]
      invariant i <= |a| && i <= |b| && (Less(a, b) <==> Less(a[i..], b[i..]))
    {
      assert a[i..][1..] == a[i + 1..] && b[i..][1..] == b[i + 1..];
      i := i + 1;
    }
    r := i < |b| && (i == |a| || a[i] < b[i]);
  }

  method Better(pattern: string, bestPattern: Option<string>) returns (r: bool)
    ensures r <==> bestPattern.None? || Beats(pattern, bestPattern.value)
  {
    if bestPattern.None? || |pattern| > |bestPattern.value| {
      return true;
    }
    if |pattern| < |bestPattern.value| {
      return false;
    }
    r := LessThan(pattern, bestPattern.value);
  }

  /** findBestWildcardRuleMatch: the entries are taken in any order. */
  method FindBestWildcardRuleMatch<R>(rules: map<string, R>, path: string) returns (r: Option<R>)
    ensures r == BestRule(rules, path)
    ensures forall p :: IsBest(rules.Keys, path, p) ==> r == Some(rules[p])
    ensures r.None? <==> NoneAccepts(rules.Keys, path)
  {
    hide Accepts, Beats;
    var bestPattern: Option<string> := None;
    r := None;
    var left := rules.Keys;
    while left != {}
      invariant left <= rules.Keys && BestOf(rules.Keys - left, path, bestPattern)
      invariant bestPattern.Some? ==> bestPattern.value in rules
      invariant r == if bestPattern.None? then None else Some(rules[bestPattern.value])
      decreases |left|
    {
      var pattern :| pattern in left;
      BestExtends(rules.Keys - left, path, bestPattern, pattern);
      assert rules.Keys - (left - {pattern}) == (rules.Keys - left) + {pattern};
      left := left - {pattern};
      var matches := MatchesWildcardPattern(pattern, path);
      if matches {
        var better := Better(pattern, bestPattern);
        if better {
          bestPattern := Some(pattern);
          r := Some(rules[pattern]);
        }
      }
    }
    assert rules.Keys - left == rules.Keys;
    BestRuleIs(rules, path, bestPattern);
    forall p | IsBest(rules.Keys, path, p) ensures r == Some(rules[p]) {
      BestUnique(rules.Keys, path, p, bestPattern.value);
    }
  }

  // ----- two kinds of rules ---------------------------------------------------------------------

  datatype Gate<A, S> = Async(asyncRule: A) | Sync(syncRule: S)

  /** The gate stored for a pattern: the asynchronous one if there are two. */
  function GateAt<A, S>(asyncRules: map<string, A>, syncRules: map<string, S>, p: string): Option<Gate<A, S>>
  {
    if p in asyncRules then Some(Async(asyncRules[p]))
    else if p in syncRules then Some(Sync(syncRules[p]))
    else None
  }

  ghost function BestGate<A, S>(asyncRules: map<string, A>, syncRules: map<string, S>, path: string): Option<Gate<A, S>>
  {
    var patterns := asyncRules.Keys + syncRules.Keys;
    if exists p :: IsBest(patterns, path, p)
    then (var p :| IsBest(patterns, path, p); GateAt(asyncRules, syncRules, p))
    else None
  }

  lemma BestGateIs<A, S>(asyncRules: map<string, A>, syncRules: map<string, S>, path: string, best: Option<string>)
    requires BestOf(asyncRules.Keys + syncRules.Keys, path, best)
    ensures BestGate(asyncRules, syncRules, path)
         == if best.None? then None else GateAt(asyncRules, syncRules, best.value)
  {
    hide Accepts, Beats, GateAt;
    var patterns := asyncRules.Keys + syncRules.Keys;
    if best.Some? {
      var p :| IsBest(patterns, path, p) && BestGate(asyncRules, syncRules, path) == GateAt(asyncRules, syncRules, p);
      BestUnique(patterns, path, p, best.value);
    }
  }

  /** The best pattern after the asynchronous entries. */
  method ConsiderAsync<A, S>(path: string, asyncRules: map<string, A>, ghost syncRules: map<string, S>)
    returns (bestPattern: Option<string>, r: Option<Gate<A, S>>)
    ensures BestOf(asyncRules.Keys, path, bestPattern)
    ensures r == if bestPattern.None? then None else GateAt(asyncRules, syncRules, bestPattern.value)
  {
    hide Accepts, Beats;
    bestPattern, r := None, None;
    var left := asyncRules.Keys;
    while left != {}
      invariant left <= asyncRules.Keys && BestOf(asyncRules.Keys - left, path, bestPattern)
      invariant r == if bestPattern.None? then None else GateAt(asyncRules, syncRules, bestPattern.value)
      decreases |left|
    {
      var pattern :| pattern in left;
      BestExtends(asyncRules.Keys - left, path, bestPattern, pattern);
      assert asyncRules.Keys - (left - {pattern}) == (asyncRules.Keys - left) + {pattern};
      left := left - {pattern};
      var matches := MatchesWildcardPattern(pattern, path);
      if matches {
        var better := Better(pattern, bestPattern);
        if better {
          bestPattern, r := Some(pattern), Some(Async(asyncRules[pattern]));
        }
      }
    }
    assert asyncRules.Keys - left == asyncRules.Keys;
  }

  lemma SyncAt<A, S>(asyncRules: map<string, A>, syncRules: map<string, S>, p: string)
    requires p !in asyncRules && p in syncRules
    ensures GateAt(asyncRules, syncRules, p) == Some(Sync(syncRules[p]))
  {
  }

  /** The best pattern after the synchronous entries too. */
  method ConsiderSync<A, S>(path: string, ghost asyncRules: map<string, A>, syncRules: map<string, S>,
                            first: Option<string>, found: Option<Gate<A, S>>)
    returns (ghost bestPattern: Option<string>, r: Option<Gate<A, S>>)
    requires BestOf(asyncRules.Keys, path, first)
    requires found == if first.None? then None else GateAt(asyncRules, syncRules, first.value)
    ensures BestOf(asyncRules.Keys + syncRules.Keys, path, bestPattern)
    ensures r == if bestPattern.None? then None else GateAt(asyncRules, syncRules, bestPattern.value)
  {
    hide *;
    var best := first;
    r := found;
    var left := syncRules.Keys;
    ghost var a, b := asyncRules.Keys, syncRules.Keys;
    SeenEnds(a, b);
    while left != {}
      invariant left <= syncRules.Keys && BestOf(Seen(a, b, left), path, best)
      invariant r == if best.None? then None else GateAt(asyncRules, syncRules, best.value)
      decreases |left|
    {
      var pattern :| pattern in left;
      SeenGrows(a, b, left, pattern);
      BestExtends(Seen(a, b, left), path, best, pattern);
      AlreadyBest(Seen(a, b, left), path, best, pattern);
      var matches := MatchesWildcardPattern(pattern, path);
      if matches {
        var better := Better(pattern, best);
        if better {
          SyncAt(asyncRules, syncRules, pattern);
          best, r := Some(pattern), Some(Sync(syncRules[pattern]));
        }
      }
      left := left - {pattern};
    }

    bestPattern := best;
  }

  /** The patterns taken so far: all of a, and b but for what is left. */
  ghost function Seen(a: set<string>, b: set<string>, left: set<string>): set<string> { a + (b - left) }

  lemma SeenEnds(a: set<string>, b: set<string>)
    ensures Seen(a, b, b) == a && Seen(a, b, {}) == a + b
  {
  }

  lemma SeenGrows(a: set<string>, b: set<string>, left: set<string>, p: string)
    requires p in left && left <= b
    ensures Seen(a, b, left - {p}) == Seen(a, b, left) + {p} && (p in a ==> p in Seen(a, b, left))
  {
  }

  /** findBestWildcardGate: all asynchronous entries in any order, then all synchronous ones in any order. */
  method FindBestWildcardGate<A, S>(path: string, asyncRules: map<string, A>, syncRules: map<string, S>)
    returns (r: Option<Gate<A, S>>)
    ensures r == BestGate(asyncRules, syncRules, path)
    ensures forall p :: IsBest(asyncRules.Keys + syncRules.Keys, path, p) ==> r == Some(Merged(asyncRules, syncRules)[p])
    ensures r.None? <==> NoneAccepts(asyncRules.Keys + syncRules.Keys, path)
  {
    hide GateAt, BestOf;
    var first, found := ConsiderAsync(path, asyncRules, syncRules);
    ghost var best;
    best, r := ConsiderSync(path, asyncRules, syncRules, first, found);
    BestGateIs(asyncRules, syncRules, path, best);
    GateWhereBest(asyncRules, syncRules, path, best);
  }

  /** The gates of both kinds: the asynchronous one where a path has two. */
  function Merged<A, S>(asyncRules: map<string, A>, syncRules: map<string, S>): (m: map<string, Gate<A, S>>)
    ensures m.Keys == asyncRules.Keys + syncRules.Keys
    ensures forall p :: p in asyncRules ==> m[p] == Async(asyncRules[p])
    ensures forall p :: p in syncRules && p !in asyncRules ==> m[p] == Sync(syncRules[p])
  {
    map p | p in asyncRules.Keys + syncRules.Keys :: if p in asyncRules then Async(asyncRules[p]) else Sync(syncRules[p])
  }

  lemma MergedAt<A, S>(asyncRules: map<string, A>, syncRules: map<string, S>, p: string)
    ensures GateAt(asyncRules, syncRules, p)
         == if p in Merged(asyncRules, syncRules) then Some(Merged(asyncRules, syncRules)[p]) else None
  {
  }

  lemma GateWhereBest<A, S>(asyncRules: map<string, A>, syncRules: map<string, S>, path: string, best: Option<string>)
    requires BestOf(asyncRules.Keys + syncRules.Keys, path, best)
    ensures var r := if best.None? then None else GateAt(asyncRules, syncRules, best.value);
            && (forall p :: IsBest(asyncRules.Keys + syncRules.Keys, path, p)
                            ==> r == Some(Merged(asyncRules, syncRules)[p]))
            && (r.None? <==> NoneAccepts(asyncRules.Keys + syncRules.Keys, path))
  {
    hide Accepts, Beats;
    forall p | IsBest(asyncRules.Keys + syncRules.Keys, path, p) ensures best == Some(p) {
      BestUnique(asyncRules.Keys + syncRules.Keys, path, p, best.value);
    }
  }

  /** A pattern seen before does not beat the best so far. */
  lemma AlreadyBest(seen: set<string>, path: string, best: Option<string>, p: string)
    requires BestOf(seen, path, best)
    ensures p in seen && Accepts(p, path) ==> best.Some? && !Beats(p, best.value)
  {
    hide Accepts, Beats;
    if best.None? || p !in seen || !Accepts(p, path) {
    } else if p != best.value {
      BeatsNotBoth(best.value, p);
    } else if Beats(p, p) {
      BeatsNotBoth(p, p);
    }
  }

  // ----- four stages ----------------------------------------------------------------------------

  ghost function FirstFound<T>(stages: seq<Option<T>>): Option<T>
  {
    if stages == [] then None else if stages[0].Some? then stages[0] else FirstFound(stages[1..])
  }

  /** What a lookup over four stages promises: the answer of the first stage that has one. */
  lemma {:induction false} FirstFoundIs<T>(stages: seq<Option<T>>, k: nat)
    requires k < |stages| && stages[k].Some? && forall j :: 0 <= j < k ==> stages[j].None?
    ensures FirstFound(stages) == stages[k]
    decreases k
  {
    if k > 0 {
      FirstFoundIs(stages[1..], k - 1);
    }
  }

  lemma {:induction false} NothingFound<T>(stages: seq<Option<T>>)
    requires forall j :: 0 <= j < |stages| ==> stages[j].None?
    ensures FirstFound(stages) == None
  {
    if stages != [] {
      NothingFound(stages[1..]);
    }
  }

  function Exact<R>(rules: map<string, R>, path: string): Option<R> { if path in rules then Some(rules[path]) else None }

  // ----- canonical paths ------------------------------------------------------------------------

  function WithoutSlashes(path: string): string
  {
    if |path| > 1 && path[|path| - 1] == '/' then WithoutSlashes(path[..|path| - 1]) else path
  }

  predicate HasSuffix(path: string, suffix: string) { |path| > |suffix| && path[|path| - |suffix|..] == suffix }

  /** canonicalRequestPath: no slashes at the end, apart from the root, and then no .html or .htm. */
  function Canonical(path: string): string
  {
    var bare := WithoutSlashes(path);
    if HasSuffix(bare, ".html") then bare[..|bare| - 5]
    else if HasSuffix(bare, ".htm") then bare[..|bare| - 4]
    else bare
  }

  method CanonicalRequestPath(path: string) returns (canon: string)
    ensures canon == Canonical(path)
  {
    canon := path;
    while |canon| > 1 && canon[|canon| - 1] == '/'
      invariant WithoutSlashes(canon) == WithoutSlashes(path)
      decreases |canon|
    {
      canon := canon[..|canon| - 1];
    }
    if |canon| > 5 && canon[|canon| - 5..] == ".html" {
      canon := canon[..|canon| - 5];
    } else if |canon| > 4 && canon[|canon| - 4..] == ".htm" {
      canon := canon[..|canon| - 4];
    }
  }

  /** A page answers under its name, with either extension, and with slashes at the end. */
  lemma CanonicalForms(path: string)
    requires path != ""
    ensures Canonical(path + ".html") == path && Canonical(path + ".htm") == path
    ensures Canonical(path + "/") == Canonical(path)
  {
    var html, htm, slash := path + ".html", path + ".htm", path + "/";
    assert html[|html| - 5..] == ".html" && html[..|html| - 5] == path;
    assert htm[|htm| - 4..] == ".htm" && htm[..|htm| - 4] == path && htm[|htm| - 1] == 'm';
    assert |htm| > 5 ==> htm[|htm| - 5..][4] == 'm';
    assert slash[..|slash| - 1] == path;
  }

  /** However many slashes stand at the end, they do not matter. */
  lemma {:induction false} SlashesGo(bare: string, slashes: string)
    requires bare != "" && forall k :: 0 <= k < |slashes| ==> slashes[k] == '/'
    ensures Canonical(bare + slashes) == Canonical(bare)
    decreases |slashes|
  {
    if slashes != "" {
      var fewer := slashes[..|slashes| - 1];
      var path := bare + slashes;
      assert path[..|path| - 1] == bare + fewer;
      assert path[|path| - 1] == '/';
      SlashesGo(bare, fewer);
    } else {
      assert bare + slashes == bare;
    }
  }

  /** A path that ends neither in a slash nor in a name with one of the extensions is its own canonical form. */
  lemma CanonicalKeeps(path: string)
    requires |path| > 1 ==> path[|path| - 1] != '/'
    requires forall stem :: stem != "" ==> path != stem + ".html" && path != stem + ".htm"
    ensures Canonical(path) == path
  {
    assert HasSuffix(path, ".html") ==> path == path[..|path| - 5] + ".html";
    assert HasSuffix(path, ".htm") ==> path == path[..|path| - 4] + ".htm";
  }

  // ----- stages ---------------------------------------------------------------------------------

  /** Exact, wildcard, and both again without the language prefix. */
  ghost function RuleStages<R>(exact: map<string, R>, wild: map<string, R>, languages: set<string>, path: string):
    seq<Option<R>>
  {
    var stripped := Strip(languages, path);
    [Exact(exact, path), BestRule(wild, path)]
    + if stripped.None? then [] else [Exact(exact, stripped.value), BestRule(wild, stripped.value)]
  }

  /** Whatever answers first: the rule of the path, the rule of the best pattern for it, and the two for the path without
      its language. There is no answer exactly when none of the four has one. */
  ghost predicate InStages<R>(exact: map<string, R>, wild: map<string, R>, languages: set<string>, path: string,
                              r: Option<R>)
  {
    && (path in exact ==> r == Some(exact[path]))
    && (path !in exact ==> forall p :: IsBest(wild.Keys, path, p) ==> r == Some(wild[p]))
    && (path !in exact && NoneAccepts(wild.Keys, path)
        ==> forall bare :: Strip(languages, path) == Some(bare)
              ==> && (bare in exact ==> r == Some(exact[bare]))
                  && (bare !in exact ==> forall p :: IsBest(wild.Keys, bare, p) ==> r == Some(wild[p])))
    && (r.None? <==> && path !in exact && NoneAccepts(wild.Keys, path)
                     && forall bare :: Strip(languages, path) == Some(bare)
                                       ==> bare !in exact && NoneAccepts(wild.Keys, bare))
  }

  /** findMatchingGateImpl and findMatchingRouteImpl, for a canonical path. */
  method FindMatching<R>(exact: map<string, R>, wild: map<string, R>, languages: set<string>, path: string)
    returns (r: Option<R>)
    ensures r == FirstFound(RuleStages(exact, wild, languages, path))
    ensures InStages(exact, wild, languages, path, r)
  {
    hide BestRule, FirstFound, Strip, Accepts, Beats;
    ghost var stages := RuleStages(exact, wild, languages, path);
    if path in exact {
      FirstFoundIs(stages, 0);
      return Some(exact[path]);
    }
    r := FindBestWildcardRuleMatch(wild, path);
    if r.Some? {
      FirstFoundIs(stages, 1);
      return;
    }
    var stripped := Strip(languages, path);
    if stripped.None? {
      NothingFound(stages);
      return None;
    }
    if stripped.value in exact {
      FirstFoundIs(stages, 2);
      return Some(exact[stripped.value]);
    }
    r := FindBestWildcardRuleMatch(wild, stripped.value);
    if r.Some? {
      FirstFoundIs(stages, 3);
    } else {
      NothingFound(stages);
    }
  }

  /** findMatchingRoute. */
  method FindMatchingRoute<R>(exact: map<string, R>, wild: map<string, R>, languages: set<string>, path: string)
    returns (r: Option<R>)
    ensures r == FirstFound(RuleStages(exact, wild, languages, Canonical(path)))
    ensures InStages(exact, wild, languages, Canonical(path), r)
  {
    var canon := CanonicalRequestPath(path);
    r := FindMatching(exact, wild, languages, canon);
  }

  /** The rules of one family of gates (page gates or route gates), by kind. */
  datatype Rules<A, S> = Rules(asyncExact: map<string, A>, exact: map<string, S>, asyncWild: map<string, A>, wild: map<string, S>)

  ghost function GateStages<A, S>(g: Rules<A, S>, languages: set<string>, path: string): seq<Option<Gate<A, S>>>
  {
    var stripped := Strip(languages, path);
    [GateAt(g.asyncExact, g.exact, path), BestGate(g.asyncWild, g.wild, path)]
    + if stripped.None? then []
      else [GateAt(g.asyncExact, g.exact, stripped.value), BestGate(g.asyncWild, g.wild, stripped.value)]
  }

  class GateRegistry<A, S> {
    var asyncExact: map<string, A>
    var exact: map<string, S>
    var asyncWild: map<string, A>
    var wild: map<string, S>

    constructor ()
      ensures AsRules() == Rules(map[], map[], map[], map[])
    {
      asyncExact, exact, asyncWild, wild := map[], map[], map[], map[];
    }

    ghost function AsRules(): Rules<A, S>
      reads this
    {
      Rules(asyncExact, exact, asyncWild, wild)
    }

    method AddGate(path: string, handler: Option<S>) returns (ok: bool)
      modifies this
      ensures ok <==> path != "" && handler.Some?
      ensures AsRules() ==
              var g := old(AsRules());
              if !ok then g
              else if HasStar(path) then g.(wild := g.wild[path := handler.value])
              else g.(exact := g.exact[path := handler.value])
    {
      if path == "" || handler.None? {
        return false;
      }
      var star := FindStar(path, 0);
      if star.Some? {
        wild := wild[path := handler.value];
      } else {
        exact := exact[path := handler.value];
      }
      ok := true;
    }

    method AddAsyncGate(path: string, handler: Option<A>) returns (ok: bool)
      modifies this
      ensures ok <==> path != "" && handler.Some?
      ensures AsRules() ==
              var g := old(AsRules());
              if !ok then g
              else if HasStar(path) then g.(asyncWild := g.asyncWild[path := handler.value])
              else g.(asyncExact := g.asyncExact[path := handler.value])
    {
      if path == "" || handler.None? {
        return false;
      }
      var star := FindStar(path, 0);
      if star.Some? {
        asyncWild := asyncWild[path := handler.value];
      } else {
        asyncExact := asyncExact[path := handler.value];
      }
      ok := true;
    }

    /** Both kinds of rule for the path are removed. */
    method RemoveGate(path: string) returns (removed: bool)
      modifies this
      ensures removed <==> old(if HasStar(path) then path in asyncWild || path in wild else path in asyncExact || path in exact)
      ensures AsRules() ==
              var g := old(AsRules());
              if HasStar(path) then g.(wild := g.wild - {path}, asyncWild := g.asyncWild - {path})
              else g.(exact := g.exact - {path}, asyncExact := g.asyncExact - {path})
    {
      var star := FindStar(path, 0);
      if star.Some? {
        removed := path in wild || path in asyncWild;
        wild := wild - {path};
        asyncWild := asyncWild - {path};
      } else {
        removed := path in exact || path in asyncExact;
        exact := exact - {path};
        asyncExact := asyncExact - {path};
      }
    }

    method ResolveExact(path: string) returns (r: Option<Gate<A, S>>)
      ensures r == GateAt(asyncExact, exact, path)
    {
      if path in asyncExact {
        return Some(Async(asyncExact[path]));
      }
      if path in exact {
        return Some(Sync(exact[path]));
      }
      return None;
    }

    /** findResolvedGateImpl: exact, wildcard, and both again without the language prefix, for the canonical path. */
    method FindResolvedGate(languages: set<string>, path: string) returns (r: Option<Gate<A, S>>)
      ensures r == FirstFound(GateStages(AsRules(), languages, Canonical(path)))
      ensures InStages(Merged(asyncExact, exact), Merged(asyncWild, wild), languages, Canonical(path), r)
    {
      hide BestGate, GateAt, FirstFound, Strip, Canonical, NoneAccepts, IsBest;
      var canon := CanonicalRequestPath(path);
      MergedAt(asyncExact, exact, canon);
      assert Merged(asyncWild, wild).Keys == asyncWild.Keys + wild.Keys;
      ghost var stages := GateStages(AsRules(), languages, canon);
      r := ResolveExact(canon);
      if r.Some? {
        FirstFoundIs(stages, 0);
        return;
      }
      r := FindBestWildcardGate(canon, asyncWild, wild);
      if r.Some? {
        FirstFoundIs(stages, 1);
        return;
      }
      var stripped := Strip(languages, canon);
      if stripped.None? {
        NothingFound(stages);
        return None;
      }
      MergedAt(asyncExact, exact, stripped.value);
      r := ResolveExact(stripped.value);
      if r.Some? {
        FirstFoundIs(stages, 2);
        return;
      }
      r := FindBestWildcardGate(stripped.value, asyncWild, wild);
      if r.Some? {
        FirstFoundIs(stages, 3);
      } else {
        NothingFound(stages);
      }
    }
  }
}
