/**
 Redirect rules and their loop probe (src/data/RouteRegistry.cpp:40-72 and 146-234). The hash map of wildcard rules
 is a sequence: the order in which it is enumerated.
 */
module Redirects {
  import opened Chars
  import opened Wildcard
  import opened Languages

  const MAX_REDIRECT_HOPS := 32

  datatype Rule = Rule(target: string, status: nat)

  datatype Entry = Entry(pattern: string, rule: Rule)

  datatype Table = Table(exact: map<string, Rule>, wild: seq<Entry>, languages: set<string>)

  // ----- lookup ---------------------------------------------------------------------------------

  ghost function CaptureOf(pattern: string, path: string): Option<string>
  {
    if exists c :: Captures(pattern, path, c) then (var c :| Captures(pattern, path, c); Some(c)) else None
  }

  ghost predicate Fires(e: Entry, path: string)
  {
    Accepts(e.pattern, path) && CaptureOf(e.pattern, path).Some?
  }

  /** The rule's target for this path, in the language of the request. */
  ghost function Resolved(e: Entry, languages: set<string>, path: string, request: string): Rule
    requires Fires(e, path)
  {
    Rule(Localized(languages, Applied(e.rule.target, CaptureOf(e.pattern, path).value), request), e.rule.status)
  }

  /** The entry chosen among the first n: the longest pattern that fires, the first of those. */
  ghost predicate Chosen(wild: seq<Entry>, n: nat, path: string, k: nat)
    requires n <= |wild|
  {
    && k < n && Fires(wild[k], path)
    && (forall j :: 0 <= j < n && Fires(wild[j], path) ==> |wild[j].pattern| <= |wild[k].pattern|)
    && (forall j :: 0 <= j < k && Fires(wild[j], path) ==> |wild[j].pattern| < |wild[k].pattern|)
  }

  ghost function WildRedirect(wild: seq<Entry>, languages: set<string>, path: string, request: string): Option<Rule>
  {
    if exists k: nat :: Chosen(wild, |wild|, path, k)
    then (var k: nat :| Chosen(wild, |wild|, path, k); Some(Resolved(wild[k], languages, path, request)))
    else None
  }

  /** The rules for a path as it stands, with the request's language for the target. */
  ghost function DirectRedirect(t: Table, path: string, request: string): Option<Rule>
  {
    if path in t.exact then Some(Rule(Localized(t.languages, t.exact[path].target, request), t.exact[path].status))
    else WildRedirect(t.wild, t.languages, path, request)
  }

  /** The path as it stands, and then without its language. */
  ghost function FindRedirect(t: Table, path: string): Option<Rule>
  {
    var direct := DirectRedirect(t, path, path);
    var bare := Strip(t.languages, path);
    if direct.Some? || bare.None? then direct else DirectRedirect(t, bare.value, path)
  }

  predicate Internal(target: string) { !IsLikelyExternal(target) && target != "" && target[0] == '/' }

  // ----- following redirects --------------------------------------------------------------------

  /** The path a redirect inside the site leads to. */
  ghost function Hop(t: Table, path: string): Option<string>
  {
    var r := FindRedirect(t, path);
    if r.Some? && Internal(r.value.target) then Some(r.value.target) else None
  }

  ghost function Hops(t: Table, path: string, n: nat): Option<string>
    decreases n
  {
    if n == 0 then Some(path)
    else
      var next := Hop(t, path);
      if next.None? then None else Hops(t, next.value, n - 1)
  }

  lemma {:induction false} HopsAdd(t: Table, path: string, a: nat, b: nat)
    ensures Hops(t, path, a + b)
         == if Hops(t, path, a).None? then None else Hops(t, Hops(t, path, a).value, b)
    decreases a
  {
    hide Hop;
    if a > 0 {
      var next := Hop(t, path);
      if next.Some? {
        HopsAdd(t, next.value, a - 1, b);
      }
    }
  }

  lemma HopsShorter(t: Table, path: string, n: nat, m: nat)
    requires n <= m && Hops(t, path, m).Some?
    ensures Hops(t, path, n).Some?
  {
    hide Hop;
    HopsAdd(t, path, n, m - n);
  }

  /** A path that comes back to itself never stops. */
  lemma {:induction false} CycleGoesOn(t: Table, path: string, d: nat, n: nat)
    requires d > 0 && Hops(t, path, d) == Some(path)
    ensures Hops(t, path, n).Some?
    decreases n
  {
    hide Hop;
    if n >= d {
      CycleGoesOn(t, path, d, n - d);
      HopsAdd(t, path, d, n - d);
    } else {
      HopsShorter(t, path, n, d);
    }
  }

  ghost predicate Acyclic(t: Table)
  {
    forall path: string, n: nat :: n > 0 ==> Hops(t, path, n) != Some(path)
  }

  // ----- adding a rule --------------------------------------------------------------------------

  function Put(wild: seq<Entry>, e: Entry): seq<Entry>
  {
    if wild == [] then [e]
    else if wild[0].pattern == e.pattern then [e] + wild[1..]
    else [wild[0]] + Put(wild[1..], e)
  }

  function Drop(wild: seq<Entry>, pattern: string): seq<Entry>
  {
    if wild == [] then []
    else if wild[0].pattern == pattern then Drop(wild[1..], pattern)
    else [wild[0]] + Drop(wild[1..], pattern)
  }

  /** A rule that is stored is the only one for its pattern, and one that is dropped leaves none; others stay. */
  lemma {:induction false} PutStores(wild: seq<Entry>, e: Entry)
    requires forall i, j :: 0 <= i < j < |wild| ==> wild[i].pattern != wild[j].pattern
    ensures var after := Put(wild, e);
            && (forall x: Entry :: x in after && x.pattern == e.pattern <==> x == e)
            && (forall x: Entry :: x.pattern != e.pattern ==> (x in after <==> x in wild))
            && (forall i, j :: 0 <= i < j < |after| ==> after[i].pattern != after[j].pattern)
  {
    if wild != [] {
      var rest := wild[1..];
      assert wild == [wild[0]] + rest;
      PutStores(rest, e);
      var after := Put(wild, e);
      if wild[0].pattern == e.pattern {
        assert after == [e] + rest;
        forall x | x in rest ensures x.pattern != e.pattern {
          var i :| 0 <= i < |rest| && rest[i] == x;
          assert wild[i + 1] == x;
        }
      } else {
        assert after == [wild[0]] + Put(rest, e);
        forall x | x in Put(rest, e) ensures x.pattern != wild[0].pattern {
          if x in rest {
            var i :| 0 <= i < |rest| && rest[i] == x;
            assert wild[i + 1] == x;
          }
        }
      }
    }
  }

  lemma {:induction false} PutKeeps(wild: seq<Entry>, e: Entry)
    ensures forall x: Entry :: x.pattern != e.pattern ==> (x in Put(wild, e) <==> x in wild)
  {
    if wild != [] {
      assert wild == [wild[0]] + wild[1..];
      PutKeeps(wild[1..], e);
    }
  }

  lemma {:induction false} DropErases(wild: seq<Entry>, pattern: string)
    ensures var after := Drop(wild, pattern);
            && (forall x: Entry :: x in after <==> x in wild && x.pattern != pattern)
  {
    if wild != [] {
      assert wild == [wild[0]] + wild[1..];
      DropErases(wild[1..], pattern);
    }
  }

  function Inserted(t: Table, from: string, rule: Rule): Table
  {
    if HasStar(from) then t.(wild := Put(t.wild, Entry(from, rule))) else t.(exact := t.exact[from := rule])
  }

  function Erased(t: Table, from: string): Table
  {
    if HasStar(from) then t.(wild := Drop(t.wild, from)) else t.(exact := t.exact - {from})
  }

  /** The path the loop probe starts from: the first star is replaced. */
  function ProbePath(from: string): string
  {
    if from == "" then "" else if from[0] == '*' then "loop-check" + from[1..] else [from[0]] + ProbePath(from[1..])
  }

  datatype Added = Added(table: Table, ok: bool)

  ghost function AddRedirect(t: Table, from: string, to: string, status: nat): Added
  {
    if from == "" || to == "" then Added(t, false)
    else
      var t1 := Inserted(t, from, Rule(to, if status != 301 && status != 302 then 301 else status));
      if Hops(t1, ProbePath(from), MAX_REDIRECT_HOPS).Some? then Added(Erased(t1, from), false) else Added(t1, true)
  }

  lemma {:induction false} ProbePlain(from: string)
    requires !HasStar(from)
    ensures ProbePath(from) == from
  {
    if from != "" {
      assert from[0] != '*';
      forall k | 0 <= k < |from[1..]| ensures from[1..][k] != '*' {
        assert from[k + 1] != '*';
      }
      ProbePlain(from[1..]);
      assert from == [from[0]] + from[1..];
    }
  }

  // ----- no cycles, over all runs ---------------------------------------------------------------

  /** Tables that differ at `from` only, where `from` leads nowhere: what follows a path is unchanged or shorter. */
  lemma {:induction false} HopsWithout(t: Table, u: Table, from: string, path: string, n: nat)
    requires forall p :: p != from ==> Hop(u, p) == Hop(t, p)
    requires Hop(u, from).None? && Hops(u, path, n).Some?
    ensures Hops(t, path, n) == Hops(u, path, n)
    decreases n
  {
    hide Hop;
    if n > 0 {
      HopsWithout(t, u, from, Hop(u, path).value, n - 1);
    }
  }

  /** In tables that differ at `from` only, a cycle that avoids `from` is a cycle of both. */
  lemma {:induction false} HopsAvoiding(t: Table, u: Table, from: string, path: string, n: nat)
    requires forall p :: p != from ==> Hop(u, p) == Hop(t, p)
    requires forall k: nat :: k < n ==> Hops(u, path, k) != Some(from)
    ensures Hops(t, path, n) == Hops(u, path, n)
    decreases n
  {
    hide Hop;
    if n > 0 {
      assert Hops(u, path, 0) != Some(from);
      var next := Hop(u, path);
      if next.Some? {
        forall k: nat | k < n - 1 ensures Hops(u, next.value, k) != Some(from) {
          assert Hops(u, path, k + 1) != Some(from);
        }
        HopsAvoiding(t, u, from, next.value, n - 1);
      }
    }
  }

  /** No path can name one of these languages. */
  predicate NoCodes(languages: set<string>) { forall g :: g in languages ==> !TwoLetterCode(g) }

  /** No wildcard rules, and no language that a path can name. */
  predicate OnlyExact(t: Table) { t.wild == [] && NoCodes(t.languages) }

  lemma OnlyExactHop(t: Table, path: string)
    requires OnlyExact(t)
    ensures Hop(t, path)
         == if path in t.exact && Internal(t.exact[path].target) then Some(t.exact[path].target) else None
  {
    assert forall k: nat :: !Chosen(t.wild, 0, path, k);
    NeverPrefixed(t.languages, path);
    Unprefixed(t.languages, path, if path in t.exact then t.exact[path].target else "");
  }

  lemma HopElsewhere(t: Table, from: string, rule: Rule)
    requires OnlyExact(t) && !HasStar(from)
    ensures forall p :: p != from ==> Hop(Inserted(t, from, rule), p) == Hop(t, p)
    ensures forall p :: p != from ==> Hop(Erased(Inserted(t, from, rule), from), p) == Hop(t, p)
    ensures Hop(Erased(Inserted(t, from, rule), from), from).None?
  {
    hide Hop;
    forall p: string
      ensures p != from ==> Hop(Inserted(t, from, rule), p) == Hop(t, p)
                            == Hop(Erased(Inserted(t, from, rule), from), p)
      ensures Hop(Erased(Inserted(t, from, rule), from), from).None?
    {
      OnlyExactHop(t, p);
      OnlyExactHop(Inserted(t, from, rule), p);
      OnlyExactHop(Erased(Inserted(t, from, rule), from), p);
      OnlyExactHop(Erased(Inserted(t, from, rule), from), from);
    }
  }

  lemma AcceptedStaysAcyclic(t: Table, u: Table, from: string, k: nat)
    requires Acyclic(t) && (forall p :: p != from ==> Hop(u, p) == Hop(t, p)) && Hops(u, from, k).None?
    ensures Acyclic(u)
  {
    hide Hop, Hops;
    forall path: string, n: nat | n > 0 ensures Hops(u, path, n) != Some(path) {
      if Hops(u, path, n) == Some(path) {
        forall j: nat | j < n ensures Hops(u, path, j) != Some(from) {
          CycleGoesOn(u, path, n, j + k);
          HopsAdd(u, path, j, k);
        }
        HopsAvoiding(t, u, from, path, n);
      }
    }
  }

  lemma RemovedStaysAcyclic(t: Table, u: Table, from: string)
    requires Acyclic(t) && (forall p :: p != from ==> Hop(u, p) == Hop(t, p)) && Hop(u, from).None?
    ensures Acyclic(u)
  {
    hide Hop, Hops;
    forall path: string, n: nat | n > 0 ensures Hops(u, path, n) != Some(path) {
      if Hops(u, path, n) == Some(path) {
        HopsWithout(t, u, from, path, n);
      }
    }
  }

  lemma AddKeepsAcyclic(t: Table, from: string, to: string, status: nat)
    requires Acyclic(t) && OnlyExact(t) && !HasStar(from)
    ensures var u := AddRedirect(t, from, to, status).table; Acyclic(u) && OnlyExact(u)
  {
    hide Acyclic, Hop;
    if from != "" && to != "" {
      var rule := Rule(to, if status != 301 && status != 302 then 301 else status);
      var t1 := Inserted(t, from, rule);
      HopElsewhere(t, from, rule);
      ProbePlain(from);
      if Hops(t1, from, MAX_REDIRECT_HOPS).Some? {
        RemovedStaysAcyclic(t, Erased(t1, from), from);
      } else {
        AcceptedStaysAcyclic(t, t1, from, MAX_REDIRECT_HOPS);
      }
    }
  }

  datatype Call = Call(from: string, to: string, status: nat)

  ghost function AddAll(t: Table, calls: seq<Call>): Table
    decreases |calls|
  {
    if calls == [] then t
    else AddAll(AddRedirect(t, calls[0].from, calls[0].to, calls[0].status).table, calls[1..])
  }

  /** No rules yet. */
  function Empty(languages: set<string>): Table { Table(map[], [], languages) }

  const NoRules := Empty({})

  /** Whatever exact rules are added, overwritten or refused, following redirects never comes back. */
  lemma {:induction false} NeverCycles(t: Table, calls: seq<Call>)
    requires Acyclic(t) && OnlyExact(t) && forall k :: 0 <= k < |calls| ==> !HasStar(calls[k].from)
    ensures Acyclic(AddAll(t, calls)) && OnlyExact(AddAll(t, calls))
    decreases |calls|
  {
    hide Acyclic;
    if calls != [] {
      var c := calls[0];
      AddKeepsAcyclic(t, c.from, c.to, c.status);
      NeverCycles(AddRedirect(t, c.from, c.to, c.status).table, calls[1..]);
    }
  }

  lemma EmptyIsAcyclic(languages: set<string>)
    ensures Acyclic(Empty(languages))
  {
    var t := Empty(languages);
    assert forall path: string, k: nat :: !Chosen(t.wild, 0, path, k);
    forall path: string, n: nat | n > 0 ensures Hops(t, path, n).None? {
      assert Hop(t, path).None?;
    }
  }

  // ----- chains may still be long ---------------------------------------------------------------

  function Name(k: nat): string { if k == 0 then "/" else Name(k - 1) + "x" }

  lemma {:induction false} NameShape(k: nat)
    ensures |Name(k)| == k + 1 && Name(k)[0] == '/' && (k > 0 ==> Name(k)[1] == 'x')
    ensures forall j :: 0 < j <= k ==> Name(k)[j] == 'x'
    decreases k
  {
    if k > 0 {
      NameShape(k - 1);
    }
  }

  lemma NameInternal(k: nat)
    ensures Internal(Name(k)) && !HasStar(Name(k))
  {
    NameShape(k);
    var s := Name(k);
    forall j | 0 <= j < |s| ensures s[j] != '*' {
    }
    if |s| >= 2 {
      assert s[..2][1] == 'x';
    }
    if |s| >= 7 {
      assert s[..7][0] == '/';
    }
    if |s| >= 8 {
      assert s[..8][0] == '/';
    }
  }

  /** The calls that build the chain Name(0), Name(1), ..., Name(n). */
  function ChainCalls(n: nat): seq<Call>
  {
    if n == 0 then [] else ChainCalls(n - 1) + [Call(Name(n - 1), Name(n), 301)]
  }

  lemma {:induction false} AddAllConcat(t: Table, a: seq<Call>, c: Call)
    ensures AddAll(t, a + [c]) == AddRedirect(AddAll(t, a), c.from, c.to, c.status).table
    decreases |a|
  {
    if a == [] {
      assert (a + [c])[1..] == [];
    } else {
      assert (a + [c])[1..] == a[1..] + [c];
      AddAllConcat(AddRedirect(t, a[0].from, a[0].to, a[0].status).table, a[1..], c);
    }
  }

  ghost predicate IsChain(t: Table, n: nat)
  {
    && OnlyExact(t)
    && (forall k: nat :: k < n ==> Hop(t, Name(k)) == Some(Name(k + 1)))
    && (forall p :: p in t.exact ==> |p| <= n)
  }

  lemma {:induction false} ChainBuilt(n: nat)
    ensures IsChain(AddAll(NoRules, ChainCalls(n)), n)
    decreases n
  {
    hide AddRedirect, Name, IsChain;
    if n > 0 {
      ChainBuilt(n - 1);
      var t := AddAll(NoRules, ChainCalls(n - 1));
      AddAllConcat(NoRules, ChainCalls(n - 1), Call(Name(n - 1), Name(n), 301));
      ChainGrows(t, n - 1);
    } else {
      NoChain();
    }
  }

  lemma NoChain()
    ensures IsChain(AddAll(NoRules, ChainCalls(0)), 0)
  {
  }

  /** The probe from the end of the chain stops after one hop. */
  lemma ProbeStops(t1: Table, a: string, b: string)
    requires Hop(t1, a) == Some(b) && Hop(t1, b).None?
    ensures Hops(t1, a, MAX_REDIRECT_HOPS).None?
  {
    hide Hop;
    assert Hops(t1, b, MAX_REDIRECT_HOPS - 1).None?;
  }

  lemma ChainGrows(t: Table, n: nat)
    requires IsChain(t, n)
    ensures var a := AddRedirect(t, Name(n), Name(n + 1), 301); a.ok && IsChain(a.table, n + 1)
  {
    NameInternal(n);
    NameInternal(n + 1);
    NameShape(n);
    NameShape(n + 1);
    var t1 := Inserted(t, Name(n), Rule(Name(n + 1), 301));
    ProbePlain(Name(n));
    OnlyExactHop(t1, Name(n));
    OnlyExactHop(t1, Name(n + 1));
    hide Hop, Hops, Internal, HasStar, Name;
    ProbeStops(t1, Name(n), Name(n + 1));
    forall k: nat | k < n + 1 ensures Hop(t1, Name(k)) == Some(Name(k + 1)) {
      OnlyExactHop(t, Name(k));
      OnlyExactHop(t1, Name(k));
      NameShape(k);
    }
  }

  lemma {:induction false} ChainIsFollowed(t: Table, n: nat, k: nat)
    requires IsChain(t, n) && k <= n
    ensures Hops(t, Name(k), n - k) == Some(Name(n))
    decreases n - k
  {
    hide Hop, Name;
    if k < n {
      ChainIsFollowed(t, n, k + 1);
    }
  }

  /** The probe looks 32 hops ahead, but accepted rules may form chains of any length. */
  lemma LongChains(n: nat)
    ensures Hops(AddAll(NoRules, ChainCalls(n)), Name(0), n) == Some(Name(n))
  {
    hide *;
    ChainBuilt(n);
    ChainIsFollowed(AddAll(NoRules, ChainCalls(n)), n, 0);
  }

  // ----- cycles with languages or wildcards -----------------------------------------------------

  /** The hop of a path for which an exact rule applies, directly or without its language. */
  lemma ExactHop(t: Table, path: string)
    requires t.wild == []
    ensures var bare := Strip(t.languages, path);
            var key := if path in t.exact || bare.None? then path else bare.value;
            Hop(t, path)
            == if key in t.exact && Internal(Localized(t.languages, t.exact[key].target, path))
               then Some(Localized(t.languages, t.exact[key].target, path)) else None
  {
    hide Strip, Localized, Fires, Internal;
    assert forall p: string, k: nat :: !Chosen(t.wild, 0, p, k);
  }

  lemma TwoHops(t: Table, a: string, b: string)
    requires Hop(t, a) == Some(b) && Hop(t, b) == Some(a)
    ensures Hops(t, a, 2) == Some(a) && !Acyclic(t)
  {
    hide Hop;
    assert Hops(t, b, 1) == Some(a) by {
      assert Hops(t, a, 0) == Some(a);
    }
  }

  /** What the language of ga and gb does to these paths. */
  predicate CodePaths(l: set<string>, ga: string, gb: string, a: string, b: string)
  {
    && Strip(l, gb) == Some(b) && Strip(l, b).None? && Strip(l, a).None?
    && Localized(l, gb, ga) == gb && Localized(l, a, b) == a && Localized(l, a, gb) == ga
    && Internal(ga) && Internal(gb) && Internal(a)
    && !HasStar(ga) && !HasStar(b) && ga != "" && gb != "" && a != "" && b != ""
    && ga != gb && a != b && a != ga && b != ga && b != gb
  }

  lemma CodePathsAre(l: set<string>, g: string, ga: string, gb: string, a: string, b: string)
    requires g in l && TwoLetterCode(g) && a == "/a" && b == "/b" && ga == "/" + g + a && gb == "/" + g + b
    ensures CodePaths(l, ga, gb, a, b)
  {
    assert ga[1..3] == g && gb[1..3] == g && gb[3..] == b;
    InternalPath(ga);
    InternalPath(gb);
    InternalPath(a);
    assert ga == ['/', g[0], g[1], '/', 'a'] && gb == ['/', g[0], g[1], '/', 'b'];
  }

  /** With any language that a path can name two accepted exact rules can lead round in a cycle: the probe of the second
      follows its own path, and the cycle is on the path with the language in front. */
  lemma LanguagesCanCycle(l: set<string>, g: string, a: string, b: string)
    requires g in l && TwoLetterCode(g) && a == "/a" && b == "/b"
    ensures var first := AddRedirect(Empty(l), "/" + g + a, "/" + g + b, 301);
            var second := AddRedirect(first.table, b, a, 301);
            first.ok && second.ok && !Acyclic(second.table)
  {
    var ga, gb := "/" + g + a, "/" + g + b;
    CodePathsAre(l, g, ga, gb, a, b);
    hide Strip, Localized, Internal, HasStar, Hop, Hops, Acyclic;
    var t1 := Table(map[ga := Rule(gb, 301)], [], l);
    ProbePlain(ga);
    ProbePlain(b);
    assert Inserted(Empty(l), ga, Rule(gb, 301)) == t1;
    ExactHop(t1, ga);
    ExactHop(t1, gb);
    ProbeStops(t1, ga, gb);
    var t2 := Table(map[ga := Rule(gb, 301), b := Rule(a, 301)], [], l);
    assert Inserted(t1, b, Rule(a, 301)) == t2;
    ExactHop(t2, b);
    ExactHop(t2, a);
    ProbeStops(t2, b, a);
    ExactHop(t2, ga);
    ExactHop(t2, gb);
    TwoHops(t2, ga, gb);
  }

  /** One wildcard rule with its star at the end, and a path that names no language. */
  lemma OneWildHop(t: Table, e: Entry, k: nat, path: string, capture: string)
    requires t.wild == [e] && PrefixOf(t.languages, path).None? && path !in t.exact && |e.pattern| == k + 1 && OneStarAt(e.pattern, k)
    requires path == e.pattern[..k] + capture && '\0' !in path && '\0' !in e.pattern
    ensures var target := Applied(e.rule.target, capture);
            Hop(t, path) == if Internal(target) then Some(target) else None
  {
    Unprefixed(t.languages, path, Applied(e.rule.target, capture));
    assert path == e.pattern[..k] + capture + e.pattern[k + 1..];
    assert HasStar(e.pattern);
    assert Captures(e.pattern, path, capture);
    CaptureUnique(e.pattern, path, capture, CaptureOf(e.pattern, path).value);
    CaptureExactly(e.pattern, k, path);
    AcceptsIsGlob(e.pattern, path);
    assert Chosen(t.wild, 1, path, 0);
    hide Accepts, Captures, Applied, Internal;
  }

  lemma NoWildHop(t: Table, e: Entry, k: nat, path: string)
    requires t.wild == [e] && PrefixOf(t.languages, path).None? && path !in t.exact && |e.pattern| == k + 1 && OneStarAt(e.pattern, k)
    requires !HasPrefix(path, e.pattern[..k])
    ensures Hop(t, path).None?
  {
    Unprefixed(t.languages, path, "");
    forall capture ensures !Captures(e.pattern, path, capture) {
      assert HasStar(e.pattern);
      assert forall j: nat :: OneStarAt(e.pattern, j) ==> j == k;
      assert (e.pattern[..k] + capture + e.pattern[k + 1..])[..k] == e.pattern[..k];
    }
    assert !Fires(e, path);
    assert forall j: nat :: !Chosen(t.wild, 1, path, j);
    hide Captures, Accepts, Internal;
  }

  /** With a wildcard rule two accepted rules can lead round in a cycle, whatever the languages: the probe of the second
      follows another path than the one the first rule leads to. */
  lemma WildcardsCanCycle(l: set<string>, b: string, ab: string, pattern: string, target: string)
    requires b == "/b" && ab == "/a/b" && pattern == "/a/*" && target == "/*"
    ensures var first := AddRedirect(Empty(l), b, ab, 301);
            var second := AddRedirect(first.table, pattern, target, 301);
            first.ok && second.ok && !Acyclic(second.table)
  {
    var probe, landing, capture := "/a/loop-check", "/loop-check", "loop-check";
    WildcardTexts(b, ab, pattern, target, probe, landing, capture);
    NoneNamesALanguage(l, b, ab, probe, landing);
    hide PrefixOf, Internal, HasStar, Hop, Hops, Acyclic, HasPrefix, OneStarAt, Applied;
    var t1 := Table(map[b := Rule(ab, 301)], [], l);
    var e := Entry(pattern, Rule(target, 301));
    var t2 := Table(map[b := Rule(ab, 301)], [e], l);
    assert Inserted(Empty(l), b, Rule(ab, 301)) == t1;
    DirectHop(t1, b);
    NoRuleHop(t1, ab);
    ProbeStops(t1, b, ab);
    assert Inserted(t1, pattern, Rule(target, 301)) == t2;
    OneWildHop(t2, e, 3, probe, capture);
    NoWildHop(t2, e, 3, landing);
    ProbeStops(t2, probe, landing);
    OneWildHop(t2, e, 3, ab, "b");
    DirectHop(t2, b);
    TwoHops(t2, b, ab);
  }

  lemma NoneNamesALanguage(l: set<string>, b: string, ab: string, probe: string, landing: string)
    requires b == "/b" && ab == "/a/b" && probe == "/a/loop-check" && landing == "/loop-check"
    ensures PrefixOf(l, b).None? && PrefixOf(l, ab).None? && PrefixOf(l, probe).None? && PrefixOf(l, landing).None?
  {
    assert ab[2] == '/' && probe[2] == '/' && landing[3] == 'o';
  }

  lemma NoRuleHop(t: Table, path: string)
    requires t.wild == [] && PrefixOf(t.languages, path).None? && path !in t.exact
    ensures Hop(t, path).None?
  {
    Unprefixed(t.languages, path, "");
    assert forall k: nat :: !Chosen(t.wild, 0, path, k);
  }

  lemma DirectHop(t: Table, path: string)
    requires PrefixOf(t.languages, path).None? && path in t.exact && Internal(t.exact[path].target)
    ensures Hop(t, path) == Some(t.exact[path].target)
  {
    Unprefixed(t.languages, path, t.exact[path].target);
    hide Internal;
  }

  lemma WildcardTexts(b: string, ab: string, pattern: string, target: string, probe: string, landing: string,
                      capture: string)
    requires b == "/b" && ab == "/a/b" && pattern == "/a/*" && target == "/*"
    requires probe == "/a/loop-check" && landing == "/loop-check" && capture == "loop-check"
    ensures !HasStar(b) && HasStar(pattern) && OneStarAt(pattern, 3) && ProbePath(pattern) == probe && ProbePath(b) == b
    ensures probe == pattern[..3] + capture && ab == pattern[..3] + "b" && !HasPrefix(landing, pattern[..3])
    ensures Applied(target, capture) == landing && Applied(target, "b") == b
    ensures '\0' !in probe && '\0' !in pattern && '\0' !in ab
    ensures Internal(ab) && Internal(landing) && Internal(b)
    ensures |b| == 2 && |ab| == 4 && |pattern| == 4 && |probe| == 13 && |landing| == 11 && target != ""
  {
    hide *;
    StarFromEnd(pattern, probe);
    PlainTexts(b, ab, pattern, probe);
    LandingText(pattern, landing, capture);
    InternalPath(ab);
    InternalPath(landing);
    InternalPath(b);
    ProbePlain(b);
    StarTarget(target, capture, landing);
    StarTarget(target, "b", b);
  }

  lemma InternalPath(path: string)
    requires |path| >= 2 && path[0] == '/' && path[1] != '/'
    ensures Internal(path)
  {
    assert path[..2][1] == path[1];
    if |path| >= 7 {
      assert path[..7][0] == '/';
    }
    if |path| >= 8 {
      assert path[..8][0] == '/';
    }
  }

  lemma PlainTexts(b: string, ab: string, pattern: string, probe: string)
    requires b == "/b" && ab == "/a/b" && pattern == "/a/*" && probe == "/a/loop-check"
    ensures !HasStar(b) && HasStar(pattern) && |b| == 2 && b[0] == '/' && b[1] != '/' && b == "/" + "b"
    ensures |ab| == 4 && ab[0] == '/' && ab[1] != '/' && ab == pattern[..3] + "b"
    ensures |pattern| == 4 && |probe| == 13 && probe == pattern[..3] + "loop-check"
    ensures '\0' !in probe && '\0' !in pattern && '\0' !in ab
  {
    assert pattern[3] == '*' && pattern[..3] == "/a/";
  }

  lemma LandingText(pattern: string, landing: string, capture: string)
    requires pattern == "/a/*" && landing == "/loop-check" && capture == "loop-check"
    ensures |landing| == 11 && landing[0] == '/' && landing[1] != '/' && landing == "/" + capture
    ensures !HasPrefix(landing, pattern[..3])
  {
    assert landing[..3][1] == 'l' && pattern[..3][1] == 'a';
  }

  lemma StarFromEnd(pattern: string, probe: string)
    requires pattern == "/a/*" && probe == "/a/loop-check"
    ensures OneStarAt(pattern, 3) && ProbePath(pattern) == probe
  {
    ProbeAt(pattern, 3);
    assert pattern[..3] == "/a/" && pattern[4..] == "";
  }

  lemma StarTarget(target: string, capture: string, path: string)
    requires target == "/*" && path == "/" + capture
    ensures Applied(target, capture) == path
  {
    assert target[1..] == "*" && target[1..][1..] == "";
    assert Applied(target[1..], capture) == capture + "";
  }

  // ----- rules under a language -----------------------------------------------------------------

  /** A path with a language in front for which nothing stands: it is answered as the path without it, with a target
      inside the site that names no language put under the same language. */
  lemma UnderLanguage(t: Table, g: string, path: string)
    requires g in t.languages && TwoLetterCode(g) && path != "" && path[0] == '/'
    requires "/" + g + path !in t.exact && forall e :: e in t.wild ==> !Fires(e, "/" + g + path)
    requires PrefixOf(t.languages, path).None?
    ensures var plain := FindRedirect(t, path);
            var under := FindRedirect(t, "/" + g + path);
            && (under.None? <==> plain.None?)
            && (plain.Some? ==> under.value.status == plain.value.status)
            && (plain.Some? && Internal(plain.value.target) && PrefixOf(t.languages, plain.value.target).None?
                ==> under.value.target == "/" + g + plain.value.target)
            && (plain.Some? && (!Internal(plain.value.target) || PrefixOf(t.languages, plain.value.target).Some?)
                ==> under.value.target == plain.value.target)
  {
    var request := "/" + g + path;
    PrefixStands(t.languages, g, path);
    hide Fires, PrefixOf, Strip;
    assert forall k: nat :: !Chosen(t.wild, |t.wild|, request, k);
    assert Strip(t.languages, path).None? by {
      Unprefixed(t.languages, path, "");
    }
    forall target: string ensures Localized(t.languages, target, path) == target {
      Unprefixed(t.languages, path, target);
    }
  }

  /** One wildcard rule: what stands for its star goes into the target, under the language of the request. */
  lemma WildcardUnderLanguage(t: Table, e: Entry, g: string, front: string, back: string, capture: string)
    requires g in t.languages && TwoLetterCode(g)
    requires t.wild == [e] && e.pattern == front + "*" + back && '*' !in front && '*' !in back && '\0' !in e.pattern
    requires front != "" && front[0] == '/' && '\0' !in capture
    requires var path := front + capture + back;
             && path !in t.exact && "/" + g + path !in t.exact
             && PrefixOf(t.languages, path).None? && !Fires(e, "/" + g + path)
    requires e.rule.target != "" && e.rule.target[0] == '/' && !IsLikelyExternal(Applied(e.rule.target, capture))
    requires PrefixOf(t.languages, Applied(e.rule.target, capture)).None?
    ensures FindRedirect(t, "/" + g + (front + capture + back))
         == Some(Rule("/" + g + Applied(e.rule.target, capture), e.rule.status))
  {
    var path := front + capture + back;
    RuleFires(e, front, back, capture);
    assert Chosen(t.wild, 1, path, 0) by {
      hide Fires;
    }
    Unprefixed(t.languages, path, Applied(e.rule.target, capture));
    UnderLanguage(t, g, path);
    assert Applied(e.rule.target, capture)[0] == '/';
    hide Fires, Applied, PrefixOf, Strip, Localized, IsLikelyExternal;
    assert forall k: nat :: Chosen(t.wild, 1, path, k) ==> k == 0;
    assert Resolved(e, t.languages, path, path) == Rule(Applied(e.rule.target, capture), e.rule.status);
  }

  lemma RuleFires(e: Entry, front: string, back: string, capture: string)
    requires e.pattern == front + "*" + back && '*' !in front && '*' !in back
    requires '\0' !in e.pattern && '\0' !in capture
    ensures Fires(e, front + capture + back) && CaptureOf(e.pattern, front + capture + back) == Some(capture)
  {
    var path := front + capture + back;
    var k := |front|;
    StarBetween(e.pattern, front, back);
    assert path == e.pattern[..k] + capture + e.pattern[k + 1..];
    assert Captures(e.pattern, path, capture);
    PlainBetween(e.pattern, front, back, capture);
    hide Captures, OneStarAt, HasStar, Accepts, NulFree;
    CaptureUnique(e.pattern, path, capture, CaptureOf(e.pattern, path).value);
    CaptureExactly(e.pattern, k, path);
    AcceptsIsGlob(e.pattern, path);
  }

  lemma StarBetween(pattern: string, front: string, back: string)
    requires pattern == front + "*" + back && '*' !in front && '*' !in back
    ensures OneStarAt(pattern, |front|) && HasStar(pattern)
    ensures pattern[..|front|] == front && pattern[|front| + 1..] == back
  {
    var k := |front|;
    assert pattern[k] == '*';
    forall j | 0 <= j < |pattern| && j != k ensures pattern[j] != '*' {
      assert pattern[j] == if j < k then front[j] else back[j - k - 1];
    }
  }

  lemma PlainBetween(pattern: string, front: string, back: string, capture: string)
    requires pattern == front + "*" + back && '\0' !in pattern && '\0' !in capture
    ensures NulFree(pattern) && NulFree(front + capture + back)
  {
    assert forall x :: x in front || x in back ==> x in pattern;
  }

  // ----- exactly when redirects never cycle -----------------------------------------------------

  /** Whatever rules are added, with wildcards or without, following redirects never comes back. */
  ghost predicate AlwaysAcyclic(l: set<string>, wildcards: bool)
  {
    forall calls: seq<Call> ::
      (wildcards || forall k :: 0 <= k < |calls| ==> !HasStar(calls[k].from)) ==> Acyclic(AddAll(Empty(l), calls))
  }

  lemma AddTwo(t: Table, a: Call, b: Call)
    ensures var t1 := AddRedirect(t, a.from, a.to, a.status).table;
            AddAll(t, [a, b]) == AddRedirect(t1, b.from, b.to, b.status).table
  {
    hide AddRedirect;
    assert [a, b][1..] == [b] && [b][1..] == [];
    var t1 := AddRedirect(t, a.from, a.to, a.status).table;
    assert AddAll(t1, [b]) == AddAll(AddRedirect(t1, b.from, b.to, b.status).table, []);
  }

  lemma CodesBreak(l: set<string>, wildcards: bool, g: string)
    requires g in l && TwoLetterCode(g)
    ensures !AlwaysAcyclic(l, wildcards)
  {
    var a, b := "/a", "/b";
    CodePathsAre(l, g, "/" + g + a, "/" + g + b, a, b);
    var calls := [Call("/" + g + a, "/" + g + b, 301), Call(b, a, 301)];
    hide Acyclic, AddRedirect, Strip, Localized, HasStar, AddAll;
    LanguagesCanCycle(l, g, a, b);
    AddTwo(Empty(l), calls[0], calls[1]);
    assert forall k :: 0 <= k < |calls| ==> !HasStar(calls[k].from);
  }

  lemma WildcardsBreak(l: set<string>)
    ensures !AlwaysAcyclic(l, true)
  {
    hide Acyclic, AddRedirect, AddAll;
    var calls := [Call("/b", "/a/b", 301), Call("/a/*", "/*", 301)];
    WildcardsCanCycle(l, "/b", "/a/b", "/a/*", "/*");
    AddTwo(Empty(l), calls[0], calls[1]);
  }

  /** Redirects never cycle, whatever rules are added, exactly without wildcard rules and without a language that a path
      can name. */
  lemma NeverCyclesExactly(l: set<string>, wildcards: bool)
    ensures AlwaysAcyclic(l, wildcards) <==> !wildcards && forall g :: g in l ==> !TwoLetterCode(g)
  {
    hide Acyclic, AddAll, HasStar;
    if wildcards {
      WildcardsBreak(l);
    } else if g :| g in l && TwoLetterCode(g) {
      CodesBreak(l, wildcards, g);
    } else {
      EmptyIsAcyclic(l);
      forall calls: seq<Call> | forall k :: 0 <= k < |calls| ==> !HasStar(calls[k].from)
        ensures Acyclic(AddAll(Empty(l), calls))
      {
        NeverCycles(Empty(l), calls);
      }
    }
  }

  // ----- the registry ---------------------------------------------------------------------------

  lemma CaptureUnique(pattern: string, path: string, a: string, b: string)
    requires Captures(pattern, path, a) && Captures(pattern, path, b)
    ensures a == b
  {
    if HasStar(pattern) {
      var k: nat :| OneStarAt(pattern, k) && path == pattern[..k] + a + pattern[k + 1..];
      CaptureRoundTrip(pattern, k, path, a);
    }
  }

  lemma ChosenUnique(wild: seq<Entry>, path: string, j: nat, k: nat)
    requires Chosen(wild, |wild|, path, j) && Chosen(wild, |wild|, path, k)
    ensures j == k
  {
    hide Fires;
  }

  method Resolve(e: Entry, languages: set<string>, path: string, request: string) returns (r: Option<Rule>)
    ensures r == if Fires(e, path) then Some(Resolved(e, languages, path, request)) else None
  {
    var matches := MatchesWildcardPattern(e.pattern, path);
    if !matches {
      return None;
    }
    var capture := ExtractWildcardCapture(e.pattern, path);
    if capture.None? {
      return None;
    }
    CaptureUnique(e.pattern, path, capture.value, CaptureOf(e.pattern, path).value);
    var target := ApplyWildcardCapture(e.rule.target, capture.value);
    return Some(Rule(Localized(languages, target, request), e.rule.status));
  }

  /** The loop finds the chosen entry. */
  method FindMatchingWildcardRedirect(wild: seq<Entry>, languages: set<string>, path: string, request: string)
      returns (r: Option<Rule>)
    ensures r == WildRedirect(wild, languages, path, request)
    ensures forall k: nat :: Chosen(wild, |wild|, path, k) ==> r == Some(Resolved(wild[k], languages, path, request))
    ensures r.None? <==> NoneFires(wild, path)
  {
    hide Fires, Resolved;
    var best := 0;
    r := None;
    for i := 0 to |wild|
      invariant r.None? ==> forall j :: 0 <= j < i ==> !Fires(wild[j], path)
      invariant r.Some? ==> Chosen(wild, i, path, best) && r.value == Resolved(wild[best], languages, path, request)
    {
      var one := Resolve(wild[i], languages, path, request);
      if one.Some? && (r.None? || |wild[i].pattern| > |wild[best].pattern|) {
        r, best := one, i;
      }
    }
    forall k: nat | Chosen(wild, |wild|, path, k)
      ensures r == Some(Resolved(wild[k], languages, path, request))
    {
      ChosenUnique(wild, path, best, k);
    }
    if r.Some? {
      ghost var k: nat :| Chosen(wild, |wild|, path, k)
                             && WildRedirect(wild, languages, path, request) == Some(Resolved(wild[k], languages, path, request));
      ChosenUnique(wild, path, best, k);
    }
  }

  /** A path met again among the first hops: the chain never stops. */
  lemma MetAgain(t: Table, start: string, j: nat, hop: nat, n: nat)
    requires j < hop && Hops(t, start, hop).Some? && Hops(t, start, j) == Hops(t, start, hop)
    ensures Hops(t, start, n).Some?
  {
    hide Hop, Hops;
    var x := Hops(t, start, j).value;
    HopsAdd(t, start, j, hop - j);
    CycleGoesOn(t, x, hop - j, n);
    HopsAdd(t, start, j, n);
    HopsShorter(t, start, n, j + n);
  }

  lemma NextHop(t: Table, start: string, hop: nat)
    requires Hops(t, start, hop).Some?
    ensures Hops(t, start, hop + 1) == Hop(t, Hops(t, start, hop).value)
  {
    HopsAdd(t, start, hop, 1);
    var x := Hops(t, start, hop).value;
    hide Hop;
    assert Hops(t, x, 1) == Hop(t, x) by {
      if Hop(t, x).Some? {
        assert Hops(t, Hop(t, x).value, 0) == Hop(t, x);
      }
    }
  }

  class RouteRegistry {
    var redirects: map<string, Rule>
    var wildcardRedirects: seq<Entry>
    const languages: set<string>

    constructor (languages: set<string>)
      ensures AsTable() == Empty(languages)
    {
      this.languages := languages;
      redirects := map[];
      wildcardRedirects := [];
    }

    ghost function AsTable(): Table
      reads this
    {
      Table(redirects, wildcardRedirects, languages)
    }

    /** Exact rules, then wildcard rules, and both again without the language of the path. */
    method FindMatchingRedirect(path: string) returns (r: Option<Rule>)
      ensures r == FindRedirect(AsTable(), path)
      ensures InStages(redirects, wildcardRedirects, languages, path, r)
    {
      hide WildRedirect, Strip, Localized, Fires, Resolved;
      if path in redirects {
        return Some(Rule(Localized(languages, redirects[path].target, path), redirects[path].status));
      }
      r := FindMatchingWildcardRedirect(wildcardRedirects, languages, path, path);
      if r.Some? {
        return;
      }
      var strippedPath := Strip(languages, path);
      if strippedPath.None? {
        return None;
      }
      if strippedPath.value in redirects {
        var rule := redirects[strippedPath.value];
        return Some(Rule(Localized(languages, rule.target, path), rule.status));
      }
      r := FindMatchingWildcardRedirect(wildcardRedirects, languages, strippedPath.value, path);
    }

    /** True exactly when at least 32 hops can be followed. */
    method HasRedirectLoop(startPath: string) returns (r: bool)
      ensures r <==> Hops(AsTable(), startPath, 32).Some?
    {
      hide FindRedirect, Hops, InStages;
      ghost var t := AsTable();
      var visited: set<string> := {};
      var current := startPath;
      var hop := 0;
      HopsStart(t, startPath);
      while hop < MAX_REDIRECT_HOPS
        invariant hop <= MAX_REDIRECT_HOPS && Hops(t, startPath, hop) == Some(current)
        invariant forall x :: x in visited ==> exists j: nat :: j < hop && Hops(t, startPath, j) == Some(x)
      {
        if current in visited {
          ghost var j: nat :| j < hop && Hops(t, startPath, j) == Some(current);
          MetAgain(t, startPath, j, hop, MAX_REDIRECT_HOPS);
          return true;
        }
        NextHop(t, startPath, hop);
        ghost var met := visited;
        visited := visited + {current};
        var next := FindMatchingRedirect(current);
        if next.None? || IsLikelyExternal(next.value.target)
           || next.value.target == "" || next.value.target[0] != '/' {
          StopsEarly(t, startPath, hop + 1);
          return false;
        }
        assert Hops(t, startPath, hop) == Some(current);
        current := next.value.target;
        hop := hop + 1;
      }
      return true;
    }

    method AddRedirectRule(from: string, to: string, status: nat) returns (ok: bool)
      modifies this
      ensures Added(AsTable(), ok) == AddRedirect(old(AsTable()), from, to, status)
      ensures from == "" || to == "" ==> !ok && AsTable() == old(AsTable())
      ensures var rule := Rule(to, if status == 302 then 302 else 301);
              && (HasStar(from) ==> redirects == old(redirects))
              && (!HasStar(from) ==> wildcardRedirects == old(wildcardRedirects))
              && (ok && HasStar(from) ==> wildcardRedirects == Put(old(wildcardRedirects), Entry(from, rule)))
              && (ok && !HasStar(from) ==> redirects == old(redirects)[from := rule])
      ensures !ok && from != "" && to != "" && HasStar(from)
              ==> forall e :: e in wildcardRedirects <==> e in old(wildcardRedirects) && e.pattern != from
      ensures !ok && from != "" && to != "" && !HasStar(from) ==> redirects == old(redirects) - {from}
    {
      hide Hops;
      if from == "" || to == "" {
        return false;
      }
      var rule := Rule(to, if status != 301 && status != 302 then 301 else status);
      var star := FindStar(from, 0);
      assert star.Some? <==> HasStar(from);
      if star.Some? {
        wildcardRedirects := Put(wildcardRedirects, Entry(from, rule));
      } else {
        redirects := redirects[from := rule];
      }
      var loopProbePath := from;
      if star.Some? {
        loopProbePath := from[..star.value] + "loop-check" + from[star.value + 1..];
        ProbeAt(from, star.value);
      } else {
        ProbePlain(from);
      }
      var loops := HasRedirectLoop(loopProbePath);
      if loops {
        if star.Some? {
          DropErases(wildcardRedirects, from);
          PutKeeps(old(wildcardRedirects), Entry(from, rule));
          wildcardRedirects := Drop(wildcardRedirects, from);
        } else {
          redirects := redirects - {from};
        }
        return false;
      }
      return true;
    }
  }

  /** Whatever answers first: the exact rule of the path, the chosen wildcard rule for it, and the two for the path
      without its language. The target takes the language of the request, the status is the rule's, and there is no
      answer exactly when none of the four has one. */
  ghost predicate InStages(exact: map<string, Rule>, wild: seq<Entry>, languages: set<string>, path: string,
                           r: Option<Rule>)
  {
    && (path in exact ==> r == Some(Rule(Localized(languages, exact[path].target, path), exact[path].status)))
    && (path !in exact
        ==> forall k: nat :: Chosen(wild, |wild|, path, k) ==> r == Some(Resolved(wild[k], languages, path, path)))
    && (path !in exact && NoneFires(wild, path)
        ==> forall bare :: Strip(languages, path) == Some(bare)
              ==> && (bare in exact
                      ==> r == Some(Rule(Localized(languages, exact[bare].target, path), exact[bare].status)))
                  && (bare !in exact
                      ==> forall k: nat :: Chosen(wild, |wild|, bare, k)
                                           ==> r == Some(Resolved(wild[k], languages, bare, path))))
    && (r.None? <==> && path !in exact && NoneFires(wild, path)
                     && forall bare :: Strip(languages, path) == Some(bare) ==> bare !in exact && NoneFires(wild, bare))
  }

  ghost predicate NoneFires(wild: seq<Entry>, path: string) { forall e :: e in wild ==> !Fires(e, path) }

  lemma HopsStart(t: Table, path: string)
    ensures Hops(t, path, 0) == Some(path)
  {
  }

  lemma StopsEarly(t: Table, path: string, n: nat)
    requires n <= MAX_REDIRECT_HOPS && Hops(t, path, n).None?
    ensures Hops(t, path, MAX_REDIRECT_HOPS).None?
  {
    if Hops(t, path, MAX_REDIRECT_HOPS).Some? {
      HopsShorter(t, path, n, MAX_REDIRECT_HOPS);
    }
  }

  lemma {:induction false} ProbeAt(from: string, k: nat)
    requires k < |from| && from[k] == '*' && forall j :: 0 <= j < k ==> from[j] != '*'
    ensures ProbePath(from) == from[..k] + "loop-check" + from[k + 1..]
    decreases k
  {
    if k > 0 {
      ProbeAt(from[1..], k - 1);
      assert from[..k] == [from[0]] + from[1..][..k - 1];
      assert from[1..][k..] == from[k + 1..];
    } else {
      assert from[..0] + "loop-check" + from[1..] == "loop-check" + from[1..];
    }
  }
}
