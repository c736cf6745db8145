/**
 The rename plan (computeScopedRenames in src/builders/JSObfuscatorScope.cpp) and its application in place
 (mangleNames in src/builders/JSObfuscator.cpp).
 */
module JsRename {
  import opened Chars
  import opened JsLexer
  import opened JsScope
  import opened JsScopeLemmas
  import opened JsPlan
  import opened JsSites
  import opened JsNames
  import opened StringOrder
  import opened JsParser
  import JsContext
  import JsWords

  lemma IndexIn<T>(s: seq<T>, x: T) returns (k: nat)
    requires x in s
    ensures k < |s| && s[k] == x
  {
    k :| 0 <= k < |s| && s[k] == x;
  }

  // ----- sorting and merging --------------------------------------------------------------------

  predicate Before(r: Rename, s: Rename) { r.a < s.a || (r.a == s.a && r.b <= s.b) }

  predicate Sorted(spans: seq<Rename>)
  {
    forall j, k :: 0 <= j < k < |spans| ==> Before(spans[j], spans[k])
  }

  method SortSpans(spans: seq<Rename>) returns (out: seq<Rename>)
    ensures Sorted(out)
    ensures forall r :: r in out <==> r in spans
  {
    out := [];
    var k := 0;
    while k < |spans|
      invariant k <= |spans|
      invariant Sorted(out)
      invariant forall r :: r in out <==> r in spans[..k]
    {
      var j := |out|;
      while j > 0 && !Before(out[j - 1], spans[k])
        invariant 0 <= j <= |out|
        invariant forall m :: j <= m < |out| ==> Before(spans[k], out[m])
      {
        j := j - 1;
      }
      assert forall m :: 0 <= m < j ==> Before(out[m], spans[k]);
      out := out[..j] + [spans[k]] + out[j..];
      assert spans[..k + 1] == spans[..k] + [spans[k]];
      k := k + 1;
    }
    assert spans[..k] == spans;
  }

  /** Keep the first of each run of renames of the same occurrence. */
  method Merge(spans: seq<Rename>) returns (merged: seq<Rename>)
    requires Sorted(spans)
    ensures Sorted(merged)
    ensures forall r :: r in merged ==> r in spans
    ensures forall r :: r in spans ==> HasSpan(merged, r.a, r.b)
    ensures forall j, k :: 0 <= j < k < |merged| ==> merged[j].a != merged[k].a || merged[j].b != merged[k].b
  {
    merged := [];
    var k := 0;
    while k < |spans|
      invariant k <= |spans|
      invariant Sorted(merged)
      invariant forall r :: r in merged ==> r in spans[..k]
      invariant k > 0 ==> |merged| > 0 && merged[|merged| - 1].a == spans[k - 1].a && merged[|merged| - 1].b == spans[k - 1].b
      invariant forall m :: 0 <= m < k ==> HasSpan(merged, spans[m].a, spans[m].b)
      invariant forall i, j :: 0 <= i < j < |merged| ==> merged[i].a != merged[j].a || merged[i].b != merged[j].b
    {
      var s := spans[k];
      ghost var was := merged;
      if !(merged != [] && s.a == merged[|merged| - 1].a && s.b == merged[|merged| - 1].b) {
        forall i | 0 <= i < |merged|
          ensures Before(merged[i], s) && (merged[i].a != s.a || merged[i].b != s.b)
        {
          var m := IndexIn(spans[..k], merged[i]);
          assert Before(spans[m], s);
          if i < |merged| - 1 {
            assert Before(merged[i], merged[|merged| - 1]) && Before(spans[k - 1], s);
          }
        }
        merged := merged + [s];
      }
      forall m | 0 <= m < k + 1 ensures HasSpan(merged, spans[m].a, spans[m].b) {
        if m < k {
          var x :| 0 <= x < |was| && was[x].a == spans[m].a && was[x].b == spans[m].b;
          assert merged[x] == was[x];
        } else {
          assert merged[|merged| - 1].a == s.a && merged[|merged| - 1].b == s.b;
        }
      }
      k := k + 1;
    }
  }

  // ----- the plan -------------------------------------------------------------------------------

  /** Non-empty identifiers of the source, in order, none overlapping the next. */
  predicate PlanOk(code: string, plan: seq<Rename>)
  {
    && (forall k :: 0 <= k < |plan| ==> IsIdentifierText(code, plan[k].a, plan[k].b))
    && (forall j, k :: 0 <= j < k < |plan| ==> plan[j].b <= plan[k].a)
  }

  /** All renames of `name` carry the same spelling. */
  predicate SameSpelling(code: string, plan: seq<Rename>, name: string)
  {
    forall j, k :: 0 <= j < |plan| && 0 <= k < |plan|
      && plan[j].a <= plan[j].b <= |code| && code[plan[j].a..plan[j].b] == name
      && plan[k].a <= plan[k].b <= |code| && code[plan[k].a..plan[k].b] == name
      ==> plan[j].mangled == plan[k].mangled
  }

  /** Every planned span is an identifier token of the source, or an identifier in an interpolation of a template. */
  ghost predicate FromTokens(code: string, plan: seq<Rename>)
  {
    forall r :: r in plan ==> Occurs(code, Lex(code, 0), r.a, r.b)
  }

  /** Every identifier, in interpolations too, is a keyword, exempt, or in the plan; only templates in the pattern of a
      declaration list are left out. */
  ghost predicate NothingMissed(opt: Options, code: string, plan: seq<Rename>)
  {
    var toks := Lex(code, 0);
    forall k :: 0 <= k < |toks| ==> Done(opt, code, plan, toks[k]) || (toks[k].kind == Tpl && Listed(code, toks, k))
  }

  lemma PlanIsOk(code: string, toks: seq<Tok>, spans: seq<Rename>, plan: seq<Rename>)
    requires TokensOk(code, toks, 0) && AllOccur(code, toks, spans)
    requires Sorted(plan) && forall r :: r in plan ==> r in spans
    requires forall j, k :: 0 <= j < k < |plan| ==> plan[j].a != plan[k].a || plan[j].b != plan[k].b
    ensures PlanOk(code, plan)
  {
    forall k | 0 <= k < |plan| ensures Occurs(code, toks, plan[k].a, plan[k].b) {
      assert plan[k] in spans;
    }
    forall k | 0 <= k < |plan| ensures IsIdentifierText(code, plan[k].a, plan[k].b) {
      OccurrencesApart(code, toks, plan[k].a, plan[k].b, plan[k].a, plan[k].b);
    }
    forall j, k | 0 <= j < k < |plan| ensures plan[j].b <= plan[k].a {
      OccurrencesApart(code, toks, plan[j].a, plan[j].b, plan[k].a, plan[k].b);
      assert Before(plan[j], plan[k]);
      assert IsIdentifierText(code, plan[j].a, plan[j].b) && IsIdentifierText(code, plan[k].a, plan[k].b);
    }
  }

  lemma PlanSpelling(opt: Options, code: string, s: Scope, plan: seq<Rename>, name: string)
    requires Good(opt, code, s) && Eligible(opt, name) && name !in s.locals
    requires forall r :: r in plan ==> r in s.spans
    ensures SameSpelling(code, plan, name)
  {
    assert OneSpelling(code, s, name);
    forall k | 0 <= k < |plan| ensures Spelled(code, s, name, plan[k]) {
      var m := IndexIn(s.spans, plan[k]);
      assert Spelled(code, s, name, s.spans[m]);
    }
  }

  lemma DoneInPlan(opt: Options, code: string, spans: seq<Rename>, plan: seq<Rename>, t: Tok)
    requires Done(opt, code, spans, t) && forall r :: r in spans ==> HasSpan(plan, r.a, r.b)
    ensures Done(opt, code, plan, t)
  {
    forall a: nat, b: nat | HasSpan(spans, a, b) ensures HasSpan(plan, a, b) {
      var m :| 0 <= m < |spans| && spans[m].a == a && spans[m].b == b;
      assert spans[m] in spans;
    }
    hide HasSpan, Exempt, TemplateSpans;
  }

  lemma PlanMissesNothing(opt: Options, code: string, toks: seq<Tok>, s: Scope, waived: set<nat>, i: nat, plan: seq<Rename>)
    requires StateOk(opt, code, toks, i, s, waived) && toks[i].kind == Eof && toks == Lex(code, 0)
    requires WaivesTemplates(code, toks, {}, waived)
    requires forall r :: r in s.spans ==> HasSpan(plan, r.a, r.b)
    ensures NothingMissed(opt, code, plan)
  {
    assert i == |toks| - 1;
    hide Done, Listed, HasSpan, Good;
    EndIsDone(opt, code, plan, toks[i]);
    forall k | 0 <= k < |toks| ensures Done(opt, code, plan, toks[k]) || (toks[k].kind == Tpl && Listed(code, toks, k)) {
      if k < i && k !in waived {
        DoneInPlan(opt, code, s.spans, plan, toks[k]);
      }
    }
  }

  lemma EndIsDone(opt: Options, code: string, plan: seq<Rename>, t: Tok)
    requires t.kind == Eof
    ensures Done(opt, code, plan, t)
  {
  }

  lemma PlanFromTokens(code: string, toks: seq<Tok>, spans: seq<Rename>, plan: seq<Rename>)
    requires toks == Lex(code, 0) && AllOccur(code, toks, spans) && forall r :: r in plan ==> r in spans
    ensures FromTokens(code, plan)
  {
    hide Occurs;
    forall r | r in plan ensures Occurs(code, toks, r.a, r.b) {
      var k := IndexIn(spans, r);
    }
  }

  lemma PlanSpellings(opt: Options, code: string, s: Scope, plan: seq<Rename>)
    requires Good(opt, code, s) && LocalsOk(code, Lex(code, 0), s) && forall r :: r in plan ==> r in s.spans
    ensures HoistedOnce(opt, code, plan)
  {
    hide Good, SameSpelling, DeclaredLocally, Eligible;
    forall name | Eligible(opt, name) && !DeclaredLocally(code, Lex(code, 0), name) ensures SameSpelling(code, plan, name) {
      PlanSpelling(opt, code, s, plan, name);
    }
  }

  /** A name that is declared in no block, parameter list or function body keeps one spelling throughout. */
  ghost predicate HoistedOnce(opt: Options, code: string, plan: seq<Rename>)
  {
    forall name :: Eligible(opt, name) && !DeclaredLocally(code, Lex(code, 0), name) ==> SameSpelling(code, plan, name)
  }

  // ----- undefined names ------------------------------------------------------------------------

  predicate Ascending(names: seq<string>) { forall j, k :: 0 <= j < k < |names| ==> Less(names[j], names[k]) }

  /** std::sort and std::unique. */
  method SortUnique(names: seq<string>) returns (out: seq<string>)
    ensures Ascending(out) && forall n :: n in out <==> n in names
  {
    out := [];
    for i := 0 to |names|
      invariant Ascending(out) && forall n :: n in out <==> n in names[..i]
    {
      out := InsertName(out, names[i]);
      assert names[..i + 1] == names[..i] + [names[i]];
    }
    assert names[..|names|] == names;
  }

  method InsertName(names: seq<string>, name: string) returns (out: seq<string>)
    requires Ascending(names)
    ensures Ascending(out) && forall n :: n in out <==> n in names || n == name
  {
    hide Less;
    var k := 0;
    while k < |names| && Less(names[k], name)
      invariant k <= |names| && forall j :: 0 <= j < k ==> Less(names[j], name)
    {
      k := k + 1;
    }
    if k < |names| && names[k] == name {
      return names;
    }
    out := names[..k] + [name] + names[k..];
    assert names == names[..k] + names[k..];
    InsertAscending(names, name, k);
  }

  lemma InsertAscending(names: seq<string>, name: string, k: nat)
    requires Ascending(names) && k <= |names| && forall j :: 0 <= j < k ==> Less(names[j], name)
    requires k < |names| ==> !Less(names[k], name) && names[k] != name
    ensures Ascending(names[..k] + [name] + names[k..])
  {
    var out := names[..k] + [name] + names[k..];
    hide Less;
    forall j | k <= j < |names| ensures Less(name, names[j]) {
      LessTotal(name, names[k]);
      if j > k {
        LessTransitive(name, names[k], names[j]);
      }
    }
    forall i, j | 0 <= i < j < |out| ensures Less(out[i], out[j]) {
      assert out[i] == if i < k then names[i] else if i == k then name else names[i - 1];
      assert out[j] == if j < k then names[j] else if j == k then name else names[j - 1];
    }
  }

  /** In strict mode every planned name is declared in the source, external, or reported as undefined. */
  ghost predicate AllKnown(opt: Options, code: string, plan: seq<Rename>, undefined: seq<string>)
  {
    forall k :: 0 <= k < |plan| ==> Known(opt, code, Declared(code, Lex(code, 0)), undefined, plan[k])
  }

  /** What is reported is not external, stands in the source as planned, and is in order, each name once. */
  ghost predicate AllReported(opt: Options, code: string, plan: seq<Rename>, undefined: seq<string>)
  {
    Ascending(undefined) && forall k :: 0 <= k < |undefined| ==> Reported(opt, code, plan, undefined[k])
  }

  lemma PlanKnown(opt: Options, code: string, s: Scope, plan: seq<Rename>, undefined: seq<string>)
    requires Explained(opt, code, Declared(code, Lex(code, 0)), s) && forall n :: n in undefined <==> n in s.undefined
    requires forall r :: r in plan ==> r in s.spans
    ensures AllKnown(opt, code, plan, undefined)
  {
    hide Declared, Reported, AllNames;
    forall k | 0 <= k < |plan| ensures Known(opt, code, Declared(code, Lex(code, 0)), undefined, plan[k]) {
      var j := IndexIn(s.spans, plan[k]);
    }
  }

  lemma PlanReported(opt: Options, code: string, names: set<string>, s: Scope, plan: seq<Rename>, undefined: seq<string>)
    requires Explained(opt, code, names, s) && Ascending(undefined) && forall n :: n in undefined <==> n in s.undefined
    requires forall r :: r in s.spans ==> HasSpan(plan, r.a, r.b)
    ensures AllReported(opt, code, plan, undefined)
  {
    hide AllNames, Known, Ascending;
    forall k | 0 <= k < |undefined| ensures Reported(opt, code, plan, undefined[k]) {
      var j := IndexIn(s.undefined, undefined[k]);
      var i :| 0 <= i < |s.spans| && TextIs(code, s.spans[i], undefined[k]);
      assert s.spans[i] in s.spans;
      var m :| 0 <= m < |plan| && plan[m].a == s.spans[i].a && plan[m].b == s.spans[i].b;
      assert TextIs(code, plan[m], undefined[k]);
    }
  }

  /** The plan for a source text. */
  method ComputeScopedRenames(code: string, opt: Options) returns (plan: seq<Rename>, undefined: seq<string>)
    ensures PlanOk(code, plan) && FromTokens(code, plan)
    ensures NothingMissed(opt, code, plan)
    ensures HoistedOnce(opt, code, plan)
    ensures AllKnown(opt, code, plan, undefined) && AllReported(opt, code, plan, undefined)
    ensures AllRightful(opt, code, Lex(code, 0), plan)
  {
    var toks := LexAll(code);
    var p := new Parser(code, toks, opt);
    p.ParseProgram();
    var sorted := SortSpans(p.spans);
    plan := Merge(sorted);
    undefined := SortUnique(p.undefinedSyms);
    ghost var s := p.View();
    StateParts(opt, code, toks, p.i, s, p.waived);
    hide *;
    PlanIsOk(code, toks, s.spans, plan);
    PlanFromTokens(code, toks, s.spans, plan);
    PlanSpellings(opt, code, s, plan);
    PlanMissesNothing(opt, code, toks, s, p.waived, p.i, plan);
    PlanKnown(opt, code, s, plan, undefined);
    PlanReported(opt, code, Declared(code, toks), s, plan, undefined);
    PlanRightful(opt, code, toks, s.spans, plan);
  }

  lemma PlanRightful(opt: Options, code: string, toks: seq<Tok>, spans: seq<Rename>, plan: seq<Rename>)
    requires AllRightful(opt, code, toks, spans) && forall r :: r in plan ==> r in spans
    ensures AllRightful(opt, code, toks, plan)
  {
    hide Rightful;
    forall k | 0 <= k < |plan| ensures Rightful(opt, code, toks, plan[k]) {
      var j := IndexIn(spans, plan[k]);
    }
  }

  lemma StateParts(opt: Options, code: string, toks: seq<Tok>, i: nat, s: Scope, waived: set<nat>)
    requires StateOk(opt, code, toks, i, s, waived)
    ensures Good(opt, code, s) && AllOccur(code, toks, s.spans) && LocalsOk(code, toks, s)
    ensures Explained(opt, code, Declared(code, toks), s) && AllRightful(opt, code, toks, s.spans)
  {
  }

  // ----- applying the plan ----------------------------------------------------------------------

  /** Spans of the text from `from` on, none overlapping the next. */
  predicate InOrder(code: string, plan: seq<Rename>, from: nat)
  {
    && from <= |code|
    && (forall k :: 0 <= k < |plan| ==> from <= plan[k].a <= plan[k].b <= |code|)
    && (forall j, k :: 0 <= j < k < |plan| ==> plan[j].b <= plan[k].a)
  }

  /** Simultaneous substitution: the text from `from` on, with every planned span replaced. */
  function Substitute(code: string, plan: seq<Rename>, from: nat): string
    requires InOrder(code, plan, from)
    decreases |plan|
  {
    if plan == [] then code[from..]
    else code[from..plan[0].a] + (plan[0].mangled + Substitute(code, plan[1..], plan[0].b))
  }

  lemma {:induction false} SubstituteFrom(code: string, plan: seq<Rename>, from: nat, mid: nat)
    requires from <= mid && InOrder(code, plan, mid)
    ensures Substitute(code, plan, from) == code[from..mid] + Substitute(code, plan, mid)
  {
    if plan == [] {
      assert code[from..] == code[from..mid] + code[mid..];
    } else {
      var rest := plan[0].mangled + Substitute(code, plan[1..], plan[0].b);
      SlicePrefix(code, from, mid, plan[0].a, rest);
    }
  }

  lemma SlicePrefix(code: string, from: nat, mid: nat, to: nat, rest: string)
    requires from <= mid <= to <= |code|
    ensures code[from..to] + rest == code[from..mid] + (code[mid..to] + rest)
  {
  }

  /** One more replacement to the left of those already made. */
  lemma ReplaceOne(code: string, plan: seq<Rename>, k: nat)
    requires PlanOk(code, plan) && k < |plan|
    ensures InOrder(code, plan[k..], 0) && InOrder(code, plan[k + 1..], 0)
    ensures var s := plan[k];
            var out := Substitute(code, plan[k + 1..], 0);
            s.a < s.b <= |out| && Substitute(code, plan[k..], 0) == out[..s.a] + s.mangled + out[s.b..]
  {
    SpansNotEmpty(code, plan);
    PlanInOrder(code, plan, k);
    PlanInOrder(code, plan, k + 1);
    hide *;
    assert plan[k..] == [plan[k]] + plan[k + 1..];
    SubstituteFrom(code, plan[k + 1..], 0, plan[k].b);
    SubstituteFirst(code, plan[k], plan[k + 1..]);
    SplitAround(code, plan[k], Substitute(code, plan[k + 1..], plan[k].b));
  }

  lemma SubstituteFirst(code: string, r: Rename, rest: seq<Rename>)
    requires InOrder(code, [r] + rest, 0) && InOrder(code, rest, r.b)
    ensures r.a <= |code| && Substitute(code, [r] + rest, 0) == code[0..r.a] + (r.mangled + Substitute(code, rest, r.b))
  {
    assert ([r] + rest)[1..] == rest && ([r] + rest)[0] == r;
    hide InOrder;
  }

  lemma SplitAround(code: string, r: Rename, tail: string)
    requires r.a < r.b <= |code|
    ensures var out := code[0..r.b] + tail;
            r.b <= |out| && out[..r.a] + r.mangled + out[r.b..] == code[0..r.a] + (r.mangled + tail)
  {
    var out := code[0..r.b] + tail;
    assert out[..r.a] == code[0..r.a] && out[r.b..] == tail;
  }

  lemma PlanInOrder(code: string, plan: seq<Rename>, k: nat)
    requires PlanOk(code, plan) && k <= |plan|
    ensures InOrder(code, plan[k..], 0) && (k > 0 ==> InOrder(code, plan[k..], plan[k - 1].b))
  {
    SpansNotEmpty(code, plan);
    var rest := plan[k..];
    hide IsIdentifierText;
    assert forall j :: 0 <= j < |rest| ==> rest[j] == plan[k + j];
  }

  /** Replacing from right to left in place is the simultaneous substitution. */
  method ApplyPlan(code: string, plan: seq<Rename>) returns (out: string)
    requires PlanOk(code, plan)
    ensures InOrder(code, plan, 0) && out == Substitute(code, plan, 0)
  {
    hide PlanOk, InOrder, Substitute;
    out := code;
    var k := |plan|;
    PlanInOrder(code, plan, k);
    NothingToReplace(code);
    assert plan[k..] == [];
    while k > 0
      invariant k <= |plan| && InOrder(code, plan[k..], 0)
      invariant out == Substitute(code, plan[k..], 0)
    {
      k := k - 1;
      ReplaceOne(code, plan, k);
      var s := plan[k];
      if !(s.a > |out| || s.b > |out| || s.a >= s.b) {
        out := out[..s.a] + s.mangled + out[s.b..];
      }
    }
    assert plan[0..] == plan;
  }

  lemma NothingToReplace(code: string)
    ensures InOrder(code, [], 0) && Substitute(code, [], 0) == code
  {
  }

  // ----- what a substitution keeps --------------------------------------------------------------

  /** By how much the planned renames that end at or before i move the text after them. */
  function Shift(plan: seq<Rename>, i: nat): int
  {
    if plan == [] then 0
    else (if plan[0].b <= i then |plan[0].mangled| - (plan[0].b - plan[0].a) else 0) + Shift(plan[1..], i)
  }

  predicate Outside(plan: seq<Rename>, i: nat) { forall k :: 0 <= k < |plan| ==> !(plan[k].a <= i < plan[k].b) }

  lemma {:induction false} NoShift(plan: seq<Rename>, i: nat)
    requires forall k :: 0 <= k < |plan| ==> i < plan[k].b
    ensures Shift(plan, i) == 0
  {
    if plan != [] {
      NoShift(plan[1..], i);
    }
  }

  lemma {:induction false} FullShift(code: string, plan: seq<Rename>, from: nat)
    requires InOrder(code, plan, from)
    ensures |Substitute(code, plan, from)| == |code| - from + Shift(plan, |code|)
    decreases |plan|
  {
    if plan != [] {
      InOrderTail(code, plan, from);
      hide InOrder;
      FullShift(code, plan[1..], plan[0].b);
    }
  }

  /** What the first rename of a plan leaves before and after it. */
  lemma FirstReplaced(code: string, plan: seq<Rename>, from: nat)
    requires InOrder(code, plan, from) && plan != []
    ensures var r := plan[0];
            && from <= r.a <= r.b <= |code| && InOrder(code, plan[1..], r.b)
            && Substitute(code, plan, from) == (code[from..r.a] + r.mangled) + Substitute(code, plan[1..], r.b)
  {
    InOrderTail(code, plan, from);
    hide InOrder;
    assert forall x: string, y: string, z: string :: x + (y + z) == (x + y) + z;
  }

  lemma FirstIsFirst(code: string, plan: seq<Rename>, from: nat, i: nat)
    requires InOrder(code, plan, from) && plan != [] && i < plan[0].b
    ensures forall k :: 0 <= k < |plan| ==> i < plan[k].b
  {
  }

  /** A character outside the planned spans is kept, moved by the renames before it. */
  lemma {:induction false} CharacterKept(code: string, plan: seq<Rename>, from: nat, i: nat)
    requires InOrder(code, plan, from) && from <= i < |code| && Outside(plan, i)
    ensures var p := i - from + Shift(plan, i);
            0 <= p < |Substitute(code, plan, from)| && Substitute(code, plan, from)[p] == code[i]
    decreases |plan|
  {
    if plan != [] {
      var r, tail := plan[0], plan[1..];
      assert !(r.a <= i < r.b) && Outside(tail, i);
      hide InOrder, Outside, Substitute;
      FirstReplaced(code, plan, from);
      if i < r.a {
        FirstIsFirst(code, plan, from, i);
        NoShift(plan, i);
      } else {
        CharacterKept(code, tail, r.b, i);
      }
    }
  }

  /** The new spelling stands where the planned span was. */
  lemma {:induction false} NameReplaced(code: string, plan: seq<Rename>, from: nat, k: nat)
    requires InOrder(code, plan, from) && k < |plan| && forall j :: 0 <= j < |plan| ==> plan[j].a < plan[j].b
    ensures SpelledAt(plan[k].a - from + Shift(plan, plan[k].a), plan[k].mangled, Substitute(code, plan, from))
    decreases |plan|
  {
    var r, tail := plan[0], plan[1..];
    assert k > 0 ==> r.b <= plan[k].a && tail[k - 1] == plan[k];
    FirstShift(plan, plan[k].a);
    hide InOrder, Substitute, SpelledAt, Shift;
    FirstReplaced(code, plan, from);
    var head, rest := code[from..r.a], Substitute(code, tail, r.b);
    if k == 0 {
      FirstIsFirst(code, plan, from, r.a);
      NoShift(plan, r.a);
      SpelledHere(head, r.mangled, rest);
    } else {
      NameReplaced(code, tail, r.b, k - 1);
      var p := plan[k].a - r.b + Shift(tail, plan[k].a);
      SpelledLater(p, plan[k].mangled, head + r.mangled, rest);
      assert |head + r.mangled| + p == plan[k].a - from + Shift(plan, plan[k].a);
    }
  }

  lemma FirstShift(plan: seq<Rename>, i: nat)
    requires plan != []
    ensures plan[0].b <= i ==> Shift(plan, i) == |plan[0].mangled| - (plan[0].b - plan[0].a) + Shift(plan[1..], i)
  {
  }

  predicate SpelledAt(p: int, name: string, text: string)
  {
    0 <= p && p + |name| <= |text| && text[p..p + |name|] == name
  }

  lemma SpelledHere(head: string, name: string, rest: string)
    ensures SpelledAt(|head|, name, (head + name) + rest)
  {
    assert ((head + name) + rest)[|head|..|head| + |name|] == name;
  }

  lemma SpelledLater(p: int, name: string, head: string, rest: string)
    requires SpelledAt(p, name, rest)
    ensures SpelledAt(|head| + p, name, head + rest)
  {
    assert (head + rest)[|head| + p..|head| + p + |name|] == rest[p..p + |name|];
  }

  predicate KeptAt(code: string, plan: seq<Rename>, text: string, i: nat)
    requires i < |code|
  {
    Outside(plan, i) ==> 0 <= i + Shift(plan, i) < |text| && text[i + Shift(plan, i)] == code[i]
  }

  /** The text has the new spellings in place of the planned spans, and otherwise the characters of the source. */
  ghost predicate OnlyRenamed(code: string, plan: seq<Rename>, text: string)
  {
    && |text| == |code| + Shift(plan, |code|)
    && (forall i: nat :: i < |code| ==> KeptAt(code, plan, text, i))
    && (forall k :: 0 <= k < |plan| ==> SpelledAt(plan[k].a + Shift(plan, plan[k].a), plan[k].mangled, text))
  }

  lemma SubstituteOnlyRenames(code: string, plan: seq<Rename>)
    requires PlanOk(code, plan)
    ensures InOrder(code, plan, 0) && OnlyRenamed(code, plan, Substitute(code, plan, 0))
  {
    PlanInOrder(code, plan, 0);
    assert plan[0..] == plan;
    SpansNotEmpty(code, plan);
    hide InOrder, Substitute, Outside, PlanOk, SpelledAt, Shift, KeptAt;
    FullShift(code, plan, 0);
    forall i: nat | i < |code| ensures KeptAt(code, plan, Substitute(code, plan, 0), i) {
      KeptFromStart(code, plan, i);
    }
    forall k | 0 <= k < |plan|
      ensures SpelledAt(plan[k].a + Shift(plan, plan[k].a), plan[k].mangled, Substitute(code, plan, 0))
    {
      NameReplaced(code, plan, 0, k);
    }
  }

  lemma KeptFromStart(code: string, plan: seq<Rename>, i: nat)
    requires InOrder(code, plan, 0) && i < |code|
    ensures KeptAt(code, plan, Substitute(code, plan, 0), i)
  {
    hide InOrder, Substitute, Outside, Shift;
    if Outside(plan, i) {
      CharacterKept(code, plan, 0, i);
    }
  }

  lemma SpansNotEmpty(code: string, plan: seq<Rename>)
    requires PlanOk(code, plan)
    ensures forall j :: 0 <= j < |plan| ==> plan[j].a < plan[j].b <= |code|
  {
    assert forall j :: 0 <= j < |plan| ==> IsIdentifierText(code, plan[j].a, plan[j].b);
  }

  /** Renaming every planned span to itself changes nothing: the text between the spans is kept as it is. */
  lemma {:induction false} SubstituteIdentity(code: string, plan: seq<Rename>, from: nat)
    requires InOrder(code, plan, from)
    requires forall k :: 0 <= k < |plan| ==> plan[k].mangled == code[plan[k].a..plan[k].b]
    ensures Substitute(code, plan, from) == code[from..]
    decreases |plan|
  {
    if plan != [] {
      InOrderTail(code, plan, from);
      var tail := plan[1..];
      assert forall k :: 0 <= k < |tail| ==> tail[k] == plan[k + 1];
      hide InOrder;
      SubstituteIdentity(code, tail, plan[0].b);
      ThreeSlices(code, from, plan[0].a, plan[0].b);
    }
  }

  lemma InOrderTail(code: string, plan: seq<Rename>, from: nat)
    requires InOrder(code, plan, from) && plan != []
    ensures InOrder(code, plan[1..], plan[0].b) && from <= plan[0].a <= plan[0].b <= |code|
  {
    var tail := plan[1..];
    assert forall k :: 0 <= k < |tail| ==> tail[k] == plan[k + 1];
  }

  lemma ThreeSlices(code: string, from: nat, a: nat, b: nat)
    requires from <= a <= b <= |code|
    ensures code[from..] == code[from..a] + (code[a..b] + code[b..])
  {
  }

  /** The words that are no names. */
  lemma KeywordsAre(w: string)
    ensures w in Keywords
            <==> || w == "var" || w == "let" || w == "const" || w == "async" || w == "function" || w == "if" || w == "else"
                 || w == "while" || w == "switch" || w == "do" || w == "for" || w == "try" || w == "catch"
                 || w == "finally" || w == "return" || w == "throw" || w == "break" || w == "continue" || w == "class"
                 || w == "extends"
  {
  }

  // ----- strings and comments -------------------------------------------------------------------

  /** Only whole words of the code are planned: of the text itself, or of an interpolation at any depth. */
  ghost predicate OnlyCode(code: string, plan: seq<Rename>)
  {
    forall k :: 0 <= k < |plan| ==> JsWords.CodeWord(code, 0, |code|, plan[k].a, plan[k].b)
  }

  lemma PlanIsCode(code: string, plan: seq<Rename>)
    requires FromTokens(code, plan)
    ensures OnlyCode(code, plan)
  {
    hide Occurs;
    forall k | 0 <= k < |plan| ensures JsWords.CodeWord(code, 0, |code|, plan[k].a, plan[k].b) {
      assert plan[k] in plan;
      JsWords.OccursExactly(code, plan[k].a, plan[k].b);
    }
  }

  /** Every whole word of the code is a keyword, no reference or in the plan, unless it stands in a template in the pattern of a
      declaration list. */
  ghost predicate NoWordMissed(opt: Options, code: string, plan: seq<Rename>)
  {
    forall a: nat, b: nat :: JsWords.CodeWord(code, 0, |code|, a, b) ==> WordTaken(opt, code, plan, a, b)
  }

  ghost predicate WordTaken(opt: Options, code: string, plan: seq<Rename>, a: nat, b: nat)
  {
    || (a <= b <= |code| && (code[a..b] in Keywords || NoReference(opt, code, a, b)))
    || HasSpan(plan, a, b)
    || (var toks := Lex(code, 0);
        exists k :: 0 <= k < |toks| && toks[k].kind == Tpl && Listed(code, toks, k) && Owns(code, toks[k], a, b))
  }

  lemma PlanTakesWords(opt: Options, code: string, plan: seq<Rename>)
    requires NothingMissed(opt, code, plan)
    ensures NoWordMissed(opt, code, plan)
  {
    var toks := Lex(code, 0);
    hide Lex, Settled, Listed, WordTaken, NothingMissed;
    forall a: nat, b: nat | JsWords.CodeWord(code, 0, |code|, a, b) ensures WordTaken(opt, code, plan, a, b) {
      JsWords.OccursExactly(code, a, b);
      var k :| 0 <= k < |toks| && Owns(code, toks[k], a, b);
      OwnedIsTaken(opt, code, plan, k, a, b);
    }
  }

  lemma OwnedIsTaken(opt: Options, code: string, plan: seq<Rename>, k: nat, a: nat, b: nat)
    requires NothingMissed(opt, code, plan) && k < |Lex(code, 0)| && Owns(code, Lex(code, 0)[k], a, b)
    ensures WordTaken(opt, code, plan, a, b)
  {
    var t := Lex(code, 0)[k];
    hide Lex, Listed, TemplateSpans, Exempt, NoReference;
    if t.kind == Tpl && Done(opt, code, plan, t) {
      assert Span(a, b) in TemplateSpans(code, t.a, t.b);
    }
    if a <= b <= |code| {
      ExemptExactly(opt, code, a, b);
    }
  }

  /** Characters that are not code keep their value and stand where the renames before them move them. */
  ghost predicate OtherTextKept(code: string, plan: seq<Rename>, text: string)
  {
    forall i: nat :: i < |code| && !JsWords.CodeAt(code, 0, |code|, i) ==> MovedTo(code, plan, text, i)
  }

  /** So it is with strings and comments. */
  ghost predicate QuietTextKept(code: string, plan: seq<Rename>, text: string)
  {
    forall i: nat :: i < |code| && JsWords.Quiet(JsContext.Context(code, i)) ==> MovedTo(code, plan, text, i)
  }

  predicate MovedTo(code: string, plan: seq<Rename>, text: string, i: nat)
    requires i < |code|
  {
    0 <= i + Shift(plan, i) < |text| && text[i + Shift(plan, i)] == code[i]
  }

  lemma OtherTextStays(code: string, plan: seq<Rename>, text: string)
    requires OnlyCode(code, plan) && OnlyRenamed(code, plan, text)
    ensures OtherTextKept(code, plan, text) && QuietTextKept(code, plan, text)
  {
    hide Shift, SpelledAt;
    forall i: nat | i < |code| && !JsWords.CodeAt(code, 0, |code|, i) ensures MovedTo(code, plan, text, i) {
      forall k | 0 <= k < |plan| ensures i < plan[k].a || plan[k].b <= i {
        if plan[k].a <= i < plan[k].b {
          JsWords.WordIsCode(code, 0, |code|, plan[k].a, plan[k].b, i);
        }
      }
      assert KeptAt(code, plan, text, i);
    }
    forall i: nat | i < |code| && JsWords.Quiet(JsContext.Context(code, i)) ensures MovedTo(code, plan, text, i) {
      JsWords.QuietIsNoCode(code, i);
    }
  }

  /** What every plan of the renamer is. */
  ghost predicate SoundPlan(opt: Options, code: string, plan: seq<Rename>)
  {
    && PlanOk(code, plan) && FromTokens(code, plan) && NothingMissed(opt, code, plan) && HoistedOnce(opt, code, plan)
    && OnlyCode(code, plan) && NoWordMissed(opt, code, plan) && AllRightful(opt, code, Lex(code, 0), plan)
  }

  /** The text is the code renamed by such a plan, and the rest of the code is kept. */
  ghost predicate RenamedSoundly(opt: Options, code: string, text: string)
  {
    exists plan: seq<Rename> ::
      SoundPlan(opt, code, plan) && OnlyRenamed(code, plan, text) && OtherTextKept(code, plan, text)
      && QuietTextKept(code, plan, text)
  }

  lemma SoundlyRenamed(opt: Options, code: string, plan: seq<Rename>, text: string)
    requires PlanOk(code, plan) && FromTokens(code, plan) && NothingMissed(opt, code, plan) && HoistedOnce(opt, code, plan)
    requires OnlyCode(code, plan) && NoWordMissed(opt, code, plan) && AllRightful(opt, code, Lex(code, 0), plan)
    requires OnlyRenamed(code, plan, text) && OtherTextKept(code, plan, text) && QuietTextKept(code, plan, text)
    ensures RenamedSoundly(opt, code, text)
  {
    hide PlanOk, FromTokens, NothingMissed, HoistedOnce, OnlyCode, NoWordMissed, AllRightful, OnlyRenamed, OtherTextKept,
         QuietTextKept;
    assert SoundPlan(opt, code, plan);
  }

  datatype Mangled = Renamed(text: string) | UndefinedSymbols(names: seq<string>)

  /** Identifiers are renamed by a plan, and nothing else changes.  In strict mode a text is only renamed if every planned
      name is declared in it or external; otherwise some that are not are reported. */
  method MangleNames(code: string, opt: Options) returns (r: Mangled, ghost plan: seq<Rename>)
    ensures PlanOk(code, plan) && FromTokens(code, plan)
    ensures NothingMissed(opt, code, plan) && HoistedOnce(opt, code, plan)
    ensures OnlyCode(code, plan) && NoWordMissed(opt, code, plan) && AllRightful(opt, code, Lex(code, 0), plan)
    ensures r.Renamed? ==> OtherTextKept(code, plan, r.text) && QuietTextKept(code, plan, r.text)
    ensures r.Renamed? ==> OnlyRenamed(code, plan, r.text) && (opt.strict ==> AllKnown(opt, code, plan, []))
    ensures r.UndefinedSymbols? ==> opt.strict && r.names != [] && AllReported(opt, code, plan, r.names)
    ensures r.Renamed? ==> RenamedSoundly(opt, code, r.text)
    ensures r.UndefinedSymbols? ==> opt.strict && r.names != []
  {
    hide *;
    var spans, undefined := ComputeScopedRenames(code, opt);
    plan := spans;
    PlanIsCode(code, plan);
    PlanTakesWords(opt, code, plan);
    if opt.strict && undefined != [] {
      return UndefinedSymbols(undefined), plan;
    }
    var out := ApplyPlan(code, spans);
    SubstituteOnlyRenames(code, spans);
    OtherTextStays(code, spans, out);
    SoundlyRenamed(opt, code, spans, out);
    r := Renamed(out);
  }
}
