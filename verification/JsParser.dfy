/**
 The error-tolerant statement parser of the renamer (struct Parser in src/builders/JSObfuscatorScope.cpp).
 Every method keeps Valid(): environments stay well formed, hoisted names keep one spelling, every recorded
 rename is an occurrence of the source, and no identifier token behind the cursor was missed.
 */
module JsParser {
  import opened Chars
  import opened JsLexer
  import opened JsScope
  import opened JsScopeLemmas
  import opened JsPlan
  import opened JsSites
  import opened JsNames

  /** Every token before i is done, apart from the waived ones. */
  predicate Covered(opt: Options, code: string, toks: seq<Tok>, i: nat, spans: seq<Rename>, waived: set<nat>)
  {
    forall k :: 0 <= k < i && k < |toks| ==> k in waived || Done(opt, code, spans, toks[k])
  }

  // ----- local names ----------------------------------------------------------------------------

  ghost predicate LocalsOk(code: string, toks: seq<Tok>, s: Scope)
  {
    forall name :: name in s.locals ==> DeclaredLocally(code, toks, name)
  }

  /** Away from the root environment, token i is in the body of a function. */
  ghost predicate Nested(code: string, toks: seq<Tok>, i: nat, s: Scope) { s.cur != 0 ==> InBody(code, toks, i) }

  lemma LocalsGain(code: string, toks: seq<Tok>, s: Scope, k: nat, name: string, t: Scope)
    requires LocalsOk(code, toks, s) && Word(code, toks, k, name) && t.locals <= s.locals + {name}
    requires name in t.locals && name !in s.locals ==> LocalSite(code, toks, k)
    ensures LocalsOk(code, toks, t)
  {
    hide LocalSite;
    forall n | n in t.locals ensures DeclaredLocally(code, toks, n) {
    }
  }

  // ----- steps of the cursor --------------------------------------------------------------------

  datatype Place = Place(at: nat, scope: Scope)

  /** The cursor has gone on, closing no brace that it did not open, and the environments have only grown. */
  ghost predicate Moved(code: string, toks: seq<Tok>, a: Place, b: Place)
  {
    Grows(a.scope, b.scope) && Steady(code, toks, a.at, b.at)
  }

  lemma MovedTransitive(code: string, toks: seq<Tok>, a: Place, b: Place, c: Place)
    requires Moved(code, toks, a, b) && Moved(code, toks, b, c)
    ensures Moved(code, toks, a, c)
  {
    hide Grows, Steady;
    GrowsTransitive(a.scope, b.scope, c.scope);
    SteadyTransitive(code, toks, a.at, b.at, c.at);
  }

  lemma MovedNested(code: string, toks: seq<Tok>, a: Place, b: Place)
    requires Moved(code, toks, a, b) && Nested(code, toks, a.at, a.scope)
    ensures Nested(code, toks, b.at, b.scope) && a.at <= b.at
  {
    hide InBody;
    if b.scope.cur != 0 {
      BodyGoesOn(code, toks, a.at, b.at);
    }
  }

  /** A step over one token that is no closing brace, or no step. */
  lemma MovedStep(code: string, toks: seq<Tok>, i: nat, s: Scope, t: Scope)
    requires Grows(s, t)
    ensures Moved(code, toks, Place(i, s), Place(i, t))
    ensures !Punct(code, toks, i, '}') ==> Moved(code, toks, Place(i, s), Place(i + 1, t))
  {
    hide Grows, Steady, Punct;
    SteadyHere(code, toks, i);
  }

  lemma MovedIs(code: string, toks: seq<Tok>, a: Place, b: Place)
    ensures Moved(code, toks, a, b) <==> Grows(a.scope, b.scope) && Steady(code, toks, a.at, b.at)
    ensures Moved(code, toks, a, b) ==> a.at <= b.at
  {
  }

  // ----- declared names -------------------------------------------------------------------------

  /** Every name of the declaration list after token j that stands in [from, to) is hoisted in the environment. */
  predicate ListHoisted(code: string, toks: seq<Tok>, j: nat, from: nat, to: nat, e: Env)
  {
    forall k: nat :: from <= k < to && InList(code, toks, j, k) && NameAt(code, toks, k) ==> TextAt(code, toks, k) in e.hoisted
  }

  /** Every such name that is not skipped is bound in the innermost block of the environment. */
  predicate ListBound(opt: Options, code: string, toks: seq<Tok>, j: nat, from: nat, to: nat, e: Env)
  {
    forall k: nat :: from <= k < to && InList(code, toks, j, k) && NameAt(code, toks, k) && !Skipped(opt, TextAt(code, toks, k))
                     ==> e.blocks != [] && TextAt(code, toks, k) in Innermost(e)
  }

  function Innermost(e: Env): map<string, nat>
    requires e.blocks != []
  {
    e.blocks[|e.blocks| - 1]
  }

  predicate NameAt(code: string, toks: seq<Tok>, k: nat)
  {
    k < |toks| && toks[k].kind == Ident && toks[k].a <= toks[k].b <= |code|
  }

  function TextAt(code: string, toks: seq<Tok>, k: nat): string
    requires NameAt(code, toks, k)
  {
    code[toks[k].a..toks[k].b]
  }

  lemma VarHoists(opt: Options, s: Scope, name: string, a: nat, b: nat)
    requires s.cur < |s.envs|
    ensures var t := DeclareVar(opt, s, name, a, b);
            && t.cur == s.cur < |t.envs| && name in t.envs[s.cur].hoisted
            && forall n :: n in s.envs[s.cur].hoisted ==> n in t.envs[s.cur].hoisted
  {
    hide Mangle;
  }

  lemma LetBinds(opt: Options, s: Scope, name: string, a: nat, b: nat)
    requires s.cur < |s.envs| && s.envs[s.cur].blocks != []
    ensures var t := JsScope.DeclareLet(opt, s, name, a, b);
            && t.cur == s.cur < |t.envs| && t.envs[s.cur].blocks != []
            && (!Skipped(opt, name) ==> name in Innermost(t.envs[s.cur]))
            && Innermost(s.envs[s.cur]).Keys <= Innermost(t.envs[s.cur]).Keys
  {
    hide Mangle;
  }

  /** A name that is declared is a name of the list, and unless a comma follows it the list ends there. */
  lemma ListStops(code: string, toks: seq<Tok>, j: nat, m: nat, k: nat)
    requires j < m < k && IsName(toks, m) && !Punct(code, toks, m + 1, ',')
    ensures !InList(code, toks, j, k)
  {
  }

  lemma {:induction false} HoistedMore(code: string, toks: seq<Tok>, j: nat, from: nat, k: nat, to: nat, d: Env, e: Env)
    requires ListHoisted(code, toks, j, from, k, d) && from <= k < to && NameAt(code, toks, k) && j < k
    requires TextAt(code, toks, k) in e.hoisted && forall n :: n in d.hoisted ==> n in e.hoisted
    requires to > k + 1 ==> !Punct(code, toks, k + 1, ',') || (to == k + 2 && Punct(code, toks, k + 1, ','))
    ensures ListHoisted(code, toks, j, from, to, e)
  {
    CommaIsNoName(code, toks, k + 1);
    hide InList, NameAt, TextAt;
    forall x: nat | from <= x < to && InList(code, toks, j, x) && NameAt(code, toks, x)
      ensures TextAt(code, toks, x) in e.hoisted
    {
      if x > k && !Punct(code, toks, k + 1, ',') {
        ListStops(code, toks, j, k, x);
      }
    }
  }

  lemma {:induction false} BoundMore(opt: Options, code: string, toks: seq<Tok>, j: nat, from: nat, k: nat, to: nat, d: Env, e: Env)
    requires ListBound(opt, code, toks, j, from, k, d) && from <= k < to && NameAt(code, toks, k) && j < k
    requires d.blocks != [] && e.blocks != [] && Innermost(d).Keys <= Innermost(e).Keys
    requires !Skipped(opt, TextAt(code, toks, k)) ==> TextAt(code, toks, k) in Innermost(e)
    requires to > k + 1 ==> !Punct(code, toks, k + 1, ',') || (to == k + 2 && Punct(code, toks, k + 1, ','))
    ensures ListBound(opt, code, toks, j, from, to, e)
  {
    CommaIsNoName(code, toks, k + 1);
    hide InList, Skipped;
    forall x: nat | from <= x < to && InList(code, toks, j, x) && NameAt(code, toks, x) && !Skipped(opt, TextAt(code, toks, x))
      ensures TextAt(code, toks, x) in Innermost(e)
    {
      if x > k && !Punct(code, toks, k + 1, ',') {
        ListStops(code, toks, j, k, x);
      }
    }
  }

  lemma NoNameMore(opt: Options, code: string, toks: seq<Tok>, j: nat, from: nat, k: nat, e: Env)
    requires !NameAt(code, toks, k)
    ensures ListHoisted(code, toks, j, from, k, e) ==> ListHoisted(code, toks, j, from, k + 1, e)
    ensures ListBound(opt, code, toks, j, from, k, e) ==> ListBound(opt, code, toks, j, from, k + 1, e)
  {
    hide InList;
  }

  lemma NoneYet(opt: Options, code: string, toks: seq<Tok>, j: nat, from: nat, e: Env)
    ensures ListHoisted(code, toks, j, from, from, e) && ListBound(opt, code, toks, j, from, from, e)
  {
  }

  lemma CommaIsNoName(code: string, toks: seq<Tok>, k: nat)
    ensures Punct(code, toks, k, ',') ==> !NameAt(code, toks, k)
    ensures Punct(code, toks, k, '=') ==> !Punct(code, toks, k, ',')
  {
  }

  lemma NotAName(code: string, toks: seq<Tok>, k: nat)
    requires k < |toks| && toks[k].kind != Ident
    ensures !NameAt(code, toks, k)
  {
  }

  /** What declaring the name at token k does to the current environment. */
  lemma VarAtCursor(opt: Options, code: string, toks: seq<Tok>, k: nat, s: Scope)
    requires k < |toks| && toks[k].kind == Ident && toks[k].a <= toks[k].b <= |code| && s.cur < |s.envs|
    ensures NameAt(code, toks, k)
    ensures var t := DeclareVar(opt, s, code[toks[k].a..toks[k].b], toks[k].a, toks[k].b);
            && t.cur == s.cur < |t.envs| && TextAt(code, toks, k) in t.envs[s.cur].hoisted
            && forall n :: n in s.envs[s.cur].hoisted ==> n in t.envs[s.cur].hoisted
  {
    VarHoists(opt, s, code[toks[k].a..toks[k].b], toks[k].a, toks[k].b);
    hide DeclareVar;
  }

  lemma LetAtCursor(opt: Options, code: string, toks: seq<Tok>, k: nat, s: Scope)
    requires k < |toks| && toks[k].kind == Ident && toks[k].a <= toks[k].b <= |code| && s.cur < |s.envs|
    requires s.envs[s.cur].blocks != []
    ensures NameAt(code, toks, k)
    ensures var t := JsScope.DeclareLet(opt, s, code[toks[k].a..toks[k].b], toks[k].a, toks[k].b);
            && t.cur == s.cur < |t.envs| && t.envs[s.cur].blocks != []
            && (!Skipped(opt, TextAt(code, toks, k)) ==> TextAt(code, toks, k) in Innermost(t.envs[s.cur]))
            && Innermost(s.envs[s.cur]).Keys <= Innermost(t.envs[s.cur]).Keys
  {
    LetBinds(opt, s, code[toks[k].a..toks[k].b], toks[k].a, toks[k].b);
    hide JsScope.DeclareLet, Skipped;
  }

  lemma HoistedNames(opt: Options, s: Scope, name: string, a: nat, b: nat)
    requires s.cur < |s.envs| && !Skipped(opt, name)
    ensures var t := JsScope.DeclareHoisted(opt, s, name, a, b); s.cur < |t.envs| && name in t.envs[s.cur].hoisted
  {
    VarHoists(opt, s, name, a, b);
    hide DeclareVar;
  }

  /** The tokens from i up to k close no brace that they did not open and leave d of them open. */
  ghost predicate Level(code: string, toks: seq<Tok>, i: nat, k: nat, d: int)
  {
    i <= k && Depth(code, toks, i, k) == d && forall m: nat :: i <= m <= k ==> Depth(code, toks, i, m) >= 0
  }

  lemma LevelStarts(code: string, toks: seq<Tok>, i: nat)
    ensures Level(code, toks, i, i, 0)
  {
  }

  lemma LevelStep(code: string, toks: seq<Tok>, i: nat, k: nat, d: int)
    requires Level(code, toks, i, k, d)
    ensures var w := if Punct(code, toks, k, '{') then 1 else if Punct(code, toks, k, '}') then -1 else 0;
            d + w >= 0 ==> Level(code, toks, i, k + 1, d + w)
  {
    hide Punct;
  }

  lemma NotPunct(code: string, toks: seq<Tok>, k: nat)
    requires k < |toks| && toks[k].kind != Pun
    ensures !Punct(code, toks, k, '{') && !Punct(code, toks, k, '}')
  {
  }

  lemma LevelSteady(code: string, toks: seq<Tok>, i: nat, k: nat, d: int)
    requires Level(code, toks, i, k, d)
    ensures Steady(code, toks, i, k)
  {
  }

  ghost predicate StateOk(opt: Options, code: string, toks: seq<Tok>, i: nat, s: Scope, waived: set<nat>)
  {
    && TokensOk(code, toks, 0)
    && i < |toks|
    && Good(opt, code, s)
    && AllOccur(code, toks, s.spans)
    && Covered(opt, code, toks, i, s.spans, waived)
    && LocalsOk(code, toks, s)
    && Explained(opt, code, Declared(code, toks), s)
    && AllRightful(opt, code, toks, s.spans)
  }

  function Elements(s: seq<nat>): (r: set<nat>)
    ensures forall k :: k in r <==> k in s
  {
    set k | k in s
  }

  /** Only template tokens in declaration lists may be newly waived. */
  ghost predicate WaivesTemplates(code: string, toks: seq<Tok>, u: set<nat>, v: set<nat>)
  {
    u <= v && forall k :: k in v && k !in u ==> k < |toks| && toks[k].kind == Tpl && Listed(code, toks, k)
  }

  lemma CoveredStable(opt: Options, code: string, toks: seq<Tok>, i: nat, u: seq<Rename>, v: seq<Rename>, waived: set<nat>)
    requires Covered(opt, code, toks, i, u, waived) && u <= v
    ensures Covered(opt, code, toks, i, v, waived)
  {
    forall k | 0 <= k < i && k < |toks| && k !in waived ensures Done(opt, code, v, toks[k]) {
      DoneStable(opt, code, u, v, toks[k]);
    }
  }

  lemma OneMoreOccurs(code: string, toks: seq<Tok>, s: Scope, t: Scope, a: nat, b: nat)
    requires AllOccur(code, toks, s.spans) && RecordsAt(s, t, a, b) && Occurs(code, toks, a, b)
    ensures AllOccur(code, toks, t.spans)
  {
    forall k | 0 <= k < |t.spans| ensures Occurs(code, toks, t.spans[k].a, t.spans[k].b) {
      if k < |s.spans| {
        assert t.spans[k] == s.spans[k];
      }
    }
  }

  /** Record at the identifier token k, then step past it. */
  lemma AdvanceRecorded(opt: Options, code: string, toks: seq<Tok>, i: nat, s: Scope, t: Scope, waived: set<nat>)
    requires StateOk(opt, code, toks, i, s, waived) && toks[i].kind == Ident
    requires Good(opt, code, t) && Grows(s, t) && RecordsAt(s, t, toks[i].a, toks[i].b)
    requires toks[i].a < toks[i].b <= |code|
    requires Exempt(opt, code, toks[i].a, toks[i].b) || |t.spans| == |s.spans| + 1
    requires LocalsOk(code, toks, t) && Explained(opt, code, Declared(code, toks), t)
    requires AllRightful(opt, code, toks, t.spans)
    ensures StateOk(opt, code, toks, i + 1, t, waived)
  {
    hide LocalsOk, Explained, Declared, AllRightful;
    assert Owns(code, toks[i], toks[i].a, toks[i].b);
    OneMoreOccurs(code, toks, s, t, toks[i].a, toks[i].b);
    CoveredStable(opt, code, toks, i, s.spans, t.spans, waived);
    if |t.spans| == |s.spans| + 1 {
      assert t.spans[|s.spans|].a == toks[i].a;
    }
    assert Done(opt, code, t.spans, toks[i]);
  }

  lemma IdentText(code: string, toks: seq<Tok>, i: nat)
    requires TokensOk(code, toks, 0) && i < |toks| && toks[i].kind != Eof
    ensures i < |toks| - 1 && toks[i].a < toks[i].b <= |code|
  {
    if i < |toks| - 1 {
      assert TokenShape(code, toks[i]);
    }
  }

  lemma AdvanceReference(opt: Options, code: string, toks: seq<Tok>, i: nat, s: Scope, waived: set<nat>)
    requires StateOk(opt, code, toks, i, s, waived) && toks[i].kind == Ident
    ensures i < |toks| - 1 && toks[i].a < toks[i].b <= |code|
    ensures var t := ReferenceIdent(opt, code, s, toks[i].a, toks[i].b);
            StateOk(opt, code, toks, i + 1, t, waived) && Grows(s, t) && t.envs == s.envs
  {
    IdentText(code, toks, i);
    ReferenceGood(opt, code, s, toks[i].a, toks[i].b);
    ReferenceDeclaresNothing(opt, code, s, toks[i].a, toks[i].b);
    ReferenceExplains(opt, code, Declared(code, toks), s, toks[i].a, toks[i].b);
    ReferenceRightful(opt, code, toks, s, toks[i].a, toks[i].b);
    hide Explained, Declared, Covered, AllRightful;
    AdvanceRecorded(opt, code, toks, i, s, ReferenceIdent(opt, code, s, toks[i].a, toks[i].b), waived);
  }

  lemma TemplateOccurrences(code: string, toks: seq<Tok>, i: nat)
    requires TokensOk(code, toks, 0) && i < |toks| && toks[i].kind == Tpl
    ensures SpansOccur(code, toks, TemplateSpans(code, toks[i].a, toks[i].b))
  {
    var spans := TemplateSpans(code, toks[i].a, toks[i].b);
    forall k | 0 <= k < |spans|
      ensures spans[k].a < spans[k].b <= |code| && Occurs(code, toks, spans[k].a, spans[k].b)
    {
      assert spans[k] in spans;
      assert Owns(code, toks[i], spans[k].a, spans[k].b);
      OwnedInside(code, toks, i, spans[k].a, spans[k].b);
    }
  }

  lemma AdvanceTemplate(opt: Options, code: string, toks: seq<Tok>, i: nat, s: Scope, waived: set<nat>)
    requires StateOk(opt, code, toks, i, s, waived) && toks[i].kind == Tpl
    ensures i < |toks| - 1 && toks[i].a < toks[i].b <= |code|
    ensures var t := ReferenceAll(opt, code, s, TemplateSpans(code, toks[i].a, toks[i].b));
            StateOk(opt, code, toks, i + 1, t, waived) && Grows(s, t) && t.envs == s.envs
  {
    IdentText(code, toks, i);
    TemplateOccurrences(code, toks, i);
    var spans := TemplateSpans(code, toks[i].a, toks[i].b);
    ReferenceAllGood(opt, code, toks, s, spans);
    ReferenceAllExplains(opt, code, Declared(code, toks), s, spans);
    ReferenceAllRightful(opt, code, toks, s, spans);
    hide Explained, Declared, AllRightful;
    var t := ReferenceAll(opt, code, s, spans);
    CoveredStable(opt, code, toks, i, s.spans, t.spans, waived);
    assert Done(opt, code, t.spans, toks[i]);
  }

  /** Step past a token that holds no occurrence, or past one that is waived. */
  lemma AdvancePlain(opt: Options, code: string, toks: seq<Tok>, i: nat, s: Scope, waived: set<nat>, more: set<nat>)
    requires StateOk(opt, code, toks, i, s, waived) && toks[i].kind != Eof && waived <= more
    requires i in more || (toks[i].kind != Tpl && (toks[i].kind == Ident ==> code[toks[i].a..toks[i].b] in Keywords))
    requires toks[i].a <= toks[i].b <= |code|
    ensures StateOk(opt, code, toks, i + 1, s, more)
  {
    IdentText(code, toks, i);
  }

  lemma SiteIsDeclared(code: string, toks: seq<Tok>, k: nat)
    requires k < |toks| && toks[k].kind == Ident && toks[k].a <= toks[k].b <= |code|
    requires LocalSite(code, toks, k) || HoistSite(code, toks, k)
    ensures code[toks[k].a..toks[k].b] in Declared(code, toks) && DeclarationSite(code, toks, k)
  {
    hide BlockSite, HoistSite, IsParameter, InBody;
    assert DeclarationSite(code, toks, k);
  }

  lemma AdvanceVar(opt: Options, code: string, toks: seq<Tok>, i: nat, s: Scope, waived: set<nat>)
    requires StateOk(opt, code, toks, i, s, waived) && toks[i].kind == Ident
    requires HoistSite(code, toks, i) && Nested(code, toks, i, s)
    ensures WellFormed(s) && i < |toks| - 1 && toks[i].a < toks[i].b <= |code|
    ensures var t := DeclareVar(opt, s, code[toks[i].a..toks[i].b], toks[i].a, toks[i].b);
            StateOk(opt, code, toks, i + 1, t, waived) && Grows(s, t)
  {
    IdentText(code, toks, i);
    var a, b := toks[i].a, toks[i].b;
    DeclareVarGood(opt, code, s, a, b);
    SiteIsDeclared(code, toks, i);
    VarExplains(opt, code, Declared(code, toks), s, a, b);
    var t := DeclareVar(opt, s, code[a..b], a, b);
    VarLocals(opt, s, code[a..b], a, b);
    DeclaredRightful(opt, code, toks, s, t, i);
    hide HoistSite, BlockSite, InBody, IsParameter, DeclareVar, LocalsOk, Explained, Declared, AllRightful;
    LocalsGain(code, toks, s, i, code[a..b], t);
    AdvanceRecorded(opt, code, toks, i, s, t, waived);
  }

  lemma VarLocals(opt: Options, s: Scope, name: string, a: nat, b: nat)
    requires s.cur < |s.envs|
    ensures var t := DeclareVar(opt, s, name, a, b);
            t.cur == s.cur && t.locals <= s.locals + {name} && (s.cur == 0 ==> t.locals == s.locals)
  {
    hide Mangle;
  }

  lemma AdvanceHoisted(opt: Options, code: string, toks: seq<Tok>, i: nat, s: Scope, waived: set<nat>)
    requires StateOk(opt, code, toks, i, s, waived) && toks[i].kind == Ident
    requires HoistSite(code, toks, i) && Nested(code, toks, i, s)
    ensures WellFormed(s) && i < |toks| - 1 && toks[i].a < toks[i].b <= |code|
    ensures var t := DeclareHoisted(opt, s, code[toks[i].a..toks[i].b], toks[i].a, toks[i].b);
            StateOk(opt, code, toks, i + 1, t, waived) && Grows(s, t)
  {
    IdentText(code, toks, i);
    var a, b := toks[i].a, toks[i].b;
    DeclareHoistedGood(opt, code, s, a, b);
    SiteIsDeclared(code, toks, i);
    HoistedExplains(opt, code, Declared(code, toks), s, a, b);
    var t := DeclareHoisted(opt, s, code[a..b], a, b);
    VarLocals(opt, s, code[a..b], a, b);
    DeclaredRightful(opt, code, toks, s, t, i);
    hide HoistSite, BlockSite, InBody, IsParameter, DeclareVar, LocalsOk, Explained, Declared, AllRightful;
    LocalsGain(code, toks, s, i, code[a..b], t);
    AdvanceRecorded(opt, code, toks, i, s, t, waived);
  }

  lemma LetLocals(opt: Options, s: Scope, name: string, a: nat, b: nat)
    requires s.cur < |s.envs|
    ensures var t := DeclareLet(opt, s, name, a, b); t.cur == s.cur && t.locals <= s.locals + {name}
  {
    hide Mangle;
  }

  lemma AdvanceLet(opt: Options, code: string, toks: seq<Tok>, i: nat, s: Scope, waived: set<nat>)
    requires StateOk(opt, code, toks, i, s, waived) && toks[i].kind == Ident && LocalSite(code, toks, i)
    ensures WellFormed(s) && i < |toks| - 1 && toks[i].a < toks[i].b <= |code|
    ensures var t := DeclareLet(opt, s, code[toks[i].a..toks[i].b], toks[i].a, toks[i].b);
            StateOk(opt, code, toks, i + 1, t, waived) && Grows(s, t)
  {
    IdentText(code, toks, i);
    var a, b := toks[i].a, toks[i].b;
    DeclareLetGood(opt, code, s, a, b);
    SiteIsDeclared(code, toks, i);
    LetExplains(opt, code, Declared(code, toks), s, a, b);
    var t := DeclareLet(opt, s, code[a..b], a, b);
    LetLocals(opt, s, code[a..b], a, b);
    DeclaredRightful(opt, code, toks, s, t, i);
    hide LocalSite, DeclareLet, LocalsOk, Explained, Declared, AllRightful;
    LocalsGain(code, toks, s, i, code[a..b], t);
    AdvanceRecorded(opt, code, toks, i, s, t, waived);
  }

  /** A parameter is declared after the cursor has passed its token k, which need no longer be waived. */
  lemma DeclareParameter(opt: Options, code: string, toks: seq<Tok>, i: nat, s: Scope, k: nat, u: set<nat>, v: set<nat>)
    requires StateOk(opt, code, toks, i, s, u) && k < |toks| && toks[k].kind == Ident && u <= v + {k}
    requires LocalSite(code, toks, k)
    ensures WellFormed(s) && toks[k].a < toks[k].b <= |code|
    ensures var t := DeclareLet(opt, s, code[toks[k].a..toks[k].b], toks[k].a, toks[k].b);
            StateOk(opt, code, toks, i, t, v) && Grows(s, t)
  {
    IdentText(code, toks, k);
    var a, b := toks[k].a, toks[k].b;
    var t := DeclareLet(opt, s, code[a..b], a, b);
    DeclareLetGood(opt, code, s, a, b);
    LetLocals(opt, s, code[a..b], a, b);
    SiteIsDeclared(code, toks, k);
    LetExplains(opt, code, Declared(code, toks), s, a, b);
    DeclaredRightful(opt, code, toks, s, t, k);
    hide LocalSite, DeclareLet, Explained, Declared, AllRightful;
    LocalsGain(code, toks, s, k, code[a..b], t);
    hide LocalsOk;
    assert Owns(code, toks[k], a, b);
    OneMoreOccurs(code, toks, s, t, a, b);
    CoveredStable(opt, code, toks, i, s.spans, t.spans, u);
    if |t.spans| == |s.spans| + 1 {
      assert t.spans[|s.spans|].a == a;
    }
    assert Done(opt, code, t.spans, toks[k]);
  }

  lemma StateFacts(opt: Options, code: string, toks: seq<Tok>, i: nat, s: Scope, waived: set<nat>)
    requires StateOk(opt, code, toks, i, s, waived)
    ensures TokensOk(code, toks, 0) && i < |toks| && Good(opt, code, s) && WellFormed(s) && Grows(s, s)
    ensures s.cur < |s.envs| && s.envs[s.cur].blocks != []
    ensures toks[i].kind != Eof ==> i < |toks| - 1 && toks[i].a < toks[i].b <= |code|
    ensures WaivesTemplates(code, toks, waived, waived) && Moved(code, toks, Place(i, s), Place(i, s))
  {
    GrowsReflexive(s);
    MovedStep(code, toks, i, s, s);
    if toks[i].kind != Eof {
      IdentText(code, toks, i);
    }
  }

  lemma WaivesTransitive(code: string, toks: seq<Tok>, u: set<nat>, v: set<nat>, w: set<nat>)
    requires WaivesTemplates(code, toks, u, v) && WaivesTemplates(code, toks, v, w)
    ensures WaivesTemplates(code, toks, u, w)
  {
  }

  /** Waive the token at the cursor if it is a template, then step past it. */
  lemma AdvanceWaived(opt: Options, code: string, toks: seq<Tok>, i: nat, s: Scope, waived: set<nat>)
    requires StateOk(opt, code, toks, i, s, waived) && toks[i].kind != Eof && toks[i].kind != Ident
    requires Listed(code, toks, i)
    ensures var more := if toks[i].kind == Tpl then waived + {i} else waived;
            StateOk(opt, code, toks, i + 1, s, more) && WaivesTemplates(code, toks, waived, more)
  {
    IdentText(code, toks, i);
    AdvancePlain(opt, code, toks, i, s, waived, if toks[i].kind == Tpl then waived + {i} else waived);
  }

  lemma BlockEntered(opt: Options, code: string, toks: seq<Tok>, i: nat, s: Scope, waived: set<nat>)
    requires StateOk(opt, code, toks, i, s, waived)
    ensures s.cur < |s.envs| && StateOk(opt, code, toks, i, EnterBlock(s), waived)
  {
    ScopesExplain(opt, code, Declared(code, toks), s);
    hide DeclaredLocally, Explained, Declared, AllRightful;
    EnterBlockGood(opt, code, s);
  }

  lemma BlockLeft(opt: Options, code: string, toks: seq<Tok>, i: nat, s: Scope, t: Scope, u: set<nat>, v: set<nat>, j: nat)
    requires StateOk(opt, code, toks, i, s, u) && StateOk(opt, code, toks, j, t, v) && Grows(EnterBlock(s), t)
    ensures s.cur < |s.envs| && t.cur == s.cur < |t.envs|
    ensures StateOk(opt, code, toks, j, ExitBlock(t), v) && Grows(s, ExitBlock(t))
    ensures s.cur < |ExitBlock(t).envs| && ExitBlock(t).envs[s.cur].blocks == s.envs[s.cur].blocks
  {
    assert t.cur < |t.envs|;
    ScopesExplain(opt, code, Declared(code, toks), t);
    hide DeclaredLocally, Explained, Declared, AllRightful;
    ExitBlockGood(opt, code, s, t);
  }

  /** The environments of s survive in t, but for `name` hoisted in the current one. */
  predicate OnlyHoists(s: Scope, t: Scope, name: string)
  {
    && s.cur < |s.envs| <= |t.envs|
    && (forall e :: 0 <= e < |s.envs| && e != s.cur ==> t.envs[e] == s.envs[e])
    && t.envs[s.cur].blocks == s.envs[s.cur].blocks
    && t.envs[s.cur].parent == s.envs[s.cur].parent
    && forall n :: n in t.envs[s.cur].hoisted && n != name ==> n in s.envs[s.cur].hoisted
  }

  lemma DeclareHoistedOnlyHoists(opt: Options, s: Scope, name: string, a: nat, b: nat)
    requires s.cur < |s.envs|
    ensures OnlyHoists(s, DeclareHoisted(opt, s, name, a, b), name)
  {
  }

  /** Entering and leaving a function body adds environments and changes none. */
  lemma OnlyHoistsExtended(s: Scope, m: Scope, t: Scope, name: string)
    requires OnlyHoists(s, m, name) && |m.envs| <= |t.envs| && t.envs[..|m.envs|] == m.envs
    ensures OnlyHoists(s, t, name)
  {
    forall e | 0 <= e < |m.envs| ensures t.envs[e] == m.envs[e] {
      assert t.envs[..|m.envs|][e] == m.envs[e];
    }
  }

  lemma OnlyHoistsReflexive(s: Scope, t: Scope, name: string)
    requires s.cur < |s.envs| && t.envs == s.envs
    ensures OnlyHoists(s, t, name)
  {
  }

  lemma GrowsFacts(s: Scope, t: Scope)
    requires Grows(s, t)
    ensures s.cur == t.cur < |s.envs| <= |t.envs|
  {
  }

  lemma FunctionEntered(opt: Options, code: string, toks: seq<Tok>, i: nat, s: Scope, waived: set<nat>)
    requires StateOk(opt, code, toks, i, s, waived)
    ensures StateOk(opt, code, toks, i, EnterFunction(s), waived)
  {
    ScopesExplain(opt, code, Declared(code, toks), s);
    hide Explained, Declared, AllRightful;
    EnterFunctionGood(opt, code, s);
  }

  lemma FunctionLeft(opt: Options, code: string, toks: seq<Tok>, i: nat, s: Scope, t: Scope, u: set<nat>, v: set<nat>, j: nat)
    requires StateOk(opt, code, toks, i, s, u) && StateOk(opt, code, toks, j, t, v) && Grows(EnterFunction(s), t)
    ensures StateOk(opt, code, toks, j, LeaveFunction(t, s.cur), v) && Grows(s, LeaveFunction(t, s.cur))
    ensures |s.envs| <= |t.envs| && t.envs[..|s.envs|] == s.envs
  {
    ScopesExplain(opt, code, Declared(code, toks), t);
    hide Explained, Declared, AllRightful;
    LeaveFunctionGood(opt, code, s, t);
  }

  ghost predicate AllParameters(code: string, toks: seq<Tok>, params: seq<nat>)
  {
    forall k :: 0 <= k < |params| ==> IsName(toks, params[k]) && IsParameter(code, toks, params[k])
  }

  lemma NoParameters(code: string, toks: seq<Tok>)
    ensures AllParameters(code, toks, []) && Elements([]) == {}
  {
  }

  lemma OneMoreParameter(code: string, toks: seq<Tok>, params: seq<nat>, j: nat, k: nat)
    requires AllParameters(code, toks, params) && IsName(toks, k) && ParameterOf(code, toks, j, k)
    ensures AllParameters(code, toks, params + [k]) && Elements(params + [k]) == Elements(params) + {k}
  {
  }

  lemma ParameterSite(code: string, toks: seq<Tok>, params: seq<nat>, k: nat)
    requires AllParameters(code, toks, params) && k < |params|
    ensures IsName(toks, params[k]) && LocalSite(code, toks, params[k])
    ensures Elements(params[k..]) == {params[k]} + Elements(params[k + 1..])
  {
    assert params[k..] == [params[k]] + params[k + 1..];
    hide IsParameter, BlockSite, HoistSite;
  }

  /** After a parameter and a comma the next parameter starts, if there is one. */
  lemma {:induction false} ParameterNext(code: string, toks: seq<Tok>, i: nat, k: nat)
    requires ParameterFrom(code, toks, i, k)
    ensures var e := ParameterEnd(code, toks, k);
            Punct(code, toks, e, ',') && More(toks, e + 1) && !Punct(code, toks, e + 1, ')') ==>
              ParameterFrom(code, toks, i, e + 1)
    decreases |toks| - i
  {
    hide ParameterEnd;
    if k != i {
      ParameterNext(code, toks, ParameterEnd(code, toks, i) + 1, k);
    }
  }

  lemma ParameterStarts(code: string, toks: seq<Tok>, j: nat)
    requires Word(code, toks, j, "function") && Punct(code, toks, ParametersStart(code, toks, j), '(')
    ensures var i := ParametersStart(code, toks, j) + 1;
            More(toks, i) && !Punct(code, toks, i, ')') ==> ParameterOf(code, toks, j, i)
  {
  }

  lemma ParameterGoesOn(code: string, toks: seq<Tok>, j: nat, i: nat)
    requires ParameterOf(code, toks, j, i)
    ensures var e := ParameterEnd(code, toks, i);
            Punct(code, toks, e, ',') && More(toks, e + 1) && !Punct(code, toks, e + 1, ')') ==>
              ParameterOf(code, toks, j, e + 1)
  {
    ParameterNext(code, toks, ParametersStart(code, toks, j) + 1, i);
    hide ParameterFrom, ParameterEnd;
  }

  lemma ParametersStep(code: string, toks: seq<Tok>, i: nat)
    ensures ParametersEnd(code, toks, i)
         == if !More(toks, i) || Punct(code, toks, i, ')') then i
            else if Punct(code, toks, ParameterEnd(code, toks, i), ',') then
              ParametersEnd(code, toks, ParameterEnd(code, toks, i) + 1)
            else ParameterEnd(code, toks, i)
  {
    hide ParameterEnd;
  }

  /** What stands in parentheses at the place of a parameter is skipped whatever braces it holds. */
  lemma ParenthesisAstray(code: string, toks: seq<Tok>, j: nat, i: nat)
    requires ParameterOf(code, toks, j, i) && !IsName(toks, i)
    ensures Steady(code, toks, i, Balanced(code, toks, i, '(', ')'))
  {
    hide ParameterOf, Steady;
    SteadyHere(code, toks, i);
    if Punct(code, toks, i, '(') {
      assert Astray(code, toks, i);
      SteadyAstray(code, toks, i, i, Balanced(code, toks, i, '(', ')'));
    }
  }

  /** A balanced group of braces. */
  lemma {:induction false} BalancedSteady(code: string, toks: seq<Tok>, from: nat, i: nat, d: nat)
    requires Level(code, toks, from, i, d)
    ensures Steady(code, toks, from, BalancedEnd(code, toks, i, '{', '}', d))
    decreases |toks| - i
  {
    hide Level, Steady, BalancedEnd, Punct;
    BalancedStep(code, toks, i, '{', '}', d);
    if d == 0 || !More(toks, i) {
      LevelSteady(code, toks, from, i, d);
    } else {
      LevelStep(code, toks, from, i, d);
      BothBraces(code, toks, i);
      BalancedSteady(code, toks, from, i + 1,
        if Punct(code, toks, i, '{') then d + 1 else if Punct(code, toks, i, '}') then d - 1 else d);
    }
  }

  lemma BothBraces(code: string, toks: seq<Tok>, i: nat)
    ensures !(Punct(code, toks, i, '{') && Punct(code, toks, i, '}'))
  {
  }

  lemma GroupSteady(code: string, toks: seq<Tok>, i: nat)
    ensures Steady(code, toks, i, Balanced(code, toks, i, '{', '}'))
  {
    hide Level, Steady, BalancedEnd, Punct;
    SteadyHere(code, toks, i);
    LevelStarts(code, toks, i);
    LevelStep(code, toks, i, i, 0);
    if Punct(code, toks, i, '{') {
      BalancedSteady(code, toks, i, i + 1, 1);
    }
  }

  // ----- blocks after a keyword -----------------------------------------------------------------

  /** Entering a block stays in the body of the function. */
  lemma MovedNestedBlock(code: string, toks: seq<Tok>, a: Place, b: Place)
    requires Moved(code, toks, a, b) && Nested(code, toks, a.at, a.scope) && b.scope.cur < |b.scope.envs|
    ensures Nested(code, toks, b.at, b.scope) && Nested(code, toks, b.at, EnterBlock(b.scope))
  {
    MovedNested(code, toks, a, b);
    hide InBody;
  }

  /** What a block that starts at token k leaves: nothing left open, or the closing brace taken. */
  ghost predicate InBlockTo(code: string, toks: seq<Tok>, k: nat, i: nat)
  {
    || Steady(code, toks, k, i)
    || (k < i && Punct(code, toks, i - 1, '}') && Steady(code, toks, k, i - 1))
  }

  lemma OpenBlock(code: string, toks: seq<Tok>, b: nat, i: nat)
    requires Punct(code, toks, b, '{') && InBlockTo(code, toks, b + 1, i)
    ensures Steady(code, toks, b, i)
  {
    hide Punct, Steady;
    SteadyBlock(code, toks, b, if Steady(code, toks, b + 1, i) then i else i - 1);
  }

  /** After the keyword m of a try or finally: a block, or astray. */
  lemma BlockAfterKeyword(code: string, toks: seq<Tok>, m: nat, isOpen: bool, i: nat)
    requires Word(code, toks, m, "try") || (Word(code, toks, m, "finally") && Punct(code, toks, m - 1, '}'))
    requires isOpen == Punct(code, toks, m + 1, '{') && InBlockTo(code, toks, if isOpen then m + 2 else m + 1, i) && m < i
    ensures Steady(code, toks, m, i)
  {
    SteadyHere(code, toks, m);
    hide Steady, InBlockTo;
    if isOpen {
      OpenBlock(code, toks, m + 1, i);
      SteadyTransitive(code, toks, m, m + 1, i);
    } else {
      assert Astray(code, toks, m);
      hide Astray;
      SteadyAstray(code, toks, m, m, i);
    }
  }

  lemma CatchSite(code: string, toks: seq<Tok>, m: nat, i: nat)
    requires Word(code, toks, m, "catch") && Punct(code, toks, m - 1, '}')
    requires i == if Punct(code, toks, m + 1, '(') then m + 2 else m + 1
    ensures BlockSite(code, toks, i) && BindingEnd(code, toks, i) == CatchBody(code, toks, m)
  {
    hide Word, Punct, InList, BindingEnd;
  }

  lemma CatchHead(code: string, toks: seq<Tok>, m: nat, k: nat)
    requires Word(code, toks, m, "catch")
    requires k == if Punct(code, toks, m + 1, '(') then m + 2 else m + 1
    ensures Steady(code, toks, m, k)
  {
    SteadyHere(code, toks, m);
    SteadyHere(code, toks, m + 1);
    hide Steady;
    if k == m + 2 {
      SteadyTransitive(code, toks, m, m + 1, k);
    }
  }

  lemma CatchAstray(code: string, toks: seq<Tok>, m: nat)
    requires Word(code, toks, m, "catch") && Punct(code, toks, m - 1, '}')
    requires !Punct(code, toks, CatchBody(code, toks, m), '{')
    ensures Astray(code, toks, m)
  {
    hide Word, Punct, CatchBody, InList, Depth;
  }

  /** After the keyword m of a catch, whose binding starts at k: its block, or astray. */
  lemma CatchSteady(code: string, toks: seq<Tok>, m: nat, k: nat, brace: bool, i: nat)
    requires Word(code, toks, m, "catch") && Punct(code, toks, m - 1, '}')
    requires k == if Punct(code, toks, m + 1, '(') then m + 2 else m + 1
    requires var e := CatchBody(code, toks, m);
             && brace == Punct(code, toks, e, '{') && Steady(code, toks, k, e) && m < i
             && InBlockTo(code, toks, if brace then e + 1 else e, i)
    ensures Steady(code, toks, m, i)
  {
    hide *;
    var e := CatchBody(code, toks, m);
    if brace {
      CatchHead(code, toks, m, k);
      OpenBlock(code, toks, e, i);
      SteadyTransitive(code, toks, m, k, e);
      SteadyTransitive(code, toks, m, e, i);
    } else {
      CatchAstray(code, toks, m);
      SteadyAstray(code, toks, m, m, i);
    }
  }

  class Parser {
    const code: string
    const toks: seq<Tok>
    const opt: Options
    var i: nat
    var envs: seq<Env>
    var curEnv: nat
    var bindMangled: seq<Binding>
    var implicitGlobals: map<string, nat>
    var usedMangled: set<string>
    var drawn: nat
    var spans: seq<Rename>
    var undefinedSyms: seq<string>
    ghost var locals: set<string>
    ghost var waived: set<nat>

    constructor (code: string, toks: seq<Tok>, opt: Options)
      requires TokensOk(code, toks, 0)
      ensures this.code == code && this.toks == toks && this.opt == opt
      ensures Valid() && i == 0 && waived == {} && View() == Initial()
    {
      this.code, this.toks, this.opt := code, toks, opt;
      i, curEnv, drawn := 0, 0, 0;
      envs, bindMangled, spans, undefinedSyms := [Env(None, map[], [map[]])], [], [], [];
      implicitGlobals, usedMangled, locals, waived := map[], {}, {}, {};
      InitialIsGood(opt, code);
      InitialExplained(opt, code, Declared(code, toks));
    }

    ghost function View(): Scope
      reads this
    {
      Scope(envs, curEnv, bindMangled, implicitGlobals, usedMangled, drawn, spans, undefinedSyms, locals)
    }

    ghost function Here(): Place
      reads this
    {
      Place(i, View())
    }

    ghost predicate Valid()
      reads this
    {
      StateOk(opt, code, toks, i, View(), waived)
    }

    // ----- bindings -----------------------------------------------------------------------------

    method MakeBinding(orig: string) returns (id: nat)
      modifies this
      ensures (View(), id) == JsScope.MakeBinding(opt, old(View()), orig)
      ensures i == old(i) && waived == old(waived)
    {
      id := |bindMangled|;
      var mang: string := "";
      if orig in opt.preserve {
        mang := orig;
      } else {
        var attempt := 0;
        while attempt < MAX_ATTEMPTS
          invariant attempt <= MAX_ATTEMPTS
          invariant i == old(i) && waived == old(waived) && View() == old(View()).(drawn := drawn)
          invariant Draw(opt, usedMangled, drawn, MAX_ATTEMPTS - attempt, orig, mang)
                 == Draw(opt, usedMangled, old(drawn), MAX_ATTEMPTS, orig, "")
        {
          mang := opt.names(drawn);
          drawn := drawn + 1;
          if mang == "" {
            mang := orig;
          }
          if mang !in usedMangled {
            break;
          }
          attempt := attempt + 1;
        }
        if mang in usedMangled {
          mang := orig + "_g" + Decimal(id);
        }
      }
      usedMangled := usedMangled + {mang};
      bindMangled := bindMangled + [Binding(orig, mang)];
    }

    method ImplicitGlobalBinding(name: string) returns (bid: nat)
      modifies this
      ensures (View(), bid) == ImplicitGlobal(opt, old(View()), name)
      ensures i == old(i) && waived == old(waived)
    {
      if name in implicitGlobals {
        return implicitGlobals[name];
      }
      bid := MakeBinding(name);
      implicitGlobals := implicitGlobals[name := bid];
    }

    method BidForHoistedDecl(name: string) returns (bid: nat)
      modifies this
      ensures (View(), bid) == BidForHoisted(opt, old(View()), name)
      ensures i == old(i) && waived == old(waived)
    {
      if curEnv == 0 && name in implicitGlobals {
        return implicitGlobals[name];
      }
      bid := MakeBinding(name);
    }

    /** Walk the environments from the innermost outwards, each block stack from its top. */
    method Lookup(name: string) returns (r: Option<nat>)
      requires WellFormed(View())
      ensures r == JsScope.Lookup(View(), name)
    {
      var e: Option<nat> := Some(curEnv);
      while e.Some?
        invariant e.Some? ==> e.value < |envs|
        invariant JsScope.Lookup(View(), name) == if e.Some? then LookupFrom(envs, e.value, name) else None
        decreases if e.Some? then e.value + 1 else 0
      {
        var env := envs[e.value];
        assert EnvOk(env, e.value, |bindMangled|);
        var k := |env.blocks|;
        assert env.blocks[..k] == env.blocks;
        while k > 0
          invariant k <= |env.blocks|
          invariant LookupBlocks(env.blocks, name) == LookupBlocks(env.blocks[..k], name)
        {
          k := k - 1;
          assert env.blocks[..k + 1][..k] == env.blocks[..k];
          if name in env.blocks[k] {
            return Some(env.blocks[k][name]);
          }
        }
        if name in env.hoisted {
          return Some(env.hoisted[name]);
        }
        e := env.parent;
      }
      return None;
    }

    method RecordSpan(a: nat, b: nat, mang: string)
      modifies this`spans
      ensures View() == Record(old(View()), a, b, mang)
    {
      if a < b {
        spans := spans + [Rename(a, b, mang)];
      }
    }

    method DeclareHoisted(name: string, a: nat, b: nat)
      requires WellFormed(View())
      modifies this
      ensures View() == JsScope.DeclareHoisted(opt, old(View()), name, a, b)
      ensures i == old(i) && waived == old(waived)
    {
      if name == "" || name[0] == '_' || name in opt.reserved {
        return;
      }
      DeclareVarName(name, a, b);
    }

    /** The declaration step shared by var lists and hoisted names. */
    method DeclareVarName(name: string, a: nat, b: nat)
      requires WellFormed(View())
      modifies this
      ensures View() == DeclareVar(opt, old(View()), name, a, b)
      ensures i == old(i) && waived == old(waived)
    {
      assert EnvOk(envs[curEnv], curEnv, |bindMangled|);
      if name in envs[curEnv].hoisted {
        RecordSpan(a, b, bindMangled[envs[curEnv].hoisted[name]].mangled);
      } else {
        var bid := BidForHoistedDecl(name);
        envs := envs[curEnv := envs[curEnv].(hoisted := envs[curEnv].hoisted[name := bid])];
        if curEnv != 0 {
          locals := locals + {name};
        }
        RecordSpan(a, b, bindMangled[bid].mangled);
      }
    }

    method DeclareLet(name: string, a: nat, b: nat)
      requires WellFormed(View())
      modifies this
      ensures View() == JsScope.DeclareLet(opt, old(View()), name, a, b)
      ensures i == old(i) && waived == old(waived)
    {
      if name == "" || name[0] == '_' || name in opt.reserved {
        return;
      }
      assert EnvOk(envs[curEnv], curEnv, |bindMangled|);
      var blocks := envs[curEnv].blocks;
      var top := |blocks| - 1;
      if name in blocks[top] {
        assert BidsBelow(blocks[top], |bindMangled|);
        locals := locals + {name};
        RecordSpan(a, b, bindMangled[blocks[top][name]].mangled);
      } else {
        var bid := MakeBinding(name);
        var bound: map<string, nat> := blocks[top][name := bid];
        envs := envs[curEnv := envs[curEnv].(blocks := blocks[top := bound])];
        locals := locals + {name};
        RecordSpan(a, b, bindMangled[bid].mangled);
      }
    }

    method ReferenceIdent(a: nat, b: nat)
      requires Good(opt, code, View()) && a <= b <= |code|
      modifies this
      ensures View() == JsScope.ReferenceIdent(opt, code, old(View()), a, b)
      ensures i == old(i) && waived == old(waived)
    {
      var name := code[a..b];
      if name == "" || name[0] == '_' || name in opt.reserved {
        return;
      }
      if IsMember(code, a) {
        return;
      }
      if IsObjectKey(code, a, b) {
        return;
      }
      var bid := Lookup(name);
      if bid.Some? {
        LookupBelow(View(), curEnv, name);
        RecordSpan(a, b, bindMangled[bid.value].mangled);
        return;
      }
      if name in opt.externs {
        RecordSpan(a, b, name);
        return;
      }
      if opt.strict {
        undefinedSyms := undefinedSyms + [name];
        RecordSpan(a, b, name);
        return;
      }
      var ig := ImplicitGlobalBinding(name);
      RecordSpan(a, b, bindMangled[ig].mangled);
    }

    /** Resolve the identifiers in the interpolations of a template token. */
    method ScanTemplateToken(tplA: nat, tplB: nat)
      requires Good(opt, code, View())
      requires tplA <= tplB <= |code|
      modifies this
      ensures View() == ReferenceAll(opt, code, old(View()), TemplateSpans(code, tplA, tplB))
      ensures Good(opt, code, View())
      ensures i == old(i) && waived == old(waived)
      decreases tplB - tplA, 1, 0
    {
      hide *;
      TemplateSpansStart(code, tplA, tplB);
      NothingToReference(opt, code, View(), 0, 0, 0, 0);
      if tplA >= tplB || code[tplA] != '`' {
        return;
      }
      var j := tplA + 1;
      ghost var goal := ReferenceAll(opt, code, View(), TemplateSpans(code, tplA, tplB));
      while j < tplB
        invariant tplA < j
        invariant i == old(i) && waived == old(waived) && Good(opt, code, View())
        invariant goal == ReferenceAll(opt, code, View(), InterpSpans(code, j, tplB))
        decreases tplB - j
      {
        InterpSpansStep(opt, code, j, tplB, View());
        NothingToReference(opt, code, View(), 0, 0, 0, 0);
        if code[j] == '\\' && j + 1 < tplB {
          j := j + 2;
        } else if code[j] == '`' {
          return;
        } else if code[j] == '$' && At(code, j + 1, '{') {
          var inner := j + 2;
          var close := TemplateInterpolationClose(code, inner);
          if close.None? || close.value > tplB {
            return;
          }
          var sub := LexAll(code[inner..close.value]);
          ScanTokens(inner, close.value, sub);
          j := close.value + 1;
        } else {
          j := j + 1;
        }
      }
      NothingToReference(opt, code, View(), j, tplB, 0, 0);
    }

    method ScanTokens(inner: nat, close: nat, sub: seq<Tok>)
      requires Good(opt, code, View())
      requires inner <= close <= |code| && TokensOk(code[inner..close], sub, 0)
      modifies this
      ensures View() == ReferenceAll(opt, code, old(View()), SubSpans(code, inner, close, sub))
      ensures Good(opt, code, View())
      ensures i == old(i) && waived == old(waived)
      decreases close - inner, 2, 0
    {
      hide *;
      var k := 0;
      ghost var goal := ReferenceAll(opt, code, View(), SubSpans(code, inner, close, sub));
      assert sub[0..] == sub;
      while k < |sub|
        invariant k <= |sub|
        invariant i == old(i) && waived == old(waived) && Good(opt, code, View())
        invariant goal == ReferenceAll(opt, code, View(), SubSpans(code, inner, close, sub[k..]))
      {
        var tt := sub[k];
        SubSpansStep(opt, code, inner, close, sub, k, View());
        if tt.kind == Ident {
          ReferenceGood(opt, code, View(), inner + tt.a, inner + tt.b);
          ReferenceIdent(inner + tt.a, inner + tt.b);
        } else if tt.kind == Tpl {
          ScanTemplateToken(inner + tt.a, inner + tt.b);
        }
        k := k + 1;
      }
      assert sub[k..] == [];
      NothingToReference(opt, code, View(), 0, 0, inner, close);
    }

    // ----- the token cursor ---------------------------------------------------------------------

    predicate AtEof()
      requires i < |toks|
      reads this
    {
      toks[i].kind == Eof
    }

    /** The punctuator under the cursor, or NUL. */
    function PunChar(): char
      requires i < |toks|
      reads this
    {
      if toks[i].kind == Pun && toks[i].a < |code| then code[toks[i].a] else '\0'
    }

    function PeekIdent(): string
      requires i < |toks|
      reads this
    {
      if toks[i].kind == Ident && toks[i].a <= toks[i].b <= |code| then code[toks[i].a..toks[i].b] else ""
    }

    lemma PunctHere(c: char)
      requires i < |toks| && c != '\0'
      ensures PunChar() == c <==> Punct(code, toks, i, c)
    {
    }

    method TryPunct(c: char) returns (b: bool)
      requires Valid() && i < |toks| && c != '\0'
      modifies this`i
      ensures Valid() && i < |toks|
      ensures b == old(PunChar() == c) && i == if b then old(i) + 1 else old(i)
      ensures if b then Punct(code, toks, i - 1, c) else !Punct(code, toks, i, c)
      ensures c != '}' ==> Moved(code, toks, old(Here()), Here())
    {
      hide StateOk, TokensOk, Good, WellFormed, Grows, WaivesTemplates, Moved;
      StateFacts(opt, code, toks, i, View(), waived);
      MovedStep(code, toks, i, View(), View());
      b := PunChar() == c;
      if b {
        AdvancePlain(opt, code, toks, i, View(), waived, waived);
        i := i + 1;
      }
      StateFacts(opt, code, toks, i, View(), waived);
    }

    method MatchKeyword(kw: string) returns (b: bool)
      requires Valid() && i < |toks| && kw in Keywords && kw != ""
      modifies this`i
      ensures Valid() && i < |toks|
      ensures b == old(PeekIdent() == kw) && i == if b then old(i) + 1 else old(i)
      ensures b ==> Word(code, toks, i - 1, kw)
      ensures Moved(code, toks, old(Here()), Here())
    {
      hide StateOk, TokensOk, Good, WellFormed, Grows, WaivesTemplates, Moved;
      StateFacts(opt, code, toks, i, View(), waived);
      MovedStep(code, toks, i, View(), View());
      b := PeekIdent() == kw;
      if b {
        AdvancePlain(opt, code, toks, i, View(), waived, waived);
        i := i + 1;
      }
      StateFacts(opt, code, toks, i, View(), waived);
    }

    // ----- skipping -----------------------------------------------------------------------------

    /** Resolve what the token under the cursor holds (an identifier, a template, or nothing) and step past it. */
    method ResolveToken()
      requires Valid() && i < |toks| && toks[i].kind != Eof && toks[i].kind != Pun
      modifies this
      ensures Valid() && i == old(i) + 1 < |toks| && waived == old(waived)
      ensures Grows(old(View()), View()) && envs == old(envs)
    {
      hide StateOk, Grows, TokensOk, ReferenceAll, TemplateSpans, JsScope.ReferenceIdent, Good, WellFormed;
      StateFacts(opt, code, toks, i, View(), waived);
      var t := toks[i];
      if t.kind == Ident {
        AdvanceReference(opt, code, toks, i, View(), waived);
        ReferenceIdent(t.a, t.b);
      } else if t.kind == Tpl {
        AdvanceTemplate(opt, code, toks, i, View(), waived);
        ScanTemplateToken(t.a, t.b);
      } else {
        AdvancePlain(opt, code, toks, i, View(), waived, waived);
      }
      i := i + 1;
      StateFacts(opt, code, toks, i, View(), waived);
    }

    /** Step past a punctuator. */
    method StepPunct() returns (c: char)
      requires Valid() && i < |toks| && toks[i].kind == Pun
      modifies this`i
      ensures Valid() && i == old(i) + 1 < |toks|
      ensures c == old(PunChar()) && toks[old(i)].a < |code| && c == code[toks[old(i)].a]
    {
      hide StateOk, TokensOk, Good, WellFormed;
      StateFacts(opt, code, toks, i, View(), waived);
      AdvancePlain(opt, code, toks, i, View(), waived, waived);
      c := code[toks[i].a];
      i := i + 1;
      StateFacts(opt, code, toks, i, View(), waived);
    }

    /** Skip a balanced group, if one starts here. */
    method SkipBalanced(open: char, close: char)
      requires Valid() && i < |toks| && open != '\0' && close != '\0'
      modifies this
      ensures Valid() && i == Balanced(code, toks, old(i), open, close) < |toks| && waived == old(waived)
      ensures Grows(old(View()), View()) && envs == old(envs)
    {
      hide StateOk, Grows, TokensOk, Good, WellFormed, Moved, Punct, BalancedEnd;
      StateFacts(opt, code, toks, i, View(), waived);
      var d := 0;
      BalancedStep(code, toks, i, open, close, 0);
      var opens := TryPunct(open);
      if opens {
        d := 1;
      }
      while !AtEof() && d > 0
        invariant Valid() && old(i) <= i < |toks| && waived == old(waived) && d >= 0
        invariant Grows(old(View()), View()) && envs == old(envs)
        invariant BalancedEnd(code, toks, i, open, close, d) == Balanced(code, toks, old(i), open, close)
        decreases |toks| - i
      {
        BalancedStep(code, toks, i, open, close, d);
        PunctHere(open);
        PunctHere(close);
        if toks[i].kind == Pun {
          var c := StepPunct();
          if c == open {
            d := d + 1;
          } else if c == close {
            d := d - 1;
          }
          if d == 0 {
            break;
          }
        } else {
          ghost var s := View();
          ResolveToken();
          GrowsTransitive(old(View()), s, View());
        }
      }
      BalancedStep(code, toks, i, open, close, d);
    }

    /** Open brackets of the three kinds after one more punctuator; a closing one that opens nothing counts only as
        a brace. */
    method CountBracket(ch: char, p: nat, b: nat, c: nat) returns (p1: nat, b1: nat, c1: nat)
      requires !(ch == '}' && c == 0)
      ensures (p1, b1, c1) == Counted(ch, p, b, c)
    {
      p1, b1, c1 := p, b, c;
      if ch == '(' {
        p1 := p + 1;
      } else if ch == ')' {
        if p > 0 {
          p1 := p - 1;
        }
      } else if ch == '[' {
        b1 := b + 1;
      } else if ch == ']' {
        if b > 0 {
          b1 := b - 1;
        }
      } else if ch == '{' {
        c1 := c + 1;
      } else if ch == '}' {
        c1 := c - 1;
      }
    }

    lemma LevelCounts(k: nat, p: nat, b: nat, c: nat)
      requires k <= i < |toks| && toks[i].kind == Pun && toks[i].a < |code| && Level(code, toks, k, i, c)
      requires !(code[toks[i].a] == '}' && c == 0)
      ensures Level(code, toks, k, i + 1, Counted(code[toks[i].a], p, b, c).2)
    {
      hide Level;
      LevelStep(code, toks, k, i, c);
    }

    /** One punctuator of the skip below; `done` when the skip ends with it or before it. */
    method SkipPunct(ghost from: nat, term: char, p: nat, b: nat, c: nat, expecting: bool)
        returns (done: bool, p1: nat, b1: nat, c1: nat, expectCallCloseAfterBlock: bool)
      requires Valid() && i < |toks| && toks[i].kind == Pun && from <= i && Level(code, toks, from, i, c)
      modifies this`i
      ensures Valid() && i < |toks| && i == (if old(PunChar() == '}') && c == 0 then old(i) else old(i) + 1)
      ensures Level(code, toks, from, i, c1) && (i == old(i) ==> done)
      ensures TerminalEnd(code, toks, old(i), term, p, b, c, expecting)
           == if done then i else TerminalEnd(code, toks, i, term, p1, b1, c1, expectCallCloseAfterBlock)
    {
      hide StateOk, Grows, TokensOk, Good, WellFormed, Level, TerminalEnd, Punct, Counted;
      TerminalStep(code, toks, i, term, p, b, c, expecting);
      StateFacts(opt, code, toks, i, View(), waived);
      if PunChar() == '}' && c == 0 {
        return true, p, b, c, false;
      }
      LevelCounts(from, p, b, c);
      var ch := StepPunct();
      expectCallCloseAfterBlock := ch == '}' && c == 1 && p > 0;
      p1, b1, c1 := CountBracket(ch, p, b, c);
      if ch == ')' && expecting && p1 <= 0 && b1 <= 0 && c1 <= 0 {
        PunctHere('(');
        done := PunChar() != '(';
      } else {
        done := p1 <= 0 && b1 <= 0 && c1 <= 0 && ch == term;
      }
    }

    /** Skip past `term` outside brackets; stop before a closing brace that was not opened here. */
    method SkipUntilTerminal(term: char)
      requires Valid() && i < |toks|
      modifies this
      ensures Valid() && i == SkipTo(code, toks, old(i), term) < |toks| && waived == old(waived)
      ensures Moved(code, toks, old(Here()), Here()) && envs == old(envs)
      ensures old(toks[i].kind != Eof && PunChar() != '}') ==> i > old(i)
    {
      hide StateOk, Grows, TokensOk, Good, WellFormed, Level, Steady, TerminalEnd, Punct;
      StateFacts(opt, code, toks, i, View(), waived);
      var p: nat, b: nat, c: nat := 0, 0, 0;
      var expectCallCloseAfterBlock := false;
      LevelStarts(code, toks, i);
      while !AtEof()
        invariant Valid() && old(i) <= i < |toks| && waived == old(waived)
        invariant Grows(old(View()), View()) && envs == old(envs)
        invariant Level(code, toks, old(i), i, c) && (i == old(i) ==> c == 0)
        invariant TerminalEnd(code, toks, i, term, p, b, c, expectCallCloseAfterBlock) == SkipTo(code, toks, old(i), term)
        decreases |toks| - i
      {
        if toks[i].kind != Pun {
          TerminalStep(code, toks, i, term, p, b, c, expectCallCloseAfterBlock);
          LevelStep(code, toks, old(i), i, c);
          NotPunct(code, toks, i);
          expectCallCloseAfterBlock := false;
          ghost var s := View();
          ResolveToken();
          GrowsTransitive(old(View()), s, View());
        } else {
          var done;
          done, p, b, c, expectCallCloseAfterBlock := SkipPunct(old(i), term, p, b, c, expectCallCloseAfterBlock);
          if done {
            LevelSteady(code, toks, old(i), i, c);
            return;
          }
        }
      }
      TerminalStep(code, toks, i, term, p, b, c, expectCallCloseAfterBlock);
      LevelSteady(code, toks, old(i), i, c);
    }

    // ----- declaration lists --------------------------------------------------------------------

    method DeclareVarAtCursor()
      requires Valid() && i < |toks| && toks[i].kind == Ident
      requires HoistSite(code, toks, i) && Nested(code, toks, i, View())
      modifies this
      ensures Valid() && i == old(i) + 1 < |toks| && waived == old(waived)
      ensures Moved(code, toks, old(Here()), Here())
      ensures old(WellFormed(View()) && toks[i].a <= toks[i].b <= |code|)
      ensures View() == DeclareVar(opt, old(View()), old(code[toks[i].a..toks[i].b]), old(toks[i].a), old(toks[i].b))
    {
      hide StateOk, Grows, TokensOk, Good, HoistConsistent, DeclareVar, HoistSite, Moved, Nested;
      var t := toks[i];
      AdvanceVar(opt, code, toks, i, View(), waived);
      MovedStep(code, toks, i, View(), DeclareVar(opt, View(), code[t.a..t.b], t.a, t.b));
      i := i + 1;
      DeclareVarName(code[t.a..t.b], t.a, t.b);
      StateFacts(opt, code, toks, i, View(), waived);
    }

    method DeclareLetAtCursor()
      requires Valid() && i < |toks| && toks[i].kind == Ident && BlockSite(code, toks, i)
      modifies this
      ensures Valid() && i == old(i) + 1 < |toks| && waived == old(waived)
      ensures Moved(code, toks, old(Here()), Here())
      ensures old(WellFormed(View()) && toks[i].a <= toks[i].b <= |code|)
      ensures View() == JsScope.DeclareLet(opt, old(View()), old(code[toks[i].a..toks[i].b]), old(toks[i].a), old(toks[i].b))
    {
      hide StateOk, Grows, TokensOk, Good, HoistConsistent, JsScope.DeclareLet, BlockSite, Moved;
      var t := toks[i];
      AdvanceLet(opt, code, toks, i, View(), waived);
      MovedStep(code, toks, i, View(), JsScope.DeclareLet(opt, View(), code[t.a..t.b], t.a, t.b));
      DeclareLet(code[t.a..t.b], t.a, t.b);
      i := i + 1;
      StateFacts(opt, code, toks, i, View(), waived);
    }

    method DeclareHoistedAtCursor()
      requires Valid() && i < |toks| && toks[i].kind == Ident
      requires HoistSite(code, toks, i) && Nested(code, toks, i, View())
      modifies this
      ensures Valid() && i == old(i) + 1 < |toks| && waived == old(waived)
      ensures Moved(code, toks, old(Here()), Here()) && OnlyHoists(old(View()), View(), old(PeekIdent()))
      ensures old(WellFormed(View()) && toks[i].a <= toks[i].b <= |code|)
      ensures View() == JsScope.DeclareHoisted(opt, old(View()), old(code[toks[i].a..toks[i].b]), old(toks[i].a), old(toks[i].b))
    {
      hide StateOk, Grows, TokensOk, Good, HoistConsistent, JsScope.DeclareHoisted, OnlyHoists, HoistSite, Moved, Nested;
      var t := toks[i];
      AdvanceHoisted(opt, code, toks, i, View(), waived);
      DeclareHoistedOnlyHoists(opt, View(), code[t.a..t.b], t.a, t.b);
      MovedStep(code, toks, i, View(), JsScope.DeclareHoisted(opt, View(), code[t.a..t.b], t.a, t.b));
      DeclareHoisted(code[t.a..t.b], t.a, t.b);
      i := i + 1;
      StateFacts(opt, code, toks, i, View(), waived);
    }

    method ParseVarList()
      requires Valid() && 0 < i < |toks| && Word(code, toks, i - 1, "var") && Nested(code, toks, i, View())
      modifies this
      ensures Valid() && old(i) <= i < |toks| && WaivesTemplates(code, toks, old(waived), waived)
      ensures Moved(code, toks, old(Here()), Here())
      ensures curEnv == old(curEnv) < |envs| && ListHoisted(code, toks, old(i) - 1, old(i), i, envs[curEnv])
    {
      hide StateOk, Grows, TokensOk, Good, WellFormed, DeclareVar, WaivesTemplates, ListOpen, Word, Punct, HoistSite,
           BlockSite, Moved, Nested, ListHoisted, NameAt, TextAt, InList;
      StateFacts(opt, code, toks, i, View(), waived);
      ghost var start, j: nat := Here(), i - 1;
      ListStarts(code, toks, j);
      NoneYet(opt, code, toks, j, i, envs[curEnv]);
      while !AtEof()
        invariant Valid() && old(i) <= i < |toks| && WaivesTemplates(code, toks, old(waived), waived)
        invariant Moved(code, toks, start, Here()) && ListOpen(code, toks, j, i)
        invariant curEnv == old(curEnv) < |envs| && ListHoisted(code, toks, j, old(i), i, envs[curEnv])
        decreases |toks| - i
      {
        if toks[i].kind != Ident {
          ghost var w := waived;
          NotAName(code, toks, i);
          NoNameMore(opt, code, toks, j, old(i), i, envs[curEnv]);
          SkipUnnamed(start, j);
          WaivesTransitive(code, toks, old(waived), w, waived);
          if PunChar() == ';' || PunChar() == ')' {
            return;
          }
          PunctHere(';');
          PunctHere(')');
          ListSkips(code, toks, j, i - 1);
          continue;
        }
        ghost var s := Here();
        ListSites(code, toks, j, i);
        MovedNested(code, toks, start, s);
        DeclareVarAtCursor();
        MovedTransitive(code, toks, start, s, Here());
        VarAtCursor(opt, code, toks, s.at, s.scope);
        ghost var e := envs[curEnv];
        var more := SkipInitializer(start);
        HoistedMore(code, toks, j, old(i), s.at, i, s.scope.envs[s.scope.cur], e);
        if !more {
          return;
        }
        ListGoesOn(code, toks, j, i - 2);
      }
    }

    method ParseLetList()
      requires Valid() && 0 < i < |toks| && (Word(code, toks, i - 1, "let") || Word(code, toks, i - 1, "const"))
      modifies this
      ensures Valid() && old(i) <= i < |toks| && WaivesTemplates(code, toks, old(waived), waived)
      ensures Moved(code, toks, old(Here()), Here())
      ensures curEnv == old(curEnv) < |envs| && ListBound(opt, code, toks, old(i) - 1, old(i), i, envs[curEnv])
    {
      hide StateOk, Grows, TokensOk, Good, WellFormed, JsScope.DeclareLet, WaivesTemplates, ListOpen, Word, Punct,
           HoistSite, BlockSite, Moved, ListBound, NameAt, TextAt, InList, Innermost;
      StateFacts(opt, code, toks, i, View(), waived);
      ghost var start, j: nat := Here(), i - 1;
      ListStarts(code, toks, j);
      NoneYet(opt, code, toks, j, i, envs[curEnv]);
      while !AtEof()
        invariant Valid() && old(i) <= i < |toks| && WaivesTemplates(code, toks, old(waived), waived)
        invariant Moved(code, toks, start, Here()) && ListOpen(code, toks, j, i)
        invariant curEnv == old(curEnv) < |envs| && ListBound(opt, code, toks, j, old(i), i, envs[curEnv])
        decreases |toks| - i
      {
        if toks[i].kind != Ident {
          ghost var w := waived;
          NotAName(code, toks, i);
          NoNameMore(opt, code, toks, j, old(i), i, envs[curEnv]);
          SkipUnnamed(start, j);
          WaivesTransitive(code, toks, old(waived), w, waived);
          if PunChar() == ';' || PunChar() == ')' {
            return;
          }
          PunctHere(';');
          PunctHere(')');
          ListSkips(code, toks, j, i - 1);
          continue;
        }
        ghost var s := Here();
        StateFacts(opt, code, toks, i, View(), waived);
        ListSites(code, toks, j, i);
        DeclareLetAtCursor();
        MovedTransitive(code, toks, start, s, Here());
        LetAtCursor(opt, code, toks, s.at, s.scope);
        ghost var e := envs[curEnv];
        var more := SkipInitializer(start);
        BoundMore(opt, code, toks, j, old(i), s.at, i, s.scope.envs[s.scope.cur], e);
        if !more {
          return;
        }
        ListGoesOn(code, toks, j, i - 2);
      }
    }

    /** After a declared name: its initializer, which ends the list, or the comma after which the list goes on. */
    method SkipInitializer(ghost start: Place) returns (more: bool)
      requires Valid() && i < |toks| && Moved(code, toks, start, Here())
      modifies this
      ensures Valid() && old(i) <= i < |toks| && waived == old(waived)
      ensures Moved(code, toks, start, Here())
      ensures more ==> i == old(i) + 1 && Punct(code, toks, old(i), ',')
      ensures !more ==> i == old(i) || !Punct(code, toks, old(i), ',')
      ensures envs == old(envs) && curEnv == old(curEnv)
    {
      hide StateOk, Moved, Punct, Grows;
      CommaIsNoName(code, toks, i);
      ghost var s := Here();
      more := false;
      var hasInit := TryPunct('=');
      if hasInit {
        ghost var u := Here();
        SkipUntilTerminal(';');
        MovedTransitive(code, toks, s, u, Here());
      } else {
        more := TryPunct(',');
      }
      MovedTransitive(code, toks, start, s, Here());
      MovedIs(code, toks, s, Here());
      GrowsFacts(s.scope, Here().scope);
    }

    /** In a declaration list, step past a token that is not a name; a template there is not scanned. */
    method SkipUnnamed(ghost start: Place, ghost j: nat)
      requires Valid() && i < |toks| && toks[i].kind != Eof && toks[i].kind != Ident
      requires DeclarationWord(code, toks, j) && ListOpen(code, toks, j, i)
      requires start.at == j + 1 && Moved(code, toks, start, Here())
      modifies this`i, this`waived
      ensures Valid() && i == old(i) + 1 < |toks| && WaivesTemplates(code, toks, old(waived), waived)
      ensures Moved(code, toks, start, Here())
    {
      hide StateOk, TokensOk, Good, WellFormed, Grows, Steady, InList, DeclarationWord;
      assert Listed(code, toks, i);
      AdvanceWaived(opt, code, toks, i, View(), waived);
      SteadyList(code, toks, j, i);
      waived := if toks[i].kind == Tpl then waived + {i} else waived;
      i := i + 1;
      StateFacts(opt, code, toks, i, View(), waived);
    }

    // ----- blocks and functions -----------------------------------------------------------------

    method EnterBlock()
      requires Valid()
      modifies this`envs
      ensures Valid() && old(View()).cur < |old(View()).envs| && View() == JsScope.EnterBlock(old(View()))
    {
      hide StateOk, Good, HoistConsistent;
      BlockEntered(opt, code, toks, i, View(), waived);
      var e := envs[curEnv];
      var blocks: seq<map<string, nat>> := if e.blocks == [] then [map[]] else e.blocks;
      envs := envs[curEnv := e.(blocks := blocks + [map[]])];
    }

    method ExitBlock()
      requires curEnv < |envs|
      modifies this`envs
      ensures View() == JsScope.ExitBlock(old(View()))
    {
      var blocks := envs[curEnv].blocks;
      if |blocks| > 1 {
        envs := envs[curEnv := envs[curEnv].(blocks := blocks[..|blocks| - 1])];
      }
    }

    method ParseStatementListUntilRBrace()
      requires Valid() && i < |toks| && Nested(code, toks, i, View())
      modifies this
      ensures Valid() && old(i) <= i < |toks| && WaivesTemplates(code, toks, old(waived), waived)
      ensures Moved(code, toks, old(Here()), Here()) && (AtEof() || PunChar() == '}')
      decreases |toks| - i, 2
    {
      hide StateOk, Grows, TokensOk, Good, WellFormed, WaivesTemplates, Word, Punct, Moved, Nested;
      StateFacts(opt, code, toks, i, View(), waived);
      ghost var start := Here();
      while !AtEof()
        invariant Valid() && old(i) <= i < |toks| && WaivesTemplates(code, toks, old(waived), waived)
        invariant Moved(code, toks, start, Here())
        decreases |toks| - i
      {
        if PunChar() == '}' {
          return;
        }
        ghost var s, w := Here(), waived;
        MovedNested(code, toks, start, s);
        ParseStatement();
        MovedTransitive(code, toks, start, s, Here());
        WaivesTransitive(code, toks, old(waived), w, waived);
      }
    }

    /** What stands in a block of its own: statements up to a closing brace, which is taken. */
    method ParseInBlock()
      requires Valid() && i < |toks| && Nested(code, toks, i, View())
      modifies this
      ensures Valid() && old(i) <= i < |toks| && WaivesTemplates(code, toks, old(waived), waived)
      ensures Grows(old(View()), View())
      ensures InBlockTo(code, toks, old(i), i) && (AtEof() || (i > 0 && Punct(code, toks, i - 1, '}')))
      decreases |toks| - i, 3
    {
      hide StateOk, Grows, TokensOk, Good, WellFormed, WaivesTemplates, Word, Punct, Steady;
      ParseStatementListUntilRBrace();
      var isClosed := TryPunct('}');
    }

    /** The block of a try or finally leaves the block stack of its environment exactly as it found it. */
    method ParseBlock()
      requires Valid() && 0 < i < |toks| && Nested(code, toks, i, View())
      requires Word(code, toks, i - 1, "try") || (Word(code, toks, i - 1, "finally") && Punct(code, toks, i - 2, '}'))
      modifies this
      ensures Valid() && old(i) <= i < |toks| && WaivesTemplates(code, toks, old(waived), waived)
      ensures Grows(old(View()), View()) && Steady(code, toks, old(i) - 1, i)
      ensures AtEof() || (i > 0 && Punct(code, toks, i - 1, '}'))
      ensures curEnv == old(curEnv) < |old(envs)| <= |envs| && envs[curEnv].blocks == old(envs)[curEnv].blocks
      decreases |toks| - i, 4
    {
      hide StateOk, Grows, TokensOk, Good, WellFormed, WaivesTemplates, JsScope.EnterBlock, JsScope.ExitBlock, Word, Punct,
           Moved, Nested, Steady;
      ghost var start, s := Here(), View();
      var isOpen := TryPunct('{');
      ghost var i1 := i;
      StateFacts(opt, code, toks, i, View(), waived);
      MovedNestedBlock(code, toks, start, Here());
      EnterBlock();
      ParseInBlock();
      BlockLeft(opt, code, toks, i1, s, View(), old(waived), waived, i);
      ExitBlock();
      GrowsFacts(s, View());
      BlockAfterKeyword(code, toks, start.at - 1, isOpen, i);
    }

    /** A function leaves every enclosing environment untouched, its own name aside. */
    method ParseFunctionAfterKeyword()
      requires Valid() && 0 < i < |toks| && Word(code, toks, i - 1, "function") && Nested(code, toks, i, View())
      modifies this
      ensures Valid() && old(i) <= i < |toks| && WaivesTemplates(code, toks, old(waived), waived)
      ensures Moved(code, toks, old(Here()), Here()) && OnlyHoists(old(View()), View(), old(PeekIdent()))
      ensures old(toks[i].kind == Ident) && !Skipped(opt, old(PeekIdent()))
              ==> old(curEnv) < |envs| && old(PeekIdent()) in envs[old(curEnv)].hoisted
      decreases |toks| - i, 4
    {
      hide StateOk, Grows, TokensOk, Good, WellFormed, WaivesTemplates, OnlyHoists, JsScope.DeclareHoisted, Moved, Nested;
      ghost var name, start := PeekIdent(), Here();
      StateFacts(opt, code, toks, i, View(), waived);
      OnlyHoistsReflexive(View(), View(), name);
      if toks[i].kind == Ident {
        ghost var t, before := toks[i], View();
        DeclareHoistedAtCursor();
        if !Skipped(opt, name) {
          HoistedNames(opt, before, name, t.a, t.b);
        }
      }
      ghost var s := Here();
      ParseFunctionRest(start.at - 1);
      assert old(curEnv) < |s.scope.envs| ==> envs[old(curEnv)] == envs[..|s.scope.envs|][old(curEnv)] == s.scope.envs[old(curEnv)];
      MovedTransitive(code, toks, start, s, Here());
      OnlyHoistsExtended(old(View()), s.scope, View(), name);
    }

    /** Parameters and body, in an environment of their own: the enclosing environments stay as they are. */
    method ParseFunctionRest(ghost j: nat)
      requires Valid() && i < |toks| && Word(code, toks, j, "function")
      requires i == if IsName(toks, j + 1) then j + 2 else j + 1
      modifies this
      ensures Valid() && old(i) <= i < |toks| && WaivesTemplates(code, toks, old(waived), waived)
      ensures Moved(code, toks, old(Here()), Here())
      ensures |old(envs)| <= |envs| && envs[..|old(envs)|] == old(envs)
      decreases |toks| - i, 3
    {
      hide StateOk, Grows, TokensOk, Good, WellFormed, WaivesTemplates, EnterFunction, LeaveFunction, Word, Punct,
           Moved, Steady, BodyStart, InBody;
      StateFacts(opt, code, toks, i, View(), waived);
      ghost var start := Here();
      var star := TryPunct('*');
      ghost var w, s := waived, Here();
      var params := ParseParams(j);
      MovedTransitive(code, toks, start, s, Here());
      ghost var outer := Here();
      FunctionEntered(opt, code, toks, i, outer.scope, waived);
      var saved := curEnv;
      EnterFunctionEnv();
      MovedIs(code, toks, start, outer);
      ghost var i1, w1, entered := i, waived, View();
      DeclareParams(params, w);
      ghost var declared := View();
      var body := ParseBody(j);
      GrowsTransitive(entered, declared, View());
      FunctionLeft(opt, code, toks, i1, outer.scope, View(), w1, waived, i);
      LeaveFunctionEnv(saved);
      MovedIs(code, toks, outer, Here());
      MovedTransitive(code, toks, start, outer, Here());
    }

    /** The body of the function whose keyword is token j, if it has one. */
    method ParseBody(ghost j: nat) returns (body: bool)
      requires Valid() && i < |toks| && Word(code, toks, j, "function") && i == BodyStart(code, toks, j)
      modifies this
      ensures Valid() && old(i) <= i < |toks| && WaivesTemplates(code, toks, old(waived), waived)
      ensures Grows(old(View()), View()) && Steady(code, toks, old(i), i)
      decreases |toks| - i, 2
    {
      hide StateOk, Grows, TokensOk, Good, WellFormed, WaivesTemplates, Word, Punct, Moved, Steady, BodyStart, InBody;
      StateFacts(opt, code, toks, i, View(), waived);
      SteadyHere(code, toks, i);
      ghost var b := i;
      body := TryPunct('{');
      if body {
        BodyEntered(code, toks, j);
        ParseInBlock();
        OpenBlock(code, toks, b, i);
      }
    }

    method EnterFunctionEnv()
      modifies this`envs, this`curEnv
      ensures View() == EnterFunction(old(View()))
    {
      var ne := |envs|;
      envs := envs + [Env(Some(curEnv), map[], [map[]])];
      curEnv := ne;
    }

    method LeaveFunctionEnv(saved: nat)
      modifies this`curEnv
      ensures View() == LeaveFunction(old(View()), saved) && envs == old(envs)
    {
      curEnv := saved;
    }

    method PassParameter()
      requires Valid() && i < |toks| && toks[i].kind == Ident
      modifies this`i, this`waived
      ensures Valid() && i == old(i) + 1 < |toks| && waived == old(waived) + {old(i)}
      ensures Moved(code, toks, old(Here()), Here())
    {
      hide StateOk, TokensOk, Good, WellFormed, Moved;
      StateFacts(opt, code, toks, i, View(), waived);
      MovedStep(code, toks, i, View(), View());
      AdvancePlain(opt, code, toks, i, View(), waived, waived + {i});
      waived := waived + {i};
      i := i + 1;
      StateFacts(opt, code, toks, i, View(), waived);
    }

    /** One parameter, or something in parentheses, and its default value. */
    method ParseParameter(before: seq<nat>, ghost j: nat, ghost w: set<nat>) returns (params: seq<nat>)
      requires Valid() && i < |toks| && ParameterOf(code, toks, j, i)
      requires AllParameters(code, toks, before) && waived == w + Elements(before)
      modifies this
      ensures Valid() && i == ParameterEnd(code, toks, old(i)) < |toks|
      ensures Moved(code, toks, old(Here()), Here()) && envs == old(envs)
      ensures AllParameters(code, toks, params) && waived == w + Elements(params)
    {
      hide StateOk, Grows, TokensOk, Good, WellFormed, ParameterOf, Word, AllParameters, Elements, Moved, Steady, Balanced;
      params := before;
      ghost var start := Here();
      StateFacts(opt, code, toks, i, View(), waived);
      if toks[i].kind == Ident {
        OneMoreParameter(code, toks, params, j, i);
        params := params + [i];
        PassParameter();
      } else {
        ParenthesisAstray(code, toks, j, i);
        SkipBalanced('(', ')');
        MovedIs(code, toks, start, Here());
      }
      ghost var s := Here();
      var default := TryPunct('=');
      MovedTransitive(code, toks, start, s, Here());
      if default {
        s := Here();
        SkipUntilTerminal(',');
        MovedTransitive(code, toks, start, s, Here());
      }
    }

    /** Parameter names are collected now and declared once the function's environment exists. */
    method ParseParams(ghost j: nat) returns (params: seq<nat>)
      requires Valid() && i < |toks| && Word(code, toks, j, "function") && i == ParametersStart(code, toks, j)
      modifies this
      ensures Valid() && i == BodyStart(code, toks, j) < |toks|
      ensures Moved(code, toks, old(Here()), Here()) && envs == old(envs)
      ensures AllParameters(code, toks, params)
      ensures waived == old(waived) + Elements(params)
    {
      hide StateOk, Grows, TokensOk, Good, WellFormed, Punct, Word, AllParameters, Elements, Moved, ParameterOf,
           ParametersEnd, ParametersStart;
      params := [];
      ghost var start := Here();
      NoParameters(code, toks);
      var isOpen := TryPunct('(');
      if isOpen {
        ghost var s := Here();
        params := ParseParameters(j);
        MovedTransitive(code, toks, start, s, Here());
        s := Here();
        var isClosed := TryPunct(')');
        MovedTransitive(code, toks, start, s, Here());
      }
    }

    /** The parameters, after the opening parenthesis. */
    method ParseParameters(ghost j: nat) returns (params: seq<nat>)
      requires Valid() && 0 < i < |toks| && Word(code, toks, j, "function")
      requires i == ParametersStart(code, toks, j) + 1 && Punct(code, toks, i - 1, '(')
      modifies this
      ensures Valid() && i == ParametersEnd(code, toks, old(i)) < |toks|
      ensures Moved(code, toks, old(Here()), Here()) && envs == old(envs)
      ensures AllParameters(code, toks, params)
      ensures waived == old(waived) + Elements(params)
    {
      hide StateOk, Grows, TokensOk, Good, WellFormed, Punct, Word, AllParameters, Elements, Moved, ParameterOf,
           ParameterEnd, ParametersStart, ParametersEnd;
      params := [];
      ghost var start := Here();
      NoParameters(code, toks);
      StateFacts(opt, code, toks, i, View(), waived);
      ParameterStarts(code, toks, j);
      PunctHere(')');
      ParametersStep(code, toks, i);
      while !AtEof() && PunChar() != ')'
        invariant Valid() && old(i) <= i < |toks|
        invariant Moved(code, toks, start, Here()) && envs == old(envs)
        invariant AllParameters(code, toks, params) && waived == old(waived) + Elements(params)
        invariant More(toks, i) && !Punct(code, toks, i, ')') ==> ParameterOf(code, toks, j, i)
        invariant ParametersEnd(code, toks, i) == ParametersEnd(code, toks, old(i))
        decreases |toks| - i
      {
        ghost var s := Here();
        PunctHere(')');
        ParameterGoesOn(code, toks, j, i);
        ParametersStep(code, toks, i);
        params := ParseParameter(params, j, old(waived));
        MovedTransitive(code, toks, start, s, Here());
        s := Here();
        var comma := TryPunct(',');
        MovedTransitive(code, toks, start, s, Here());
        if !comma {
          return;
        }
      }
      PunctHere(')');
      ParametersStep(code, toks, i);
    }

    method DeclareParams(params: seq<nat>, ghost w: set<nat>)
      requires Valid() && i < |toks|
      requires AllParameters(code, toks, params)
      requires waived == w + Elements(params)
      modifies this
      ensures Valid() && i == old(i) && waived == w
      ensures Grows(old(View()), View())
    {
      hide StateOk, Grows, TokensOk, Good, WellFormed, JsScope.DeclareLet, AllParameters, LocalSite;
      StateFacts(opt, code, toks, i, View(), waived);
      var k := 0;
      assert params[0..] == params;
      while k < |params|
        invariant k <= |params| && i == old(i)
        invariant Valid() && waived == w + Elements(params[k..])
        invariant Grows(old(View()), View())
      {
        ghost var s := View();
        ghost var v := w + Elements(params[k + 1..]);
        ParameterSite(code, toks, params, k);
        var t := toks[params[k]];
        DeclareParameter(opt, code, toks, i, s, params[k], waived, v);
        DeclareLet(code[t.a..t.b], t.a, t.b);
        waived := v;
        GrowsTransitive(old(View()), s, View());
        k := k + 1;
      }
      assert params[k..] == [];
    }

    // ----- statements ---------------------------------------------------------------------------

    method ParseForHeader()
      requires Valid() && i < |toks| && Nested(code, toks, i, View())
      modifies this
      ensures Valid() && old(i) <= i < |toks| && WaivesTemplates(code, toks, old(waived), waived)
      ensures Moved(code, toks, old(Here()), Here())
    {
      hide StateOk, Grows, TokensOk, Good, WellFormed, WaivesTemplates, Word, Punct, Moved, Nested;
      StateFacts(opt, code, toks, i, View(), waived);
      ghost var start := Here();
      var paren := TryPunct('(');
      ghost var s := Here();
      MovedNested(code, toks, start, s);
      ParseForDeclaration();
      MovedTransitive(code, toks, start, s, Here());
      s := Here();
      SkipUntilTerminal(';');
      MovedTransitive(code, toks, start, s, Here());
      s := Here();
      SkipUntilTerminal(';');
      MovedTransitive(code, toks, start, s, Here());
      s := Here();
      SkipUntilTerminal(')');
      MovedTransitive(code, toks, start, s, Here());
      MovedIs(code, toks, start, Here());
    }

    /** The first part of a for header. */
    method ParseForDeclaration()
      requires Valid() && i < |toks| && Nested(code, toks, i, View())
      modifies this
      ensures Valid() && old(i) <= i < |toks| && WaivesTemplates(code, toks, old(waived), waived)
      ensures Moved(code, toks, old(Here()), Here())
    {
      hide StateOk, Grows, TokensOk, Good, WellFormed, WaivesTemplates, Word, Punct, Moved, Nested;
      StateFacts(opt, code, toks, i, View(), waived);
      ghost var start := Here();
      var isVar := MatchKeyword("var");
      ghost var s := Here();
      MovedNested(code, toks, start, s);
      if isVar {
        ParseVarList();
      } else {
        var isLet := MatchLetOrConst();
        MovedTransitive(code, toks, start, s, Here());
        s := Here();
        if isLet {
          ParseLetList();
        } else {
          SkipUntilTerminal(';');
        }
      }
      MovedTransitive(code, toks, start, s, Here());
      MovedIs(code, toks, start, Here());
    }

    method MatchLetOrConst() returns (b: bool)
      requires Valid() && i < |toks|
      modifies this`i
      ensures Valid() && i < |toks|
      ensures b == old(PeekIdent() == "let" || PeekIdent() == "const") && i == if b then old(i) + 1 else old(i)
      ensures b ==> Word(code, toks, i - 1, "let") || Word(code, toks, i - 1, "const")
      ensures Moved(code, toks, old(Here()), Here())
    {
      hide StateOk, Word, Punct, Moved;
      b := MatchKeyword("let");
      if !b {
        b := MatchKeyword("const");
      }
    }

    /** `async function`; a lone `async` is an ordinary identifier. */
    method MatchAsyncFunction() returns (b: bool)
      requires Valid() && i < |toks|
      modifies this`i
      ensures Valid() && i < |toks| && (b ==> 0 < i && Word(code, toks, i - 1, "function"))
      ensures i == if b then old(i) + 2 else old(i)
      ensures Moved(code, toks, old(Here()), Here())
    {
      hide StateOk, Word, Punct, Moved, Grows;
      StateFacts(opt, code, toks, i, View(), waived);
      ghost var start := Here();
      var save := i;
      b := MatchKeyword("async");
      if b {
        ghost var s := Here();
        b := MatchKeyword("function");
        if b {
          MovedTransitive(code, toks, start, s, Here());
        } else {
          i := save;
        }
      }
    }

    method SkipCondition()
      requires Valid() && i < |toks|
      modifies this
      ensures Valid() && old(i) <= i < |toks| && waived == old(waived)
      ensures Moved(code, toks, old(Here()), Here())
    {
      hide StateOk, Grows, Word, Punct, Moved;
      ghost var start := Here();
      var paren := TryPunct('(');
      ghost var s := Here();
      SkipUntilTerminal(')');
      MovedTransitive(code, toks, start, s, Here());
      MovedIs(code, toks, start, Here());
    }

    /** A condition and the statement that it governs. */
    method ParseGuarded()
      requires Valid() && i < |toks| && Nested(code, toks, i, View())
      modifies this
      ensures Valid() && old(i) <= i < |toks| && WaivesTemplates(code, toks, old(waived), waived)
      ensures Moved(code, toks, old(Here()), Here())
      decreases |toks| - i, 2
    {
      hide StateOk, Grows, TokensOk, Good, WellFormed, WaivesTemplates, Word, Punct, Moved, Nested;
      ghost var start := Here();
      SkipCondition();
      ghost var s := Here();
      MovedNested(code, toks, start, s);
      ParseStatement();
      MovedTransitive(code, toks, start, s, Here());
    }

    method ParseIfRest()
      requires Valid() && i < |toks| && Nested(code, toks, i, View())
      modifies this
      ensures Valid() && old(i) <= i < |toks| && WaivesTemplates(code, toks, old(waived), waived)
      ensures Moved(code, toks, old(Here()), Here())
      decreases |toks| - i, 3
    {
      hide StateOk, Grows, TokensOk, Good, WellFormed, WaivesTemplates, Word, Punct, Moved, Nested;
      ghost var start := Here();
      ParseGuarded();
      ghost var s, w := Here(), waived;
      var isElse := MatchKeyword("else");
      MovedTransitive(code, toks, start, s, Here());
      if isElse {
        s := Here();
        MovedNested(code, toks, start, s);
        ParseStatement();
        MovedTransitive(code, toks, start, s, Here());
        WaivesTransitive(code, toks, old(waived), w, waived);
      }
    }

    method ParseDoRest()
      requires Valid() && i < |toks| && Nested(code, toks, i, View())
      modifies this
      ensures Valid() && old(i) <= i < |toks| && WaivesTemplates(code, toks, old(waived), waived)
      ensures Moved(code, toks, old(Here()), Here())
      decreases |toks| - i, 3
    {
      hide StateOk, Grows, TokensOk, Good, WellFormed, WaivesTemplates, Word, Punct, Moved, Nested;
      ghost var start := Here();
      ParseStatement();
      ghost var s := Here();
      var isWhile := MatchKeyword("while");
      MovedTransitive(code, toks, start, s, Here());
      s := Here();
      SkipCondition();
      MovedTransitive(code, toks, start, s, Here());
      s := Here();
      var semi := TryPunct(';');
      MovedTransitive(code, toks, start, s, Here());
    }

    method ParseTryRest()
      requires Valid() && 0 < i < |toks| && Word(code, toks, i - 1, "try")
      requires Nested(code, toks, i - 1, View()) && Nested(code, toks, i, View())
      modifies this
      ensures Valid() && old(i) <= i < |toks| && WaivesTemplates(code, toks, old(waived), waived)
      ensures Grows(old(View()), View()) && Steady(code, toks, old(i) - 1, i)
      decreases |toks| - i, 6
    {
      hide StateOk, Grows, TokensOk, Good, WellFormed, WaivesTemplates, Word, Punct, Moved, Nested, Steady;
      ghost var start := Place(i - 1, View());
      ParseBlock();
      MovedIs(code, toks, start, Here());
      ghost var w := waived;
      ParseCatchClause(start);
      WaivesTransitive(code, toks, old(waived), w, waived);
      w := waived;
      ParseFinallyClause(start);
      WaivesTransitive(code, toks, old(waived), w, waived);
      MovedIs(code, toks, start, Here());
    }

    /** A catch clause, if there is one, after the block of a try. */
    method ParseCatchClause(ghost start: Place)
      requires Valid() && i < |toks| && (AtEof() || (i > 0 && Punct(code, toks, i - 1, '}')))
      requires Moved(code, toks, start, Here()) && Nested(code, toks, start.at, start.scope)
      modifies this
      ensures Valid() && old(i) <= i < |toks| && WaivesTemplates(code, toks, old(waived), waived)
      ensures Moved(code, toks, start, Here()) && (AtEof() || (i > 0 && Punct(code, toks, i - 1, '}')))
      decreases |toks| - i, 5
    {
      hide StateOk, Grows, TokensOk, Good, WellFormed, WaivesTemplates, Word, Punct, Moved, Nested, Steady;
      StateFacts(opt, code, toks, i, View(), waived);
      ghost var s := Here();
      var isCatch := MatchKeyword("catch");
      if isCatch {
        MovedTransitive(code, toks, start, s, Here());
        MovedNested(code, toks, start, Here());
        ParseCatch();
        MovedIs(code, toks, s, Here());
        MovedTransitive(code, toks, start, s, Here());
      }
    }

    method ParseFinallyClause(ghost start: Place)
      requires Valid() && i < |toks| && (AtEof() || (i > 0 && Punct(code, toks, i - 1, '}')))
      requires Moved(code, toks, start, Here()) && Nested(code, toks, start.at, start.scope)
      modifies this
      ensures Valid() && old(i) <= i < |toks| && WaivesTemplates(code, toks, old(waived), waived)
      ensures Moved(code, toks, start, Here())
      decreases |toks| - i, 5
    {
      hide StateOk, Grows, TokensOk, Good, WellFormed, WaivesTemplates, Word, Punct, Moved, Nested, Steady;
      StateFacts(opt, code, toks, i, View(), waived);
      ghost var s := Here();
      var isFinally := MatchKeyword("finally");
      if isFinally {
        MovedTransitive(code, toks, start, s, Here());
        MovedNested(code, toks, start, Here());
        ParseBlock();
        MovedIs(code, toks, s, Here());
        MovedTransitive(code, toks, start, s, Here());
      }
    }

    /** The binding of a catch, or what stands in its place. */
    method ParseCatchBinding()
      requires Valid() && i < |toks| && BlockSite(code, toks, i)
      modifies this
      ensures Valid() && old(i) <= i < |toks| && waived == old(waived)
      ensures i == BindingEnd(code, toks, old(i))
      ensures Moved(code, toks, old(Here()), Here())
    {
      hide StateOk, Grows, TokensOk, Good, WellFormed, JsScope.DeclareLet, Moved, Punct;
      if toks[i].kind == Ident {
        ghost var start := Here();
        DeclareLetAtCursor();
        ghost var s := Here();
        var paren := TryPunct(')');
        MovedTransitive(code, toks, start, s, Here());
      } else {
        SkipUntilTerminal(')');
      }
    }

    /** The catch binding lives in a block of its own, which is gone afterwards. */
    method ParseCatch()
      requires Valid() && 1 < i < |toks| && Word(code, toks, i - 1, "catch") && Punct(code, toks, i - 2, '}')
      requires Nested(code, toks, i, View())
      modifies this
      ensures Valid() && old(i) <= i < |toks| && WaivesTemplates(code, toks, old(waived), waived)
      ensures Grows(old(View()), View()) && Steady(code, toks, old(i) - 1, i)
      ensures AtEof() || (i > 0 && Punct(code, toks, i - 1, '}'))
      ensures curEnv == old(curEnv) < |old(envs)| <= |envs| && envs[curEnv].blocks == old(envs)[curEnv].blocks
      decreases |toks| - i, 5
    {
      hide StateOk, Grows, TokensOk, Good, WellFormed, WaivesTemplates, JsScope.EnterBlock, JsScope.ExitBlock, Word, Punct,
           Moved, Nested, Steady, BlockSite, BindingEnd, CatchBody, InBlockTo;
      ghost var start, s := Here(), View();
      var paren := TryPunct('(');
      ghost var i1 := i;
      CatchSite(code, toks, start.at - 1, i);
      StateFacts(opt, code, toks, i, View(), waived);
      MovedNestedBlock(code, toks, start, Here());
      EnterBlock();
      ghost var brace := ParseCatchInside();
      BlockLeft(opt, code, toks, i1, s, View(), old(waived), waived, i);
      ExitBlock();
      GrowsFacts(s, View());
      CatchSteady(code, toks, start.at - 1, i1, brace, i);
    }

    /** The binding of a catch and the statements of its block. */
    method ParseCatchInside() returns (brace: bool)
      requires Valid() && i < |toks| && BlockSite(code, toks, i) && Nested(code, toks, i, View())
      modifies this
      ensures Valid() && old(i) <= i < |toks| && WaivesTemplates(code, toks, old(waived), waived)
      ensures Grows(old(View()), View())
      ensures var e := BindingEnd(code, toks, old(i));
              && brace == Punct(code, toks, e, '{') && Steady(code, toks, old(i), e)
              && InBlockTo(code, toks, if brace then e + 1 else e, i)
      ensures AtEof() || (i > 0 && Punct(code, toks, i - 1, '}'))
      decreases |toks| - i, 4
    {
      hide StateOk, Grows, TokensOk, Good, WellFormed, WaivesTemplates, Word, Punct, Moved, Nested, Steady, BlockSite,
           BindingEnd, InBlockTo;
      ghost var inner := Here();
      ParseCatchBinding();
      ghost var bound := Here();
      MovedIs(code, toks, inner, bound);
      brace := TryPunct('{');
      MovedTransitive(code, toks, inner, bound, Here());
      ghost var u := Here();
      MovedIs(code, toks, bound, u);
      MovedNested(code, toks, inner, u);
      ParseInBlock();
      GrowsTransitive(inner.scope, u.scope, View());
    }

    method ParseClassRest()
      requires Valid() && 0 < i < |toks| && Word(code, toks, i - 1, "class") && Nested(code, toks, i, View())
      modifies this
      ensures Valid() && old(i) <= i < |toks| && waived == old(waived)
      ensures Moved(code, toks, old(Here()), Here())
    {
      hide StateOk, Grows, TokensOk, Good, WellFormed, JsScope.DeclareHoisted, Moved, Nested, Steady;
      StateFacts(opt, code, toks, i, View(), waived);
      ghost var start := Here();
      if toks[i].kind == Ident {
        DeclareHoistedAtCursor();
      }
      ghost var s := Here();
      var isExtends := MatchKeyword("extends");
      MovedTransitive(code, toks, start, s, Here());
      if isExtends {
        s := Here();
        SkipUntilTerminal('{');
        MovedTransitive(code, toks, start, s, Here());
      }
      s := Here();
      var brace := TryPunct('{');
      MovedTransitive(code, toks, start, s, Here());
      if brace {
        s := Here();
        GroupSteady(code, toks, i);
        SkipBalanced('{', '}');
        MovedIs(code, toks, s, Here());
        MovedTransitive(code, toks, start, s, Here());
      }
      MovedIs(code, toks, start, Here());
    }

    /** One statement.  Unless it starts at the end or at a closing brace, the cursor moves. */
    method ParseStatement()
      requires Valid() && i < |toks| && Nested(code, toks, i, View())
      modifies this
      ensures Valid() && old(i) <= i < |toks| && WaivesTemplates(code, toks, old(waived), waived)
      ensures Moved(code, toks, old(Here()), Here())
      ensures old(!AtEof() && PunChar() != '}') ==> i > old(i)
      decreases |toks| - i, 1
    {
      hide StateOk, Grows, TokensOk, Good, WellFormed, WaivesTemplates, Word, Punct, Moved, Nested;
      StateFacts(opt, code, toks, i, View(), waived);
      if AtEof() {
        return;
      }
      var hit := TryPunct(';');
      if hit || PunChar() == '}' {
        return;
      }
      if PunChar() == '{' {
        ParseBraceBlock();
        return;
      }
      ParseKeywordStatement();
    }

    /** Declarations, and statements of other kinds. */
    method ParseKeywordStatement()
      requires Valid() && i < |toks| && toks[i].kind != Eof && PunChar() != '}' && Nested(code, toks, i, View())
      modifies this
      ensures Valid() && old(i) < i < |toks| && WaivesTemplates(code, toks, old(waived), waived)
      ensures Moved(code, toks, old(Here()), Here())
      decreases |toks| - i, 0, 1
    {
      hide StateOk, Grows, TokensOk, Good, WellFormed, WaivesTemplates, Word, Punct, Moved, Nested;
      ghost var start := Here();
      var hit := MatchKeyword("var");
      if hit {
        FinishVar(start);
        return;
      }
      hit := MatchLetOrConst();
      if hit {
        FinishLet(start);
        return;
      }
      hit := MatchAsyncFunction();
      if !hit {
        hit := MatchKeyword("function");
      }
      if hit {
        ghost var s := Here();
        MovedNested(code, toks, start, s);
        ParseFunctionAfterKeyword();
        MovedTransitive(code, toks, start, s, Here());
        return;
      }
      ParseControlStatement();
    }

    method FinishVar(ghost start: Place)
      requires Valid() && 0 < i < |toks| && Word(code, toks, i - 1, "var")
      requires Moved(code, toks, start, Here()) && Nested(code, toks, start.at, start.scope)
      modifies this
      ensures Valid() && old(i) <= i < |toks| && WaivesTemplates(code, toks, old(waived), waived)
      ensures Moved(code, toks, start, Here())
    {
      hide StateOk, WaivesTemplates, Word, Punct, Moved, Nested;
      ghost var s := Here();
      MovedNested(code, toks, start, s);
      ParseVarList();
      MovedTransitive(code, toks, start, s, Here());
      s := Here();
      var hit := TryPunct(';');
      MovedTransitive(code, toks, start, s, Here());
    }

    method FinishLet(ghost start: Place)
      requires Valid() && 0 < i < |toks| && (Word(code, toks, i - 1, "let") || Word(code, toks, i - 1, "const"))
      requires Moved(code, toks, start, Here())
      modifies this
      ensures Valid() && old(i) <= i < |toks| && WaivesTemplates(code, toks, old(waived), waived)
      ensures Moved(code, toks, start, Here())
    {
      hide StateOk, WaivesTemplates, Word, Punct, Moved;
      ghost var s := Here();
      ParseLetList();
      MovedTransitive(code, toks, start, s, Here());
      s := Here();
      var hit := TryPunct(';');
      MovedTransitive(code, toks, start, s, Here());
    }

    /** The block statement; same discipline as ParseBlock. */
    method ParseBraceBlock()
      requires Valid() && i < |toks| && PunChar() == '{' && Nested(code, toks, i, View())
      modifies this
      ensures Valid() && old(i) < i < |toks| && WaivesTemplates(code, toks, old(waived), waived)
      ensures Moved(code, toks, old(Here()), Here())
      ensures curEnv == old(curEnv) < |old(envs)| <= |envs| && envs[curEnv].blocks == old(envs)[curEnv].blocks
      decreases |toks| - i, 0
    {
      hide StateOk, Grows, TokensOk, Good, WellFormed, WaivesTemplates, JsScope.EnterBlock, JsScope.ExitBlock, Word, Punct,
           Moved, Nested, Steady;
      ghost var start, s := Here(), View();
      var brace := TryPunct('{');
      ghost var i1 := i;
      StateFacts(opt, code, toks, i, View(), waived);
      MovedNestedBlock(code, toks, start, Here());
      EnterBlock();
      ParseInBlock();
      BlockLeft(opt, code, toks, i1, s, View(), old(waived), waived, i);
      ExitBlock();
      GrowsFacts(s, View());
      OpenBlock(code, toks, start.at, i);
      MovedIs(code, toks, start, Here());
    }

    /** The statements that start with the remaining keywords, and expression statements. */
    method ParseControlStatement()
      requires Valid() && i < |toks| && toks[i].kind != Eof && PunChar() != '}' && Nested(code, toks, i, View())
      modifies this
      ensures Valid() && old(i) < i < |toks| && WaivesTemplates(code, toks, old(waived), waived)
      ensures Moved(code, toks, old(Here()), Here())
      decreases |toks| - i, 0, 0, 1
    {
      hide StateOk, Grows, TokensOk, Good, WellFormed, WaivesTemplates, Word, Punct, Moved, Nested, Steady;
      StateFacts(opt, code, toks, i, View(), waived);
      ghost var start := Here();
      var hit := MatchKeyword("if");
      ghost var s := Here();
      MovedNested(code, toks, start, s);
      if hit {
        ParseIfRest();
        MovedTransitive(code, toks, start, s, Here());
        return;
      }
      hit := MatchKeyword("while");
      if !hit {
        hit := MatchKeyword("switch");
      }
      s := Here();
      MovedNested(code, toks, start, s);
      if hit {
        ParseGuarded();
        MovedTransitive(code, toks, start, s, Here());
        return;
      }
      hit := MatchKeyword("do");
      s := Here();
      MovedNested(code, toks, start, s);
      if hit {
        ParseDoRest();
        MovedTransitive(code, toks, start, s, Here());
        return;
      }
      ParseOtherStatement();
    }

    /** Loops with for, try statements, and the simple statements. */
    method ParseOtherStatement()
      requires Valid() && i < |toks| && toks[i].kind != Eof && PunChar() != '}' && Nested(code, toks, i, View())
      modifies this
      ensures Valid() && old(i) < i < |toks| && WaivesTemplates(code, toks, old(waived), waived)
      ensures Moved(code, toks, old(Here()), Here())
      decreases |toks| - i, 0, 0, 0
    {
      hide StateOk, Grows, TokensOk, Good, WellFormed, WaivesTemplates, Word, Punct, Moved, Nested, Steady;
      StateFacts(opt, code, toks, i, View(), waived);
      ghost var start := Here();
      var hit := MatchKeyword("for");
      ghost var s := Here();
      MovedNested(code, toks, start, s);
      if hit {
        ParseForHeader();
        MovedTransitive(code, toks, start, s, Here());
        ghost var w := waived;
        s := Here();
        MovedNested(code, toks, start, s);
        ParseStatement();
        MovedTransitive(code, toks, start, s, Here());
        WaivesTransitive(code, toks, old(waived), w, waived);
        return;
      }
      hit := MatchKeyword("try");
      if hit {
        MovedNested(code, toks, start, Here());
        ParseTryRest();
        MovedIs(code, toks, start, Here());
        return;
      }
      ParseSimpleStatement();
    }

    /** Jumps, classes and expression statements. */
    method ParseSimpleStatement()
      requires Valid() && i < |toks| && toks[i].kind != Eof && PunChar() != '}' && Nested(code, toks, i, View())
      modifies this
      ensures Valid() && old(i) < i < |toks| && waived == old(waived)
      ensures Moved(code, toks, old(Here()), Here())
    {
      hide StateOk, Grows, TokensOk, Good, WellFormed, WaivesTemplates, Word, Punct, Moved, Nested;
      StateFacts(opt, code, toks, i, View(), waived);
      ghost var start := Here();
      var hit := MatchJump();
      ghost var s := Here();
      if hit {
        SkipUntilTerminal(';');
        MovedTransitive(code, toks, start, s, Here());
        MovedIs(code, toks, s, Here());
        return;
      }
      hit := MatchKeyword("class");
      if hit {
        s := Here();
        MovedNested(code, toks, start, s);
        ParseClassRest();
        MovedTransitive(code, toks, start, s, Here());
        return;
      }
      SkipUntilTerminal(';');
    }

    method MatchJump() returns (b: bool)
      requires Valid() && i < |toks|
      modifies this`i
      ensures Valid() && i < |toks|
      ensures b == old(PeekIdent() in {"return", "throw", "break", "continue"}) && i == if b then old(i) + 1 else old(i)
      ensures Moved(code, toks, old(Here()), Here())
    {
      hide StateOk, Word, Punct, Moved;
      b := MatchKeyword("return");
      if !b {
        b := MatchKeyword("throw");
      }
      if !b {
        b := MatchKeyword("break");
      }
      if !b {
        b := MatchKeyword("continue");
      }
    }

    /** The whole program: the cursor reaches the end, so no identifier token is missed. */
    method ParseProgram()
      requires Valid() && i == 0 && |toks| > 0 && View() == Initial() && waived == {}
      modifies this
      ensures Valid() && i < |toks| && AtEof()
      ensures WaivesTemplates(code, toks, {}, waived)
    {
      hide StateOk, Grows, TokensOk, Good, WellFormed, WaivesTemplates, Moved;
      StateFacts(opt, code, toks, i, View(), waived);
      while !AtEof()
        invariant Valid() && i < |toks| && curEnv == 0 && WaivesTemplates(code, toks, {}, waived)
        decreases |toks| - i
      {
        if PunChar() == '}' {
          var c := StepPunct();
          continue;
        }
        ghost var s, w := Here(), waived;
        ParseStatement();
        MovedIs(code, toks, s, Here());
        GrowsFacts(s.scope, View());
        WaivesTransitive(code, toks, {}, w, waived);
      }
    }
  }
}
