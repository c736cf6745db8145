/**
 Where the names of the renamer's plan come from: every name in an environment is declared somewhere in the source, and
 in strict mode every planned name is declared, external or reported as undefined (struct Parser in
 src/builders/JSObfuscatorScope.cpp).
 */
module JsNames {
  import opened Chars
  import opened JsLexer
  import opened JsScope
  import opened JsScopeLemmas
  import opened JsSites
  import opened JsPlan

  ghost predicate DeclarationSite(code: string, toks: seq<Tok>, k: nat)
  {
    HoistSite(code, toks, k) || BlockSite(code, toks, k) || IsParameter(code, toks, k)
  }

  /** The names that stand at a place of a declaration. */
  ghost function Declared(code: string, toks: seq<Tok>): (names: set<string>)
    ensures forall k: nat, name: string :: Word(code, toks, k, name) && DeclarationSite(code, toks, k) ==> name in names
  {
    set k: nat | k < |toks| && toks[k].a <= toks[k].b <= |code| && toks[k].kind == Ident && DeclarationSite(code, toks, k)
      :: code[toks[k].a..toks[k].b]
  }

  predicate EnvNames(names: set<string>, e: Env)
  {
    e.hoisted.Keys <= names && forall k :: 0 <= k < |e.blocks| ==> e.blocks[k].Keys <= names
  }

  predicate AllNames(names: set<string>, envs: seq<Env>) { forall e :: 0 <= e < |envs| ==> EnvNames(names, envs[e]) }

  predicate TextIs(code: string, r: Rename, name: string) { r.a <= r.b <= |code| && code[r.a..r.b] == name }

  /** In strict mode: declared, external, or reported. */
  predicate Known(opt: Options, code: string, names: set<string>, undefined: seq<string>, r: Rename)
  {
    r.a <= r.b <= |code|
    && (opt.strict ==> code[r.a..r.b] in names || code[r.a..r.b] in opt.externs || code[r.a..r.b] in undefined)
  }

  /** A reported name is not external, and stands in the source where it is recorded. */
  predicate Reported(opt: Options, code: string, spans: seq<Rename>, name: string)
  {
    opt.strict && name !in opt.externs && exists k :: 0 <= k < |spans| && TextIs(code, spans[k], name)
  }

  ghost predicate Explained(opt: Options, code: string, names: set<string>, s: Scope)
  {
    && AllNames(names, s.envs)
    && (forall k :: 0 <= k < |s.spans| ==> Known(opt, code, names, s.undefined, s.spans[k]))
    && (forall k :: 0 <= k < |s.undefined| ==> Reported(opt, code, s.spans, s.undefined[k]))
  }

  // ----- lookup ---------------------------------------------------------------------------------

  lemma {:induction false} BlocksFind(names: set<string>, blocks: seq<map<string, nat>>, name: string)
    requires LookupBlocks(blocks, name).Some? && forall k :: 0 <= k < |blocks| ==> blocks[k].Keys <= names
    ensures name in names
    decreases |blocks|
  {
    var top := blocks[|blocks| - 1];
    if name in top {
      assert name in top.Keys;
    } else {
      BlocksFind(names, blocks[..|blocks| - 1], name);
    }
  }

  lemma {:induction false} LookupFinds(names: set<string>, envs: seq<Env>, e: nat, name: string)
    requires AllNames(names, envs) && LookupFrom(envs, e, name).Some?
    ensures name in names
    decreases e
  {
    assert EnvNames(names, envs[e]);
    if LookupBlocks(envs[e].blocks, name).Some? {
      BlocksFind(names, envs[e].blocks, name);
    } else if name in envs[e].hoisted {
      assert name in envs[e].hoisted.Keys;
    } else {
      LookupFinds(names, envs, envs[e].parent.value, name);
    }
  }

  // ----- steps ----------------------------------------------------------------------------------

  lemma ReportedStays(opt: Options, code: string, spans: seq<Rename>, more: seq<Rename>, name: string)
    requires Reported(opt, code, spans, name) && spans <= more
    ensures Reported(opt, code, more, name)
  {
    var k :| 0 <= k < |spans| && TextIs(code, spans[k], name);
    assert more[k] == spans[k];
  }

  /** At most one occurrence of a known name is recorded and nothing is reported. */
  lemma RecordExplains(opt: Options, code: string, names: set<string>, s: Scope, t: Scope, a: nat, b: nat)
    requires Explained(opt, code, names, s) && AllNames(names, t.envs) && t.undefined == s.undefined
    requires t.spans == s.spans || (|t.spans| == |s.spans| + 1 && t.spans[..|s.spans|] == s.spans
                                    && t.spans[|s.spans|].a == a && t.spans[|s.spans|].b == b)
    requires a <= b <= |code|
    requires opt.strict ==> code[a..b] in names || code[a..b] in opt.externs || code[a..b] in t.undefined
    ensures Explained(opt, code, names, t)
  {
    hide AllNames, Reported;
    forall k | 0 <= k < |t.spans| ensures Known(opt, code, names, t.undefined, t.spans[k]) {
      if k < |s.spans| {
        assert t.spans[k] == s.spans[k];
      }
    }
    forall k | 0 <= k < |t.undefined| ensures Reported(opt, code, t.spans, t.undefined[k]) {
      ReportedStays(opt, code, s.spans, t.spans, t.undefined[k]);
    }
  }

  /** An unresolved name is recorded and reported. */
  lemma ReportExplains(opt: Options, code: string, names: set<string>, s: Scope, a: nat, b: nat)
    requires Explained(opt, code, names, s) && a < b <= |code| && opt.strict && code[a..b] !in opt.externs
    ensures Explained(opt, code, names, Record(s.(undefined := s.undefined + [code[a..b]]), a, b, code[a..b]))
  {
    hide AllNames, Reported;
    var name := code[a..b];
    var t := Record(s.(undefined := s.undefined + [name]), a, b, name);
    forall k | 0 <= k < |t.spans| ensures Known(opt, code, names, t.undefined, t.spans[k]) {
      if k < |s.spans| {
        assert t.spans[k] == s.spans[k];
        assert Known(opt, code, names, s.undefined, s.spans[k]);
      } else {
        assert t.undefined[|s.undefined|] == name;
      }
    }
    forall k | 0 <= k < |t.undefined| ensures Reported(opt, code, t.spans, t.undefined[k]) {
      if k < |s.undefined| {
        ReportedStays(opt, code, s.spans, t.spans, s.undefined[k]);
      } else {
        IsReported(opt, code, t.spans, |s.spans|, name);
      }
    }
  }

  lemma IsReported(opt: Options, code: string, spans: seq<Rename>, k: nat, name: string)
    requires k < |spans| && TextIs(code, spans[k], name) && opt.strict && name !in opt.externs
    ensures Reported(opt, code, spans, name)
  {
  }

  lemma ReferenceExplains(opt: Options, code: string, names: set<string>, s: Scope, a: nat, b: nat)
    requires Explained(opt, code, names, s) && a < b <= |code|
    ensures Explained(opt, code, names, ReferenceIdent(opt, code, s, a, b))
  {
    var name := code[a..b];
    var t := ReferenceIdent(opt, code, s, a, b);
    hide Explained, Exempt, Mangle, LookupFrom;
    ExplainedNames(opt, code, names, s);
    if !Exempt(opt, code, a, b) {
      if Lookup(s, name).Some? {
        LookupFinds(names, s.envs, s.cur, name);
        RecordExplains(opt, code, names, s, t, a, b);
      } else if name in opt.externs || !opt.strict {
        RecordExplains(opt, code, names, s, t, a, b);
      } else {
        ReportExplains(opt, code, names, s, a, b);
      }
    }
  }

  lemma ExplainedNames(opt: Options, code: string, names: set<string>, s: Scope)
    requires Explained(opt, code, names, s)
    ensures AllNames(names, s.envs)
  {
  }

  lemma {:induction false} ReferenceAllExplains(opt: Options, code: string, names: set<string>, s: Scope, spans: seq<Span>)
    requires Explained(opt, code, names, s) && forall k :: 0 <= k < |spans| ==> spans[k].a < spans[k].b <= |code|
    ensures Explained(opt, code, names, ReferenceAll(opt, code, s, spans))
    decreases |spans|
  {
    hide Explained, ReferenceIdent;
    if spans != [] {
      ReferenceExplains(opt, code, names, s, spans[0].a, spans[0].b);
      ReferenceAllExplains(opt, code, names, ReferenceSpan(opt, code, s, spans[0]), spans[1..]);
    }
  }

  lemma VarExplains(opt: Options, code: string, names: set<string>, s: Scope, a: nat, b: nat)
    requires Explained(opt, code, names, s) && s.cur < |s.envs| && a < b <= |code| && code[a..b] in names
    ensures Explained(opt, code, names, DeclareVar(opt, s, code[a..b], a, b))
  {
    var t := DeclareVar(opt, s, code[a..b], a, b);
    hide Mangle, Known, Reported;
    assert EnvNames(names, s.envs[s.cur]);
    assert AllNames(names, t.envs);
    hide AllNames, EnvNames, Explained;
    RecordExplains(opt, code, names, s, t, a, b);
  }

  lemma LetExplains(opt: Options, code: string, names: set<string>, s: Scope, a: nat, b: nat)
    requires Explained(opt, code, names, s) && s.cur < |s.envs| && a < b <= |code| && code[a..b] in names
    ensures Explained(opt, code, names, DeclareLet(opt, s, code[a..b], a, b))
  {
    var t := DeclareLet(opt, s, code[a..b], a, b);
    hide Mangle, Known, Reported;
    assert EnvNames(names, s.envs[s.cur]);
    assert AllNames(names, t.envs);
    hide AllNames, EnvNames, Explained;
    RecordExplains(opt, code, names, s, t, a, b);
  }

  lemma HoistedExplains(opt: Options, code: string, names: set<string>, s: Scope, a: nat, b: nat)
    requires Explained(opt, code, names, s) && s.cur < |s.envs| && a < b <= |code| && code[a..b] in names
    ensures Explained(opt, code, names, DeclareHoisted(opt, s, code[a..b], a, b))
  {
    hide Explained, DeclareVar;
    VarExplains(opt, code, names, s, a, b);
  }

  lemma ScopesExplain(opt: Options, code: string, names: set<string>, s: Scope)
    requires Explained(opt, code, names, s) && s.cur < |s.envs|
    ensures Explained(opt, code, names, EnterBlock(s)) && Explained(opt, code, names, ExitBlock(s))
    ensures Explained(opt, code, names, EnterFunction(s)) && forall e :: Explained(opt, code, names, LeaveFunction(s, e))
  {
    hide Known, Reported;
    assert EnvNames(names, s.envs[s.cur]);
  }

  lemma InitialExplained(opt: Options, code: string, names: set<string>)
    ensures Explained(opt, code, names, Initial())
  {
  }

  // ----- names that are never references --------------------------------------------------------

  /** [a, b) is the name of a declaration. */
  ghost predicate DeclaredAt(code: string, toks: seq<Tok>, a: nat, b: nat)
  {
    exists k: nat :: k < |toks| && toks[k] == Tok(Ident, a, b) && DeclarationSite(code, toks, k)
  }

  /** No reference: a reserved name, one with a leading underscore, a member name or an object key. */
  predicate NoReference(opt: Options, code: string, a: nat, b: nat)
    requires a <= b <= |code|
  {
    var name := code[a..b];
    name == "" || name[0] == '_' || name in opt.reserved || IsMember(code, a) || IsObjectKey(code, a, b)
  }

  lemma ExemptExactly(opt: Options, code: string, a: nat, b: nat)
    requires a <= b <= |code|
    ensures Exempt(opt, code, a, b) <==> NoReference(opt, code, a, b)
  {
    hide IsMember, IsObjectKey;
  }

  /** Such names are renamed only where they are the name of a declaration. */
  ghost predicate Rightful(opt: Options, code: string, toks: seq<Tok>, r: Rename)
  {
    r.a <= r.b <= |code| && (NoReference(opt, code, r.a, r.b) ==> DeclaredAt(code, toks, r.a, r.b))
  }

  ghost predicate AllRightful(opt: Options, code: string, toks: seq<Tok>, spans: seq<Rename>)
  {
    forall k :: 0 <= k < |spans| ==> Rightful(opt, code, toks, spans[k])
  }

  lemma OneMoreRightful(opt: Options, code: string, toks: seq<Tok>, s: Scope, t: Scope, a: nat, b: nat)
    requires AllRightful(opt, code, toks, s.spans) && RecordsAt(s, t, a, b) && a <= b <= |code|
    requires Exempt(opt, code, a, b) ==> t.spans == s.spans || DeclaredAt(code, toks, a, b)
    ensures AllRightful(opt, code, toks, t.spans)
  {
    hide DeclaredAt, Exempt, NoReference;
    ExemptExactly(opt, code, a, b);
    forall k | 0 <= k < |t.spans| ensures Rightful(opt, code, toks, t.spans[k]) {
      if k < |s.spans| {
        assert t.spans[k] == s.spans[k];
      }
    }
  }

  lemma DeclaredRightful(opt: Options, code: string, toks: seq<Tok>, s: Scope, t: Scope, k: nat)
    requires k < |toks| && toks[k].kind == Ident && DeclarationSite(code, toks, k) && toks[k].a <= toks[k].b <= |code|
    requires AllRightful(opt, code, toks, s.spans) && RecordsAt(s, t, toks[k].a, toks[k].b)
    ensures AllRightful(opt, code, toks, t.spans)
  {
    assert toks[k] == Tok(Ident, toks[k].a, toks[k].b);
    assert DeclaredAt(code, toks, toks[k].a, toks[k].b);
    hide DeclaredAt, DeclarationSite, RecordsAt, AllRightful;
    OneMoreRightful(opt, code, toks, s, t, toks[k].a, toks[k].b);
  }

  lemma ReferenceRightful(opt: Options, code: string, toks: seq<Tok>, s: Scope, a: nat, b: nat)
    requires a < b <= |code| && AllRightful(opt, code, toks, s.spans)
    ensures AllRightful(opt, code, toks, ReferenceIdent(opt, code, s, a, b).spans)
  {
    hide Exempt, AllRightful, Mangle, Lookup, DeclaredAt;
    var t := ReferenceIdent(opt, code, s, a, b);
    if !Exempt(opt, code, a, b) {
      OneMoreRightful(opt, code, toks, s, t, a, b);
    }
  }

  lemma {:induction false} ReferenceAllRightful(opt: Options, code: string, toks: seq<Tok>, s: Scope, spans: seq<Span>)
    requires AllRightful(opt, code, toks, s.spans) && forall k :: 0 <= k < |spans| ==> spans[k].a < spans[k].b <= |code|
    ensures AllRightful(opt, code, toks, ReferenceAll(opt, code, s, spans).spans)
    decreases |spans|
  {
    hide AllRightful, ReferenceIdent;
    if spans != [] {
      ReferenceRightful(opt, code, toks, s, spans[0].a, spans[0].b);
      ReferenceAllRightful(opt, code, toks, ReferenceSpan(opt, code, s, spans[0]), spans[1..]);
    }
  }

  // ----- which occurrences those are ------------------------------------------------------------

  predicate White(c: char) { c == ' ' || '\t' <= c <= '\r' }

  lemma {:induction false} SpaceBefore(s: string, i: nat, j: nat)
    requires i <= j <= |s| && (forall k :: i <= k < j ==> White(s[k])) && (i > 0 ==> !White(s[i - 1]))
    ensures BackOverSpace(s, j) == i
    decreases j - i
  {
    if i < j {
      SpaceBefore(s, i, j - 1);
    }
  }

  /** A name is a member name exactly when a dot comes before it, or a question mark after a dot, whatever white space
      stands between. */
  lemma MemberExactly(code: string, p: nat, a: nat)
    requires p <= a <= |code| && (forall k :: p <= k < a ==> White(code[k])) && (p > 0 ==> !White(code[p - 1]))
    ensures IsMember(code, a) <==> p > 0 && (code[p - 1] == '.' || (p > 1 && code[p - 2] == '.' && code[p - 1] == '?'))
  {
    SpaceBefore(code, p, a);
  }

  predicate Blank(c: char) { c == ' ' || c == '\t' || c == '\n' || c == '\r' }

  lemma {:induction false} BlanksAfter(s: string, i: nat, j: nat)
    requires i <= j <= |s| && (forall k :: i <= k < j ==> Blank(s[k])) && (j < |s| ==> !Blank(s[j]))
    ensures SkipBlank(s, i) == j
    decreases j - i
  {
    if i < j {
      BlanksAfter(s, i + 1, j);
    }
  }

  lemma {:induction false} BlanksBefore(s: string, i: nat, j: nat)
    requires i <= j <= |s| && (forall k :: i <= k < j ==> Blank(s[k])) && (i > 0 ==> !Blank(s[i - 1]))
    ensures BackBlank(s, j) == i
    decreases j - i
  {
    if i < j {
      BlanksBefore(s, i, j - 1);
    }
  }

  /** A name is an object key exactly when it stands between an opening brace or a comma and a colon, whatever blanks and
      line ends stand between: those before it start at p, those after it end at q. */
  lemma KeyExactly(code: string, p: nat, a: nat, b: nat, q: nat)
    requires p <= a <= b <= q <= |code|
    requires (forall k :: p <= k < a ==> Blank(code[k])) && (p > 0 ==> !Blank(code[p - 1]))
    requires (forall k :: b <= k < q ==> Blank(code[k])) && (q < |code| ==> !Blank(code[q]))
    ensures IsObjectKey(code, a, b) <==> p > 0 && (code[p - 1] == '{' || code[p - 1] == ',') && q < |code| && code[q] == ':'
  {
    BlanksBefore(code, p, a);
    BlanksAfter(code, b, q);
  }
}
