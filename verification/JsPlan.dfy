/**
 The occurrences a rename plan may touch: the identifier tokens of the source and the identifiers inside
 template interpolations (scanTemplateToken in src/builders/JSObfuscatorScope.cpp), and the proof that no
 two of them overlap.
 */
module JsPlan {
  import opened Chars
  import opened JsLexer
  import opened JsScope
  import opened JsScopeLemmas

  // ----- identifiers inside template tokens -----------------------------------------------------

  /** Identifiers in the interpolations of the template token [a, b), nested templates included, in scan order. */
  function TemplateSpans(code: string, a: nat, b: nat): seq<Span>
    decreases b - a, 1, 0
  {
    if a >= b || b > |code| || code[a] != '`' then [] else InterpSpans(code, a + 1, b)
  }

  function InterpSpans(code: string, j: nat, b: nat): seq<Span>
    decreases b - j, 3, 0
  {
    if j >= b || b > |code| then []
    else if code[j] == '\\' && j + 1 < b then InterpSpans(code, j + 2, b)
    else if code[j] == '`' then []
    else if code[j] == '$' && At(code, j + 1, '{') then
      var close := InterpClose(code, j + 2, 1, Code);
      if close.None? || close.value > b then []
      else
        SubSpans(code, j + 2, close.value, Lex(code[j + 2..close.value], 0)) + InterpSpans(code, close.value + 1, b)
    else InterpSpans(code, j + 1, b)
  }

  /** Identifiers of a token list lexed from code[inner..close]. */
  function SubSpans(code: string, inner: nat, close: nat, toks: seq<Tok>): seq<Span>
    decreases close - inner, 2, |toks|
  {
    if toks == [] then [] else TokSpans(code, inner, close, toks[0]) + SubSpans(code, inner, close, toks[1..])
  }

  function TokSpans(code: string, inner: nat, close: nat, t: Tok): seq<Span>
    decreases close - inner, 2, 0
  {
    if !(t.a <= t.b && inner + t.b <= close) then []
    else if t.kind == Ident then [Span(inner + t.a, inner + t.b)]
    else if t.kind == Tpl then TemplateSpans(code, inner + t.a, inner + t.b)
    else []
  }

  /** Identifier texts inside [lo, hi), in order and apart from each other. */
  predicate SpansOk(code: string, spans: seq<Span>, lo: nat, hi: nat)
  {
    && (forall k :: 0 <= k < |spans| ==> lo <= spans[k].a && spans[k].b <= hi && IsIdentifierText(code, spans[k].a, spans[k].b))
    && (forall j, k :: 0 <= j < k < |spans| ==> spans[j].b <= spans[k].a)
  }

  lemma SpansOkConcat(code: string, u: seq<Span>, v: seq<Span>, lo: nat, mid: nat, hi: nat)
    requires SpansOk(code, u, lo, mid) && SpansOk(code, v, mid, hi)
    requires lo <= mid <= hi
    ensures SpansOk(code, u + v, lo, hi)
  {
    var w := u + v;
    forall k | 0 <= k < |w|
      ensures lo <= w[k].a && w[k].b <= hi && IsIdentifierText(code, w[k].a, w[k].b)
    {
      if k < |u| { assert w[k] == u[k]; } else { assert w[k] == v[k - |u|]; }
    }
    forall j, k | 0 <= j < k < |w| ensures w[j].b <= w[k].a {
      if k < |u| {
        assert w[j] == u[j] && w[k] == u[k];
      } else if j < |u| {
        assert w[j] == u[j] && w[k] == v[k - |u|];
      } else {
        assert w[j] == v[j - |u|] && w[k] == v[k - |u|];
      }
    }
  }

  lemma {:induction false} TemplateSpansOk(code: string, a: nat, b: nat)
    requires a <= b <= |code|
    ensures SpansOk(code, TemplateSpans(code, a, b), a, b)
    decreases b - a, 1, 0
  {
    if a < b && code[a] == '`' {
      InterpSpansOk(code, a + 1, b);
    }
  }

  lemma SpansOkWider(code: string, spans: seq<Span>, lo: nat, hi: nat, from: nat)
    requires SpansOk(code, spans, lo, hi) && from <= lo
    ensures SpansOk(code, spans, from, hi)
  {
  }

  lemma NoSpansOk(code: string, lo: nat, hi: nat)
    ensures SpansOk(code, [], lo, hi)
  {
  }

  lemma {:induction false} InterpSpansOk(code: string, j: nat, b: nat)
    requires b <= |code|
    ensures SpansOk(code, InterpSpans(code, j, b), j, b)
    decreases b - j, 3, 0
  {
    hide SpansOk, SubSpans, Lex, InterpClose, TokensOk;
    NoSpansOk(code, j, b);
    if j >= b {
    } else if code[j] == '\\' && j + 1 < b {
      InterpSpansOk(code, j + 2, b);
      SpansOkWider(code, InterpSpans(code, j + 2, b), j + 2, b, j);
    } else if code[j] == '`' {
    } else if code[j] == '$' && At(code, j + 1, '{') {
      var close := InterpClose(code, j + 2, 1, Code);
      if close.Some? && close.value <= b {
        InterpSpansOk(code, close.value + 1, b);
        HereSpansOk(code, j, close.value, b);
      }
    } else {
      InterpSpansOk(code, j + 1, b);
      SpansOkWider(code, InterpSpans(code, j + 1, b), j + 1, b, j);
    }
  }

  /** The interpolation at j, and what follows it. */
  lemma HereSpansOk(code: string, j: nat, close: nat, b: nat)
    requires j + 2 <= close <= b <= |code| && SpansOk(code, InterpSpans(code, close + 1, b), close + 1, b)
    ensures SpansOk(code, SubSpans(code, j + 2, close, Lex(code[j + 2..close], 0)) + InterpSpans(code, close + 1, b), j, b)
    decreases b - j, 2, |code| + 2
  {
    hide SpansOk, SubSpans, InterpSpans, Lex, TokensOk;
    var sub := code[j + 2..close];
    LexIsOk(sub, 0);
    var here, later := SubSpans(code, j + 2, close, Lex(sub, 0)), InterpSpans(code, close + 1, b);
    SubSpansOk(code, j + 2, close, Lex(sub, 0), 0);
    SpansOkWider(code, here, j + 2, close, j);
    SpansOkWider(code, later, close + 1, b, close);
    SpansOkConcat(code, here, later, j, close, b);
  }

  lemma {:induction false} TokSpansOk(code: string, inner: nat, close: nat, t: Tok)
    requires inner <= close <= |code| && TokenShape(code[inner..close], t)
    ensures SpansOk(code, TokSpans(code, inner, close, t), inner + t.a, inner + t.b)
    decreases close - inner, 2, 0
  {
    var sub := code[inner..close];
    if t.kind == Tpl {
      TemplateSpansOk(code, inner + t.a, inner + t.b);
    } else if t.kind == Ident {
      forall k | inner + t.a <= k < inner + t.b ensures IsIdentPart(code[k]) {
        assert sub[k - inner] == code[k];
      }
      assert sub[t.a] == code[inner + t.a];
    }
  }

  lemma TokensOkTail(s: string, toks: seq<Tok>, from: nat)
    requires |toks| > 1 && TokensOk(s, toks, from)
    ensures TokensOk(s, toks[1..], toks[0].b)
  {
    var rest := toks[1..];
    forall k | 0 <= k < |rest| - 1 ensures TokenShape(s, rest[k]) {
      assert rest[k] == toks[k + 1];
    }
  }

  lemma {:induction false} SubSpansOk(code: string, inner: nat, close: nat, toks: seq<Tok>, from: nat)
    requires inner <= close <= |code|
    requires from <= close - inner
    requires TokensOk(code[inner..close], toks, from)
    ensures SpansOk(code, SubSpans(code, inner, close, toks), inner + from, close)
    decreases close - inner, 2, |toks|
  {
    var t := toks[0];
    var head := TokSpans(code, inner, close, t);
    if |toks| > 1 {
      assert TokenShape(code[inner..close], t);
      TokSpansOk(code, inner, close, t);
      TokensOkTail(code[inner..close], toks, from);
      SubSpansOk(code, inner, close, toks[1..], t.b);
      SpansOkConcat(code, head, SubSpans(code, inner, close, toks[1..]), inner + from, inner + t.b, close);
    } else {
      assert toks[1..] == [] && head == [];
    }
  }

  // ----- occurrences ----------------------------------------------------------------------------

  /** [a, b) is the identifier token t, or an identifier in an interpolation of the template token t. */
  predicate Owns(code: string, t: Tok, a: nat, b: nat)
  {
    (t.kind == Ident && t.a == a && t.b == b) || (t.kind == Tpl && Span(a, b) in TemplateSpans(code, t.a, t.b))
  }

  predicate Occurs(code: string, toks: seq<Tok>, a: nat, b: nat)
  {
    exists k :: 0 <= k < |toks| && Owns(code, toks[k], a, b)
  }

  predicate AllOccur(code: string, toks: seq<Tok>, spans: seq<Rename>)
  {
    forall k :: 0 <= k < |spans| ==> Occurs(code, toks, spans[k].a, spans[k].b)
  }

  lemma OwnedInside(code: string, toks: seq<Tok>, k: nat, a: nat, b: nat)
    requires TokensOk(code, toks, 0) && k < |toks| && Owns(code, toks[k], a, b)
    ensures toks[k].a <= a < b <= toks[k].b && IsIdentifierText(code, a, b)
  {
    var t := toks[k];
    assert k < |toks| - 1;
    assert TokenShape(code, t);
    if t.kind == Tpl {
      TemplateSpansOk(code, t.a, t.b);
      var j :| 0 <= j < |TemplateSpans(code, t.a, t.b)| && TemplateSpans(code, t.a, t.b)[j] == Span(a, b);
    }
  }

  /** Two occurrences are the same or do not overlap. */
  lemma OccurrencesApart(code: string, toks: seq<Tok>, a: nat, b: nat, c: nat, d: nat)
    requires TokensOk(code, toks, 0) && Occurs(code, toks, a, b) && Occurs(code, toks, c, d)
    ensures (a == c && b == d) || b <= c || d <= a
    ensures IsIdentifierText(code, a, b)
  {
    var j :| 0 <= j < |toks| && Owns(code, toks[j], a, b);
    var k :| 0 <= k < |toks| && Owns(code, toks[k], c, d);
    OwnedInside(code, toks, j, a, b);
    OwnedInside(code, toks, k, c, d);
    if j == k && toks[j].kind == Tpl {
      var t := toks[j];
      TemplateSpansOk(code, t.a, t.b);
      var spans := TemplateSpans(code, t.a, t.b);
      var x :| 0 <= x < |spans| && spans[x] == Span(a, b);
      var y :| 0 <= y < |spans| && spans[y] == Span(c, d);
    }
  }

  // ----- recorded occurrences -------------------------------------------------------------------

  predicate HasSpan(spans: seq<Rename>, a: nat, b: nat)
  {
    exists k :: 0 <= k < |spans| && spans[k].a == a && spans[k].b == b
  }

  /** The occurrence has been recorded, unless it is one that is never renamed. */
  predicate Settled(opt: Options, code: string, spans: seq<Rename>, a: nat, b: nat)
  {
    a <= b <= |code| && (Exempt(opt, code, a, b) || HasSpan(spans, a, b))
  }

  const Keywords: set<string> :=
    {"var", "let", "const", "async", "function", "if", "else", "while", "switch", "do", "for", "try", "catch",
     "finally", "return", "throw", "break", "continue", "class", "extends"}

  /** Nothing in token t is left to record: it is a keyword, or all its occurrences are settled. */
  predicate Done(opt: Options, code: string, spans: seq<Rename>, t: Tok)
  {
    && (t.kind == Ident ==> t.a <= t.b <= |code| && (code[t.a..t.b] in Keywords || Settled(opt, code, spans, t.a, t.b)))
    && (t.kind == Tpl ==> forall s :: s in TemplateSpans(code, t.a, t.b) ==> Settled(opt, code, spans, s.a, s.b))
  }

  lemma SettledStable(opt: Options, code: string, u: seq<Rename>, v: seq<Rename>, a: nat, b: nat)
    requires u <= v && Settled(opt, code, u, a, b)
    ensures Settled(opt, code, v, a, b)
  {
    if HasSpan(u, a, b) {
      var k :| 0 <= k < |u| && u[k].a == a && u[k].b == b;
      assert v[k] == u[k];
    }
  }

  lemma DoneStable(opt: Options, code: string, u: seq<Rename>, v: seq<Rename>, t: Tok)
    requires u <= v && Done(opt, code, u, t)
    ensures Done(opt, code, v, t)
  {
    if t.kind == Ident && code[t.a..t.b] !in Keywords {
      SettledStable(opt, code, u, v, t.a, t.b);
    }
    if t.kind == Tpl {
      forall s | s in TemplateSpans(code, t.a, t.b) ensures Settled(opt, code, v, s.a, s.b) {
        SettledStable(opt, code, u, v, s.a, s.b);
      }
    }
  }

  /** Resolve a list of occurrences one after the other. */
  function ReferenceAll(opt: Options, code: string, s: Scope, spans: seq<Span>): Scope
    decreases |spans|
  {
    if spans == [] then s else ReferenceAll(opt, code, ReferenceSpan(opt, code, s, spans[0]), spans[1..])
  }

  function ReferenceSpan(opt: Options, code: string, s: Scope, sp: Span): Scope
  {
    if sp.a <= sp.b <= |code| then ReferenceIdent(opt, code, s, sp.a, sp.b) else s
  }

  lemma ReferenceAllConcat(opt: Options, code: string, s: Scope, u: seq<Span>, v: seq<Span>)
    ensures ReferenceAll(opt, code, s, u + v) == ReferenceAll(opt, code, ReferenceAll(opt, code, s, u), v)
    decreases |u|
  {
    if u == [] {
      assert u + v == v;
    } else {
      assert (u + v)[1..] == u[1..] + v;
      assert (u + v)[0] == u[0];
      ReferenceAllConcat(opt, code, ReferenceSpan(opt, code, s, u[0]), u[1..], v);
    }
  }

  predicate SpansOccur(code: string, toks: seq<Tok>, spans: seq<Span>)
  {
    forall k :: 0 <= k < |spans| ==> spans[k].a < spans[k].b <= |code| && Occurs(code, toks, spans[k].a, spans[k].b)
  }

  lemma {:induction false} ReferenceAllGood(opt: Options, code: string, toks: seq<Tok>, s: Scope, spans: seq<Span>)
    requires Good(opt, code, s) && AllOccur(code, toks, s.spans)
    requires SpansOccur(code, toks, spans)
    ensures var t := ReferenceAll(opt, code, s, spans);
            Good(opt, code, t) && Grows(s, t) && t.envs == s.envs && t.locals == s.locals && AllOccur(code, toks, t.spans)
            && forall k :: 0 <= k < |spans| ==> Settled(opt, code, t.spans, spans[k].a, spans[k].b)
    decreases |spans|
  {
    if spans == [] {
      GrowsReflexive(s);
    } else {
      var a, b := spans[0].a, spans[0].b;
      ReferenceGood(opt, code, s, a, b);
      ReferenceDeclaresNothing(opt, code, s, a, b);
      var m := ReferenceIdent(opt, code, s, a, b);
      assert AllOccur(code, toks, m.spans) by {
        forall k | 0 <= k < |m.spans| ensures Occurs(code, toks, m.spans[k].a, m.spans[k].b) {
          if k < |s.spans| { assert m.spans[k] == s.spans[k]; }
        }
      }
      assert Settled(opt, code, m.spans, a, b);
      ReferenceAllGood(opt, code, toks, m, spans[1..]);
      var t := ReferenceAll(opt, code, s, spans);
      GrowsTransitive(s, m, t);
      forall k | 0 <= k < |spans| ensures Settled(opt, code, t.spans, spans[k].a, spans[k].b) {
        if k == 0 {
          SettledStable(opt, code, m.spans, t.spans, a, b);
        } else {
          assert spans[k] == spans[1..][k - 1];
        }
      }
    }
  }

  // ----- the scan, one step at a time -----------------------------------------------------------

  lemma SubSpansStep(opt: Options, code: string, inner: nat, close: nat, sub: seq<Tok>, k: nat, s: Scope)
    requires inner <= close <= |code| && TokensOk(code[inner..close], sub, 0) && k < |sub|
    ensures ReferenceAll(opt, code, s, SubSpans(code, inner, close, sub[k..]))
         == ReferenceAll(opt, code, ReferenceAll(opt, code, s, TokSpans(code, inner, close, sub[k])),
                         SubSpans(code, inner, close, sub[k + 1..]))
    ensures sub[k].kind == Ident ==>
              var a, b := inner + sub[k].a, inner + sub[k].b;
              a < b <= |code| && ReferenceAll(opt, code, s, TokSpans(code, inner, close, sub[k])) == ReferenceIdent(opt, code, s, a, b)
    ensures sub[k].kind == Tpl ==>
              sub[k].a <= sub[k].b && inner + sub[k].b <= close
              && TokSpans(code, inner, close, sub[k]) == TemplateSpans(code, inner + sub[k].a, inner + sub[k].b)
    ensures sub[k].kind != Ident && sub[k].kind != Tpl ==>
              ReferenceAll(opt, code, s, TokSpans(code, inner, close, sub[k])) == s
  {
    var t := sub[k];
    if k < |sub| - 1 {
      assert TokenShape(code[inner..close], t);
    }
    assert sub[k..][0] == t && sub[k..][1..] == sub[k + 1..];
    ReferenceAllConcat(opt, code, s, TokSpans(code, inner, close, t), SubSpans(code, inner, close, sub[k + 1..]));
    if t.kind == Ident {
      var one := [Span(inner + t.a, inner + t.b)];
      assert TokSpans(code, inner, close, t) == one;
      assert one[1..] == [];
      assert ReferenceAll(opt, code, s, one) == ReferenceAll(opt, code, ReferenceSpan(opt, code, s, one[0]), []);
    }
  }

  lemma InterpSpansStep(opt: Options, code: string, j: nat, b: nat, s: Scope)
    requires j < b <= |code|
    ensures code[j] == '\\' && j + 1 < b ==> InterpSpans(code, j, b) == InterpSpans(code, j + 2, b)
    ensures !(code[j] == '\\' && j + 1 < b) && code[j] == '`' ==> InterpSpans(code, j, b) == []
    ensures !(code[j] == '\\' && j + 1 < b) && code[j] != '`' && !(code[j] == '$' && At(code, j + 1, '{')) ==>
              InterpSpans(code, j, b) == InterpSpans(code, j + 1, b)
    ensures !(code[j] == '\\' && j + 1 < b) && code[j] == '$' && At(code, j + 1, '{') ==>
              var close := InterpClose(code, j + 2, 1, Code);
              if close.None? || close.value > b then InterpSpans(code, j, b) == []
              else
                && j + 2 <= close.value
                && ReferenceAll(opt, code, s, InterpSpans(code, j, b))
                   == ReferenceAll(opt, code,
                        ReferenceAll(opt, code, s, SubSpans(code, j + 2, close.value, Lex(code[j + 2..close.value], 0))),
                        InterpSpans(code, close.value + 1, b))
  {
    if !(code[j] == '\\' && j + 1 < b) && code[j] == '$' && At(code, j + 1, '{') {
      var close := InterpClose(code, j + 2, 1, Code);
      if close.Some? && close.value <= b {
        ReferenceAllConcat(opt, code, s, SubSpans(code, j + 2, close.value, Lex(code[j + 2..close.value], 0)),
                           InterpSpans(code, close.value + 1, b));
      }
    }
  }

  lemma NothingToReference(opt: Options, code: string, s: Scope, j: nat, b: nat, inner: nat, close: nat)
    ensures ReferenceAll(opt, code, s, []) == s
    ensures j >= b ==> InterpSpans(code, j, b) == []
    ensures SubSpans(code, inner, close, []) == []
  {
  }

  lemma TemplateSpansStart(code: string, a: nat, b: nat)
    requires a <= b <= |code|
    ensures TemplateSpans(code, a, b) == if a == b || code[a] != '`' then [] else InterpSpans(code, a + 1, b)
  {
  }
}
