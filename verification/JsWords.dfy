/**
 Which words of a JavaScript text may be renamed: those that stand in code, in the interpolations of templates too, at
 any depth (scanTemplateToken in src/builders/JSObfuscatorScope.cpp); and what is therefore never touched.
 */
module JsWords {
  import opened Chars
  import opened JsLexer
  import opened JsContext
  import opened JsScope
  import opened JsPlan

  // ----- words in code --------------------------------------------------------------------------

  /** [inner, close) is the inside of an interpolation of the template whose text is read from j to b: the text from a
      dollar sign and brace, neither after a backslash, to the brace that closes it. */
  predicate Interpolation(code: string, j: nat, b: nat, inner: nat, close: nat)
    decreases b - j
  {
    && j < b <= |code|
    && if code[j] == '\\' && j + 1 < b then Interpolation(code, j + 2, b, inner, close)
       else if code[j] == '`' then false
       else if code[j] == '$' && At(code, j + 1, '{') then
         var brace := InterpClose(code, j + 2, 1, Code);
         && brace.Some? && brace.value <= b
         && ((inner == j + 2 && close == brace.value) || Interpolation(code, brace.value + 1, b, inner, close))
       else Interpolation(code, j + 1, b, inner, close)
  }

  lemma {:induction false} InterpolationInside(code: string, j: nat, b: nat, inner: nat, close: nat)
    requires Interpolation(code, j, b, inner, close)
    ensures j + 2 <= inner <= close <= b <= |code|
    decreases b - j
  {
    if code[j] == '\\' && j + 1 < b {
      InterpolationInside(code, j + 2, b, inner, close);
    } else if code[j] == '$' && At(code, j + 1, '{') {
      var brace := InterpClose(code, j + 2, 1, Code);
      if !(inner == j + 2 && close == brace.value) {
        InterpolationInside(code, brace.value + 1, b, inner, close);
      }
    } else {
      InterpolationInside(code, j + 1, b, inner, close);
    }
  }

  /** [inner, close) is the inside of an interpolation of a template that stands in the code of [lo, hi). */
  ghost predicate Nests(code: string, lo: nat, hi: nat, a: nat, b: nat, inner: nat, close: nat)
    requires lo <= hi <= |code|
  {
    && a < b <= hi - lo && TokenIs(code[lo..hi], Tok(Tpl, a, b)) && Interpolation(code, lo + a + 1, lo + b, inner, close)
    && lo + a + 3 <= inner <= close <= lo + b
  }

  /** [x, y) is a whole word in the code of [lo, hi), or in that of an interpolation in it. */
  ghost predicate CodeWord(code: string, lo: nat, hi: nat, x: nat, y: nat)
    requires lo <= hi <= |code|
    decreases hi - lo
  {
    || (lo <= x < y <= hi && WordAt(code[lo..hi], x - lo, y - lo))
    || exists a: nat, b: nat, inner: nat, close: nat ::
         Nests(code, lo, hi, a, b, inner, close) && CodeWord(code, inner, close, x, y)
  }

  /** The character at i stands in the code of [lo, hi), or in that of an interpolation in it. */
  ghost predicate CodeAt(code: string, lo: nat, hi: nat, i: nat)
    requires lo <= hi <= |code|
    decreases hi - lo
  {
    || (lo <= i < hi && (Context(code[lo..hi], i - lo) == InCode || Context(code[lo..hi], i - lo) == InWord))
    || exists a: nat, b: nat, inner: nat, close: nat ::
         Nests(code, lo, hi, a, b, inner, close) && inner <= i < close && CodeAt(code, inner, close, i)
  }

  // ----- the occurrences are the words ----------------------------------------------------------

  lemma {:induction false} SubSpansIn(code: string, inner: nat, close: nat, toks: seq<Tok>, sp: Span)
    ensures sp in SubSpans(code, inner, close, toks) <==> exists t :: t in toks && sp in TokSpans(code, inner, close, t)
    decreases |toks|
  {
    hide TokSpans;
    if toks != [] {
      var first, rest := TokSpans(code, inner, close, toks[0]), SubSpans(code, inner, close, toks[1..]);
      SubSpansIn(code, inner, close, toks[1..], sp);
      assert SubSpans(code, inner, close, toks) == first + rest;
      assert sp in first + rest <==> sp in first || sp in rest;
      assert toks[0] in toks && forall t :: t in toks <==> t == toks[0] || t in toks[1..];
      if t :| t in toks[1..] && sp in TokSpans(code, inner, close, t) {
        assert t in toks;
      }
    }
  }

  /** What the tokens of [lo, hi) hold. */
  ghost predicate Held(code: string, lo: nat, hi: nat, x: nat, y: nat)
    requires lo <= hi <= |code|
  {
    Span(x, y) in SubSpans(code, lo, hi, Lex(code[lo..hi], 0))
  }

  lemma HeldInTokens(code: string, lo: nat, hi: nat, x: nat, y: nat)
    requires lo <= hi <= |code|
    ensures Held(code, lo, hi, x, y)
            <==> exists t :: t in Lex(code[lo..hi], 0) && Span(x, y) in TokSpans(code, lo, hi, t)
  {
    hide Lex, TokSpans;
    SubSpansIn(code, lo, hi, Lex(code[lo..hi], 0), Span(x, y));
  }

  lemma WordHeld(code: string, lo: nat, hi: nat, t: Tok, x: nat, y: nat)
    requires lo <= hi <= |code| && t.kind == Ident && t in Lex(code[lo..hi], 0)
    ensures Span(x, y) in TokSpans(code, lo, hi, t) <==> x == lo + t.a && y == lo + t.b
    ensures WordAt(code[lo..hi], t.a, t.b)
  {
    WordsExactly(code[lo..hi], t.a, t.b);
    hide Lex, Context;
    assert t == Tok(Ident, t.a, t.b);
  }

  lemma TemplateHeld(code: string, lo: nat, hi: nat, t: Tok, x: nat, y: nat)
    requires lo <= hi <= |code| && t.kind == Tpl && TokenIs(code[lo..hi], t)
    ensures Span(x, y) in TokSpans(code, lo, hi, t) <==> Span(x, y) in InterpSpans(code, lo + t.a + 1, lo + t.b)
  {
    TemplateStarts(code[lo..hi], t);
    assert code[lo..hi][t.a] == code[lo + t.a];
    hide Context, InterpSpans, StartOf;
  }

  lemma TemplateStarts(s: string, t: Tok)
    requires t.kind == Tpl && TokenIs(s, t)
    ensures t.a < t.b <= |s| && s[t.a] == '`'
  {
    hide Context, LiteralEnd;
  }

  /** The words that the tokens of a stretch of code hold are exactly its code words. */
  lemma {:induction false} HeldExactly(code: string, lo: nat, hi: nat, x: nat, y: nat)
    requires lo <= hi <= |code|
    ensures Held(code, lo, hi, x, y) <==> CodeWord(code, lo, hi, x, y)
    decreases hi - lo, 1, 0
  {
    hide *;
    HeldInTokens(code, lo, hi, x, y);
    if Held(code, lo, hi, x, y) {
      var t :| t in Lex(code[lo..hi], 0) && Span(x, y) in TokSpans(code, lo, hi, t);
      TokenHeld(code, lo, hi, t, x, y);
    }
    if CodeWord(code, lo, hi, x, y) {
      CodeWordCases(code, lo, hi, x, y);
      if lo <= x < y <= hi && WordAt(code[lo..hi], x - lo, y - lo) {
        WordsExactly(code[lo..hi], x - lo, y - lo);
        WordHeld(code, lo, hi, Tok(Ident, x - lo, y - lo), x, y);
      } else {
        var a: nat, b: nat, inner: nat, close: nat :|
          Nests(code, lo, hi, a, b, inner, close) && inner <= close <= |code| && CodeWord(code, inner, close, x, y);
        NestsIs(code, lo, hi, a, b, inner, close);
        LexExactly(code[lo..hi], Tok(Tpl, a, b));
        TemplateHeld(code, lo, hi, Tok(Tpl, a, b), x, y);
        InterpExactly(code, lo + a + 1, lo + b, x, y);
      }
    }
  }

  lemma CodeWordCases(code: string, lo: nat, hi: nat, x: nat, y: nat)
    requires lo <= hi <= |code| && CodeWord(code, lo, hi, x, y)
    ensures || (lo <= x < y <= hi && WordAt(code[lo..hi], x - lo, y - lo))
            || exists a: nat, b: nat, inner: nat, close: nat ::
                 Nests(code, lo, hi, a, b, inner, close) && inner <= close <= |code| && CodeWord(code, inner, close, x, y)
  {
    hide WordAt, TokenIs, Interpolation;
  }

  lemma NestsIs(code: string, lo: nat, hi: nat, a: nat, b: nat, inner: nat, close: nat)
    requires lo <= hi <= |code| && Nests(code, lo, hi, a, b, inner, close)
    ensures a < b <= hi - lo && TokenIs(code[lo..hi], Tok(Tpl, a, b)) && Interpolation(code, lo + a + 1, lo + b, inner, close)
    ensures close - inner < hi - lo && b - a - 1 < hi - lo && lo + a + 3 <= inner <= close <= lo + b
  {
    hide TokenIs, Interpolation;
  }

  lemma WordIsCodeWord(code: string, lo: nat, hi: nat, a: nat, b: nat)
    requires lo <= hi <= |code| && a < b <= hi - lo && WordAt(code[lo..hi], a, b)
    ensures CodeWord(code, lo, hi, lo + a, lo + b)
  {
    hide WordAt;
  }

  lemma NestedIsCodeWord(code: string, lo: nat, hi: nat, t: Tok, inner: nat, close: nat, x: nat, y: nat)
    requires lo <= hi <= |code| && t.kind == Tpl && t.a < t.b <= hi - lo && TokenIs(code[lo..hi], t)
    requires Interpolation(code, lo + t.a + 1, lo + t.b, inner, close)
    requires inner <= close <= |code| && CodeWord(code, inner, close, x, y)
    ensures CodeWord(code, lo, hi, x, y)
  {
    InterpolationInside(code, lo + t.a + 1, lo + t.b, inner, close);
    hide TokenIs, Interpolation, WordAt;
    assert t == Tok(Tpl, t.a, t.b);
    assert Nests(code, lo, hi, t.a, t.b, inner, close);
  }

  lemma TokenInside(s: string, t: Tok)
    requires TokenIs(s, t)
    ensures t.a < t.b <= |s|
  {
    hide Context, StartOf;
  }

  lemma {:induction false} TokenHeld(code: string, lo: nat, hi: nat, t: Tok, x: nat, y: nat)
    requires lo <= hi <= |code| && t in Lex(code[lo..hi], 0) && Span(x, y) in TokSpans(code, lo, hi, t)
    ensures CodeWord(code, lo, hi, x, y)
    decreases hi - lo, 0, 0
  {
    hide *;
    OnlyTwoKinds(code, lo, hi, t, x, y);
    LexExactly(code[lo..hi], t);
    TokenInside(code[lo..hi], t);
    if t.kind == Ident {
      WordHeld(code, lo, hi, t, x, y);
      WordIsCodeWord(code, lo, hi, t.a, t.b);
    } else {
      TemplateHeld(code, lo, hi, t, x, y);
      InterpExactly(code, lo + t.a + 1, lo + t.b, x, y);
      var inner: nat, close: nat :| Interpolation(code, lo + t.a + 1, lo + t.b, inner, close) && inner <= close <= |code|
        && CodeWord(code, inner, close, x, y);
      NestedIsCodeWord(code, lo, hi, t, inner, close, x, y);
    }
  }

  lemma OnlyTwoKinds(code: string, lo: nat, hi: nat, t: Tok, x: nat, y: nat)
    requires Span(x, y) in TokSpans(code, lo, hi, t)
    ensures t.kind == Ident || t.kind == Tpl
  {
  }

  lemma {:induction false} InterpExactly(code: string, j: nat, b: nat, x: nat, y: nat)
    requires b <= |code|
    ensures Span(x, y) in InterpSpans(code, j, b)
            <==> exists inner: nat, close: nat :: Interpolation(code, j, b, inner, close) && inner <= close <= |code|
                                                  && CodeWord(code, inner, close, x, y)
    decreases b - j, 2, 0
  {
    hide CodeWord, SubSpans, InterpClose;
    if j >= b {
    } else if code[j] == '\\' && j + 1 < b {
      InterpExactly(code, j + 2, b, x, y);
    } else if code[j] == '`' {
    } else if code[j] == '$' && At(code, j + 1, '{') {
      var brace := InterpClose(code, j + 2, 1, Code);
      if brace.Some? && brace.value <= b {
        BraceInside(code, j + 2);
        HeldExactly(code, j + 2, brace.value, x, y);
        InterpExactly(code, brace.value + 1, b, x, y);
      }
    } else {
      InterpExactly(code, j + 1, b, x, y);
    }
  }

  lemma BraceInside(code: string, pos: nat)
    ensures var r := InterpClose(code, pos, 1, Code); r.Some? ==> pos <= r.value < |code|
  {
  }

  /** The occurrences that a plan may touch are exactly the words in code, at any depth. */
  lemma OccursExactly(code: string, x: nat, y: nat)
    ensures Occurs(code, Lex(code, 0), x, y) <==> CodeWord(code, 0, |code|, x, y)
  {
    assert code[0..|code|] == code;
    HeldExactly(code, 0, |code|, x, y);
    HeldInTokens(code, 0, |code|, x, y);
    hide Held, CodeWord, Lex, TokSpans, Owns;
    var toks := Lex(code, 0);
    LexIsOk(code, 0);
    forall t | t in toks ensures Owns(code, t, x, y) <==> Span(x, y) in TokSpans(code, 0, |code|, t) {
      OwnsIs(code, toks, t, x, y);
    }
  }

  lemma OwnsIs(code: string, toks: seq<Tok>, t: Tok, x: nat, y: nat)
    requires TokensOk(code, toks, 0) && t in toks
    ensures Owns(code, t, x, y) <==> Span(x, y) in TokSpans(code, 0, |code|, t)
  {
    var k :| 0 <= k < |toks| && toks[k] == t;
    assert k < |toks| - 1 ==> TokenShape(code, t);
    hide TemplateSpans;
  }

  // ----- what is not code -----------------------------------------------------------------------

  /** Every character of a code word is code. */
  lemma {:induction false} WordIsCode(code: string, lo: nat, hi: nat, x: nat, y: nat, i: nat)
    requires lo <= hi <= |code| && CodeWord(code, lo, hi, x, y) && x <= i < y
    ensures lo <= i < hi && CodeAt(code, lo, hi, i)
    decreases hi - lo
  {
    hide Context, Interpolation, TokenIs;
    if lo <= x < y <= hi && WordAt(code[lo..hi], x - lo, y - lo) {
      WordInside(code[lo..hi], x - lo, y - lo);
      assert i > x ==> x - lo < i - lo < y - lo;
    } else {
      var a: nat, b: nat, inner: nat, close: nat :|
        Nests(code, lo, hi, a, b, inner, close) && CodeWord(code, inner, close, x, y);
      WordIsCode(code, inner, close, x, y, i);
    }
  }

  /** Inside strings and comments. */
  predicate Quiet(ctx: Ctx) { ctx.InQuote? || ctx.Escaped? || ctx.InLine? || ctx.BlockOpens? || ctx.InBlock? || ctx.BlockCloses? }

  lemma LiteralPositions(s: string, t: Tok, i: nat)
    requires t.kind == Tpl && TokenIs(s, t) && t.a < i < t.b
    ensures Context(s, i).InLiteral?
  {
    TemplateStarts(s, t);
    hide TokenIs, TemplateEnd, Context;
    TemplateOpens(s, t);
    LiteralStretch(s, t.a + 1, LiteralEnd(s, t.a).value, i);
  }

  lemma TemplateOpens(s: string, t: Tok)
    requires t.kind == Tpl && TokenIs(s, t) && t.a < |s| && s[t.a] == '`'
    ensures Context(s, t.a) == InCode && LiteralEnd(s, t.a).Some?
    ensures var e := LiteralEnd(s, t.a).value;
            After(s, t.a, Context(s, t.a)) == InLiteral(e) && t.a < e <= |s| && t.b <= e
  {
    hide Context, TemplateEnd;
    var e := LiteralEnd(s, t.a).value;
    assert t.a < e <= |s| by {
      TemplateEndInside(s, t.a + 1);
    }
    if e < t.b {
      LiteralRuns(s, t.a + 1, e);
    }
  }

  lemma TemplateEndInside(s: string, i: nat)
    ensures TemplateEnd(s, i).Some? ==> i < TemplateEnd(s, i).value <= |s|
  {
  }

  lemma {:induction false} LiteralStretch(s: string, i: nat, end: nat, k: nat)
    requires 0 < i <= k < end <= |s| && After(s, i - 1, Context(s, i - 1)) == InLiteral(end)
    ensures Context(s, k) == InLiteral(end)
    decreases k - i
  {
    hide After, Context, Entered;
    ContextStep(s, i - 1);
    LiteralGoesOn(s, i, end);
    if i < k {
      LiteralStretch(s, i + 1, end, k);
    }
  }

  /** The characters of strings and comments are not code. */
  lemma QuietIsNoCode(code: string, i: nat)
    requires i < |code| && Quiet(Context(code, i))
    ensures !CodeAt(code, 0, |code|, i)
  {
    assert code[0..|code|] == code;
    hide Context, Interpolation, TokenIs;
    forall a: nat, b: nat, inner: nat, close: nat | Nests(code, 0, |code|, a, b, inner, close)
      ensures !(inner <= i < close)
    {
      if a < i < b {
        LiteralPositions(code, Tok(Tpl, a, b), i);
      }
    }
  }
}
