/**
 Lexical layer of the scope-aware renamer (src/builders/JSObfuscatorScope.cpp): regular-expression and
 template-literal scanners and the tokenizer.  Every scanner is given as a function; the loops that the
 renamer runs are methods proved equal to those functions.
 */
module JsLexer {
  import opened Chars

  datatype Kind = Ident | Num | Str | Tpl | Rx | Pun | Eof

  datatype Tok = Tok(kind: Kind, a: nat, b: nat)

  datatype Span = Span(a: nat, b: nat)

  predicate IsIdentStart(c: char) { IsAlpha(c) || c == '_' || c == '$' }

  predicate IsIdentPart(c: char) { IsAlnum(c) || c == '_' || c == '$' }

  predicate At(s: string, i: nat, c: char) { i < |s| && s[i] == c }

  // ----- simple scanners ------------------------------------------------------------------------

  /** First newline at or after i, or the end. */
  function LineEnd(s: string, i: nat): (r: nat)
    ensures i <= |s| ==> i <= r <= |s|
    ensures i > |s| ==> r == i
    decreases |s| - i
  {
    if i < |s| && s[i] != '\n' then LineEnd(s, i + 1) else i
  }

  /** Where the search for the end of a block comment stops: at its closing star, or with fewer than two characters left. */
  function StarSlash(s: string, i: nat): (r: nat)
    ensures i <= r
    ensures i <= |s| ==> r <= |s|
    decreases |s| - i
  {
    if i + 1 < |s| && !(s[i] == '*' && s[i + 1] == '/') then StarSlash(s, i + 1) else i
  }

  /** End of a quoted string whose body starts at i. */
  function QuoteEnd(s: string, i: nat, q: char): (r: nat)
    requires i <= |s|
    ensures i <= r <= |s|
    decreases |s| - i
  {
    if i == |s| then i
    else if s[i] == '\\' && i + 1 < |s| then QuoteEnd(s, i + 2, q)
    else if s[i] == q then i + 1
    else QuoteEnd(s, i + 1, q)
  }

  function WhileIdent(s: string, i: nat): (r: nat)
    requires i <= |s|
    ensures i <= r <= |s|
    ensures forall k :: i <= k < r ==> IsIdentPart(s[k])
    ensures r < |s| ==> !IsIdentPart(s[r])
    decreases |s| - i
  {
    if i < |s| && IsIdentPart(s[i]) then WhileIdent(s, i + 1) else i
  }

  function WhileAlpha(s: string, i: nat): (r: nat)
    requires i <= |s|
    ensures i <= r <= |s|
    decreases |s| - i
  {
    if i < |s| && IsAlpha(s[i]) then WhileAlpha(s, i + 1) else i
  }

  function WhileHex(s: string, i: nat): (r: nat)
    requires i <= |s|
    ensures i <= r <= |s|
    decreases |s| - i
  {
    if i < |s| && IsHexDigit(s[i]) then WhileHex(s, i + 1) else i
  }

  function WhileDigit(s: string, i: nat): (r: nat)
    requires i <= |s|
    ensures i <= r <= |s|
    decreases |s| - i
  {
    if i < |s| && IsDigit(s[i]) then WhileDigit(s, i + 1) else i
  }

  function WhileDigitDot(s: string, i: nat): (r: nat)
    requires i <= |s|
    ensures i <= r <= |s|
    ensures i < |s| && (IsDigit(s[i]) || s[i] == '.') ==> i < r
    decreases |s| - i
  {
    if i < |s| && (IsDigit(s[i]) || s[i] == '.') then WhileDigitDot(s, i + 1) else i
  }

  /** End of a numeric literal that starts at i (hexadecimal, or decimal with fraction and exponent). */
  function NumberEnd(s: string, i: nat): (r: nat)
    requires i < |s| && (IsDigit(s[i]) || s[i] == '.')
    ensures i < r <= |s|
  {
    if s[i] == '0' && i + 1 < |s| && (s[i + 1] == 'x' || s[i + 1] == 'X') then WhileHex(s, i + 2)
    else
      var j := WhileDigitDot(s, i);
      if j < |s| && (s[j] == 'e' || s[j] == 'E') then
        var k := if j + 1 < |s| && (s[j + 1] == '+' || s[j + 1] == '-') then j + 2 else j + 1;
        WhileDigit(s, k)
      else j
  }

  // ----- regular expression literals ------------------------------------------------------------

  function RegexBody(s: string, i: nat, inClass: bool): (r: Option<nat>)
    ensures r.Some? ==> i < r.value <= |s|
    decreases |s| - i
  {
    if i >= |s| then None
    else if s[i] == '\\' then (if i + 2 > |s| then None else RegexBody(s, i + 2, inClass))
    else if s[i] == '[' then RegexBody(s, i + 1, true)
    else if s[i] == ']' && inClass then RegexBody(s, i + 1, false)
    else if s[i] == '/' && !inClass then Some(WhileAlpha(s, i + 1))
    else RegexBody(s, i + 1, inClass)
  }

  predicate RegexAllowedAfter(c: char)
  {
    c in "({[,;:?=!&|+-*%^~<>"
  }

  const RegexPrefixKeywords: set<string> :=
    {"return", "throw", "case", "delete", "void", "typeof", "instanceof", "in", "of"}

  /** One past the last character before i that is not white space (0 when there is none). */
  function BackOverSpace(s: string, i: nat): (r: nat)
    requires i <= |s|
    ensures r <= i
    ensures r > 0 ==> !IsSpace(s[r - 1])
  {
    if i > 0 && IsSpace(s[i - 1]) then BackOverSpace(s, i - 1) else i
  }

  /** Start of the run of identifier characters that ends at i. */
  function BackOverIdent(s: string, i: nat): (r: nat)
    requires i <= |s|
    ensures r <= i
  {
    if i > 0 && IsIdentPart(s[i - 1]) then BackOverIdent(s, i - 1) else i
  }

  predicate CanStartRegex(s: string, slash: nat)
    requires slash <= |s|
  {
    var j := BackOverSpace(s, slash);
    if j == 0 then true
    else
      var prev := s[j - 1];
      if (prev == '+' || prev == '-') && j > 1 && s[j - 2] == prev then false
      else if RegexAllowedAfter(prev) then true
      else (IsAlpha(prev) || prev == '_' || prev == '$') && s[BackOverIdent(s, j)..j] in RegexPrefixKeywords
  }

  // ----- template literals ----------------------------------------------------------------------

  datatype Mode = Code | Dq | Sq | Bt

  /**
   Position of the brace that closes a template interpolation, scanning from pos with `depth` open braces.
   Strings, comments and nested templates (with their own interpolations) are skipped.
   */
  function InterpClose(s: string, pos: nat, depth: nat, mode: Mode): (r: Option<nat>)
    requires depth >= 1
    ensures r.Some? ==> pos <= r.value < |s| && s[r.value] == '}'
    decreases |s| - pos
  {
    if pos >= |s| then None
    else
      var c := s[pos];
      match mode
      case Code =>
        if c == '/' && At(s, pos + 1, '/') then InterpClose(s, LineEnd(s, pos + 2), depth, Code)
        else if c == '/' && At(s, pos + 1, '*') then
          var p := StarSlash(s, pos + 2);
          InterpClose(s, if p + 1 < |s| then p + 2 else |s|, depth, Code)
        else if c == '"' then InterpClose(s, pos + 1, depth, Dq)
        else if c == '\'' then InterpClose(s, pos + 1, depth, Sq)
        else if c == '`' then InterpClose(s, pos + 1, depth, Bt)
        else if c == '{' then InterpClose(s, pos + 1, depth + 1, Code)
        else if c == '}' then (if depth == 1 then Some(pos) else InterpClose(s, pos + 1, depth - 1, Code))
        else InterpClose(s, pos + 1, depth, Code)
      case Dq =>
        if c == '\\' && pos + 1 < |s| then InterpClose(s, pos + 2, depth, Dq)
        else InterpClose(s, pos + 1, depth, if c == '"' then Code else Dq)
      case Sq =>
        if c == '\\' && pos + 1 < |s| then InterpClose(s, pos + 2, depth, Sq)
        else InterpClose(s, pos + 1, depth, if c == '\'' then Code else Sq)
      case Bt =>
        if c == '\\' && pos + 1 < |s| then InterpClose(s, pos + 2, depth, Bt)
        else if c == '`' then InterpClose(s, pos + 1, depth, Code)
        else if c == '$' && At(s, pos + 1, '{') then
          var inner := InterpClose(s, pos + 2, 1, Code);
          if inner.None? then None else InterpClose(s, inner.value + 1, depth, Bt)
        else InterpClose(s, pos + 1, depth, Bt)
  }

  /** The scan of templateInterpolationClose, flags and all; it recurses for nested interpolations. */
  method TemplateInterpolationClose(s: string, innerBegin: nat) returns (r: Option<nat>)
    ensures r == InterpClose(s, innerBegin, 1, Code)
    decreases |s| - innerBegin
  {
    var pos, depth := innerBegin, 1;
    var inDq, inSq, inBt := false, false, false;
    while pos < |s|
      invariant innerBegin <= pos && depth >= 1
      invariant !(inDq && inSq) && !(inDq && inBt) && !(inSq && inBt)
      invariant InterpClose(s, innerBegin, 1, Code)
             == InterpClose(s, pos, depth, if inDq then Dq else if inSq then Sq else if inBt then Bt else Code)
      decreases |s| - pos
    {
      var c := s[pos];
      if !inDq && !inSq && !inBt {
        if c == '/' && pos + 1 < |s| && s[pos + 1] == '/' {
          pos := LineEnd(s, pos + 2);
        } else if c == '/' && pos + 1 < |s| && s[pos + 1] == '*' {
          var p := StarSlash(s, pos + 2);
          pos := if p + 1 < |s| then p + 2 else |s|;
        } else if c == '"' {
          inDq, pos := true, pos + 1;
        } else if c == '\'' {
          inSq, pos := true, pos + 1;
        } else if c == '`' {
          inBt, pos := true, pos + 1;
        } else if c == '{' {
          depth, pos := depth + 1, pos + 1;
        } else if c == '}' {
          depth := depth - 1;
          if depth == 0 {
            return Some(pos);
          }
          pos := pos + 1;
        } else {
          pos := pos + 1;
        }
      } else if inDq {
        if c == '\\' && pos + 1 < |s| {
          pos := pos + 2;
        } else {
          if c == '"' {
            inDq := false;
          }
          pos := pos + 1;
        }
      } else if inSq {
        if c == '\\' && pos + 1 < |s| {
          pos := pos + 2;
        } else {
          if c == '\'' {
            inSq := false;
          }
          pos := pos + 1;
        }
      } else {
        if c == '\\' && pos + 1 < |s| {
          pos := pos + 2;
        } else if c == '`' {
          inBt, pos := false, pos + 1;
        } else if c == '$' && pos + 1 < |s| && s[pos + 1] == '{' {
          pos := pos + 2;
          var closeInner := TemplateInterpolationClose(s, pos);
          if closeInner.None? {
            return None;
          }
          pos := closeInner.value + 1;
        } else {
          pos := pos + 1;
        }
      }
    }
    return None;
  }

  /** tryConsumeNestedTemplateLiteral, from one past its opening backtick. */
  function NestedTemplateEnd(s: string, pos: nat): (r: Option<nat>)
    ensures r.Some? ==> pos < r.value <= |s|
    decreases |s| - pos
  {
    if pos >= |s| then None
    else if s[pos] == '\\' && pos + 1 < |s| then NestedTemplateEnd(s, pos + 2)
    else if s[pos] == '`' then Some(pos + 1)
    else if s[pos] == '$' && At(s, pos + 1, '{') then
      var close := InterpClose(s, pos + 2, 1, Code);
      if close.None? then None else NestedTemplateEnd(s, close.value + 1)
    else NestedTemplateEnd(s, pos + 1)
  }

  function WhileIn(s: string, i: nat, cs: string): (r: nat)
    requires i <= |s|
    ensures i <= r <= |s|
    decreases |s| - i
  {
    if i < |s| && s[i] in cs then WhileIn(s, i + 1, cs) else i
  }

  const StatementKeywords: seq<string> :=
    ["function", "const", "let", "var", "class", "async", "export", "import", "return", "throw", "debugger"]

  /** Does the word at j start a top-level statement: one of StatementKeywords, ended by a non-identifier character or the end? */
  predicate StatementWordAt(s: string, j: nat)
  {
    exists k :: 0 <= k < |StatementKeywords|
             && var kw := StatementKeywords[k];
                j + |kw| <= |s| && s[j..j + |kw|] == kw && (j + |kw| == |s| || !IsIdentPart(s[j + |kw|]))
  }

  predicate BacktickLooksLikeTerminator(s: string, tick: nat)
    requires tick < |s|
  {
    var j := WhileIn(s, tick + 1, " \t");
    if j >= |s| then true
    else if s[j] in ";,)}]:" then true
    else if s[j] == '\n' || s[j] == '\r' then StatementWordAt(s, WhileIn(s, j, "\n\r \t"))
    else false
  }

  /** lexTemplateLiteralEnd, from one past the opening backtick; None when unterminated. */
  function TemplateEnd(s: string, i: nat): (r: Option<nat>)
    ensures r.Some? ==> i < r.value <= |s|
    decreases |s| - i
  {
    if i >= |s| then None
    else if s[i] == '\\' && i + 1 < |s| then TemplateEnd(s, i + 2)
    else if s[i] == '`' then
      if At(s, i + 1, '`') then TemplateEnd(s, i + 2)
      else if BacktickLooksLikeTerminator(s, i) then Some(i + 1)
      else
        var nested := NestedTemplateEnd(s, i + 1);
        if nested.Some? then TemplateEnd(s, nested.value) else Some(i + 1)
    else if s[i] == '$' && At(s, i + 1, '{') then
      var close := InterpClose(s, i + 2, 1, Code);
      if close.None? then None else TemplateEnd(s, close.value + 1)
    else TemplateEnd(s, i + 1)
  }

  // ----- tokens ---------------------------------------------------------------------------------

  datatype LexStep = Skip(next: nat) | Emit(kind: Kind, next: nat)

  /** What the tokenizer does at position i: skip to `next`, or emit the token [i, next). */
  function Step(s: string, i: nat): (r: LexStep)
    requires i < |s|
    ensures i < r.next <= |s|
    ensures r.Emit? ==> TokenShape(s, Tok(r.kind, i, r.next))
  {
    var c := s[i];
    if IsSpace(c) then Skip(i + 1)
    else if c == '/' && At(s, i + 1, '/') then Skip(LineEnd(s, i + 2))
    else if c == '/' && At(s, i + 1, '*') then
      var p := StarSlash(s, i + 2);
      Skip(if p + 1 < |s| then p + 2 else p)
    else if c == '"' || c == '\'' then Emit(Str, QuoteEnd(s, i + 1, c))
    else if c == '`' then
      var e := TemplateEnd(s, i + 1);
      Emit(Tpl, if e.Some? then e.value else |s|)
    else if c == '/' && CanStartRegex(s, i) then
      var e := RegexBody(s, i + 1, false);
      if e.Some? then Emit(Rx, e.value) else Emit(Pun, i + 1)
    else if IsIdentStart(c) then Emit(Ident, WhileIdent(s, i + 1))
    else if IsDigit(c) || (c == '.' && i + 1 < |s| && IsDigit(s[i + 1])) then Emit(Num, NumberEnd(s, i))
    else Emit(Pun, i + 1)
  }

  /** The text under a token has the form its kind says. */
  predicate TokenShape(s: string, t: Tok)
  {
    t.a < t.b <= |s| && t.kind != Eof
    && (t.kind == Ident ==> IsIdentifierText(s, t.a, t.b))
    && (t.kind == Pun ==> t.b == t.a + 1)
    && (t.kind == Tpl ==> s[t.a] == '`')
  }

  predicate IsIdentifierText(s: string, a: nat, b: nat)
  {
    a < b <= |s| && IsIdentStart(s[a]) && forall k :: a <= k < b ==> IsIdentPart(s[k])
  }

  function Lex(s: string, i: nat): (toks: seq<Tok>)
    requires i <= |s|
    ensures |toks| > 0
    decreases |s| - i
  {
    if i == |s| then [Tok(Eof, |s|, |s|)]
    else
      var st := Step(s, i);
      if st.Skip? then Lex(s, st.next) else [Tok(st.kind, i, st.next)] + Lex(s, st.next)
  }

  /** Token lists the renamer accepts: in source order, apart from each other, well-shaped, closed by one Eof at the end. */
  predicate TokensOk(s: string, toks: seq<Tok>, from: nat)
  {
    |toks| > 0
    && toks[|toks| - 1] == Tok(Eof, |s|, |s|)
    && (forall k :: 0 <= k < |toks| - 1 ==> TokenShape(s, toks[k]))
    && (forall k :: 0 <= k < |toks| ==> from <= toks[k].a)
    && (forall j, k :: 0 <= j < k < |toks| ==> toks[j].b <= toks[k].a)
  }

  lemma OneMoreToken(s: string, t: Tok, rest: seq<Tok>)
    requires TokenShape(s, t) && TokensOk(s, rest, t.b)
    ensures TokensOk(s, [t] + rest, t.a)
  {
    var toks := [t] + rest;
    assert forall k :: 1 <= k < |toks| ==> toks[k] == rest[k - 1];
    hide TokenShape;
  }

  lemma TokensFrom(s: string, toks: seq<Tok>, from: nat, i: nat)
    requires TokensOk(s, toks, from) && i <= from
    ensures TokensOk(s, toks, i)
  {
    hide TokenShape;
  }

  lemma {:induction false} LexIsOk(s: string, i: nat)
    requires i <= |s|
    ensures TokensOk(s, Lex(s, i), i)
    decreases |s| - i
  {
    if i < |s| {
      hide Step, TokenShape, TokensOk;
      var st := Step(s, i);
      LexIsOk(s, st.next);
      if st.Emit? {
        OneMoreToken(s, Tok(st.kind, i, st.next), Lex(s, st.next));
      } else {
        TokensFrom(s, Lex(s, st.next), st.next, i);
      }
    }
  }

  method LexAll(s: string) returns (out: seq<Tok>)
    ensures out == Lex(s, 0)
    ensures TokensOk(s, out, 0)
  {
    out := [];
    var i := 0;
    while i < |s|
      invariant i <= |s|
      invariant out + Lex(s, i) == Lex(s, 0)
    {
      var st := Step(s, i);
      if st.Emit? {
        assert out + Lex(s, i) == (out + [Tok(st.kind, i, st.next)]) + Lex(s, st.next);
        out := out + [Tok(st.kind, i, st.next)];
      }
      i := st.next;
    }
    out := out + [Tok(Eof, |s|, |s|)];
    LexIsOk(s, 0);
  }
}
