/**
 What each position of a JavaScript text is part of, character by character, and the tokens that follow from it
 (lexAll in src/builders/JSObfuscatorScope.cpp:516-615).
 */
module JsContext {
  import opened Chars
  import opened JsLexer

  // ----- contexts -------------------------------------------------------------------------------

  /** Code, inside a word, inside a string, after a backslash in a string, inside a line comment, at the star that opens
      a block comment, inside it, at the slash that closes it, and inside a literal that ends at `end`. */
  datatype Ctx =
    | InCode
    | InWord
    | InQuote(quote: char)
    | Escaped(quote: char)
    | InLine
    | BlockOpens
    | InBlock
    | BlockCloses
    | InLiteral(end: nat)

  /** The end of the template, regular expression or number that starts in code at i. */
  function LiteralEnd(s: string, i: nat): Option<nat>
    requires i < |s|
  {
    if s[i] == '`' then Some(if TemplateEnd(s, i + 1).Some? then TemplateEnd(s, i + 1).value else |s|)
    else if s[i] == '/' then if CanStartRegex(s, i) then RegexBody(s, i + 1, false) else None
    else if '0' <= s[i] <= '9' || (s[i] == '.' && i + 1 < |s| && '0' <= s[i + 1] <= '9') then Some(NumberEnd(s, i))
    else None
  }

  /** What the character at i, itself in this context, leads to. */
  function After(s: string, i: nat, ctx: Ctx): Ctx
    requires i < |s|
  {
    match ctx
    case InCode =>
      if s[i] == '/' && At(s, i + 1, '/') then InLine
      else if s[i] == '/' && At(s, i + 1, '*') then BlockOpens
      else if s[i] == '"' then InQuote('"')
      else if s[i] == '\'' then InQuote('\'')
      else if LiteralEnd(s, i).Some? then InLiteral(LiteralEnd(s, i).value)
      else if IsIdentStart(s[i]) then InWord
      else InCode
    case InWord => InWord
    case InQuote(q) => if s[i] == '\\' && i + 1 < |s| then Escaped(q) else if s[i] == q then InCode else InQuote(q)
    case Escaped(q) => InQuote(q)
    case InLine => InLine
    case BlockOpens => InBlock
    case InBlock => if s[i] == '*' && At(s, i + 1, '/') then BlockCloses else InBlock
    case BlockCloses => InCode
    case InLiteral(end) => InLiteral(end)
  }

  /** A word ends before a character that is not part of one, a line comment before the end of its line, and a literal at
      its end. The last character of a text that ends inside a block comment counts as code. */
  function Entered(s: string, i: nat, ctx: Ctx): Ctx
    requires i <= |s|
  {
    match ctx
    case InWord => if i < |s| && IsIdentPart(s[i]) then InWord else InCode
    case InLine => if At(s, i, '\n') then InCode else InLine
    case InBlock => if i + 1 >= |s| then InCode else InBlock
    case InLiteral(end) => if i >= end then InCode else InLiteral(end)
    case _ => ctx
  }

  function Context(s: string, i: nat): Ctx
    requires i <= |s|
  {
    if i == 0 then InCode else Entered(s, i, After(s, i - 1, Context(s, i - 1)))
  }

  /** The kind of token that starts at a code position, if one does. */
  function StartOf(s: string, i: nat): Option<Kind>
    requires i < |s|
  {
    if s[i] == ' ' || '\t' <= s[i] <= '\r' then None
    else if s[i] == '/' && (At(s, i + 1, '/') || At(s, i + 1, '*')) then None
    else if s[i] == '"' || s[i] == '\'' then Some(Str)
    else if s[i] == '`' then Some(Tpl)
    else if LiteralEnd(s, i).Some? then Some(if s[i] == '/' then Rx else Num)
    else if 'a' <= s[i] <= 'z' || 'A' <= s[i] <= 'Z' || s[i] == '_' || s[i] == '$' then Some(Ident)
    else Some(Pun)
  }

  /** A token reaches from a code position at which one starts to the next code position or the end. */
  predicate TokenIs(s: string, t: Tok)
  {
    && t.a < t.b <= |s| && Context(s, t.a) == InCode && StartOf(s, t.a) == Some(t.kind)
    && (forall i :: t.a < i < t.b ==> Context(s, i) != InCode)
    && (t.b == |s| || Context(s, t.b) == InCode)
  }

  // ----- runs of one context --------------------------------------------------------------------

  /** From i on nothing is code before `next`, and there is code again at `next` unless it is the end. */
  predicate RunsTo(s: string, i: nat, next: nat)
  {
    && i <= next <= |s| && (forall k :: i <= k < next ==> Context(s, k) != InCode)
    && (next < |s| ==> Context(s, next) == InCode)
  }

  lemma ContextStep(s: string, i: nat)
    requires i < |s|
    ensures Context(s, i + 1) == Entered(s, i + 1, After(s, i, Context(s, i)))
  {
  }

  lemma RunOn(s: string, i: nat, next: nat)
    requires i < |s| && Context(s, i) != InCode && RunsTo(s, i + 1, next)
    ensures RunsTo(s, i, next)
  {
    hide Context;
  }

  lemma {:induction false} LineRuns(s: string, i: nat)
    requires 0 < i <= |s| && After(s, i - 1, Context(s, i - 1)) == InLine
    ensures RunsTo(s, i, LineEnd(s, i))
    decreases |s| - i
  {
    ContextStep(s, i - 1);
    hide Context;
    if i < |s| && s[i] != '\n' {
      LineRuns(s, i + 1);
      RunOn(s, i, LineEnd(s, i));
    }
  }

  /** In a block comment. */
  lemma BlockGoesOn(s: string, i: nat)
    requires i <= |s|
    ensures Entered(s, i, InBlock) == if i + 1 >= |s| then InCode else InBlock
    ensures i + 1 < |s| && s[i] == '*' && s[i + 1] == '/' ==>
              After(s, i, InBlock) == Entered(s, i + 1, BlockCloses) == BlockCloses
              && After(s, i + 1, BlockCloses) == Entered(s, i + 2, InCode) == InCode
    ensures i + 1 < |s| && !(s[i] == '*' && s[i + 1] == '/') ==> After(s, i, InBlock) == InBlock
  {
  }

  function BlockEnd(s: string, i: nat): nat { var p := StarSlash(s, i); if p + 1 < |s| then p + 2 else p }

  lemma BlockEndStep(s: string, i: nat)
    requires i <= |s|
    ensures i + 1 >= |s| ==> BlockEnd(s, i) == i
    ensures i + 1 < |s| && s[i] == '*' && s[i + 1] == '/' ==> BlockEnd(s, i) == i + 2
    ensures i + 1 < |s| && !(s[i] == '*' && s[i + 1] == '/') ==> BlockEnd(s, i) == BlockEnd(s, i + 1)
  {
  }

  lemma {:induction false} BlockRuns(s: string, i: nat)
    requires 0 < i <= |s| && After(s, i - 1, Context(s, i - 1)) == InBlock
    ensures RunsTo(s, i, BlockEnd(s, i))
    decreases |s| - i
  {
    hide After, Context, Entered, BlockEnd;
    ContextStep(s, i - 1);
    BlockGoesOn(s, i);
    BlockEndStep(s, i);
    if i + 1 < |s| {
      ContextStep(s, i);
      if s[i] == '*' && s[i + 1] == '/' {
        ContextStep(s, i + 1);
      } else {
        BlockRuns(s, i + 1);
        RunOn(s, i, BlockEnd(s, i));
      }
    }
  }

  lemma {:induction false} QuoteRuns(s: string, i: nat, q: char)
    requires i <= |s| && Context(s, i) == InQuote(q)
    ensures RunsTo(s, i, QuoteEnd(s, i, q))
    decreases |s| - i
  {
    hide Context;
    if i < |s| {
      ContextStep(s, i);
      if s[i] == '\\' && i + 1 < |s| {
        ContextStep(s, i + 1);
        QuoteRuns(s, i + 2, q);
        RunOn(s, i + 1, QuoteEnd(s, i, q));
        RunOn(s, i, QuoteEnd(s, i, q));
      } else if s[i] != q {
        QuoteRuns(s, i + 1, q);
        RunOn(s, i, QuoteEnd(s, i, q));
      }
    }
  }

  lemma {:induction false} WordRuns(s: string, i: nat)
    requires 0 < i <= |s| && After(s, i - 1, Context(s, i - 1)) == InWord
    ensures RunsTo(s, i, WhileIdent(s, i))
    decreases |s| - i
  {
    ContextStep(s, i - 1);
    hide Context;
    if i < |s| && IsIdentPart(s[i]) {
      WordRuns(s, i + 1);
      RunOn(s, i, WhileIdent(s, i));
    }
  }

  lemma LiteralGoesOn(s: string, i: nat, end: nat)
    requires i <= |s|
    ensures Entered(s, i, InLiteral(end)) == if i >= end then InCode else InLiteral(end)
    ensures i < |s| ==> After(s, i, InLiteral(end)) == InLiteral(end)
  {
  }

  lemma {:induction false} LiteralRuns(s: string, i: nat, end: nat)
    requires 0 < i <= end <= |s| && After(s, i - 1, Context(s, i - 1)) == InLiteral(end)
    ensures RunsTo(s, i, end)
    decreases end - i
  {
    hide After, Context, Entered;
    ContextStep(s, i - 1);
    LiteralGoesOn(s, i, end);
    if i < end {
      LiteralRuns(s, i + 1, end);
      RunOn(s, i, end);
    }
  }

  // ----- the tokens are those of the contexts ---------------------------------------------------

  /** One step of the tokenizer takes what starts here, up to the next code position. */
  lemma StepIs(s: string, i: nat)
    requires i < |s| && Context(s, i) == InCode
    ensures var st := Step(s, i);
            RunsTo(s, i + 1, st.next) && StartOf(s, i) == if st.Skip? then None else Some(st.kind)
  {
    hide *;
    if Single(s, i) {
      PlainStep(s, i);
    } else {
      OpeningStep(s, i);
    }
  }

  /** Nothing longer than one character starts here. */
  predicate Single(s: string, i: nat)
    requires i < |s|
  {
    After(s, i, InCode) == InCode
  }

  lemma PlainStep(s: string, i: nat)
    requires i < |s| && Context(s, i) == InCode && Single(s, i)
    ensures var st := Step(s, i);
            RunsTo(s, i + 1, st.next) && StartOf(s, i) == if st.Skip? then None else Some(st.kind)
  {
    ContextStep(s, i);
    hide Context, TemplateEnd, CanStartRegex, RegexBody, NumberEnd, WhileIdent;
  }

  lemma OpeningStep(s: string, i: nat)
    requires i < |s| && Context(s, i) == InCode && !Single(s, i)
    ensures var st := Step(s, i);
            RunsTo(s, i + 1, st.next) && StartOf(s, i) == if st.Skip? then None else Some(st.kind)
  {
    hide Context, RunsTo, LineEnd, StarSlash, LiteralEnd, Step, BlockEnd;
    if s[i] == '/' && At(s, i + 1, '/') {
      CommentStep(s, i);
      StepOfComment(s, i);
    } else if s[i] == '/' && At(s, i + 1, '*') {
      BlockStep(s, i);
      StepOfComment(s, i);
    } else if s[i] == '"' || s[i] == '\'' {
      QuoteStep(s, i);
    } else if LiteralEnd(s, i).Some? {
      LiteralStep(s, i);
    } else {
      WordStep(s, i);
    }
  }

  lemma StepOfComment(s: string, i: nat)
    requires i < |s| && s[i] == '/' && (At(s, i + 1, '/') || At(s, i + 1, '*'))
    ensures Step(s, i) == Skip(if At(s, i + 1, '/') then LineEnd(s, i + 2) else BlockEnd(s, i + 2))
  {
    hide LineEnd, StarSlash;
  }

  lemma QuoteStep(s: string, i: nat)
    requires i < |s| && Context(s, i) == InCode && (s[i] == '"' || s[i] == '\'')
    ensures var st := Step(s, i); RunsTo(s, i + 1, st.next) && StartOf(s, i) == Some(Str) && st.Emit? && st.kind == Str
  {
    hide *;
    QuoteOpens(s, i);
    ContextStep(s, i);
    QuoteRuns(s, i + 1, s[i]);
  }

  lemma QuoteOpens(s: string, i: nat)
    requires i < |s| && (s[i] == '"' || s[i] == '\'')
    ensures Entered(s, i + 1, After(s, i, InCode)) == InQuote(s[i])
    ensures Step(s, i) == Emit(Str, QuoteEnd(s, i + 1, s[i])) && StartOf(s, i) == Some(Str)
  {
    hide QuoteEnd, LiteralEnd, TokenShape;
  }

  lemma LiteralStep(s: string, i: nat)
    requires i < |s| && Context(s, i) == InCode && LiteralEnd(s, i).Some?
    requires !(s[i] == '/' && (At(s, i + 1, '/') || At(s, i + 1, '*'))) && s[i] != '"' && s[i] != '\''
    ensures var st := Step(s, i); RunsTo(s, i + 1, st.next) && st.Emit? && StartOf(s, i) == Some(st.kind)
  {
    hide Context, TemplateEnd, CanStartRegex, RegexBody, NumberEnd, RunsTo;
    LiteralRuns(s, i + 1, LiteralEnd(s, i).value);
  }

  lemma WordStep(s: string, i: nat)
    requires i < |s| && Context(s, i) == InCode && After(s, i, InCode) == InWord
    ensures var st := Step(s, i); RunsTo(s, i + 1, st.next) && st == Emit(Ident, st.next) && StartOf(s, i) == Some(Ident)
  {
    hide Context, TemplateEnd, CanStartRegex, RegexBody, NumberEnd, RunsTo, WhileIdent;
    WordRuns(s, i + 1);
  }

  lemma CommentStep(s: string, i: nat)
    requires i < |s| && Context(s, i) == InCode && s[i] == '/' && At(s, i + 1, '/')
    ensures RunsTo(s, i + 1, LineEnd(s, i + 2))
  {
    assert LineEnd(s, i + 1) == if s[i + 1] != '\n' then LineEnd(s, i + 2) else i + 1;
    hide Context, LineEnd, RunsTo, LiteralEnd;
    LineRuns(s, i + 1);
  }

  lemma BlockStep(s: string, i: nat)
    requires i < |s| && Context(s, i) == InCode && s[i] == '/' && At(s, i + 1, '*')
    ensures RunsTo(s, i + 1, BlockEnd(s, i + 2))
  {
    BlockOpening(s, i);
    hide *;
    ContextStep(s, i);
    ContextStep(s, i + 1);
    BlockRuns(s, i + 2);
    RunOn(s, i + 1, BlockEnd(s, i + 2));
  }

  lemma BlockOpening(s: string, i: nat)
    requires i < |s| && s[i] == '/' && At(s, i + 1, '*')
    ensures i + 2 <= |s| && Entered(s, i + 1, After(s, i, InCode)) == BlockOpens && After(s, i + 1, BlockOpens) == InBlock
  {
  }

  lemma {:induction false} LexFollows(s: string, i: nat, t: Tok)
    requires i <= |s| && (i < |s| ==> Context(s, i) == InCode) && t.kind != Eof
    ensures t in Lex(s, i) <==> i <= t.a && TokenIs(s, t)
    decreases |s| - i
  {
    hide Context, Step, StartOf;
    if i < |s| {
      StepIs(s, i);
      var st := Step(s, i);
      LexFollows(s, st.next, t);
      FirstHere(s, i, t, st);
    }
  }

  /** What TokenIs says of tokens that start at i or inside what the step takes. */
  lemma FirstHere(s: string, i: nat, t: Tok, st: LexStep)
    requires i < |s| && Context(s, i) == InCode && RunsTo(s, i + 1, st.next) && i < st.next
    requires StartOf(s, i) == if st.Skip? then None else Some(st.kind)
    ensures i <= t.a && TokenIs(s, t) <==> (st.Emit? && t == Tok(st.kind, i, st.next)) || (st.next <= t.a && TokenIs(s, t))
  {
    hide Context, StartOf;
  }

  /** The tokens of a text are exactly these. */
  lemma LexExactly(s: string, t: Tok)
    requires t.kind != Eof
    ensures t in Lex(s, 0) <==> TokenIs(s, t)
  {
    hide Lex, TokenIs;
    LexFollows(s, 0, t);
  }

  // ----- words ----------------------------------------------------------------------------------

  predicate WordStart(c: char) { 'a' <= c <= 'z' || 'A' <= c <= 'Z' || c == '_' || c == '$' }

  predicate WordPart(c: char) { WordStart(c) || '0' <= c <= '9' }

  /** A whole word that starts in code. */
  predicate WordAt(s: string, a: nat, b: nat)
  {
    && a < b <= |s| && Context(s, a) == InCode && WordStart(s[a])
    && (forall i :: a <= i < b ==> WordPart(s[i])) && (b < |s| ==> !WordPart(s[b]))
  }

  lemma {:induction false} WordPositions(s: string, i: nat, b: nat)
    requires 0 < i <= b <= |s| && After(s, i - 1, Context(s, i - 1)) == InWord
    requires (forall k :: i <= k < b ==> IsIdentPart(s[k])) && (b < |s| ==> !IsIdentPart(s[b]))
    ensures forall k :: i <= k < b ==> Context(s, k) == InWord
    ensures Context(s, b) == InCode
    decreases b - i
  {
    hide Context, After;
    ContextStep(s, i - 1);
    WordGoesOn(s, i);
    if i < b {
      WordPositions(s, i + 1, b);
    }
  }

  lemma WordGoesOn(s: string, i: nat)
    requires i <= |s|
    ensures Entered(s, i, InWord) == if i < |s| && IsIdentPart(s[i]) then InWord else InCode
    ensures i < |s| ==> After(s, i, InWord) == InWord
  {
  }

  lemma WordOpens(s: string, a: nat)
    requires a < |s| && WordStart(s[a])
    ensures After(s, a, InCode) == InWord && StartOf(s, a) == Some(Ident)
  {
  }

  lemma StartsWord(s: string, a: nat)
    requires a < |s| && StartOf(s, a) == Some(Ident)
    ensures WordStart(s[a])
  {
    hide LiteralEnd;
  }

  lemma SameParts(s: string)
    ensures forall i :: 0 <= i < |s| ==> (WordPart(s[i]) <==> IsIdentPart(s[i])) && (WordStart(s[i]) <==> IsIdentStart(s[i]))
  {
  }

  /** The end of a word that starts in code. */
  lemma WordInside(s: string, a: nat, b: nat)
    requires WordAt(s, a, b)
    ensures TokenIs(s, Tok(Ident, a, b)) && forall i :: a < i < b ==> Context(s, i) == InWord
  {
    SameParts(s);
    hide Context, After, IsIdentPart, StartOf;
    WordOpens(s, a);
    WordPositions(s, a + 1, b);
  }

  /** The identifier tokens are exactly the whole words that start in code. */
  lemma WordsExactly(s: string, a: nat, b: nat)
    ensures Tok(Ident, a, b) in Lex(s, 0) <==> WordAt(s, a, b)
  {
    hide Lex, Context, StartOf, After;
    LexExactly(s, Tok(Ident, a, b));
    if WordAt(s, a, b) {
      WordInside(s, a, b);
    }
    if TokenIs(s, Tok(Ident, a, b)) {
      StartsWord(s, a);
      var e := WhileIdent(s, a + 1);
      SameParts(s);
      hide IsIdentPart, WhileIdent;
      assert WordAt(s, a, e) by {
        WhileIdentIs(s, a + 1);
      }
      WordInside(s, a, e);
    }
  }

  lemma WhileIdentIs(s: string, i: nat)
    requires i <= |s|
    ensures var r := WhileIdent(s, i);
            i <= r <= |s| && (forall k :: i <= k < r ==> IsIdentPart(s[k])) && (r < |s| ==> !IsIdentPart(s[r]))
  {
  }

  // ----- strings --------------------------------------------------------------------------------

  /** The inside of a string: every quote of its kind has a backslash before it, as has every backslash. */
  predicate Inside(body: string, q: char)
  {
    body == ""
    || (body[0] == '\\' && |body| >= 2 && Inside(body[2..], q))
    || (body[0] != '\\' && body[0] != q && Inside(body[1..], q))
  }

  lemma {:induction false} InsideRuns(s: string, i: nat, body: string, q: char)
    requires i + |body| < |s| && s[i..i + |body|] == body && s[i + |body|] == q && Inside(body, q) && q != '\\'
    ensures QuoteEnd(s, i, q) == i + |body| + 1
    decreases |body|
  {
    if body != "" {
      assert s[i] == body[0];
      var n := if body[0] == '\\' then 2 else 1;
      assert s[i + n..i + |body|] == body[n..];
      InsideRuns(s, i + n, body[n..], q);
    }
  }

  /** A quoted text that starts in code is one string token, with either kind of quote. */
  lemma QuotedIsString(s: string, a: nat, body: string, q: char)
    requires q == '"' || q == '\''
    requires a + |body| + 2 <= |s| && s[a] == q && s[a + 1..a + 1 + |body|] == body && s[a + 1 + |body|] == q
    requires Inside(body, q) && Context(s, a) == InCode
    ensures Tok(Str, a, a + |body| + 2) in Lex(s, 0)
    ensures forall i :: a < i < a + |body| + 2 ==> Context(s, i) == InQuote(q) || Context(s, i) == Escaped(q)
  {
    InsideRuns(s, a + 1, body, q);
    hide *;
    LexExactly(s, Tok(Str, a, a + |body| + 2));
    QuoteOpens(s, a);
    ContextStep(s, a);
    QuoteStep(s, a);
    StringIs(s, a, a + |body| + 2);
    QuotePositions(s, a + 1, q);
  }

  lemma StringIs(s: string, a: nat, b: nat)
    requires a < b <= |s| && Context(s, a) == InCode && StartOf(s, a) == Some(Str) && RunsTo(s, a + 1, b)
    ensures TokenIs(s, Tok(Str, a, b))
  {
    hide Context, StartOf;
  }

  lemma {:induction false} QuotePositions(s: string, i: nat, q: char)
    requires i <= |s| && Context(s, i) == InQuote(q)
    ensures forall k :: i <= k < QuoteEnd(s, i, q) ==> Context(s, k) == InQuote(q) || Context(s, k) == Escaped(q)
    decreases |s| - i
  {
    hide Context;
    if i < |s| {
      ContextStep(s, i);
      if s[i] == '\\' && i + 1 < |s| {
        ContextStep(s, i + 1);
        QuotePositions(s, i + 2, q);
      } else if s[i] != q {
        QuotePositions(s, i + 1, q);
      }
    }
  }

  // ----- comments -------------------------------------------------------------------------------

  /** No token begins or ends inside [a, b). */
  ghost predicate NoTokenIn(s: string, a: nat, b: nat)
  {
    forall t :: t in Lex(s, 0) && t.kind != Eof ==> t.b <= a || b <= t.a
  }

  lemma {:induction false} LineEndIs(s: string, i: nat, e: nat)
    requires i <= e <= |s| && (forall k :: i <= k < e ==> s[k] != '\n') && (e < |s| ==> s[e] == '\n')
    ensures LineEnd(s, i) == e
    decreases e - i
  {
    if i < e {
      LineEndIs(s, i + 1, e);
    }
  }

  lemma {:induction false} StarSlashIs(s: string, i: nat, e: nat)
    requires i <= e && e + 2 <= |s| && s[e] == '*' && s[e + 1] == '/'
    requires forall k :: i <= k < e ==> !(s[k] == '*' && s[k + 1] == '/')
    ensures StarSlash(s, i) == e
    decreases e - i
  {
    if i < e {
      StarSlashIs(s, i + 1, e);
    }
  }

  lemma SkippedIsQuiet(s: string, a: nat, b: nat)
    requires a < b <= |s| && Context(s, a) == InCode && StartOf(s, a) == None && RunsTo(s, a + 1, b)
    ensures NoTokenIn(s, a, b)
  {
    hide Context, StartOf, Lex;
    forall t | t in Lex(s, 0) && t.kind != Eof ensures t.b <= a || b <= t.a {
      LexExactly(s, t);
    }
  }

  /** A comment that starts in code gives no token: up to the end of its line, or to the first star and slash after the
      two characters that open it. */
  lemma CommentsGiveNoToken(s: string, a: nat, e: nat)
    requires a + 2 <= e <= |s| && s[a] == '/' && Context(s, a) == InCode
    requires || (s[a + 1] == '/' && (forall k :: a + 2 <= k < e ==> s[k] != '\n') && (e < |s| ==> s[e] == '\n'))
             || (s[a + 1] == '*' && a + 4 <= e && s[e - 2] == '*' && s[e - 1] == '/'
                 && forall k :: a + 2 <= k < e - 2 ==> !(s[k] == '*' && s[k + 1] == '/'))
    ensures NoTokenIn(s, a, e)
    ensures forall i :: a < i < e ==> Context(s, i) != InCode
  {
    if s[a + 1] == '/' {
      LineEndIs(s, a + 2, e);
    } else {
      StarSlashIs(s, a + 2, e - 2);
      assert BlockEnd(s, a + 2) == e;
    }
    CommentStarts(s, a);
    hide Context, StartOf, LineEnd, StarSlash, BlockEnd, NoTokenIn;
    if s[a + 1] == '/' {
      CommentStep(s, a);
    } else {
      BlockStep(s, a);
    }
    SkippedIsQuiet(s, a, e);
  }

  lemma CommentStarts(s: string, a: nat)
    requires a + 2 <= |s| && s[a] == '/' && (s[a + 1] == '/' || s[a + 1] == '*')
    ensures StartOf(s, a) == None
  {
  }
}
