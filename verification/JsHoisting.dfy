/**
 What the bound on local names says of small programs: a function that is called before it is declared, and a
 variable that is read by a later constant, are declared in no local scope, so all their occurrences are renamed
 alike (JsRename.HoistedOnce).
 */
module JsHoisting {
  import opened Chars
  import opened JsLexer
  import opened JsScope
  import opened JsSites
  import opened JsRename

  // ----- tokens of simple texts -----------------------------------------------------------------

  predicate PlainPunct(c: char) { c == '(' || c == ')' || c == '{' || c == '}' || c == ';' || c == '=' }

  lemma LexPunct(s: string, i: nat)
    requires i < |s| && PlainPunct(s[i])
    ensures Lex(s, i) == [Tok(Pun, i, i + 1)] + Lex(s, i + 1)
  {
    assert Step(s, i) == Emit(Pun, i + 1);
  }

  lemma LexSpace(s: string, i: nat)
    requires i < |s| && s[i] == ' '
    ensures Lex(s, i) == Lex(s, i + 1)
  {
  }

  lemma WhileIdentIs(s: string, i: nat, e: nat)
    requires i <= e <= |s| && (forall k :: i <= k < e ==> IsIdentPart(s[k])) && (e < |s| ==> !IsIdentPart(s[e]))
    ensures WhileIdent(s, i) == e
    decreases e - i
  {
    if i < e {
      WhileIdentIs(s, i + 1, e);
    }
  }

  lemma LexWord(s: string, i: nat, e: nat)
    requires i < e <= |s| && IsIdentStart(s[i]) && (forall k :: i < k < e ==> IsIdentPart(s[k]))
    requires e < |s| ==> !IsIdentPart(s[e])
    ensures Lex(s, i) == [Tok(Ident, i, e)] + Lex(s, e)
  {
    WhileIdentIs(s, i + 1, e);
    assert Step(s, i) == Emit(Ident, e);
  }

  lemma LexNumber(s: string, i: nat)
    requires i + 1 < |s| && s[i] == '1' && s[i + 1] == ';'
    ensures Lex(s, i) == [Tok(Num, i, i + 1)] + Lex(s, i + 1)
  {
    assert WhileDigitDot(s, i + 1) == i + 1;
    assert Step(s, i) == Emit(Num, i + 1);
  }

  /** "function f(){}", for a name of one letter. */
  predicate FunctionAt(s: string, i: nat)
  {
    && i + 14 <= |s| && s[i..i + 8] == "function" && s[i + 8] == ' ' && IsAlpha(s[i + 9]) && s[i + 10] == '('
    && s[i + 11] == ')' && s[i + 12] == '{' && s[i + 13] == '}'
  }

  lemma FunctionChars(s: string, i: nat)
    requires FunctionAt(s, i)
    ensures i + 14 <= |s| && IsIdentStart(s[i]) && (forall k :: i < k < i + 8 ==> IsIdentPart(s[k]))
    ensures s[i + 8] == ' ' && !IsIdentPart(s[i + 8]) && IsIdentStart(s[i + 9]) && !IsIdentPart(s[i + 10])
    ensures PlainPunct(s[i + 10]) && PlainPunct(s[i + 11]) && PlainPunct(s[i + 12]) && PlainPunct(s[i + 13])
  {
    assert forall k :: i <= k < i + 8 ==> s[k] == s[i..i + 8][k - i];
  }

  lemma LexFunction(s: string, i: nat)
    requires FunctionAt(s, i)
    ensures i + 14 <= |s|
    ensures Lex(s, i)
         == [Tok(Ident, i, i + 8), Tok(Ident, i + 9, i + 10), Tok(Pun, i + 10, i + 11), Tok(Pun, i + 11, i + 12),
             Tok(Pun, i + 12, i + 13), Tok(Pun, i + 13, i + 14)] + Lex(s, i + 14)
  {
    hide *;
    FunctionChars(s, i);
    LexWord(s, i, i + 8);
    LexSpace(s, i + 8);
    LexWord(s, i + 9, i + 10);
    LexPunct(s, i + 10);
    LexPunct(s, i + 11);
    LexPunct(s, i + 12);
    LexPunct(s, i + 13);
  }

  // ----- a function called before it is declared ------------------------------------------------

  /** g();function f(){}function g(){} */
  predicate CallFirst(s: string)
  {
    && |s| == 32 && s[0] == 'g' && s[1] == '(' && s[2] == ')' && s[3] == ';'
    && FunctionAt(s, 4) && s[13] == 'f' && FunctionAt(s, 18) && s[27] == 'g'
  }

  function CallFirstTokens(): seq<Tok>
  {
    [Tok(Ident, 0, 1), Tok(Pun, 1, 2), Tok(Pun, 2, 3), Tok(Pun, 3, 4),
     Tok(Ident, 4, 12), Tok(Ident, 13, 14), Tok(Pun, 14, 15), Tok(Pun, 15, 16), Tok(Pun, 16, 17), Tok(Pun, 17, 18),
     Tok(Ident, 18, 26), Tok(Ident, 27, 28), Tok(Pun, 28, 29), Tok(Pun, 29, 30), Tok(Pun, 30, 31), Tok(Pun, 31, 32),
     Tok(Eof, 32, 32)]
  }

  lemma LexEnd(s: string)
    ensures Lex(s, |s|) == [Tok(Eof, |s|, |s|)]
  {
  }

  lemma CallChars(s: string)
    requires CallFirst(s)
    ensures |s| == 32 && IsIdentStart(s[0]) && !IsIdentPart(s[1])
    ensures PlainPunct(s[1]) && PlainPunct(s[2]) && PlainPunct(s[3]) && FunctionAt(s, 4) && FunctionAt(s, 18)
  {
    hide FunctionAt;
  }

  lemma LexCallFirst(s: string)
    requires CallFirst(s)
    ensures Lex(s, 0) == CallFirstTokens()
  {
    hide Lex, FunctionAt, CallFirst, IsIdentStart, IsIdentPart, PlainPunct;
    CallChars(s);
    LexWord(s, 0, 1);
    LexPunct(s, 1);
    LexPunct(s, 2);
    LexPunct(s, 3);
    LexFunction(s, 4);
    LexFunction(s, 18);
    LexEnd(s);
  }

  lemma CallFirstWords(s: string, toks: seq<Tok>)
    requires CallFirst(s) && toks == CallFirstTokens()
    ensures forall j: int :: Word(s, toks, j, "function") <==> j == 4 || j == 10
    ensures forall j: int :: Word(s, toks, j, "g") <==> j == 0 || j == 11
  {
    assert s[4..12] == "function" && s[18..26] == "function" && s[0..1] == "g" && s[27..28] == "g" && s[13..14] == "f";
  }

  /** None of these words is in the program. */
  lemma CallFirstOthers(s: string, toks: seq<Tok>, word: string)
    requires CallFirst(s) && toks == CallFirstTokens() && |word| > 1 && |word| != 8
    ensures forall j: int :: !Word(s, toks, j, word)
  {
  }

  lemma CallFirstPuncts(s: string, toks: seq<Tok>)
    requires CallFirst(s) && toks == CallFirstTokens()
    ensures forall j: int :: Punct(s, toks, j, '{') <==> j == 8 || j == 14
    ensures forall j: int :: Punct(s, toks, j, '}') <==> j == 9 || j == 15
    ensures forall j: int :: Punct(s, toks, j, '(') <==> j == 1 || j == 6 || j == 12
    ensures forall j: int :: Punct(s, toks, j, ')') <==> j == 2 || j == 7 || j == 13
    ensures forall j: int :: !Punct(s, toks, j, '*') && !Punct(s, toks, j, ',')
  {
  }

  lemma NoBracesBetween(s: string, toks: seq<Tok>)
    requires CallFirst(s) && toks == CallFirstTokens()
    ensures Depth(s, toks, 9, 10) == -1
  {
    CallFirstPuncts(s, toks);
    assert Depth(s, toks, 9, 9) == 0;
  }

  /** Neither function has parameters, and the bodies start at their braces. */
  lemma CallFirstHeaders(s: string, toks: seq<Tok>)
    requires CallFirst(s) && toks == CallFirstTokens()
    ensures BodyStart(s, toks, 4) == 8 && BodyStart(s, toks, 10) == 14
    ensures forall k: nat :: !ParameterOf(s, toks, 4, k) && !ParameterOf(s, toks, 10, k)
  {
    CallFirstPuncts(s, toks);
    hide Punct, Word, ParameterEnd, CallFirst;
    assert ParametersStart(s, toks, 4) == 6 && ParametersStart(s, toks, 10) == 12;
    assert ParametersEnd(s, toks, 7) == 7 && ParametersEnd(s, toks, 13) == 13;
    assert forall k: nat :: !ParameterFrom(s, toks, 7, k) && !ParameterFrom(s, toks, 13, k);
  }

  lemma NoneAstray(s: string, toks: seq<Tok>, m: nat)
    requires CallFirst(s) && toks == CallFirstTokens()
    ensures !Astray(s, toks, m)
  {
    CallFirstOthers(s, toks, "try");
    CallFirstOthers(s, toks, "finally");
    CallFirstOthers(s, toks, "catch");
    CallFirstOthers(s, toks, "var");
    CallFirstOthers(s, toks, "let");
    CallFirstOthers(s, toks, "const");
    CallFirstWords(s, toks);
    CallFirstHeaders(s, toks);
    hide Word, Punct, ParameterOf, InList, Depth, CatchBody, CallFirst, CallFirstTokens;
    forall j: nat | j != 4 && j != 10 ensures !ParameterOf(s, toks, j, m) {
      NotFunction(s, toks, j, m);
    }
  }

  lemma NotFunction(s: string, toks: seq<Tok>, j: nat, m: nat)
    requires !Word(s, toks, j, "function")
    ensures !ParameterOf(s, toks, j, m)
  {
  }

  lemma NotInBody(s: string, toks: seq<Tok>)
    requires CallFirst(s) && toks == CallFirstTokens()
    ensures !InBody(s, toks, 11)
  {
    CallFirstWords(s, toks);
    CallFirstHeaders(s, toks);
    NoBracesBetween(s, toks);
    forall m: nat ensures !Astray(s, toks, m) {
      NoneAstray(s, toks, m);
    }
    hide Word, Punct, Astray, Depth, BodyStart, CallFirst, CallFirstTokens;
  }

  /** In that program g is declared in no local scope, so g keeps one spelling. */
  lemma LateFunction(s: string)
    requires CallFirst(s)
    ensures !DeclaredLocally(s, Lex(s, 0), "g")
  {
    var toks := CallFirstTokens();
    LexCallFirst(s);
    CallFirstWords(s, toks);
    CallFirstHeaders(s, toks);
    NotInBody(s, toks);
    CallFirstOthers(s, toks, "let");
    CallFirstOthers(s, toks, "const");
    CallFirstOthers(s, toks, "catch");
    CallFirstOthers(s, toks, "var");
    CallFirstOthers(s, toks, "class");
    hide Word, Punct, InBody, InList, ParameterOf, CallFirst, CallFirstTokens, Lex;
    forall j: nat, m: nat | j != 4 && j != 10 ensures !ParameterOf(s, toks, j, m) {
      NotFunction(s, toks, j, m);
    }
  }

  /** So every plan that JsRename computes gives g one spelling there. */
  lemma LateFunctionOnce(opt: Options, s: string, plan: seq<Rename>)
    requires CallFirst(s) && Eligible(opt, "g") && HoistedOnce(opt, s, plan)
    ensures SameSpelling(s, plan, "g")
  {
    LateFunction(s);
    hide *;
    OnceFor(opt, s, plan, "g");
  }

  lemma OnceFor(opt: Options, code: string, plan: seq<Rename>, name: string)
    requires HoistedOnce(opt, code, plan) && Eligible(opt, name) && !DeclaredLocally(code, Lex(code, 0), name)
    ensures SameSpelling(code, plan, name)
  {
    hide DeclaredLocally, SameSpelling, Eligible;
  }

  // ----- a variable read by a later constant ----------------------------------------------------

  /** var a=1;const b=a; */
  predicate ReadLater(s: string)
  {
    && |s| == 18 && s[0..3] == "var" && s[3] == ' ' && s[4] == 'a' && s[5] == '=' && s[6] == '1' && s[7] == ';'
    && s[8..13] == "const" && s[13] == ' ' && s[14] == 'b' && s[15] == '=' && s[16] == 'a' && s[17] == ';'
  }

  function ReadLaterTokens(): seq<Tok>
  {
    [Tok(Ident, 0, 3), Tok(Ident, 4, 5), Tok(Pun, 5, 6), Tok(Num, 6, 7), Tok(Pun, 7, 8),
     Tok(Ident, 8, 13), Tok(Ident, 14, 15), Tok(Pun, 15, 16), Tok(Ident, 16, 17), Tok(Pun, 17, 18), Tok(Eof, 18, 18)]
  }

  lemma ReadChars(s: string)
    requires ReadLater(s)
    ensures |s| == 18 && IsIdentStart(s[0]) && IsIdentPart(s[1]) && IsIdentPart(s[2]) && s[3] == ' '
    ensures IsIdentStart(s[4]) && s[6] == '1' && s[7] == ';' && IsIdentStart(s[8]) && s[13] == ' '
    ensures (forall k :: 8 < k < 13 ==> IsIdentPart(s[k])) && IsIdentStart(s[14]) && IsIdentStart(s[16])
    ensures !IsIdentPart(s[3]) && !IsIdentPart(s[5]) && !IsIdentPart(s[13]) && !IsIdentPart(s[15]) && !IsIdentPart(s[17])
    ensures PlainPunct(s[5]) && PlainPunct(s[7]) && PlainPunct(s[15]) && PlainPunct(s[17])
  {
    assert forall k :: 8 <= k < 13 ==> s[k] == s[8..13][k - 8];
    assert forall k :: 0 <= k < 3 ==> s[k] == s[0..3][k];
  }

  lemma LexReadLater(s: string)
    requires ReadLater(s)
    ensures Lex(s, 0) == ReadLaterTokens()
  {
    hide Lex, ReadLater, IsIdentStart, IsIdentPart, PlainPunct;
    ReadChars(s);
    LexWord(s, 0, 3);
    LexSpace(s, 3);
    LexWord(s, 4, 5);
    LexPunct(s, 5);
    LexNumber(s, 6);
    LexPunct(s, 7);
    LexWord(s, 8, 13);
    LexSpace(s, 13);
    LexWord(s, 14, 15);
    LexPunct(s, 15);
    LexWord(s, 16, 17);
    LexPunct(s, 17);
    LexEnd(s);
  }

  lemma ReadLaterWords(s: string, toks: seq<Tok>)
    requires ReadLater(s) && toks == ReadLaterTokens()
    ensures forall j: int :: !Word(s, toks, j, "function") && !Word(s, toks, j, "let") && !Word(s, toks, j, "catch")
    ensures forall j: int :: Word(s, toks, j, "const") ==> j == 5
    ensures forall j: int :: Word(s, toks, j, "a") ==> j == 1 || j == 8
    ensures IsName(toks, 6) && !Punct(s, toks, 7, ',')
  {
    assert s[8..13] == "const" && s[0..3] == "var" && s[14..15] == "b";
  }

  /** In that program a is declared in no local scope, although it stands after const. */
  lemma VarReadLater(s: string)
    requires ReadLater(s)
    ensures !DeclaredLocally(s, Lex(s, 0), "a")
  {
    var toks := ReadLaterTokens();
    LexReadLater(s);
    ReadLaterWords(s, toks);
    hide Word, Punct, IsName, ReadLater, ReadLaterTokens, Lex, Steady, BodyStart;
    assert !InList(s, toks, 5, 8);
    forall j: nat, m: nat ensures !ParameterOf(s, toks, j, m) && !BodyOpens(s, toks, j) {
      NotFunction(s, toks, j, m);
    }
  }
}
