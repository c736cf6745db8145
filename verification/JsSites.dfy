/**
 The places of a token list where the renamer can declare a name in a local scope, told from the tokens alone:
 declaration lists, catch bindings, parameter lists and open function bodies
 (struct Parser in src/builders/JSObfuscatorScope.cpp).
 */
module JsSites {
  import opened Chars
  import opened JsLexer

  // ----- single tokens --------------------------------------------------------------------------

  predicate Word(code: string, toks: seq<Tok>, k: int, word: string)
  {
    0 <= k < |toks| && toks[k].kind == Ident && toks[k].a <= toks[k].b <= |code| && code[toks[k].a..toks[k].b] == word
  }

  predicate Punct(code: string, toks: seq<Tok>, k: int, c: char)
  {
    0 <= k < |toks| && toks[k].kind == Pun && toks[k].a < |code| && code[toks[k].a] == c
  }

  predicate IsName(toks: seq<Tok>, k: int) { 0 <= k < |toks| && toks[k].kind == Ident }

  predicate More(toks: seq<Tok>, k: int) { 0 <= k < |toks| && toks[k].kind != Eof }

  // ----- skipping -------------------------------------------------------------------------------

  /** Where skipUntilTerminal stops: past `term` outside brackets, past a call whose last argument ends with a block,
      or before a closing brace that it did not open.  p, b and c count open brackets of the three kinds. */
  function TerminalEnd(code: string, toks: seq<Tok>, i: nat, term: char, p: nat, b: nat, c: nat, closing: bool): (r: nat)
    ensures i <= r
    decreases |toks| - i
  {
    if !More(toks, i) then i
    else if toks[i].kind != Pun || toks[i].a >= |code| then TerminalEnd(code, toks, i + 1, term, p, b, c, false)
    else
      var ch := code[toks[i].a];
      if ch == '}' && c == 0 then i
      else
        var (p1, b1, c1) := Counted(ch, p, b, c);
        var outside := p1 == 0 && b1 == 0 && c1 == 0;
        if ch == ')' && closing && outside then
          if Punct(code, toks, i + 1, '(') then TerminalEnd(code, toks, i + 1, term, p1, b1, c1, false) else i + 1
        else if outside && ch == term then i + 1
        else TerminalEnd(code, toks, i + 1, term, p1, b1, c1, ch == '}' && c == 1 && p > 0)
  }

  /** One step of the skip: over a token that is no punctuator, over one that is, or none. */
  lemma TerminalStep(code: string, toks: seq<Tok>, i: nat, term: char, p: nat, b: nat, c: nat, closing: bool)
    ensures var r := TerminalEnd(code, toks, i, term, p, b, c, closing);
            && (!More(toks, i) ==> r == i)
            && (More(toks, i) && toks[i].kind != Pun ==> r == TerminalEnd(code, toks, i + 1, term, p, b, c, false))
            && (More(toks, i) && toks[i].kind == Pun && toks[i].a < |code| ==>
                  var ch := code[toks[i].a];
                  if ch == '}' && c == 0 then r == i
                  else
                    var (p1, b1, c1) := Counted(ch, p, b, c);
                    var outside := p1 == 0 && b1 == 0 && c1 == 0;
                    if ch == ')' && closing && outside then
                      if Punct(code, toks, i + 1, '(') then r == TerminalEnd(code, toks, i + 1, term, p1, b1, c1, false)
                      else r == i + 1
                    else if outside && ch == term then r == i + 1
                    else r == TerminalEnd(code, toks, i + 1, term, p1, b1, c1, ch == '}' && c == 1 && p > 0))
  {
  }

  /** Open brackets of the three kinds after one more punctuator. */
  function Counted(ch: char, p: nat, b: nat, c: nat): (nat, nat, nat)
    requires !(ch == '}' && c == 0)
  {
    (if ch == '(' then p + 1 else if ch == ')' && p > 0 then p - 1 else p,
     if ch == '[' then b + 1 else if ch == ']' && b > 0 then b - 1 else b,
     if ch == '{' then c + 1 else if ch == '}' then c - 1 else c)
  }

  /** Where skipUntilTerminal stops from token i. */
  function SkipTo(code: string, toks: seq<Tok>, i: nat, term: char): (r: nat)
    ensures i <= r
  {
    TerminalEnd(code, toks, i, term, 0, 0, 0, false)
  }

  /** Past the bracket that closes d open ones. */
  function BalancedEnd(code: string, toks: seq<Tok>, i: nat, open: char, close: char, d: nat): (r: nat)
    ensures i <= r
    decreases |toks| - i
  {
    if d == 0 || !More(toks, i) then i
    else if Punct(code, toks, i, open) then BalancedEnd(code, toks, i + 1, open, close, d + 1)
    else if Punct(code, toks, i, close) then BalancedEnd(code, toks, i + 1, open, close, d - 1)
    else BalancedEnd(code, toks, i + 1, open, close, d)
  }

  lemma BalancedStep(code: string, toks: seq<Tok>, i: nat, open: char, close: char, d: nat)
    ensures var r := BalancedEnd(code, toks, i, open, close, d);
            if d == 0 || !More(toks, i) then r == i
            else
              r == BalancedEnd(code, toks, i + 1, open, close,
                     if Punct(code, toks, i, open) then d + 1 else if Punct(code, toks, i, close) then d - 1 else d)
  {
  }

  function Balanced(code: string, toks: seq<Tok>, i: nat, open: char, close: char): (r: nat)
    ensures i <= r
  {
    if Punct(code, toks, i, open) then BalancedEnd(code, toks, i + 1, open, close, 1) else i
  }

  // ----- declaration lists ----------------------------------------------------------------------

  predicate DeclarationWord(code: string, toks: seq<Tok>, j: int)
  {
    Word(code, toks, j, "var") || Word(code, toks, j, "let") || Word(code, toks, j, "const")
  }

  /** Token k is in the list that starts after token j: up to k every name is followed by a comma, and a semicolon or
      parenthesis only follows the keyword or a comma. */
  predicate InList(code: string, toks: seq<Tok>, j: nat, k: nat)
  {
    j < k && forall m :: j < m < k ==>
      && (IsName(toks, m) ==> Punct(code, toks, m + 1, ','))
      && (m > j + 1 && (Punct(code, toks, m, ';') || Punct(code, toks, m, ')')) ==> Punct(code, toks, m - 1, ','))
  }

  ghost predicate Listed(code: string, toks: seq<Tok>, k: nat)
  {
    exists j: nat :: DeclarationWord(code, toks, j) && InList(code, toks, j, k)
  }

  /** The list after keyword j may go on at token i. */
  predicate ListOpen(code: string, toks: seq<Tok>, j: nat, i: nat)
  {
    InList(code, toks, j, i)
    && (i > j + 1 && (Punct(code, toks, i, ';') || Punct(code, toks, i, ')')) ==> Punct(code, toks, i - 1, ','))
  }

  lemma ListStarts(code: string, toks: seq<Tok>, j: nat)
    ensures ListOpen(code, toks, j, j + 1)
  {
  }

  lemma ListSkips(code: string, toks: seq<Tok>, j: nat, i: nat)
    requires ListOpen(code, toks, j, i) && !IsName(toks, i)
    requires !Punct(code, toks, i + 1, ';') && !Punct(code, toks, i + 1, ')')
    ensures ListOpen(code, toks, j, i + 1)
  {
    hide Punct;
  }

  lemma ListGoesOn(code: string, toks: seq<Tok>, j: nat, i: nat)
    requires ListOpen(code, toks, j, i) && Punct(code, toks, i + 1, ',')
    ensures ListOpen(code, toks, j, i + 2)
  {
    assert !Punct(code, toks, i + 1, ';') && !Punct(code, toks, i + 1, ')') && !IsName(toks, i + 1);
    hide Punct;
  }

  // ----- functions ------------------------------------------------------------------------------

  /** Past a parameter, or something in parentheses, and its default value. */
  function ParameterEnd(code: string, toks: seq<Tok>, i: nat): (r: nat)
    ensures i <= r
  {
    var e := if IsName(toks, i) then i + 1 else Balanced(code, toks, i, '(', ')');
    if Punct(code, toks, e, '=') then SkipTo(code, toks, e + 1, ',') else e
  }

  /** Token k is at the start of a parameter of the list that goes on at token i. */
  predicate ParameterFrom(code: string, toks: seq<Tok>, i: nat, k: nat)
    decreases |toks| - i
  {
    && More(toks, i) && !Punct(code, toks, i, ')')
    && (k == i || (var e := ParameterEnd(code, toks, i); Punct(code, toks, e, ',') && ParameterFrom(code, toks, e + 1, k)))
  }

  function ParametersEnd(code: string, toks: seq<Tok>, i: nat): (r: nat)
    ensures i <= r
    decreases |toks| - i
  {
    if !More(toks, i) || Punct(code, toks, i, ')') then i
    else
      var e := ParameterEnd(code, toks, i);
      if Punct(code, toks, e, ',') then ParametersEnd(code, toks, e + 1) else e
  }

  /** The parameters of the function whose keyword is token j start here, after its name and star. */
  function ParametersStart(code: string, toks: seq<Tok>, j: nat): (r: nat)
    ensures j < r
  {
    var named := if IsName(toks, j + 1) then j + 2 else j + 1;
    if Punct(code, toks, named, '*') then named + 1 else named
  }

  /** Past a parameter list in parentheses, if one starts at p. */
  function HeaderEnd(code: string, toks: seq<Tok>, p: nat): (r: nat)
    ensures p <= r
  {
    if !Punct(code, toks, p, '(') then p
    else
      var e := ParametersEnd(code, toks, p + 1);
      if Punct(code, toks, e, ')') then e + 1 else e
  }

  /** Where the body of the function whose keyword is token j starts. */
  function BodyStart(code: string, toks: seq<Tok>, j: nat): (r: nat)
    ensures j < r
  {
    HeaderEnd(code, toks, ParametersStart(code, toks, j))
  }

  /** Token k is at a parameter of the function whose keyword is token j. */
  predicate ParameterOf(code: string, toks: seq<Tok>, j: nat, k: nat)
  {
    var p := ParametersStart(code, toks, j);
    Word(code, toks, j, "function") && Punct(code, toks, p, '(') && ParameterFrom(code, toks, p + 1, k)
  }

  ghost predicate IsParameter(code: string, toks: seq<Tok>, k: nat)
  {
    exists j: nat :: ParameterOf(code, toks, j, k)
  }

  // ----- braces ---------------------------------------------------------------------------------

  function Weight(code: string, toks: seq<Tok>, k: nat): int
  {
    if Punct(code, toks, k, '{') then 1 else if Punct(code, toks, k, '}') then -1 else 0
  }

  /** Braces opened less braces closed by the tokens from i up to k. */
  function Depth(code: string, toks: seq<Tok>, i: nat, k: nat): int
  {
    if k <= i then 0 else Depth(code, toks, i, k - 1) + Weight(code, toks, k - 1)
  }

  /** Past the binding of a catch, and its closing parenthesis. */
  function BindingEnd(code: string, toks: seq<Tok>, q: nat): nat
  {
    if !IsName(toks, q) then SkipTo(code, toks, q, ')') else if Punct(code, toks, q + 1, ')') then q + 2 else q + 1
  }

  /** Where the block of the catch at token m should start. */
  function CatchBody(code: string, toks: seq<Tok>, m: nat): nat
  {
    BindingEnd(code, toks, if Punct(code, toks, m + 1, '(') then m + 2 else m + 1)
  }

  /** From here on a closing brace can be taken that belongs to an enclosing block: a try, catch or finally without
      its block, a closing brace at a place of a declaration list, a parenthesis at the place of a parameter. */
  ghost predicate Astray(code: string, toks: seq<Tok>, m: nat)
  {
    || (Word(code, toks, m, "try") && !Punct(code, toks, m + 1, '{'))
    || (Punct(code, toks, m - 1, '}') && Word(code, toks, m, "finally") && !Punct(code, toks, m + 1, '{'))
    || (Punct(code, toks, m - 1, '}') && Word(code, toks, m, "catch")
        && !Punct(code, toks, CatchBody(code, toks, m), '{'))
    || (Punct(code, toks, m, '}') && exists j: nat ::
          DeclarationWord(code, toks, j) && InList(code, toks, j, m) && Depth(code, toks, j, m) <= 0)
    || (Punct(code, toks, m, '(') && IsParameter(code, toks, m))
  }

  ghost predicate SomeAstray(code: string, toks: seq<Tok>, i: nat, k: nat)
  {
    exists m: nat :: i <= m < k && Astray(code, toks, m)
  }

  /** The tokens from i up to k close no brace that they did not open, or go astray. */
  ghost predicate Steady(code: string, toks: seq<Tok>, i: nat, k: nat)
  {
    i <= k && (SomeAstray(code, toks, i, k) || forall m: nat :: i <= m <= k ==> Depth(code, toks, i, m) >= 0)
  }

  /** Token k is after the brace that opens the body of a function and before the one that closes it. */
  ghost predicate InBody(code: string, toks: seq<Tok>, k: nat)
  {
    exists j: nat :: BodyOpens(code, toks, j) && Steady(code, toks, BodyStart(code, toks, j) + 1, k)
  }

  predicate BodyOpens(code: string, toks: seq<Tok>, j: nat)
  {
    Word(code, toks, j, "function") && Punct(code, toks, BodyStart(code, toks, j), '{')
  }

  // ----- sites ----------------------------------------------------------------------------------

  /** In the list of a let or const, or bound by the catch of a try. */
  ghost predicate BlockSite(code: string, toks: seq<Tok>, k: nat)
  {
    || (exists j: nat :: (Word(code, toks, j, "let") || Word(code, toks, j, "const")) && InList(code, toks, j, k))
    || (Word(code, toks, k - 1, "catch") && Punct(code, toks, k - 2, '}'))
    || (Punct(code, toks, k - 1, '(') && Word(code, toks, k - 2, "catch") && Punct(code, toks, k - 3, '}'))
  }

  /** In a var list, or the name of a function or class. */
  ghost predicate HoistSite(code: string, toks: seq<Tok>, k: nat)
  {
    || (exists j: nat :: Word(code, toks, j, "var") && InList(code, toks, j, k))
    || Word(code, toks, k - 1, "function") || Word(code, toks, k - 1, "class")
  }

  /** Where a name can be declared other than at the top level of the program. */
  ghost predicate LocalSite(code: string, toks: seq<Tok>, k: nat)
  {
    || BlockSite(code, toks, k)
    || IsParameter(code, toks, k)
    || (HoistSite(code, toks, k) && InBody(code, toks, k))
  }

  ghost predicate DeclaredLocally(code: string, toks: seq<Tok>, name: string)
  {
    exists k: nat :: Word(code, toks, k, name) && LocalSite(code, toks, k)
  }

  lemma ListSites(code: string, toks: seq<Tok>, j: nat, i: nat)
    requires ListOpen(code, toks, j, i)
    ensures Word(code, toks, j, "var") ==> HoistSite(code, toks, i)
    ensures Word(code, toks, j, "let") || Word(code, toks, j, "const") ==> BlockSite(code, toks, i)
  {
    hide Punct, Word;
  }

  // ----- braces, step by step -------------------------------------------------------------------

  lemma {:induction false} DepthAdds(code: string, toks: seq<Tok>, i: nat, j: nat, k: nat)
    requires i <= j <= k
    ensures Depth(code, toks, i, k) == Depth(code, toks, i, j) + Depth(code, toks, j, k)
    decreases k
  {
    hide Weight;
    if j < k {
      DepthAdds(code, toks, i, j, k - 1);
    }
  }

  lemma SteadyHere(code: string, toks: seq<Tok>, i: nat)
    ensures Steady(code, toks, i, i)
    ensures !Punct(code, toks, i, '}') ==> Steady(code, toks, i, i + 1)
  {
    assert Depth(code, toks, i, i) == 0;
    assert Depth(code, toks, i, i + 1) == Weight(code, toks, i);
    hide Punct;
  }

  lemma SteadyTransitive(code: string, toks: seq<Tok>, i: nat, j: nat, k: nat)
    requires Steady(code, toks, i, j) && Steady(code, toks, j, k)
    ensures Steady(code, toks, i, k)
  {
    hide Astray, Depth;
    if !SomeAstray(code, toks, i, j) && !SomeAstray(code, toks, j, k) {
      forall m: nat | i <= m <= k ensures Depth(code, toks, i, m) >= 0 {
        if j <= m {
          DepthAdds(code, toks, i, j, m);
        }
      }
    }
  }

  lemma SteadyAstray(code: string, toks: seq<Tok>, i: nat, m: nat, k: nat)
    requires i <= m < k && Astray(code, toks, m)
    ensures Steady(code, toks, i, k)
  {
    hide Astray;
  }

  /** A block: its opening brace, what is inside, and its closing brace, if there is one. */
  lemma SteadyBlock(code: string, toks: seq<Tok>, i: nat, k: nat)
    requires Punct(code, toks, i, '{') && Steady(code, toks, i + 1, k)
    ensures Steady(code, toks, i, k) && Steady(code, toks, i, k + 1)
  {
    hide Astray, Punct, SomeAstray;
    BraceOnly(code, toks, i);
    if SomeAstray(code, toks, i + 1, k) {
      LongerAstray(code, toks, i + 1, k, i, k);
      LongerAstray(code, toks, i + 1, k, i, k + 1);
    } else {
      forall m: nat | i <= m <= k + 1 ensures Depth(code, toks, i, m) >= 0 {
        if m == i {
          assert Depth(code, toks, i, m) == 0;
        } else {
          DepthAdds(code, toks, i, i + 1, m);
          assert m == k + 1 ==> Depth(code, toks, i + 1, m) == Depth(code, toks, i + 1, k) + Weight(code, toks, k);
        }
      }
    }
  }

  lemma BraceOnly(code: string, toks: seq<Tok>, i: nat)
    requires Punct(code, toks, i, '{')
    ensures Depth(code, toks, i, i + 1) == 1
  {
    assert Depth(code, toks, i, i) == 0;
  }

  lemma LongerAstray(code: string, toks: seq<Tok>, i: nat, k: nat, i0: nat, k0: nat)
    requires SomeAstray(code, toks, i, k) && i0 <= i && k <= k0
    ensures SomeAstray(code, toks, i0, k0)
  {
    hide Astray;
  }

  /** One more token of a declaration list that is not a name. */
  lemma SteadyList(code: string, toks: seq<Tok>, j: nat, i: nat)
    requires DeclarationWord(code, toks, j) && InList(code, toks, j, i) && Steady(code, toks, j + 1, i)
    ensures Steady(code, toks, j + 1, i + 1)
  {
    SteadyHere(code, toks, i);
    if !Punct(code, toks, i, '}') {
      SteadyTransitive(code, toks, j + 1, i, i + 1);
    } else if SomeAstray(code, toks, j + 1, i) {
      LongerAstray(code, toks, j + 1, i, j + 1, i + 1);
    } else if Depth(code, toks, j + 1, i) > 0 {
      hide Astray;
    } else {
      KeywordWeighsNothing(code, toks, j);
      DepthAdds(code, toks, j, j + 1, i);
      assert Astray(code, toks, i);
      SteadyAstray(code, toks, j + 1, i, i + 1);
    }
  }

  lemma KeywordWeighsNothing(code: string, toks: seq<Tok>, j: nat)
    requires DeclarationWord(code, toks, j)
    ensures Depth(code, toks, j, j + 1) == 0
  {
    assert Depth(code, toks, j, j) == 0;
  }

  lemma BodyGoesOn(code: string, toks: seq<Tok>, i: nat, k: nat)
    requires InBody(code, toks, i) && Steady(code, toks, i, k)
    ensures InBody(code, toks, k)
  {
    hide Steady, BodyOpens, BodyStart;
    var j: nat :| BodyOpens(code, toks, j) && Steady(code, toks, BodyStart(code, toks, j) + 1, i);
    SteadyTransitive(code, toks, BodyStart(code, toks, j) + 1, i, k);
  }

  lemma BodyEntered(code: string, toks: seq<Tok>, j: nat)
    requires BodyOpens(code, toks, j)
    ensures InBody(code, toks, BodyStart(code, toks, j) + 1)
  {
    SteadyHere(code, toks, BodyStart(code, toks, j) + 1);
    hide Steady, BodyOpens, BodyStart;
  }
}
