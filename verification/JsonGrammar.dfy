/** The printer's numbers and strings against the grammar of RFC 8259 (sections 6 and 7). */
module JsonGrammar {
  import opened Chars
  import opened JsonText

  // ----- numbers --------------------------------------------------------------------------------

  predicate SomeDigits(s: string) { s != "" && forall k :: 0 <= k < |s| ==> '0' <= s[k] <= '9' }

  /** A zero, or digits that do not start with one. */
  predicate IntegerPart(s: string) { SomeDigits(s) && (s[0] == '0' ==> s == "0") }

  predicate FractionPart(s: string) { s == "" || (s[0] == '.' && SomeDigits(s[1..])) }

  predicate ExponentPart(s: string)
  {
    s == "" || ((s[0] == 'e' || s[0] == 'E')
                && (SomeDigits(s[1..]) || (|s| > 1 && (s[1] == '+' || s[1] == '-') && SomeDigits(s[2..]))))
  }

  /** Section 6: [ minus ] int [ frac ] [ exp ]. */
  ghost predicate RfcNumber(s: string)
  {
    exists minus, lead, frac, exp ::
      (minus == "" || minus == "-") && IntegerPart(lead) && FractionPart(frac) && ExponentPart(exp)
      && s == minus + (lead + (frac + exp))
  }

  lemma {:induction false} DigitsTaken(a: string, b: string)
    requires (forall k :: 0 <= k < |a| ==> IsDigit(a[k])) && (b != "" ==> !IsDigit(b[0]))
    ensures Digits(a + b) == (a, b)
    decreases |a|
  {
    if a == "" {
      assert a + b == b;
    } else {
      assert (a + b)[1..] == a[1..] + b;
      DigitsTaken(a[1..], b);
      assert [a[0]] + a[1..] == a;
    }
  }

  lemma {:induction false} DigitsStop(s: string)
    ensures Digits(s).1 != "" ==> !IsDigit(Digits(s).1[0])
    decreases |s|
  {
    if s != "" {
      DigitsStop(s[1..]);
    }
  }

  lemma ExponentIs(s: string)
    ensures ExponentPart(s) <==> s == "" || ((s[0] == 'e' || s[0] == 'E') && IsExponent(s[1..]))
  {
    if s != "" {
      DigitsAre(s[1..]);
      if |s| > 1 {
        assert s[1..][1..] == s[2..];
        DigitsAre(s[2..]);
      }
    }
  }

  lemma DigitsAre(t: string)
    ensures SomeDigits(t) <==> t != "" && IsDigit(t[0]) && Digits(t).1 == ""
  {
    if SomeDigits(t) {
      DigitsTaken(t, "");
      assert t + "" == t;
    }
    if Digits(t).1 == "" {
      assert Digits(t).0 == t;
    }
  }

  predicate NoDigitFirst(s: string) { s == "" || !IsDigit(s[0]) }

  lemma IntegerSplits(lead: string, rest: string)
    requires IntegerPart(lead) && NoDigitFirst(rest)
    ensures AfterInteger(lead + rest) == Some(rest)
  {
    var t := lead + rest;
    if lead[0] == '0' {
      assert t[1..] == rest;
    } else {
      DigitsTaken(lead, rest);
    }
  }

  lemma IntegerFound(t: string)
    requires AfterInteger(t).Some?
    ensures exists lead :: IntegerPart(lead) && t == lead + AfterInteger(t).value && NoDigitFirst(AfterInteger(t).value)
  {
    if t[0] == '0' {
      assert IntegerPart("0") && t == "0" + t[1..];
    } else {
      DigitsStop(t);
      var lead := Digits(t).0;
      assert lead != "" && t == lead + Digits(t).1;
      assert lead[0] == t[0];
      assert IntegerPart(lead);
    }
  }

  lemma FractionSplits(frac: string, exp: string)
    requires FractionPart(frac) && NoDigitFirst(exp) && (exp != "" ==> exp[0] != '.')
    ensures AfterFraction(frac + exp) == Some(exp)
  {
    if frac == "" {
      assert frac + exp == exp;
    } else {
      assert (frac + exp)[1..] == frac[1..] + exp;
      DigitsTaken(frac[1..], exp);
    }
  }

  lemma FractionFound(u: string)
    requires AfterFraction(u).Some?
    ensures exists frac :: FractionPart(frac) && u == frac + AfterFraction(u).value
  {
    if Starts(u, '.') {
      DotTaken(u);
    } else {
      assert FractionPart("") && u == "" + u && AfterFraction(u) == Some(u);
    }
  }

  lemma DotTaken(u: string)
    requires Starts(u, '.') && AfterFraction(u).Some?
    ensures exists frac :: FractionPart(frac) && u == frac + AfterFraction(u).value
  {
    var t := u[1..];
    assert t != "" && IsDigit(t[0]) && AfterFraction(u).value == Digits(t).1;
    var some, rest := Digits(t).0, Digits(t).1;
    assert some != "" && t == some + rest && SomeDigits(some);
    hide *;
    DotBefore(u, t, some, rest);
  }

  lemma DotBefore(u: string, t: string, some: string, rest: string)
    requires Starts(u, '.') && t == u[1..] && t == some + rest && SomeDigits(some)
    ensures exists frac :: FractionPart(frac) && u == frac + rest
  {
    var frac := "." + some;
    assert frac[1..] == some;
    assert FractionPart(frac) && u == frac + rest;
  }

  /** The scan accepts exactly the numbers of the grammar. */
  lemma NumberLiteralExactly(s: string)
    ensures IsNumberLiteral(s) <==> RfcNumber(s)
  {
    if IsNumberLiteral(s) {
      LiteralIsRfc(s);
    }
    if RfcNumber(s) {
      var minus, lead, frac, exp :| (minus == "" || minus == "-") && IntegerPart(lead) && FractionPart(frac)
        && ExponentPart(exp) && s == minus + (lead + (frac + exp));
      RfcIsLiteral(s, minus, lead, frac, exp);
    }
  }

  lemma LiteralIsRfc(s: string)
    requires IsNumberLiteral(s)
    ensures RfcNumber(s)
  {
    hide AfterInteger, AfterFraction, IsExponent, IntegerPart, FractionPart, ExponentPart;
    var minus, t := if s[0] == '-' then "-" else "", if s[0] == '-' then s[1..] else s;
    assert s == minus + t;
    IntegerFound(t);
    var u := AfterInteger(t).value;
    var lead :| IntegerPart(lead) && t == lead + u && NoDigitFirst(u);
    FractionFound(u);
    var exp := AfterFraction(u).value;
    var frac :| FractionPart(frac) && u == frac + exp;
    ExponentIs(exp);
    assert s == minus + (lead + (frac + exp));
  }

  lemma RfcIsLiteral(s: string, minus: string, lead: string, frac: string, exp: string)
    requires (minus == "" || minus == "-") && IntegerPart(lead) && FractionPart(frac) && ExponentPart(exp)
    requires s == minus + (lead + (frac + exp))
    ensures IsNumberLiteral(s)
  {
    assert NoDigitFirst(exp) && NoDigitFirst(frac + exp) && (exp != "" ==> exp[0] != '.');
    assert lead != "" && IsDigit(lead[0]);
    var t := lead + (frac + exp);
    assert t[0] == lead[0] && t != "";
    assert s != "" && t == if s[0] == '-' then s[1..] else s;
    hide AfterInteger, AfterFraction, IsExponent, IntegerPart, FractionPart, ExponentPart, NoDigitFirst;
    IntegerSplits(lead, frac + exp);
    FractionSplits(frac, exp);
    ExponentIs(exp);
  }

  // ----- strings --------------------------------------------------------------------------------

  /** Section 7: what the inside of a quoted string stands for, or None when it is not one. */
  function Meaning(s: string): Option<string>
  {
    if s == "" then Some("")
    else if s[0] != '\\' then
      if s[0] == '"' || s[0] < '\U{20}' then None else Before([s[0]], Meaning(s[1..]))
    else if |s| >= 2 && ShortEscape(s[1]).Some? then Before([ShortEscape(s[1]).value], Meaning(s[2..]))
    else if |s| >= 6 && s[1] == 'u' && forall k :: 2 <= k < 6 ==> IsHexDigit(s[k]) then
      var unit := 4096 * HexValue(s[2]) + 256 * HexValue(s[3]) + 16 * HexValue(s[4]) + HexValue(s[5]);
      if 0xD800 <= unit < 0xE000 then None else Before([unit as char], Meaning(s[6..]))
    else None
  }

  function ShortEscape(c: char): Option<char>
  {
    if c == '"' then Some('"')
    else if c == '\\' then Some('\\')
    else if c == '/' then Some('/')
    else if c == 'b' then Some('\U{8}')
    else if c == 'f' then Some('\U{C}')
    else if c == 'n' then Some('\U{A}')
    else if c == 'r' then Some('\U{D}')
    else if c == 't' then Some('\U{9}')
    else None
  }

  function Before(s: string, rest: Option<string>): Option<string>
  {
    if rest.None? then None else Some(s + rest.value)
  }

  lemma EscapeMeans(c: char, tail: string)
    ensures Meaning(EscapeChar(c) + tail) == Before([c], Meaning(tail))
  {
    var e := EscapeChar(c);
    var s := e + tail;
    if |e| == 2 {
      assert s[2..] == tail && s[1] == e[1];
    } else if |e| == 1 {
      assert s[1..] == tail;
    } else {
      ControlEscape(c, e);
      assert s[0] == '\\' && s[1] == 'u' && s[2] == '0' && s[3] == '0' && s[4] == e[4] && s[5] == e[5];
      assert s[6..] == tail;
      ControlUnit(c, s);
    }
  }

  lemma ControlEscape(c: char, e: string)
    requires e == EscapeChar(c) && |e| != 1 && |e| != 2
    ensures |e| == 6 && e[0] == '\\' && e[1] == 'u' && e[2] == '0' && e[3] == '0' && IsHexDigit(e[4]) && IsHexDigit(e[5])
    ensures 16 * HexValue(e[4]) + HexValue(e[5]) == c as int && c < '\U{20}'
  {
  }

  lemma ControlUnit(c: char, s: string)
    requires |s| >= 6 && s[0] == '\\' && s[1] == 'u' && s[2] == '0' && s[3] == '0' && IsHexDigit(s[4]) && IsHexDigit(s[5])
    requires 16 * HexValue(s[4]) + HexValue(s[5]) == c as int && c < '\U{20}'
    ensures Meaning(s) == Before([c], Meaning(s[6..]))
  {
    assert HexValue('0') == 0;
    hide HexValue;
  }

  /** Any text, escaped, stands for itself: the quoted text is a string of the grammar and means the value printed. */
  lemma {:induction false} EscapedMeans(v: string)
    ensures Meaning(EscapeJson(v)) == Some(v)
  {
    hide Meaning, EscapeChar;
    if v == "" {
      NothingMeans();
    } else {
      EscapedMeans(v[1..]);
      EscapeMeans(v[0], EscapeJson(v[1..]));
      assert [v[0]] + v[1..] == v;
    }
  }

  lemma NothingMeans()
    ensures Meaning("") == Some("")
  {
  }
}
