/**
 Printing and parsing undo each other: a printable document comes back unchanged from its own text, nested
 documents and arrays of documents included, to any depth.
 */
module JsonRoundTrip {
  import opened Chars
  import opened JsonText

  // ----- texts with balanced brackets -----------------------------------------------------------

  /** Where a scan stands: inside a string, after a backslash, and how many brackets of each sort are open. */
  datatype St = St(inString: bool, escape: bool, braces: int, brackets: int)

  const Start := St(false, false, 0, 0)

  function Step(st: St, c: char): St
  {
    if st.escape then st.(escape := false)
    else if c == '\\' then st.(escape := true)
    else if c == '"' then st.(inString := !st.inString)
    else if st.inString then st
    else if c == '{' then st.(braces := st.braces + 1)
    else if c == '}' then st.(braces := st.braces - 1)
    else if c == '[' then st.(brackets := st.brackets + 1)
    else if c == ']' then st.(brackets := st.brackets - 1)
    else st
  }

  function Run(s: string, st: St): St { if s == "" then st else Run(s[1..], Step(st, s[0])) }

  /** After every character at least `b` braces and `k` square brackets are open. */
  predicate Above(s: string, st: St, b: int, k: int)
  {
    s == "" || (Step(st, s[0]).braces >= b && Step(st, s[0]).brackets >= k && Above(s[1..], Step(st, s[0]), b, k))
  }

  /** Ends where it starts and never closes a bracket that it did not open. */
  predicate Neutral(s: string) { Run(s, Start) == Start && Above(s, Start, 0, 0) }

  /** An object or array text whose inside is neutral. */
  predicate Balanced(v: string)
  {
    |v| >= 2 && Neutral(v[1..|v| - 1])
    && ((v[0] == '{' && v[|v| - 1] == '}') || (v[0] == '[' && v[|v| - 1] == ']'))
  }

  lemma {:induction false} RunAppend(a: string, b: string, st: St)
    ensures Run(a + b, st) == Run(b, Run(a, st))
    decreases |a|
  {
    if a == "" {
      assert a + b == b;
    } else {
      assert (a + b)[1..] == a[1..] + b;
      RunAppend(a[1..], b, Step(st, a[0]));
    }
  }

  lemma {:induction false} AboveAppend(a: string, b: string, st: St, x: int, y: int)
    ensures Above(a + b, st, x, y) == (Above(a, st, x, y) && Above(b, Run(a, st), x, y))
    decreases |a|
  {
    if a == "" {
      assert a + b == b;
    } else {
      assert (a + b)[1..] == a[1..] + b;
      AboveAppend(a[1..], b, Step(st, a[0]), x, y);
    }
  }

  function Shift(st: St, x: int, y: int): St { st.(braces := st.braces + x, brackets := st.brackets + y) }

  lemma {:induction false} RunShift(s: string, st: St, b: int, k: int, x: int, y: int)
    ensures Run(s, Shift(st, x, y)) == Shift(Run(s, st), x, y)
    ensures Above(s, Shift(st, x, y), b + x, k + y) == Above(s, st, b, k)
    decreases |s|
  {
    if s != "" {
      assert Step(Shift(st, x, y), s[0]) == Shift(Step(st, s[0]), x, y);
      RunShift(s[1..], Step(st, s[0]), b, k, x, y);
    }
  }

  lemma NeutralAt(s: string, x: int, y: int)
    requires Neutral(s)
    ensures Run(s, St(false, false, x, y)) == St(false, false, x, y) && Above(s, St(false, false, x, y), x, y)
  {
    RunShift(s, Start, 0, 0, x, y);
  }

  lemma NeutralConcat(a: string, b: string)
    requires Neutral(a) && Neutral(b)
    ensures Neutral(a + b)
  {
    RunAppend(a, b, Start);
    AboveAppend(a, b, Start, 0, 0);
  }

  predicate PlainChar(c: char) { c != '\\' && c != '"' && c != '{' && c != '}' && c != '[' && c != ']' }

  lemma NeutralChar(c: char)
    requires PlainChar(c)
    ensures Neutral([c])
  {
    assert [c][1..] == "";
    assert Run([c], Start) == Run("", Step(Start, c));
    assert Above([c], Start, 0, 0) == (Step(Start, c).braces >= 0 && Step(Start, c).brackets >= 0 && Above("", Step(Start, c), 0, 0));
  }

  predicate PlainChars(s: string)
  {
    forall k :: 0 <= k < |s| ==> PlainChar(s[k])
  }

  lemma {:induction false} NeutralPlain(s: string)
    requires PlainChars(s)
    ensures Neutral(s)
    decreases |s|
  {
    if s != "" {
      assert PlainChar(s[0]);
      NeutralChar(s[0]);
      NeutralPlain(s[1..]);
      NeutralConcat([s[0]], s[1..]);
      assert [s[0]] + s[1..] == s;
    }
  }

  lemma BalancedIsNeutral(v: string)
    requires Balanced(v)
    ensures Neutral(v)
  {
    var m := v[1..|v| - 1];
    var st := Step(Start, v[0]);
    NeutralAt(m, st.braces, st.brackets);
    AboveWeaken(m, st, st.braces, st.brackets, 0, 0);
    assert v[1..] == m + [v[|v| - 1]];
    RunAppend(m, [v[|v| - 1]], st);
    AboveAppend(m, [v[|v| - 1]], st, 0, 0);
    assert [v[|v| - 1]][1..] == "";
    assert Run([v[|v| - 1]], st) == Run("", Step(st, v[|v| - 1]));
    assert Above([v[|v| - 1]], st, 0, 0) by {
      assert Above("", Step(st, v[|v| - 1]), 0, 0);
    }
  }

  lemma {:induction false} AboveWeaken(s: string, st: St, b: int, k: int, x: int, y: int)
    requires Above(s, st, b, k) && x <= b && y <= k
    ensures Above(s, st, x, y)
    decreases |s|
  {
    if s != "" {
      AboveWeaken(s[1..], Step(st, s[0]), b, k, x, y);
    }
  }

  // ----- reading a nested value back ------------------------------------------------------------

  function Tracked(st: St, open: char): int { if open == '{' then st.braces else st.brackets }

  lemma NestedStep(c: char, tail: string, open: char, close: char, st: St)
    requires (open == '{' && close == '}') || (open == '[' && close == ']')
    requires Tracked(Step(st, c), open) >= 1
    ensures var t := Step(st, c);
            var r := Nested(tail, open, close, Tracked(t, open), t.inString, t.escape);
            Nested([c] + tail, open, close, Tracked(st, open), st.inString, st.escape) == ([c] + r.0, r.1)
  {
    assert ([c] + tail)[1..] == tail;
  }

  /** While at least one tracked bracket stays open, the scan of a nested value goes on. */
  lemma {:induction false} NestedThrough(m: string, tail: string, open: char, close: char, st: St)
    requires (open == '{' && close == '}' && Above(m, st, 1, 0)) || (open == '[' && close == ']' && Above(m, st, 0, 1))
    ensures var t := Run(m, st);
            var r := Nested(tail, open, close, Tracked(t, open), t.inString, t.escape);
            Nested(m + tail, open, close, Tracked(st, open), st.inString, st.escape) == (m + r.0, r.1)
    decreases |m|
  {
    hide Nested, Step;
    if m == "" {
      assert m + tail == tail;
      var r := Nested(tail, open, close, Tracked(st, open), st.inString, st.escape);
      assert m + r.0 == r.0;
    } else {
      assert m + tail == [m[0]] + (m[1..] + tail);
      NestedStep(m[0], m[1..] + tail, open, close, st);
      NestedThrough(m[1..], tail, open, close, Step(st, m[0]));
      var t := Run(m, st);
      var r := Nested(tail, open, close, Tracked(t, open), t.inString, t.escape);
      assert [m[0]] + (m[1..] + r.0) == m + r.0;
    }
  }

  lemma NestedReads(v: string, tail: string, open: char, close: char)
    requires Balanced(v) && v[0] == open && v[|v| - 1] == close
    ensures Nested(v + tail, open, close, 0, false, false) == (v, tail)
  {
    var m := v[1..|v| - 1];
    var st := Step(Start, open);
    NeutralAt(m, st.braces, st.brackets);
    NestedThrough(m, [close] + tail, open, close, st);
    assert v + tail == [open] + (m + ([close] + tail));
    assert (v + tail)[1..] == m + ([close] + tail);
    assert ([close] + tail)[1..] == tail;
    assert [open] + (m + [close]) == v;
  }

  // ----- reading strings and numbers back -------------------------------------------------------

  predicate PlainKey(key: string)
  {
    key != "" && forall k :: 0 <= k < |key| ==> key[k] != '"' && key[k] != '\\'
  }

  lemma {:induction false} KeyReads(key: string, tail: string)
    requires forall k :: 0 <= k < |key| ==> key[k] != '"' && key[k] != '\\'
    ensures Quoted(key + ("\"" + tail)) == (key, tail)
    decreases |key|
  {
    if key != "" {
      assert (key + ("\"" + tail))[1..] == key[1..] + ("\"" + tail);
      KeyReads(key[1..], tail);
      assert [key[0]] + key[1..] == key;
    } else {
      assert key + ("\"" + tail) == "\"" + tail;
      assert ("\"" + tail)[1..] == tail;
    }
  }

  predicate NoControls(s: string) { forall k :: 0 <= k < |s| ==> s[k] >= ' ' }

  lemma QuotedStep(c: char, tail: string)
    requires c >= ' '
    ensures Quoted(EscapeChar(c) + tail) == ([c] + Quoted(tail).0, Quoted(tail).1)
  {
    var s := EscapeChar(c) + tail;
    if |EscapeChar(c)| == 2 {
      assert s[2..] == tail;
    } else {
      assert s[1..] == tail;
    }
  }

  /** Unescaping what was escaped. */
  lemma {:induction false} EscapedReads(v: string, tail: string)
    requires NoControls(v)
    ensures Quoted(EscapeJson(v) + ("\"" + tail)) == (v, tail)
    decreases |v|
  {
    hide Quoted, EscapeChar;
    if v == "" {
      KeyReads(v, tail);
    } else {
      EscapedReads(v[1..], tail);
      var rest := EscapeJson(v[1..]) + ("\"" + tail);
      QuotedStep(v[0], rest);
      assert EscapeJson(v) + ("\"" + tail) == EscapeChar(v[0]) + rest;
      assert [v[0]] + v[1..] == v;
    }
  }

  predicate ValueEnds(tail: string) { tail != "" && (tail[0] == ',' || tail[0] == '}' || tail[0] == ']') }

  /** A separator, or white space before it. */
  predicate Separated(tail: string)
  {
    ValueEnds(tail) || (tail != "" && (tail[0] == ' ' || tail[0] == '\t' || tail[0] == '\n' || tail[0] == '\r'))
  }

  lemma {:induction false} DigitsAndDotsReads(v: string, tail: string)
    requires forall k :: 0 <= k < |v| ==> DigitOrDot(v[k])
    requires tail != "" ==> !DigitOrDot(tail[0])
    ensures DigitsAndDots(v + tail) == (v, tail)
    decreases |v|
  {
    if v == "" {
      assert v + tail == tail;
    } else {
      assert (v + tail)[1..] == v[1..] + tail;
      DigitsAndDotsReads(v[1..], tail);
      assert [v[0]] + v[1..] == v;
    }
  }

  predicate HasExponent(v: string) { exists k :: 0 <= k < |v| && (v[k] == 'e' || v[k] == 'E') }

  /** An optional minus sign, then digits and dots. */
  predicate SignedDigits(v: string)
  {
    v != ""
    && var t := if v[0] == '-' then v[1..] else v; t != "" && IsDigit(t[0]) && forall k :: 0 <= k < |t| ==> DigitOrDot(t[k])
  }

  lemma DigitParts(t: string, lead: string, frac: string)
    requires t == lead + frac && lead != "" && AllDigits(lead) && forall k :: 0 <= k < |frac| ==> DigitOrDot(frac[k])
    ensures t != "" && IsDigit(t[0]) && forall k :: 0 <= k < |t| ==> DigitOrDot(t[k])
  {
  }

  lemma ExponentShows(v: string, before: string, w: string)
    requires v == before + w && (w != "" ==> w[0] == 'e' || w[0] == 'E')
    ensures w != "" ==> HasExponent(v)
  {
    if w != "" {
      assert v[|before|] == w[0];
    }
  }

  /** Without an exponent, a number literal is an optional minus sign and then digits and dots. */
  lemma LiteralShape(v: string)
    requires IsNumberLiteral(v) && !HasExponent(v)
    ensures SignedDigits(v)
  {
    hide AfterInteger, AfterFraction, IsExponent;
    var t := if v[0] == '-' then v[1..] else v;
    var u := AfterInteger(t).value;
    var w := AfterFraction(u).value;
    var lead :| t == lead + u && lead != "" && AllDigits(lead);
    var frac :| u == frac + w && forall k :: 0 <= k < |frac| ==> DigitOrDot(frac[k]);
    LiteralParts(v, t, lead, frac, w);
  }

  lemma LiteralParts(v: string, t: string, lead: string, frac: string, w: string)
    requires v != "" && t == if v[0] == '-' then v[1..] else v
    requires t == lead + (frac + w) && lead != "" && AllDigits(lead) && forall k :: 0 <= k < |frac| ==> DigitOrDot(frac[k])
    requires !HasExponent(v) && (w != "" ==> w[0] == 'e' || w[0] == 'E')
    ensures SignedDigits(v)
  {
    var sign := if v[0] == '-' then "-" else "";
    assert v == (sign + lead + frac) + w;
    ExponentShows(v, sign + lead + frac, w);
    assert t == lead + frac;
    DigitParts(t, lead, frac);
  }

  lemma NumberReads(v: string, tail: string)
    requires SignedDigits(v) && Separated(tail)
    ensures ReadNumber(v + tail) == (v, tail)
  {
    assert SkipWs(v + tail) == v + tail;
    if v[0] == '-' {
      assert (v + tail)[1..] == v[1..] + tail;
      DigitsAndDotsReads(v[1..], tail);
      assert "-" + v[1..] == v;
    } else {
      DigitsAndDotsReads(v, tail);
    }
  }

  // ----- one value ------------------------------------------------------------------------------

  /** Text free of control characters that is not mistaken for something else, or a balanced nested value. */
  predicate PrintableValue(v: string)
  {
    if v != "" && (v[0] == '{' || v[0] == '[') then Balanced(v)
    else NoControls(v) && !(IsNumberLiteral(v) && HasExponent(v))
  }

  lemma ValueReads(v: string, tail: string)
    requires PrintableValue(v) && Separated(tail)
    ensures ReadData(ValueText(v) + tail) == (v, tail)
  {
    hide IsNumberLiteral, Nested, Quoted, EscapeJson, DigitsAndDots, Balanced;
    var text := ValueText(v) + tail;
    if v != "" && (v[0] == '{' || v[0] == '[') {
      BalancedEnds(v);
      NestedReads(v, tail, v[0], v[|v| - 1]);
    } else if v == "true" || v == "false" || v == "null" {
      assert text[..|v|] == v && text[|v|..] == tail;
    } else if IsNumberLiteral(v) {
      LiteralShape(v);
      NumberReads(v, tail);
      NumberDispatch(v + tail);
    } else {
      EscapedReads(v, tail);
      assert text == "\"" + (EscapeJson(v) + ("\"" + tail));
      assert text[1..] == EscapeJson(v) + ("\"" + tail);
    }
  }

  lemma BalancedEnds(v: string)
    requires Balanced(v)
    ensures |v| >= 2 && ((v[0] == '{' && v[|v| - 1] == '}') || (v[0] == '[' && v[|v| - 1] == ']'))
  {
  }

  lemma NumberDispatch(s: string)
    requires s != "" && (IsDigit(s[0]) || s[0] == '-')
    ensures ReadData(s) == ReadNumber(s)
  {
    hide ReadNumber;
    assert SkipWs(s) == s;
  }

  /** The escape of one character leaves the string state as it was. */
  lemma EscapeStays(c: char, st: St)
    requires c >= ' ' && st.inString && !st.escape
    ensures Run(EscapeChar(c), st) == st && Above(EscapeChar(c), st, st.braces, st.brackets)
  {
    var e := EscapeChar(c);
    if |e| == 2 {
      assert e[1..] == [e[1]] && [e[1]][1..] == "";
      assert Run([e[1]], Step(st, e[0])) == Run("", Step(Step(st, e[0]), e[1]));
      assert Above("", Step(Step(st, e[0]), e[1]), st.braces, st.brackets);
      assert Above([e[1]], Step(st, e[0]), st.braces, st.brackets);
    } else {
      assert e[1..] == "";
      assert Run(e, st) == Run("", Step(st, e[0]));
      assert Above("", Step(st, e[0]), st.braces, st.brackets);
    }
  }

  lemma {:induction false} EscapedStays(v: string, st: St)
    requires NoControls(v) && st.inString && !st.escape
    ensures Run(EscapeJson(v), st) == st && Above(EscapeJson(v), st, st.braces, st.brackets)
    decreases |v|
  {
    hide Run, Above, Step, EscapeChar;
    if v != "" {
      EscapeStays(v[0], st);
      EscapedStays(v[1..], st);
      RunAppend(EscapeChar(v[0]), EscapeJson(v[1..]), st);
      AboveAppend(EscapeChar(v[0]), EscapeJson(v[1..]), st, st.braces, st.brackets);
    } else {
      RunNothing(st);
    }
  }

  lemma RunNothing(st: St)
    ensures Run("", st) == st && Above("", st, st.braces, st.brackets)
  {
  }

  lemma {:induction false} KeyStays(key: string, st: St)
    requires forall k :: 0 <= k < |key| ==> key[k] != '"' && key[k] != '\\'
    requires st.inString && !st.escape
    ensures Run(key, st) == st && Above(key, st, st.braces, st.brackets)
    decreases |key|
  {
    if key != "" {
      KeyStays(key[1..], st);
    }
  }

  /** A body that stays inside the string, between quotes. */
  lemma QuotedNeutral(body: string)
    requires var st := St(true, false, 0, 0); Run(body, st) == st && Above(body, st, 0, 0)
    ensures Neutral("\"" + body + "\"")
  {
    var st := St(true, false, 0, 0);
    var q := "\"";
    assert q[1..] == "";
    assert Run(q, Start) == Run("", st) && Run(q, st) == Run("", Start);
    assert Above(q, Start, 0, 0) && Above(q, st, 0, 0) by {
      assert Above("", st, 0, 0) && Above("", Start, 0, 0);
    }
    RunAppend(q, body, Start);
    AboveAppend(q, body, Start, 0, 0);
    RunAppend(q + body, q, Start);
    AboveAppend(q + body, q, Start, 0, 0);
  }

  lemma SignedDigitsPlain(v: string)
    requires SignedDigits(v)
    ensures PlainChars(v) && NoControls(v)
  {
    forall k | 0 <= k < |v| ensures PlainChar(v[k]) && v[k] >= ' ' {
      if v[0] != '-' {
        assert DigitOrDot(v[k]);
      } else if k > 0 {
        assert DigitOrDot(v[1..][k - 1]);
      }
    }
  }

  lemma ValueNeutral(v: string)
    requires PrintableValue(v)
    ensures Neutral(ValueText(v))
  {
    hide IsNumberLiteral, Balanced, Neutral, EscapeJson;
    if v != "" && (v[0] == '{' || v[0] == '[') {
      BalancedIsNeutral(v);
    } else if v == "true" || v == "false" || v == "null" {
      NeutralPlain(v);
    } else if IsNumberLiteral(v) {
      LiteralShape(v);
      SignedDigitsPlain(v);
      NeutralPlain(v);
    } else {
      EscapedStays(v, St(true, false, 0, 0));
      QuotedNeutral(EscapeJson(v));
    }
  }

  lemma MemberNeutral(key: string, value: string)
    requires PlainKey(key) && PrintableValue(value)
    ensures Neutral(Member(key, value))
  {
    hide Neutral, PrintableValue, Run, Above, ValueText;
    KeyStays(key, St(true, false, 0, 0));
    QuotedNeutral(key);
    NeutralChar(':');
    ValueNeutral(value);
    NeutralConcat("\"" + key + "\"", ":");
    NeutralConcat("\"" + key + "\"" + ":", ValueText(value));
    assert "\"" + key + "\"" + ":" == "\"" + key + "\":";
  }

  // ----- printable documents --------------------------------------------------------------------

  predicate Distinct(keys: seq<string>) { forall j, k :: 0 <= j < k < |keys| ==> keys[j] != keys[k] }

  predicate PrintableFields(keys: seq<string>, data: map<string, string>)
  {
    && Distinct(keys)
    && (forall k :: 0 <= k < |keys| ==> PlainKey(keys[k]) && keys[k] in data && PrintableValue(data[keys[k]]))
    && (forall key :: key in data ==> key in keys)
  }

  /** An object with printable fields, or a non-empty array of printable documents. */
  predicate Printable(d: Doc)
  {
    d.error == ""
    && if d.items == [] then PrintableFields(d.keys, d.data)
       else d.keys == [] && d.data == map[] && forall k :: 0 <= k < |d.items| ==> Printable(d.items[k])
  }

  lemma {:induction false} MembersNeutral(keys: seq<string>, data: map<string, string>, first: bool)
    requires forall k :: 0 <= k < |keys| ==> PlainKey(keys[k]) && keys[k] in data && PrintableValue(data[keys[k]])
    ensures Neutral(Members(keys, data, first))
    decreases |keys|
  {
    if keys != [] {
      var head := Member(keys[0], data[keys[0]]);
      var tail := Members(keys[1..], data, false);
      MemberNeutral(keys[0], data[keys[0]]);
      MembersNeutral(keys[1..], data, false);
      NeutralChar(',');
      if first {
        NeutralConcat(head, tail);
        assert "" + head == head;
      } else {
        NeutralConcat(",", head);
        NeutralConcat("," + head, tail);
      }
    }
  }

  lemma Enclosed(m: string, open: char, close: char)
    requires Neutral(m) && ((open == '{' && close == '}') || (open == '[' && close == ']'))
    ensures Balanced([open] + m + [close])
  {
    var v := [open] + m + [close];
    assert v[1..|v| - 1] == m;
  }

  /** Whatever is printed can be stored as a nested value. */
  lemma {:induction false} PrintedBalanced(d: Doc)
    requires Printable(d)
    ensures Balanced(ToString(d))
    decreases d, 1
  {
    if d.items == [] {
      MembersNeutral(d.keys, d.data, true);
      Enclosed(Members(d.keys, d.data, true), '{', '}');
    } else {
      ItemsNeutral(d.items, true);
      Enclosed(ItemsText(d.items, true), '[', ']');
    }
  }

  lemma {:induction false} ItemsNeutral(items: seq<Doc>, first: bool)
    requires forall k :: 0 <= k < |items| ==> Printable(items[k])
    ensures Neutral(ItemsText(items, first))
    decreases items, 0
  {
    if items != [] {
      PrintedBalanced(items[0]);
      var head := ToString(items[0]);
      var tail := ItemsText(items[1..], false);
      BalancedIsNeutral(head);
      ItemsNeutral(items[1..], false);
      NeutralChar(',');
      if first {
        NeutralConcat(head, tail);
        assert "" + head == head;
      } else {
        NeutralConcat(",", head);
        NeutralConcat("," + head, tail);
      }
    }
  }

  /** What a quoted text becomes: an escaped control character loses its backslash and keeps its letters. */
  function Reread(v: string): string
  {
    if v == "" then "" else (if v[0] < ' ' then EscapeChar(v[0])[1..] else [v[0]]) + Reread(v[1..])
  }

  /** An escaped control character is a backslash and plain letters. */
  lemma ControlLetters(c: char)
    requires c < ' '
    ensures var e := EscapeChar(c);
            |e| >= 2 && e[0] == '\\' && NoControls(e[1..]) && forall k :: 2 <= k < |e| ==> e[k] != '"' && e[k] != '\\'
  {
  }

  lemma QuotedBackslash(c: char, rest: string)
    ensures Quoted(['\\', c] + rest) == ([c] + Quoted(rest).0, Quoted(rest).1)
  {
    assert (['\\', c] + rest)[2..] == rest;
  }

  lemma QuotedControl(c: char, tail: string)
    requires c < ' '
    ensures EscapeChar(c) != "" && NoControls(EscapeChar(c)[1..])
    ensures Quoted(EscapeChar(c) + tail) == (EscapeChar(c)[1..] + Quoted(tail).0, Quoted(tail).1)
  {
    hide *;
    ControlLetters(c);
    var e := EscapeChar(c);
    var letters := e[2..];
    assert e + tail == ['\\', e[1]] + (letters + tail);
    QuotedBackslash(e[1], letters + tail);
    LettersRead(letters, tail);
    assert [e[1]] + (letters + Quoted(tail).0) == e[1..] + Quoted(tail).0;
  }

  lemma {:induction false} LettersRead(m: string, tail: string)
    requires forall k :: 0 <= k < |m| ==> m[k] != '"' && m[k] != '\\'
    ensures Quoted(m + tail) == (m + Quoted(tail).0, Quoted(tail).1)
    decreases |m|
  {
    if m == "" {
      assert m + tail == tail && m + Quoted(tail).0 == Quoted(tail).0;
    } else {
      assert (m + tail)[1..] == m[1..] + tail;
      LettersRead(m[1..], tail);
      assert [m[0]] + (m[1..] + Quoted(tail).0) == m + Quoted(tail).0;
    }
  }

  lemma {:induction false} QuotedRereads(v: string, tail: string)
    ensures Quoted(EscapeJson(v) + ("\"" + tail)) == (Reread(v), tail) && NoControls(Reread(v))
    decreases |v|
  {
    hide Quoted, EscapeChar;
    if v == "" {
      KeyReads(v, tail);
    } else {
      QuotedRereads(v[1..], tail);
      var rest := EscapeJson(v[1..]) + ("\"" + tail);
      assert EscapeJson(v) + ("\"" + tail) == EscapeChar(v[0]) + rest;
      if v[0] < ' ' {
        QuotedControl(v[0], rest);
      } else {
        QuotedStep(v[0], rest);
      }
    }
  }

  lemma {:induction false} DigitsAndDotsOnly(s: string)
    ensures forall k :: 0 <= k < |DigitsAndDots(s).0| ==> DigitOrDot(DigitsAndDots(s).0[k])
    decreases |s|
  {
    if s != "" {
      DigitsAndDotsOnly(s[1..]);
    }
  }

  /** Exactly the texts that survive printing and reading: no control character, and no number with an exponent. */
  lemma TextSurvives(v: string, tail: string)
    requires v == "" || (v[0] != '{' && v[0] != '[')
    requires Separated(tail)
    ensures ReadData(ValueText(v) + tail) == (v, tail) <==> NoControls(v) && !(IsNumberLiteral(v) && HasExponent(v))
  {
    hide IsNumberLiteral, Quoted, EscapeJson, DigitsAndDots, Nested, Reread;
    var text := ValueText(v) + tail;
    if NoControls(v) && !(IsNumberLiteral(v) && HasExponent(v)) {
      ValueReads(v, tail);
    } else if v == "true" || v == "false" || v == "null" {
      if IsNumberLiteral(v) {
        LiteralStarts(v);
      }
    } else if IsNumberLiteral(v) {
      if HasExponent(v) {
        LiteralStarts(v);
        assert text[0] == v[0];
        NumberDispatch(text);
        NumberHasNoExponent(text);
      } else {
        LiteralShape(v);
        SignedDigitsPlain(v);
      }
    } else {
      QuotedRereads(v, tail);
      assert text == "\"" + (EscapeJson(v) + ("\"" + tail));
      assert text[1..] == EscapeJson(v) + ("\"" + tail);
    }
  }

  lemma LiteralStarts(v: string)
    requires IsNumberLiteral(v)
    ensures v != "" && (IsDigit(v[0]) || v[0] == '-')
  {
  }

  lemma NumberHasNoExponent(s: string)
    ensures !HasExponent(ReadNumber(s).0)
  {
    var t := SkipWs(s);
    DigitsAndDotsOnly(if Starts(t, '-') then t[1..] else t);
  }

  // ----- exactly which nested values and keys survive -------------------------------------------

  /** The brackets of the kind that v starts with, outside strings, are all closed by the last character of v, and not
      before. */
  predicate ClosesLast(v: string, st: St, open: char)
  {
    && v != ""
    && var t := Step(st, v[0]);
       if |v| == 1 then Tracked(t, open) == 0 else Tracked(t, open) >= 1 && ClosesLast(v[1..], t, open)
  }

  lemma NestedCloses(c: char, tail: string, open: char, close: char, st: St)
    requires (open == '{' && close == '}') || (open == '[' && close == ']')
    requires Tracked(st, open) >= 1 && Tracked(Step(st, c), open) == 0
    ensures Nested([c] + tail, open, close, Tracked(st, open), st.inString, st.escape) == ([c], tail)
  {
    assert ([c] + tail)[1..] == tail;
  }

  lemma {:induction false} NestedExactly(v: string, tail: string, open: char, close: char, st: St)
    requires (open == '{' && close == '}') || (open == '[' && close == ']')
    requires v != "" && tail != "" && (Tracked(st, open) >= 1 || (st == Start && v[0] == open))
    ensures Nested(v + tail, open, close, Tracked(st, open), st.inString, st.escape) == (v, tail)
            <==> ClosesLast(v, st, open)
    decreases |v|
  {
    var c, rest, t := v[0], v[1..] + tail, Step(st, v[0]);
    assert v + tail == [c] + rest && v == [c] + v[1..];
    assert Tracked(t, open) >= 0;
    assert Tracked(t, open) == 0 ==> Tracked(st, open) >= 1;
    hide Nested, Step;
    if Tracked(t, open) == 0 {
      NestedCloses(c, rest, open, close, st);
    } else {
      NestedStep(c, rest, open, close, st);
      var r := Nested(rest, open, close, Tracked(t, open), t.inString, t.escape);
      assert ([c] + r.0)[1..] == r.0;
      if |v| == 1 {
        assert rest == tail;
      } else {
        NestedExactly(v[1..], tail, open, close, t);
      }
    }
  }

  lemma NestedDispatch(v: string, tail: string)
    requires v != "" && (v[0] == '{' || v[0] == '[')
    ensures ReadData(ValueText(v) + tail)
         == Nested(v + tail, v[0], if v[0] == '{' then '}' else ']', 0, false, false)
  {
    hide Nested;
    assert (v + tail)[0] == v[0];
  }

  /** Exactly the values that are read back unchanged after printing, nested ones included. */
  lemma ValueSurvives(v: string, tail: string)
    requires Separated(tail)
    ensures ReadData(ValueText(v) + tail) == (v, tail) <==>
            if v != "" && (v[0] == '{' || v[0] == '[') then ClosesLast(v, Start, v[0])
            else NoControls(v) && !(IsNumberLiteral(v) && HasExponent(v))
  {
    assert tail != "" && Tracked(Start, '{') == Tracked(Start, '[') == 0 && !Start.inString && !Start.escape;
    hide *;
    if v != "" && (v[0] == '{' || v[0] == '[') {
      NestedDispatch(v, tail);
      NestedExactly(v, tail, v[0], if v[0] == '{' then '}' else ']', Start);
    } else {
      TextSurvives(v, tail);
    }
  }

  lemma {:induction false} QuotedShrinks(s: string)
    ensures Quoted(s).1 != "" ==> |Quoted(s).0| + |Quoted(s).1| < |s|
    decreases |s|
  {
    if s != "" && s[0] == '\\' {
      if |s| > 1 {
        QuotedShrinks(s[2..]);
      }
    } else if s != "" {
      QuotedShrinks(s[1..]);
    }
  }

  /** A printed key, which is not escaped, is read back exactly when it has no quote and no backslash. */
  lemma {:induction false} KeySurvives(key: string, tail: string)
    requires tail != ""
    ensures Quoted(key + ("\"" + tail)) == (key, tail) <==> forall k :: 0 <= k < |key| ==> key[k] != '"' && key[k] != '\\'
    decreases |key|
  {
    if forall k :: 0 <= k < |key| ==> key[k] != '"' && key[k] != '\\' {
      KeyReads(key, tail);
    } else {
      var s := key + ("\"" + tail);
      assert s[0] == key[0] && s[1..] == key[1..] + ("\"" + tail);
      if key[0] == '\\' {
        QuotedShrinks(s[2..]);
      } else if key[0] != '"' {
        KeySurvives(key[1..], tail);
        var (v, rest) := Quoted(s[1..]);
        assert ([key[0]] + v)[1..] == v;
      }
    }
  }

  // ----- reading fields and elements back -------------------------------------------------------

  function Restrict(data: map<string, string>, keys: seq<string>): map<string, string>
  {
    map k | k in data && k in keys :: data[k]
  }

  predicate FieldsOk(keys: seq<string>, data: map<string, string>)
  {
    forall k :: 0 <= k < |keys| ==> PlainKey(keys[k]) && keys[k] in data && PrintableValue(data[keys[k]])
  }

  /** One printed member, followed by the rest of the object. */
  lemma FieldStep(key: string, value: string, tail: string, keys: seq<string>, data: map<string, string>)
    requires PlainKey(key) && ReadData(ValueText(value) + tail) == (value, tail) && ValueEnds(tail)
    ensures Fields(Member(key, value) + tail, keys, data)
         == if tail[0] == ',' then Fields(tail[1..], keys + [key], data[key := value])
            else if tail[0] == '}' then FieldsRead(keys + [key], data[key := value], tail[1..], "")
            else Fields(tail, keys + [key], data[key := value])
  {
    hide Quoted, ReadData, ValueText;
    var s := Member(key, value) + tail;
    var afterKey := ":" + (ValueText(value) + tail);
    KeyReads(key, afterKey);
    assert s == "\"" + (key + ("\"" + afterKey));
    assert s[1..] == key + ("\"" + afterKey);
    assert ReadString(s) == (key, afterKey);
    assert afterKey[1..] == ValueText(value) + tail;
    assert SkipWs(s) == s && SkipWs(afterKey) == afterKey && SkipWs(tail) == tail;
  }

  lemma {:induction false} FieldsReadBack(before: seq<string>, keys: seq<string>, data: map<string, string>, tail: string)
    requires keys != [] && FieldsOk(keys, data)
    ensures Fields(Members(keys, data, true) + ("}" + tail), before, Restrict(data, before))
         == FieldsRead(before + keys, Restrict(data, before + keys), tail, "")
    decreases |keys|
  {
    hide Fields, Member, PrintableValue, PlainKey;
    var key := keys[0];
    var rest := Members(keys[1..], data, false) + ("}" + tail);
    assert Members(keys, data, true) + ("}" + tail) == Member(key, data[key]) + rest;
    assert Restrict(data, before)[key := data[key]] == Restrict(data, before + [key]);
    if |keys| == 1 {
      assert Members(keys[1..], data, false) == "";
      assert rest == "}" + tail;
      assert rest[1..] == tail;
      ValueReads(data[key], rest);
      FieldStep(key, data[key], rest, before, Restrict(data, before));
      assert keys == [key];
    } else {
      var more := Members(keys[1..], data, true) + ("}" + tail);
      MembersComma(keys[1..], data);
      assert rest == "," + more;
      assert rest[1..] == more;
      ValueReads(data[key], rest);
      FieldStep(key, data[key], rest, before, Restrict(data, before));
      FieldsReadBack(before + [key], keys[1..], data, tail);
      assert before + [key] + keys[1..] == before + keys;
    }
  }

  lemma MembersComma(keys: seq<string>, data: map<string, string>)
    requires keys != [] && keys[0] in data
    ensures Members(keys, data, false) == "," + Members(keys, data, true)
  {
  }

  lemma ObjectReadBack(d: Doc)
    requires Printable(d) && d.items == []
    ensures Parse(ToString(d)) == Finished(d)
  {
    PrintedObject(d);
    hide *;
    if d.keys == [] {
      EmptyObject(d);
    } else {
      FieldsReadBack([], d.keys, d.data, "");
      assert [] + d.keys == d.keys;
      ObjectParse(Members(d.keys, d.data, true) + ("}" + ""), d);
    }
  }

  lemma PrintedObject(d: Doc)
    requires Printable(d) && d.items == []
    ensures ToString(d) == "{" + (Members(d.keys, d.data, true) + ("}" + ""))
    ensures FieldsOk(d.keys, d.data) && Restrict(d.data, []) == map[] && Restrict(d.data, d.keys) == d.data
    ensures d == Doc(d.keys, d.data, [], "")
  {
    hide PrintableValue, PlainKey, Member, Members;
    assert ToString(d) == "{" + (Members(d.keys, d.data, true) + ("}" + ""));
  }

  lemma EmptyObject(d: Doc)
    requires d.keys == [] && d == Doc([], map[], [], "") && ToString(d) == "{" + (Members(d.keys, d.data, true) + ("}" + ""))
    ensures Parse(ToString(d)) == Finished(d)
  {
    assert Members([], d.data, true) == "";
    assert ToString(d) == "{}";
    assert "{}"[1..] == "}" && "}"[1..] == "";
    assert SkipWs("{}") == "{}" && SkipWs("}") == "}";
  }

  lemma ObjectParse(inside: string, d: Doc)
    requires Fields(inside, [], map[]) == FieldsRead(d.keys, d.data, "", "") && d == Doc(d.keys, d.data, [], "")
    ensures Parse("{" + inside) == Finished(d)
  {
    hide Fields;
    var s := "{" + inside;
    assert s[1..] == inside;
    assert SkipWs(s) == s;
    assert SkipWs("") == "";
  }

  lemma ItemStep(v: string, tail: string, items: seq<Doc>)
    requires Balanced(v) && ValueEnds(tail)
    ensures Items(v + tail, items)
         == if Parse(v).Diverges? then Diverges
            else if tail[0] == ',' then Items(tail[1..], items + [Parse(v).value])
            else if tail[0] == ']' then Finished((items + [Parse(v).value], tail[1..]))
            else Items(tail, items + [Parse(v).value])
  {
    hide Parse, Nested, Neutral;
    var s := v + tail;
    BalancedEnds(v);
    NestedReads(v, tail, v[0], v[|v| - 1]);
    assert SkipWs(s) == s && SkipWs(tail) == tail;
    assert ReadData(s) == (v, tail);
  }

  lemma {:induction false} ItemsReadBack(before: seq<Doc>, items: seq<Doc>, tail: string)
    requires items != [] && forall k :: 0 <= k < |items| ==> Printable(items[k])
    ensures Items(ItemsText(items, true) + ("]" + tail), before) == Finished((before + items, tail))
    decreases items, 0
  {
    hide Parse, ToString, Items, Printable;
    var v := ToString(items[0]);
    PrintedBalanced(items[0]);
    ReadBack(items[0]);
    var rest := ItemsText(items[1..], false) + ("]" + tail);
    assert ItemsText(items, true) + ("]" + tail) == v + rest;
    if |items| == 1 {
      assert ItemsText(items[1..], false) == "";
      assert rest == "]" + tail;
      assert rest[1..] == tail;
      ItemStep(v, rest, before);
      assert items == [items[0]];
    } else {
      var more := ItemsText(items[1..], true) + ("]" + tail);
      ItemsComma(items[1..]);
      assert rest == "," + more;
      assert rest[1..] == more;
      ItemStep(v, rest, before);
      ItemsReadBack(before + [items[0]], items[1..], tail);
      assert before + [items[0]] + items[1..] == before + items;
    }
  }

  lemma ItemsComma(items: seq<Doc>)
    requires items != []
    ensures ItemsText(items, false) == "," + ItemsText(items, true)
  {
    hide ToString;
  }

  /** The round trip: parsing the printed text gives the document back, nested arrays of documents included. */
  lemma {:induction false} ReadBack(d: Doc)
    requires Printable(d)
    ensures Parse(ToString(d)) == Finished(d)
    decreases d, 1
  {
    if d.items == [] {
      ObjectReadBack(d);
    } else {
      ItemsReadBack([], d.items, "");
      var s := ToString(d);
      assert s == "[" + (ItemsText(d.items, true) + ("]" + ""));
      assert s[1..] == ItemsText(d.items, true) + ("]" + "");
      assert SkipWs(s) == s;
      assert [] + d.items == d.items;
    }
  }

  // ----- nested documents -----------------------------------------------------------------------

  /** Storing a printable document under a key keeps the document printable, and getObject gives it back. */
  lemma ChildReadBack(d: Doc, key: string, child: Doc)
    requires Printable(d) && d.items == [] && PlainKey(key) && Printable(child)
    ensures var stored := Store(d, key, ToString(child));
            Printable(stored) && Parse(ToString(stored)) == Finished(stored) && GetObject(stored, key) == Finished(child)
  {
    PrintedBalanced(child);
    StorePrintable(d, key, ToString(child));
    ReadBack(Store(d, key, ToString(child)));
    ReadBack(child);
  }

  /** The setters: the key is appended unless it is already there. */
  function Store(d: Doc, key: string, value: string): Doc
  {
    d.(data := d.data[key := value], keys := if key in d.keys then d.keys else d.keys + [key])
  }

  lemma StorePrintable(d: Doc, key: string, value: string)
    requires Printable(d) && d.items == [] && PlainKey(key) && PrintableValue(value)
    ensures Printable(Store(d, key, value))
  {
    hide PrintableValue, PlainKey;
  }

  lemma {:induction false} SplitThrough(m: string, tail: string, current: string, st: St)
    requires st.brackets >= 0
    requires (st.braces >= 1 && Above(m, st, 1, 0)) || (st.brackets >= 1 && Above(m, st, 0, 1))
    ensures var t := Run(m, st);
            t.brackets >= 0
            && Split(m + tail, current, st.inString, st.escape, st.brackets, st.braces)
               == Split(tail, current + m, t.inString, t.escape, t.brackets, t.braces)
    decreases |m|
  {
    if m == "" {
      assert m + tail == tail && current + m == current;
    } else {
      var c := m[0];
      SplitThrough(m[1..], tail, current + [c], Step(st, c));
      assert (m + tail)[1..] == m[1..] + tail;
      assert current + [c] + m[1..] == current + m;
    }
  }

  lemma SplitEnclosed(open: char, m: string, close: char, tail: string, current: string)
    requires Neutral(m) && ((open == '{' && close == '}') || (open == '[' && close == ']'))
    ensures Split([open] + (m + ([close] + tail)), current, false, false, 0, 0)
         == Split(tail, current + ([open] + m + [close]), false, false, 0, 0)
  {
    var braces, brackets := if open == '{' then 1 else 0, if open == '[' then 1 else 0;
    Brackets(open, close);
    hide *;
    SplitBracket(open, m + ([close] + tail), current, Start);
    SplitInside(m, [close] + tail, current + [open], braces, brackets);
    SplitBracket(close, tail, current + [open] + m, St(false, false, braces, brackets));
    assert current + [open] + m + [close] == current + ([open] + m + [close]);
  }

  lemma Brackets(open: char, close: char)
    requires (open == '{' && close == '}') || (open == '[' && close == ']')
    ensures var st := St(false, false, if open == '{' then 1 else 0, if open == '[' then 1 else 0);
            Start == St(false, false, 0, 0) && Step(Start, open) == st && Step(st, close) == Start
  {
  }

  lemma SplitInside(m: string, tail: string, current: string, braces: nat, brackets: nat)
    requires Neutral(m) && (braces >= 1 || brackets >= 1)
    ensures Split(m + tail, current, false, false, brackets, braces)
         == Split(tail, current + m, false, false, brackets, braces)
  {
    var st := St(false, false, braces, brackets);
    NeutralAt(m, braces, brackets);
    AboveWeaken(m, st, braces, brackets, if braces >= 1 then 1 else 0, if braces >= 1 then 0 else 1);
    hide Split, Run, Above, Neutral;
    SplitThrough(m, tail, current, st);
  }

  /** A balanced element goes into one piece of the split. */
  lemma SplitElement(v: string, tail: string, current: string)
    requires Balanced(v)
    ensures Split(v + tail, current, false, false, 0, 0) == Split(tail, current + v, false, false, 0, 0)
  {
    hide *;
    BalancedEnds(v);
    InsideNeutral(v);
    var m := v[1..|v| - 1];
    SplitEnclosed(v[0], m, v[|v| - 1], tail, current);
    assert v + tail == [v[0]] + (m + ([v[|v| - 1]] + tail));
    assert [v[0]] + m + [v[|v| - 1]] == v;
  }

  lemma InsideNeutral(v: string)
    requires Balanced(v)
    ensures Neutral(v[1..|v| - 1])
  {
  }

  lemma SplitBracket(c: char, tail: string, current: string, st: St)
    requires c == '{' || c == '}' || c == '[' || (c == ']' && st.brackets > 0)
    requires !st.inString && !st.escape && st.brackets >= 0
    ensures var t := Step(st, c);
            t.brackets >= 0 && !t.inString && !t.escape
            && Split([c] + tail, current, false, false, st.brackets, st.braces)
               == Split(tail, current + [c], false, false, t.brackets, t.braces)
  {
    assert ([c] + tail)[1..] == tail;
  }

  lemma KeepBalanced(v: string)
    requires Balanced(v)
    ensures Keep(v) == [v]
  {
    BalancedEnds(v);
    assert SkipWs(v) == v && TrimEnd(v) == v;
  }

  function Texts(items: seq<Doc>): seq<string>
  {
    if items == [] then [] else [ToString(items[0])] + Texts(items[1..])
  }

  lemma {:induction false} SplitReadBack(items: seq<Doc>, tail: string)
    requires items != [] && forall k :: 0 <= k < |items| ==> Printable(items[k])
    ensures Split(ItemsText(items, true) + ("]" + tail), "", false, false, 0, 0) == Texts(items)
    decreases |items|
  {
    hide ToString, Printable, Balanced, Keep;
    var v := ToString(items[0]);
    PrintedBalanced(items[0]);
    KeepBalanced(v);
    var rest := ItemsText(items[1..], false) + ("]" + tail);
    assert ItemsText(items, true) + ("]" + tail) == v + rest;
    SplitElement(v, rest, "");
    assert "" + v == v;
    if |items| == 1 {
      assert ItemsText(items[1..], false) == "";
      assert rest == "]" + tail;
      assert Texts(items[1..]) == [];
    } else {
      var more := ItemsText(items[1..], true) + ("]" + tail);
      ItemsComma(items[1..]);
      assert rest == "," + more;
      assert rest[1..] == more;
      SplitReadBack(items[1..], tail);
    }
  }

  lemma {:induction false} ParseAllReadBack(items: seq<Doc>)
    requires forall k :: 0 <= k < |items| ==> Printable(items[k])
    ensures ParseAll(Texts(items)) == Finished(items)
    decreases |items|
  {
    hide ToString, Printable, Parse;
    if items != [] {
      ReadBack(items[0]);
      ParseAllReadBack(items[1..]);
      assert Texts(items)[1..] == Texts(items[1..]);
      assert [items[0]] + items[1..] == items;
    }
  }

  /** Storing an array of printable documents keeps the document printable, and getArrayOfJSON gives them back. */
  lemma ChildrenReadBack(d: Doc, key: string, children: seq<Doc>)
    requires Printable(d) && d.items == [] && PlainKey(key)
    requires forall k :: 0 <= k < |children| ==> Printable(children[k])
    ensures var stored := Store(d, key, ArrayText(children));
            Printable(stored) && Parse(ToString(stored)) == Finished(stored)
            && GetArrayOfJSON(stored, key) == Finished(children)
  {
    hide PrintableValue, Printable, Parse;
    ItemsNeutral(children, true);
    Enclosed(ItemsText(children, true), '[', ']');
    var text := ArrayText(children);
    BalancedPrintable(text);
    StorePrintable(d, key, text);
    ReadBack(Store(d, key, text));
    assert text == "[" + (ItemsText(children, true) + ("]" + ""));
    assert text[1..] == ItemsText(children, true) + ("]" + "");
    if children == [] {
      assert text[1..] == "]";
      assert Split("]", "", false, false, 0, 0) == [];
    } else {
      SplitReadBack(children, "");
      ParseAllReadBack(children);
    }
  }

  lemma BalancedPrintable(v: string)
    requires Balanced(v)
    ensures PrintableValue(v)
  {
  }
}
