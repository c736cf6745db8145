/**
 Reading and printing of JSON text (src/parser/JSONParser.cpp and escapeJson in src/security/Security.cpp) as
 functions.  A reader takes the input still to be read and returns what it read together with what is left.
 */
module JsonText {
  import opened Chars

  /** A parsed document: its keys in order, the text stored under each, the elements of a top-level array, and the error message ("" when parsing succeeded). */
  datatype Doc = Doc(keys: seq<string>, data: map<string, string>, items: seq<Doc>, error: string)

  /** The array loop can repeat an iteration that changes nothing; the program then never returns. */
  datatype Outcome<+T> = Finished(value: T) | Diverges

  const EmptyDoc := Doc([], map[], [], "")

  predicate IsWs(c: char) { c == ' ' || c == '\t' || c == '\n' || c == '\r' }

  predicate Starts(s: string, c: char) { s != "" && s[0] == c }

  function SkipWs(s: string): (r: string)
    ensures |r| <= |s|
  {
    if s != "" && IsWs(s[0]) then SkipWs(s[1..]) else s
  }

  // ----- strings and numbers --------------------------------------------------------------------

  /** The rest of a quoted string: a backslash keeps the character after it, a quote ends the string. */
  function Quoted(s: string): (r: (string, string))
    ensures |r.0| + |r.1| <= |s|
  {
    if s == "" then ("", "")
    else if s[0] == '\\' then
      if |s| == 1 then ("", "")
      else
        var (v, rest) := Quoted(s[2..]);
        ([s[1]] + v, rest)
    else if s[0] == '"' then ("", s[1..])
    else
      var (v, rest) := Quoted(s[1..]);
      ([s[0]] + v, rest)
  }

  /** readKey and readString. */
  function ReadString(s: string): (r: (string, string))
    ensures |r.0| + |r.1| <= |s|
    ensures r.0 != "" ==> |r.1| < |s|
  {
    var t := SkipWs(s);
    if Starts(t, '"') then Quoted(t[1..]) else ("", t)
  }

  function Digits(s: string): (r: (string, string))
    ensures r.0 + r.1 == s
    ensures forall k :: 0 <= k < |r.0| ==> IsDigit(r.0[k])
    ensures s != "" && IsDigit(s[0]) ==> r.0 != ""
  {
    if s != "" && IsDigit(s[0]) then
      var (v, rest) := Digits(s[1..]);
      assert s == [s[0]] + s[1..];
      assert ([s[0]] + v) + rest == [s[0]] + (v + rest);
      ([s[0]] + v, rest)
    else ("", s)
  }

  predicate DigitOrDot(c: char) { IsDigit(c) || c == '.' }

  function DigitsAndDots(s: string): (r: (string, string))
    ensures r.0 + r.1 == s
  {
    if s != "" && DigitOrDot(s[0]) then
      var (v, rest) := DigitsAndDots(s[1..]);
      ([s[0]] + v, rest)
    else ("", s)
  }

  function ReadNumber(s: string): (r: (string, string))
    ensures |r.0| + |r.1| <= |s|
  {
    var t := SkipWs(s);
    if Starts(t, '-') then
      var (v, rest) := DigitsAndDots(t[1..]);
      ("-" + v, rest)
    else DigitsAndDots(t)
  }

  /** What follows the integer part: a single 0, or digits that start with 1 to 9. */
  function AfterInteger(t: string): (r: Option<string>)
    ensures r.Some? ==> exists lead :: t == lead + r.value && lead != "" && AllDigits(lead)
  {
    if t == "" || !IsDigit(t[0]) then None
    else if t[0] == '0' then
      assert t == [t[0]] + t[1..] && AllDigits([t[0]]);
      if t[1..] != "" && IsDigit(t[1]) then None else Some(t[1..])
    else
      assert AllDigits(Digits(t).0);
      Some(Digits(t).1)
  }

  predicate AllDigits(s: string) { forall k :: 0 <= k < |s| ==> IsDigit(s[k]) }

  /** What follows an optional fraction: a dot and at least one digit. */
  function AfterFraction(u: string): (r: Option<string>)
    ensures r.Some? ==> exists frac :: u == frac + r.value && forall k :: 0 <= k < |frac| ==> DigitOrDot(frac[k])
  {
    if !Starts(u, '.') then
      assert u == "" + u;
      Some(u)
    else if |u| == 1 || !IsDigit(u[1]) then None
    else
      assert u == ("." + Digits(u[1..]).0) + Digits(u[1..]).1;
      Some(Digits(u[1..]).1)
  }

  /** The number grammar of RFC 8259, section 6, as isJsonNumberLiteral scans it. */
  predicate IsNumberLiteral(s: string)
  {
    if s == "" then false
    else
      var u := AfterInteger(if s[0] == '-' then s[1..] else s);
      if u.None? then false
      else
        var v := AfterFraction(u.value);
        if v.None? then false
        else v.value == "" || ((v.value[0] == 'e' || v.value[0] == 'E') && IsExponent(v.value[1..]))
  }

  predicate IsExponent(s: string)
  {
    if s == "" then false
    else
      var t := if s[0] == '+' || s[0] == '-' then s[1..] else s;
      t != "" && IsDigit(t[0]) && Digits(t).1 == ""
  }

  // ----- nested values --------------------------------------------------------------------------

  /**
   The text of a nested object or array, taken up to the bracket that brings `depth` back to 0 (or to the
   end); brackets inside strings do not count.
   */
  function Nested(s: string, open: char, close: char, depth: int, inString: bool, escape: bool): (r: (string, string))
    ensures r.0 + r.1 == s
    ensures s != "" ==> r.0 != ""
  {
    if s == "" then ("", "")
    else
      var c := s[0];
      if !escape && c != '\\' && c != '"' && !inString && c == close && c != open && depth == 1 then ([c], s[1..])
      else
        var d := if escape || c == '\\' || c == '"' || inString then depth
                 else if c == open then depth + 1 else if c == close then depth - 1 else depth;
        var str := if !escape && c != '\\' && c == '"' then !inString else inString;
        var (v, rest) := Nested(s[1..], open, close, d, str, !escape && c == '\\');
        ([c] + v, rest)
  }

  function ReadData(s: string): (r: (string, string))
    ensures |r.0| + |r.1| <= |s|
  {
    var t := SkipWs(s);
    if t == "" then ("", t)
    else if t[0] == '"' then ReadString(t)
    else if IsDigit(t[0]) || t[0] == '-' then ReadNumber(t)
    else if HasPrefix(t, "true") then ("true", t[4..])
    else if HasPrefix(t, "false") then ("false", t[5..])
    else if HasPrefix(t, "null") then ("null", t[4..])
    else if t[0] == '{' then Nested(t, '{', '}', 0, false, false)
    else if t[0] == '[' then Nested(t, '[', ']', 0, false, false)
    else ("", t)
  }

  // ----- documents ------------------------------------------------------------------------------

  const ERR_EMPTY := "empty input"
  const ERR_START := "expected JSON object or array"
  const ERR_KEY := "expected object key"
  const ERR_COLON := "expected ':' after object key"
  const ERR_TRAILING := "trailing data after JSON value"

  datatype FieldsRead = FieldsRead(keys: seq<string>, data: map<string, string>, rest: string, error: string)

  /** The members of an object, after its opening brace. */
  function Fields(s: string, keys: seq<string>, data: map<string, string>): FieldsRead
    decreases |s|
  {
    if s == "" then FieldsRead(keys, data, s, "")
    else
      var t := SkipWs(s);
      if Starts(t, '}') then FieldsRead(keys, data, t[1..], "")
      else
        var (key, afterKey) := ReadString(t);
        if key == "" then FieldsRead(keys, data, afterKey, ERR_KEY)
        else
          var u := SkipWs(afterKey);
          if !Starts(u, ':') then FieldsRead(keys + [key], data, u, ERR_COLON)
          else
            var (value, afterValue) := ReadData(u[1..]);
            var more := data[key := value];
            var v := SkipWs(afterValue);
            if Starts(v, ',') then Fields(v[1..], keys + [key], more)
            else if Starts(v, '}') then FieldsRead(keys + [key], more, v[1..], "")
            else Fields(v, keys + [key], more)
  }

  /** The elements of a top-level array, after its opening bracket. */
  function Items(s: string, items: seq<Doc>): Outcome<(seq<Doc>, string)>
    decreases |s| + 1, 0
  {
    if s == "" then Finished((items, s))
    else
      var t := SkipWs(s);
      if Starts(t, ']') then Finished((items, t[1..]))
      else
        var (element, afterElement) := ReadData(t);
        var parsed := if element == "" then Finished(EmptyDoc) else Parse(element);
        if parsed.Diverges? then Diverges
        else
          var more := if element == "" then items else items + [parsed.value];
          var u := SkipWs(afterElement);
          if Starts(u, ',') then Items(u[1..], more)
          else if Starts(u, ']') then Finished((more, u[1..]))
          else if |u| < |s| then Items(u, more)
          else Diverges
  }

  function Finish(rest: string): string { if SkipWs(rest) == "" then "" else ERR_TRAILING }

  function Parse(s: string): Outcome<Doc>
    decreases |s|, 1
  {
    var t := SkipWs(s);
    if t == "" then Finished(EmptyDoc.(error := ERR_EMPTY))
    else if t[0] == '[' then
      var r := Items(t[1..], []);
      if r.Diverges? then Diverges else Finished(Doc([], map[], r.value.0, Finish(r.value.1)))
    else if t[0] != '{' then Finished(EmptyDoc.(error := ERR_START))
    else
      var r := Fields(t[1..], [], map[]);
      Finished(Doc(r.keys, r.data, [], if r.error != "" then r.error else Finish(r.rest)))
  }

  lemma SkipWsTwice(s: string)
    ensures SkipWs(SkipWs(s)) == SkipWs(s)
  {
  }

  // ----- where parsing never returns ------------------------------------------------------------

  /** The text starts like a string, a number, a nested value or a literal name. */
  predicate StartsValue(t: string)
  {
    && t != ""
    && (t[0] in {'"', '-', '{', '['} || IsDigit(t[0])
        || HasPrefix(t, "true") || HasPrefix(t, "false") || HasPrefix(t, "null"))
  }

  lemma ValueConsumes(t: string)
    requires t != "" && !IsWs(t[0])
    ensures if StartsValue(t) then |ReadData(t).1| < |t| else ReadData(t) == ("", t)
  {
    hide Nested, Quoted;
    if t[0] == '{' || t[0] == '[' {
      var open, close := t[0], if t[0] == '{' then '}' else ']';
      var (v, rest) := Nested(t, open, close, 0, false, false);
      assert v + rest == t;
    } else if IsDigit(t[0]) {
      assert DigitsAndDots(t).0 != "" && DigitsAndDots(t).0 + DigitsAndDots(t).1 == t;
    } else if t[0] == '-' {
      assert DigitsAndDots(t[1..]).0 + DigitsAndDots(t[1..]).1 == t[1..];
    }
  }

  lemma AtFirst(s: string)
    ensures SkipWs(s) == "" || !IsWs(SkipWs(s)[0])
  {
  }

  /** Among the elements of an array, from s on, something that is neither a closing bracket nor a comma starts no
      value, or some element is itself stuck. */
  predicate StuckFrom(s: string)
    decreases |s| + 1, 0
  {
    var t := SkipWs(s);
    if t == "" || t[0] == ']' then false
    else if t[0] == ',' then StuckFrom(t[1..])
    else if !StartsValue(t) then true
    else
      AtFirst(s);
      ValueConsumes(t);
      Stuck(ReadData(t).0) || StuckFrom(ReadData(t).1)
  }

  predicate Stuck(s: string)
    decreases |s|, 1
  {
    Starts(SkipWs(s), '[') && StuckFrom(SkipWs(s)[1..])
  }

  lemma StuckSkips(s: string)
    ensures StuckFrom(SkipWs(s)) == StuckFrom(s)
  {
    SkipWsTwice(s);
  }

  lemma SkipsShorter(s: string)
    ensures |SkipWs(s)| <= |s| && (|SkipWs(s)| == |s| ==> SkipWs(s) == s)
  {
  }

  lemma {:induction false} ItemsStuck(s: string, items: seq<Doc>)
    ensures Items(s, items).Diverges? <==> StuckFrom(s)
    decreases |s| + 1, 0
  {
    hide ReadData, Parse, Stuck, StartsValue;
    var t := SkipWs(s);
    AtFirst(s);
    SkipsShorter(s);
    SkipWsTwice(s);
    if t != "" && t[0] != ']' {
      ValueConsumes(t);
      var (element, rest) := ReadData(t);
      var u := SkipWs(rest);
      SkipWsTwice(rest);
      StuckSkips(rest);
      EmptyNotStuck();
      if element != "" {
        ParseStuck(element);
      }
      if t[0] == ',' {
        CommaNoValue(t);
        ItemsStuck(t[1..], items);
      } else if !StartsValue(t) {
        if |t| < |s| {
          ItemsStuck(t, items);
        }
      } else if !Stuck(element) {
        var more := if element == "" then items else items + [Parse(element).value];
        if Starts(u, ',') {
          ItemsStuck(u[1..], more);
        } else if !Starts(u, ']') {
          ItemsStuck(u, more);
        }
      }
    }
  }

  lemma EmptyNotStuck()
    ensures !Stuck("")
  {
  }

  lemma CommaNoValue(t: string)
    requires Starts(t, ',')
    ensures !StartsValue(t)
  {
  }

  lemma {:induction false} ParseStuck(s: string)
    ensures Parse(s).Diverges? <==> Stuck(s)
    decreases |s|, 1
  {
    if Starts(SkipWs(s), '[') {
      ItemsStuck(SkipWs(s)[1..], []);
    }
  }

  /** parseJSON never returns exactly for the stuck texts; a text that does not start with a bracket is not. */
  lemma NeverReturnsExactly(s: string)
    ensures Parse(s).Diverges? <==> Stuck(s)
    ensures !Starts(SkipWs(s), '[') ==> Parse(s).Finished?
  {
    ParseStuck(s);
  }

  /** Such texts exist: with a good element in front, and inside a nested array. */
  lemma SomeNeverReturn(s: string)
    requires s == "[1,x" || s == "[[x]]"
    ensures Parse(s) == Diverges
  {
    ParseStuck(s);
    if s == "[1,x" {
      StuckAfterNumber(s[1..]);
    } else {
      StuckInside(s[1..]);
    }
  }

  lemma StuckAfterNumber(s: string)
    requires s == "1,x"
    ensures StuckFrom(s)
  {
    var t := s[1..];
    assert t == ",x" && t[1..] == "x";
    assert DigitsAndDots(t) == ("", t);
    assert StuckFrom(t[1..]);
  }

  lemma StuckInside(s: string)
    requires s == "[x]]"
    ensures StuckFrom(s)
  {
    InnerArray(s);
    hide Nested;
    var element := "[x]";
    assert ReadData(s) == (element, "]");
    assert element[1..] == "x]" && StuckFrom("x]");
    assert Stuck(element);
  }

  lemma InnerArray(s: string)
    requires s == "[x]]"
    ensures Nested(s, '[', ']', 0, false, false) == ("[x]", "]")
  {
    var t := s[1..];
    assert t == "x]]" && t[1..] == "]]" && t[1..][1..] == "]";
    assert Nested(t[1..], '[', ']', 1, false, false) == ("]", "]");
    assert Nested(t, '[', ']', 1, false, false) == (['x'] + "]", "]");
    assert Nested(s, '[', ']', 0, false, false) == (['['] + (['x'] + "]"), "]");
    assert ['['] + (['x'] + "]") == "[x]";
  }

  // ----- printing -------------------------------------------------------------------------------

  function EscapeChar(c: char): string
  {
    if c == '"' then "\\\""
    else if c == '\\' then "\\\\"
    else if c == '\U{8}' then "\\b"
    else if c == '\U{C}' then "\\f"
    else if c == '\n' then "\\n"
    else if c == '\r' then "\\r"
    else if c == '\t' then "\\t"
    else if c < ' ' then "\\u00" + [HexChar(c as int / 16), HexChar(c as int % 16)]
    else [c]
  }

  function EscapeJson(s: string): string
  {
    if s == "" then "" else EscapeChar(s[0]) + EscapeJson(s[1..])
  }

  function ValueText(v: string): string
  {
    if v != "" && (v[0] == '{' || v[0] == '[') then v
    else if v == "true" || v == "false" || v == "null" || IsNumberLiteral(v) then v
    else "\"" + EscapeJson(v) + "\""
  }

  function Member(key: string, value: string): string { "\"" + key + "\":" + ValueText(value) }

  /** The printed members for `keys`; a comma goes before each but the first. */
  function Members(keys: seq<string>, data: map<string, string>, first: bool): string
  {
    if keys == [] then ""
    else if keys[0] in data then
      (if first then "" else ",") + Member(keys[0], data[keys[0]]) + Members(keys[1..], data, false)
    else Members(keys[1..], data, first)
  }

  function ToString(d: Doc): string
    decreases d, 1
  {
    if d.data == map[] && d.items != [] then "[" + ItemsText(d.items, true) + "]"
    else "{" + Members(d.keys, d.data, true) + "}"
  }

  function ItemsText(items: seq<Doc>, first: bool): string
    decreases items, 0
  {
    if items == [] then ""
    else (if first then "" else ",") + ToString(items[0]) + ItemsText(items[1..], false)
  }

  /** setArrayOfJSON. */
  function ArrayText(items: seq<Doc>): string { "[" + ItemsText(items, true) + "]" }

  // ----- splitting a stored array ---------------------------------------------------------------

  function TrimEnd(s: string): string
  {
    if s != "" && IsWs(s[|s| - 1]) then TrimEnd(s[..|s| - 1]) else s
  }

  function Keep(current: string): seq<string>
  {
    var t := TrimEnd(SkipWs(current));
    if t == "" then [] else [t]
  }

  /** parseArrayString after its opening bracket: the elements between top-level commas, trimmed, blank ones dropped. */
  function Split(s: string, current: string, inString: bool, escape: bool, brackets: nat, braces: int): seq<string>
  {
    if s == "" then []
    else
      var c := s[0];
      if escape then Split(s[1..], current + [c], inString, false, brackets, braces)
      else if c == '\\' then Split(s[1..], current + [c], inString, true, brackets, braces)
      else if c == '"' then Split(s[1..], current + [c], !inString, false, brackets, braces)
      else if inString then Split(s[1..], current + [c], inString, false, brackets, braces)
      else if c == '[' then Split(s[1..], current + [c], inString, false, brackets + 1, braces)
      else if c == ']' then
        if brackets > 0 then Split(s[1..], current + [c], inString, false, brackets - 1, braces)
        else Keep(current)
      else if c == '{' then Split(s[1..], current + [c], inString, false, brackets, braces + 1)
      else if c == '}' then Split(s[1..], current + [c], inString, false, brackets, braces - 1)
      else if c == ',' && brackets == 0 && braces == 0 then
        Keep(current) + Split(s[1..], "", inString, false, brackets, braces)
      else Split(s[1..], current + [c], inString, false, brackets, braces)
  }

  function SplitArray(s: string): seq<string>
  {
    if Starts(s, '[') then Split(s[1..], "", false, false, 0, 0) else []
  }

  function ParseAll(texts: seq<string>): Outcome<seq<Doc>>
  {
    if texts == [] then Finished([])
    else
      var head := Parse(texts[0]);
      var tail := ParseAll(texts[1..]);
      if head.Diverges? || tail.Diverges? then Diverges else Finished([head.value] + tail.value)
  }

  function GetObject(d: Doc, key: string): Outcome<Doc>
  {
    if key in d.data then Parse(d.data[key]) else Finished(EmptyDoc)
  }

  function GetArrayOfJSON(d: Doc, key: string): Outcome<seq<Doc>>
  {
    if key in d.data then ParseAll(SplitArray(d.data[key])) else Finished([])
  }
}
