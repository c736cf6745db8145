/** The parser object of src/parser/JSONParser.cpp, its loops proved equal to the readers of JsonText. */
module JsonParser {
  import opened Chars
  import opened JsonText

  /** The rest of a quoted string when the character before may have been a backslash. */
  function QuotedFrom(s: string, escape: bool): (string, string)
  {
    if !escape then Quoted(s)
    else if s == "" then ("", "")
    else ([s[0]] + Quoted(s[1..]).0, Quoted(s[1..]).1)
  }

  /** What was read before, put in front of what is read next. */
  function Prepend(v: string, r: (string, string)): (string, string) { (v + r.0, r.1) }

  lemma PrependFacts(v: string, c: char, r: (string, string), rest: string)
    ensures Prepend("", r) == r
    ensures Prepend(v, ([c] + r.0, r.1)) == Prepend(v + [c], r)
    ensures Prepend(v, ("", rest)) == (v, rest)
  {
    assert "" + r.0 == r.0;
    assert v + ([c] + r.0) == (v + [c]) + r.0;
    assert v + "" == v;
  }

  lemma PrependLast(v: string, c: char, rest: string)
    ensures Prepend(v, ([c], rest)) == (v + [c], rest)
  {
  }

  /** One round of the bracket count. */
  lemma NestedRound(s: string, open: char, close: char, depth: int, inString: bool, escape: bool)
    requires s != "" && open != close && open != '"' && open != '\\' && close != '"' && close != '\\'
    ensures var c := s[0];
            Nested(s, open, close, depth, inString, escape)
            == if !escape && !inString && c == close && depth == 1 then ([c], s[1..])
               else
                 var d := if escape || inString then depth
                          else if c == open then depth + 1 else if c == close then depth - 1 else depth;
                 var str := if !escape && c == '"' then !inString else inString;
                 var r := Nested(s[1..], open, close, d, str, !escape && c == '\\');
                 ([c] + r.0, r.1)
  {
  }

  lemma NestedEmpty(open: char, close: char, depth: int, inString: bool, escape: bool)
    ensures Nested("", open, close, depth, inString, escape) == ("", "")
  {
  }

  class JSONParser {
    const view: string
    var jp: nat
    var data: map<string, string>
    var keys: seq<string>
    var arrayData: seq<Doc>
    var parseError: string

    constructor (input: string)
      ensures view == input && jp == 0
    {
      view := input;
      jp, data, keys, arrayData, parseError := 0, map[], [], [], "";
    }

    /** The input still to be read. */
    function Rest(): string
      requires jp <= |view|
      reads this
    {
      view[jp..]
    }

    function Result(): Doc
      reads this
    {
      Doc(keys, data, arrayData, parseError)
    }

    method SkipWhiteSpace()
      requires jp <= |view|
      modifies this`jp
      ensures old(jp) <= jp <= |view| && Rest() == SkipWs(old(Rest()))
    {
      while jp < |view| && IsWs(view[jp])
        invariant old(jp) <= jp <= |view|
        invariant SkipWs(old(Rest())) == SkipWs(Rest())
      {
        assert Rest()[1..] == view[jp + 1..];
        jp := jp + 1;
      }
    }

    /** readKey and readString: the same scan. */
    method ReadQuoted() returns (value: string)
      requires jp <= |view|
      modifies this`jp
      ensures old(jp) <= jp <= |view| && (value, Rest()) == ReadString(old(Rest()))
    {
      SkipWhiteSpace();
      if jp >= |view| || view[jp] != '"' {
        return "";
      }
      assert Rest()[1..] == view[jp + 1..];
      jp := jp + 1;
      ghost var start := Rest();
      value := "";
      var escape := false;
      PrependFacts("", ' ', Quoted(start), "");
      while jp < |view|
        invariant old(jp) <= jp <= |view|
        invariant Quoted(start) == Prepend(value, QuotedFrom(Rest(), escape))
      {
        var c := view[jp];
        ghost var s := Rest();
        assert s[0] == c && s[1..] == view[jp + 1..];
        jp := jp + 1;
        PrependFacts(value, c, Quoted(Rest()), Rest());
        if escape {
          value := value + [c];
          escape := false;
        } else if c == '\\' {
          assert |s| > 1 ==> s[2..] == Rest()[1..];
          escape := true;
        } else if c == '"' {
          return;
        } else {
          value := value + [c];
        }
      }
      PrependFacts(value, ' ', ("", ""), "");
    }

    method ReadNumber() returns (number: string)
      requires jp <= |view|
      modifies this`jp
      ensures old(jp) <= jp <= |view| && (number, Rest()) == JsonText.ReadNumber(old(Rest()))
    {
      SkipWhiteSpace();
      ghost var t := Rest();
      number := "";
      if jp < |view| && view[jp] == '-' {
        assert t[1..] == view[jp + 1..];
        number := "-";
        jp := jp + 1;
      }
      ghost var u := Rest();
      ghost var sign := number;
      PrependFacts(sign, ' ', DigitsAndDots(u), "");
      while jp < |view| && (IsDigit(view[jp]) || view[jp] == '.')
        invariant old(jp) <= jp <= |view|
        invariant Prepend(sign, DigitsAndDots(u)) == Prepend(number, DigitsAndDots(Rest()))
      {
        assert Rest()[1..] == view[jp + 1..];
        PrependFacts(number, view[jp], DigitsAndDots(view[jp + 1..]), "");
        number := number + [view[jp]];
        jp := jp + 1;
      }
      PrependFacts(number, ' ', ("", ""), Rest());
    }

    /** readNestedObject and readNestedArray: the same scan for different brackets. */
    method ReadNested(open: char, close: char) returns (value: string)
      requires jp <= |view| && open != close && open != '"' && open != '\\' && close != '"' && close != '\\'
      modifies this`jp
      ensures old(jp) <= jp <= |view| && (value, Rest()) == Nested(old(Rest()), open, close, 0, false, false)
    {
      hide Nested, Prepend;
      var count := 0;
      var start := jp;
      var inString, escape := false, false;
      ghost var goal := Nested(Rest(), open, close, 0, false, false);
      PrependFacts("", ' ', goal, "");
      assert view[start..jp] == "";
      while jp < |view|
        invariant start <= jp <= |view|
        invariant goal == Prepend(view[start..jp], Nested(Rest(), open, close, count, inString, escape))
      {
        var c := view[jp];
        ghost var s, d, str, esc := Rest(), count, inString, escape;
        assert s[1..] == view[jp + 1..];
        assert view[start..jp] + [c] == view[start..jp + 1];
        NestedRound(s, open, close, d, str, esc);
        if escape {
          escape := false;
        } else if c == '\\' {
          escape := true;
        } else if c == '"' {
          inString := !inString;
        } else if !inString {
          if c == open {
            count := count + 1;
          } else if c == close {
            count := count - 1;
            if count == 0 {
              PrependLast(view[start..jp], c, s[1..]);
              jp := jp + 1;
              return view[start..jp];
            }
          }
        }
        PrependFacts(view[start..jp], c, Nested(view[jp + 1..], open, close, count, inString, escape), "");
        jp := jp + 1;
      }
      NestedEmpty(open, close, count, inString, escape);
      assert Rest() == "";
      PrependFacts(view[start..jp], ' ', ("", ""), Rest());
      value := view[start..jp];
    }

    method ReadData() returns (value: string)
      requires jp <= |view|
      modifies this`jp
      ensures old(jp) <= jp <= |view| && (value, Rest()) == JsonText.ReadData(old(Rest()))
    {
      hide Nested, Quoted, JsonText.ReadNumber, ReadString;
      SkipWhiteSpace();
      if jp >= |view| {
        return "";
      }
      var c := view[jp];
      if c == '"' {
        value := ReadQuoted();
      } else if IsDigit(c) || c == '-' {
        value := ReadNumber();
      } else if HasPrefix(Rest(), "true") {
        assert Rest()[4..] == view[jp + 4..];
        jp := jp + 4;
        value := "true";
      } else if HasPrefix(Rest(), "false") {
        assert Rest()[5..] == view[jp + 5..];
        jp := jp + 5;
        value := "false";
      } else if HasPrefix(Rest(), "null") {
        assert Rest()[4..] == view[jp + 4..];
        jp := jp + 4;
        value := "null";
      } else if c == '{' {
        value := ReadNested('{', '}');
      } else if c == '[' {
        value := ReadNested('[', ']');
      } else {
        value := "";
      }
    }

    /** Consume c if it is next. */
    method TryChar(c: char) returns (b: bool)
      requires jp <= |view|
      modifies this`jp
      ensures old(jp) <= jp <= |view| && b == Starts(old(Rest()), c)
      ensures Rest() == if b then old(Rest())[1..] else old(Rest())
    {
      b := jp < |view| && view[jp] == c;
      if b {
        assert Rest()[1..] == view[jp + 1..];
        jp := jp + 1;
      }
    }

    method FinishParse()
      requires jp <= |view|
      modifies this`jp, this`parseError
      ensures jp <= |view| && parseError == if Finish(old(Rest())) == "" then old(parseError) else ERR_TRAILING
    {
      SkipWhiteSpace();
      if jp != |view| {
        parseError := ERR_TRAILING;
      }
    }

    /** One member of an object; false when the loop must stop. */
    method ParseField() returns (more: bool)
      requires jp <= |view| && Rest() != "" && parseError == ""
      modifies this`jp, this`data, this`keys, this`parseError
      ensures jp <= |view|
      ensures more ==> jp > old(jp) && parseError == ""
      ensures more ==> Fields(old(Rest()), old(keys), old(data)) == Fields(Rest(), keys, data)
      ensures !more ==> Fields(old(Rest()), old(keys), old(data)) == FieldsRead(keys, data, Rest(), parseError)
    {
      hide ReadString, JsonText.ReadData;
      SkipWhiteSpace();
      var isClosed := TryChar('}');
      if isClosed {
        return false;
      }
      var key := ReadQuoted();
      StringAdvances(old(Rest()));
      if key == "" {
        parseError := ERR_KEY;
        return false;
      }
      keys := keys + [key];
      SkipWhiteSpace();
      var colon := TryChar(':');
      if !colon {
        parseError := ERR_COLON;
        return false;
      }
      var value := ReadData();
      data := data[key := value];
      SkipWhiteSpace();
      var comma := TryChar(',');
      if comma {
        return true;
      }
      isClosed := TryChar('}');
      more := !isClosed;
    }

    lemma StringAdvances(s: string)
      ensures ReadString(SkipWs(s)).0 != "" ==> |ReadString(SkipWs(s)).1| < |s|
    {
    }

    /**
     The elements of an array.  Each is parsed by an object of its own.  `returned` is false when an iteration
     leaves everything as it was, in which case the loop of the program never ends.
     */
    method ParseArray() returns (returned: bool)
      requires jp <= |view| && Starts(SkipWs(view), '[')
      modifies this`jp, this`arrayData
      ensures jp <= |view|
      ensures var r := Items(SkipWs(view)[1..], []);
              if returned then r == Finished((arrayData, Rest())) else r == Diverges
      decreases |view|, 0
    {
      hide JsonText.ReadData, Parse;
      arrayData := [];
      jp := 0;
      assert Rest() == view;
      SkipWhiteSpace();
      var bracket := TryChar('[');
      ghost var all := Rest();
      while jp < |view|
        invariant 0 < jp <= |view|
        invariant Items(all, []) == Items(Rest(), arrayData)
      {
        var before := jp;
        SkipWhiteSpace();
        var isClosed := TryChar(']');
        if isClosed {
          return true;
        }
        var element := ReadData();
        if element != "" {
          var doc := Read(element);
          if doc.Diverges? {
            return false;
          }
          arrayData := arrayData + [doc.value];
        }
        SkipWhiteSpace();
        var comma := TryChar(',');
        if comma {
          continue;
        }
        isClosed := TryChar(']');
        if isClosed {
          return true;
        }
        if jp == before {
          return false;
        }
      }
      return true;
    }

    method ParseJSON() returns (returned: bool)
      modifies this
      ensures Parse(view) == if returned then Finished(Result()) else Diverges
      decreases |view|, 1
    {
      hide Fields, Items;
      data, keys, arrayData, jp, parseError := map[], [], [], 0, "";
      assert Rest() == view;
      SkipWhiteSpace();
      if jp >= |view| {
        parseError := ERR_EMPTY;
        return true;
      }
      if view[jp] == '[' {
        returned := ParseArray();
        if returned {
          FinishParse();
        }
        return;
      }
      var brace := TryChar('{');
      if !brace {
        parseError := ERR_START;
        return true;
      }
      ParseFields();
      if parseError == "" {
        FinishParse();
      }
      return true;
    }

    method ParseFields()
      requires jp <= |view| && parseError == ""
      modifies this`jp, this`data, this`keys, this`parseError
      ensures jp <= |view| && Fields(old(Rest()), old(keys), old(data)) == FieldsRead(keys, data, Rest(), parseError)
    {
      while jp < |view|
        invariant jp <= |view| && parseError == ""
        invariant Fields(old(Rest()), old(keys), old(data)) == Fields(Rest(), keys, data)
        decreases |view| - jp
      {
        var more := ParseField();
        if !more {
          return;
        }
      }
    }

    /** Parse a text with a fresh object, as getObject and the array elements do. */
    static method Read(text: string) returns (r: Outcome<Doc>)
      ensures r == Parse(text)
      decreases |text|, 2
    {
      var p := new JSONParser(text);
      var returned := p.ParseJSON();
      r := if returned then Finished(p.Result()) else Diverges;
    }
  }

  // ----- printing -------------------------------------------------------------------------------

  lemma MembersStep(before: string, keys: seq<string>, data: map<string, string>, first: bool)
    requires keys != []
    ensures before + Members(keys, data, first)
         == if keys[0] in data then
              (before + (if first then "" else ",") + Member(keys[0], data[keys[0]])) + Members(keys[1..], data, false)
            else before + Members(keys[1..], data, first)
  {
    hide Member;
  }

  method PrintObject(d: Doc) returns (result: string)
    ensures result == "{" + Members(d.keys, d.data, true) + "}"
  {
    hide Members, Member;
    result := "{";
    var first := true;
    var k := 0;
    assert d.keys[0..] == d.keys;
    while k < |d.keys|
      invariant k <= |d.keys|
      invariant "{" + Members(d.keys, d.data, true) == result + Members(d.keys[k..], d.data, first)
    {
      var key := d.keys[k];
      MembersStep(result, d.keys[k..], d.data, first);
      assert d.keys[k..][1..] == d.keys[k + 1..];
      if key in d.data {
        if !first {
          result := result + ",";
        } else {
          assert result + "" == result;
        }
        first := false;
        result := result + Member(key, d.data[key]);
      }
      k := k + 1;
    }
    assert d.keys[k..] == [];
    NoMembers(d.data, first);
    assert result + "" == result;
    result := result + "}";
  }

  lemma NoMembers(data: map<string, string>, first: bool)
    ensures Members([], data, first) == ""
  {
  }

  method Print(d: Doc) returns (result: string)
    ensures result == ToString(d)
    decreases d, 1
  {
    if d.data == map[] && d.items != [] {
      result := PrintArray(d.items);
    } else {
      result := PrintObject(d);
    }
  }

  /** arrayToString and setArrayOfJSON. */
  method PrintArray(items: seq<Doc>) returns (result: string)
    ensures result == ArrayText(items)
    decreases items, 0
  {
    hide ToString;
    result := "[";
    var k := 0;
    assert items[0..] == items;
    while k < |items|
      invariant k <= |items|
      invariant "[" + ItemsText(items, true) == result + ItemsText(items[k..], k == 0)
    {
      assert items[k..][1..] == items[k + 1..];
      if k > 0 {
        result := result + ",";
      }
      var text := Print(items[k]);
      result := result + text;
      k := k + 1;
    }
    assert ItemsText(items[k..], k == 0) == "";
    result := result + "]";
  }

  // ----- splitting ------------------------------------------------------------------------------

  method ParseArrayString(arrayStr: string) returns (result: seq<string>)
    ensures result == SplitArray(arrayStr)
  {
    result := [];
    if arrayStr == "" || arrayStr[0] != '[' {
      return;
    }
    var pos := 1;
    var inString, escape := false, false;
    var bracketDepth: nat := 0;
    var braceDepth := 0;
    var current := "";
    while pos < |arrayStr|
      invariant 1 <= pos <= |arrayStr|
      invariant SplitArray(arrayStr) == result + Split(arrayStr[pos..], current, inString, escape, bracketDepth, braceDepth)
    {
      var c := arrayStr[pos];
      assert arrayStr[pos..][1..] == arrayStr[pos + 1..];
      if escape {
        current := current + [c];
        escape := false;
      } else if c == '\\' {
        escape := true;
        current := current + [c];
      } else if c == '"' {
        inString := !inString;
        current := current + [c];
      } else if inString {
        current := current + [c];
      } else if c == '[' {
        bracketDepth := bracketDepth + 1;
        current := current + [c];
      } else if c == ']' {
        if bracketDepth > 0 {
          bracketDepth := bracketDepth - 1;
          current := current + [c];
        } else {
          return result + Keep(current);
        }
      } else if c == '{' {
        braceDepth := braceDepth + 1;
        current := current + [c];
      } else if c == '}' {
        braceDepth := braceDepth - 1;
        current := current + [c];
      } else if c == ',' && bracketDepth == 0 && braceDepth == 0 {
        result := result + Keep(current);
        current := "";
      } else {
        current := current + [c];
      }
      pos := pos + 1;
    }
  }
}
