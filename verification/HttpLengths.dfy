/**
 How long the body of a message is: header fields as a client writes them (section 5 of RFC 9112) and what the reader
 makes of Content-Length, Transfer-Encoding and Expect.
 */
module HttpLengths {
  import opened Chars
  import opened HttpScan
  import opened HttpChunks
  import opened HttpFraming
  import opened HttpCuts
  import opened HttpFirstEnd

  // ----- header fields --------------------------------------------------------------------------

  predicate White(c: char) { c == ' ' || c == '\t' || c == '\n' || c == '\U{B}' || c == '\U{C}' || c == '\r' }

  /** Blanks and tabs. */
  predicate Gap(s: string) { forall k :: 0 <= k < |s| ==> s[k] == ' ' || s[k] == '\t' }

  /** No line break inside. */
  predicate OneLine(s: string) { forall k :: 0 <= k < |s| ==> s[k] != '\r' && s[k] != '\n' }

  /** Name, colon and value, with white space on both sides of the value. */
  datatype Field = Field(name: string, before: string, value: string, after: string)

  predicate FieldOk(f: Field)
  {
    && (forall k :: 0 <= k < |f.name| ==> f.name[k] != ':' && !White(f.name[k]))
    && Gap(f.before) && Gap(f.after) && OneLine(f.value)
    && (f.value != "" ==> !White(f.value[0]) && !White(f.value[|f.value| - 1]))
  }

  function Line(f: Field): string { f.name + (":" + (f.before + f.value + f.after)) }

  function FieldLines(fields: seq<Field>): string
  {
    if fields == [] then "\r\n" else Line(fields[0]) + "\r\n" + FieldLines(fields[1..])
  }

  /** A header section: the request line and the fields. */
  function Render(first: string, fields: seq<Field>): string { first + "\r\n" + FieldLines(fields) }

  predicate HeadOk(first: string, fields: seq<Field>)
  {
    && first != "" && OneLine(first) && |Render(first, fields)| <= 65536
    && forall k :: 0 <= k < |fields| ==> FieldOk(fields[k])
  }

  /** The word in any mixture of upper and lower case. */
  predicate CaseOf(s: string, word: string)
  {
    |s| == |word|
    && forall k :: 0 <= k < |word| ==>
         s[k] == word[k] || ('a' <= word[k] <= 'z' && s[k] as int == word[k] as int - 'a' as int + 'A' as int)
  }

  /** The first field of that name with a value has this one. */
  ghost predicate Says(fields: seq<Field>, name: string, value: string)
  {
    value != ""
    && exists i :: 0 <= i < |fields| && CaseOf(fields[i].name, name) && fields[i].value == value
         && forall j :: 0 <= j < i && CaseOf(fields[j].name, name) ==> fields[j].value == ""
  }

  /** No field of that name has a value. */
  predicate Silent(fields: seq<Field>, name: string)
  {
    forall j :: 0 <= j < |fields| && CaseOf(fields[j].name, name) ==> fields[j].value == ""
  }

  // ----- where such headers end -----------------------------------------------------------------

  function Texts(fields: seq<Field>): seq<string>
  {
    if fields == [] then [] else [Line(fields[0])] + Texts(fields[1..])
  }

  predicate AllOk(fields: seq<Field>) { forall k :: 0 <= k < |fields| ==> FieldOk(fields[k]) }

  lemma LineIsLine(f: Field)
    requires FieldOk(f)
    ensures OneLine(Line(f)) && Line(f) != ""
  {
    var s := Line(f);
    forall k | 0 <= k < |s| ensures s[k] != '\r' && s[k] != '\n' {
      var n, b, v := |f.name|, |f.before|, |f.value|;
      assert s[k] == if k < n then f.name[k] else if k == n then ':' else if k < n + 1 + b then f.before[k - n - 1]
                     else if k < n + 1 + b + v then f.value[k - n - 1 - b] else f.after[k - n - 1 - b - v];
    }
  }

  lemma {:induction false} TextsAre(fields: seq<Field>)
    requires AllOk(fields)
    ensures forall k :: 0 <= k < |Texts(fields)| ==> Texts(fields)[k] != "" && OneLine(Texts(fields)[k])
    ensures FieldLines(fields) == EncodeTrailers(Texts(fields))
    decreases |fields|
  {
    hide OneLine, FieldOk, Line;
    if fields != [] {
      LineIsLine(fields[0]);
      TextsAre(fields[1..]);
      assert Texts(fields)[1..] == Texts(fields[1..]);
    }
  }

  lemma OneLineNoCrlf(s: string)
    requires OneLine(s)
    ensures NoCrlf(s)
  {
    forall k | 0 <= k < |s| ensures !OccursAt(s, CRLF, k) {
      NotCr(s, k);
    }
  }

  /** Lines without line breaks, each ended by CRLF, never show LFLF or CRCR. */
  lemma {:induction false} NoBare(lines: seq<string>, k: nat)
    requires forall j :: 0 <= j < |lines| ==> OneLine(lines[j])
    ensures !BareDelimiter(EncodeTrailers(lines), k)
    decreases |lines|
  {
    var s := EncodeTrailers(lines);
    if k + 2 <= |s| {
      assert s[k..k + 2][0] == s[k] && s[k..k + 2][1] == s[k + 1];
      if lines != [] {
        var line, rest := lines[0], EncodeTrailers(lines[1..]);
        assert s == line + CRLF + rest;
        assert |rest| >= 2 && rest[0] != '\n' by {
          RestStart(lines[1..]);
        }
        if k >= |line| + 2 {
          NoBare(lines[1..], k - |line| - 2);
          assert s[k..k + 2] == rest[k - |line| - 2..k - |line|];
        } else if k < |line| {
          assert s[k] == line[k];
        }
      }
    }
  }

  lemma RestStart(lines: seq<string>)
    requires forall j :: 0 <= j < |lines| ==> OneLine(lines[j])
    ensures |EncodeTrailers(lines)| >= 2 && EncodeTrailers(lines)[0] != '\n'
  {
  }

  /** Such headers end at their empty line and nowhere earlier. */
  lemma RenderPlain(first: string, fields: seq<Field>)
    requires HeadOk(first, fields)
    ensures PlainHead(Render(first, fields))
  {
    var head, lines := Render(first, fields), [first] + Texts(fields);
    hide OneLine, FieldOk;
    TextsAre(fields);
    assert lines[1..] == Texts(fields);
    assert head == EncodeTrailers(lines);
    forall k | 0 <= k < |lines| ensures lines[k] != "" && NoCrlf(lines[k]) && OneLine(lines[k]) {
      OneLineNoCrlf(lines[k]);
    }
    hide EncodeTrailers, Render, FieldLines, Texts, NoCrlf;
    PlainLines(head, lines);
  }

  lemma PlainLines(head: string, lines: seq<string>)
    requires head == EncodeTrailers(lines) && |head| <= 65536 && lines != []
    requires forall k :: 0 <= k < |lines| ==> lines[k] != "" && NoCrlf(lines[k]) && OneLine(lines[k])
    ensures PlainHead(head)
  {
    hide EncodeTrailers, NoCrlf, OneLine, Find, BareDelimiter;
    TrailersEnd(lines, "");
    assert head + "" == head;
    forall k: nat ensures !BareDelimiter(head, k) {
      NoBare(lines, k);
    }
  }

  // ----- what they say --------------------------------------------------------------------------

  predicate Key(name: string) { forall k :: 0 <= k < |name| ==> !White(name[k]) && !('A' <= name[k] <= 'Z') }

  lemma {:induction false} FoldPlain(s: string)
    requires forall k :: 0 <= k < |s| ==> !White(s[k])
    ensures Fold(s) == LowerAll(s)
    decreases |s|
  {
    if s != "" {
      assert !White(s[0]);
      FoldPlain(s[1..]);
    }
  }

  /** Names are compared without regard to case. */
  lemma SameName(s: string, name: string)
    requires (forall k :: 0 <= k < |s| ==> !White(s[k])) && Key(name)
    ensures Fold(s) == Fold(name) <==> CaseOf(s, name)
  {
    FoldPlain(s);
    FoldPlain(name);
    LowerAllShape(s);
    LowerAllShape(name);
    hide Fold, LowerAll;
    if CaseOf(s, name) {
      assert LowerAll(s) == LowerAll(name);
    }
    if LowerAll(s) == LowerAll(name) {
      forall k | 0 <= k < |name|
        ensures s[k] == name[k] || ('a' <= name[k] <= 'z' && s[k] as int == name[k] as int - 'a' as int + 'A' as int)
      {
        assert LowerAll(s)[k] == LowerAll(name)[k];
      }
    }
  }

  lemma {:induction false} TrimFrontGap(gap: string, s: string)
    requires Gap(gap)
    ensures TrimFront(gap + s) == TrimFront(s)
    decreases |gap|
  {
    if gap == "" {
      assert gap + s == s;
    } else {
      assert gap[0] == ' ' || gap[0] == '\t';
      assert (gap + s)[1..] == gap[1..] + s;
      TrimFrontGap(gap[1..], s);
    }
  }

  lemma {:induction false} TrimBackGap(s: string, gap: string)
    requires Gap(gap)
    ensures TrimBack(s + gap) == TrimBack(s)
    decreases |gap|
  {
    if gap == "" {
      assert s + gap == s;
    } else {
      var t := s + gap;
      assert gap[|gap| - 1] == ' ' || gap[|gap| - 1] == '\t';
      assert t[..|t| - 1] == s + gap[..|gap| - 1];
      TrimBackGap(s, gap[..|gap| - 1]);
    }
  }

  /** White space around a value goes. */
  lemma Trimmed(before: string, value: string, after: string)
    requires Gap(before) && Gap(after) && (value != "" ==> !White(value[0]) && !White(value[|value| - 1]))
    ensures Trim(before + value + after) == value
  {
    assert before + value + after == before + (value + after);
    TrimFrontGap(before, value + after);
    if value == "" {
      assert value + after == after && after + "" == after;
      TrimFrontGap(after, "");
    } else {
      assert TrimFront(value + after) == value + after;
      TrimBackGap(value, after);
    }
  }

  lemma FindChar(a: string, c: string, b: string)
    requires |c| == 1 && c[0] !in a
    ensures Find(a + (c + b), c, 0) == Some(|a|)
    ensures (a + (c + b))[..|a|] == a && (a + (c + b))[|a| + 1..] == b
  {
    var s := a + (c + b);
    assert s[|a|..|a| + 1] == c;
    forall k | 0 <= k < |a| ensures !OccursAt(s, c, k) {
      assert s[k..k + 1][0] == a[k];
    }
    FindUnique(s, c, 0, |a|);
  }

  lemma LineValue(f: Field, name: string)
    requires FieldOk(f) && Key(name)
    ensures ValueOf(Line(f), name) == if CaseOf(f.name, name) then f.value else ""
  {
    SameName(f.name, name);
    Trimmed(f.before, f.value, f.after);
    assert ':' !in f.name;
    hide FieldOk, Key, CaseOf, Trim, Fold;
    var value := f.before + f.value + f.after;
    FindChar(f.name, ":", value);
    assert Line(f) == f.name + (":" + value);
  }

  /** What the lines say of a name. */
  function Said(fields: seq<Field>, name: string): string
  {
    if fields == [] then ""
    else if CaseOf(fields[0].name, name) && fields[0].value != "" then fields[0].value
    else Said(fields[1..], name)
  }

  lemma {:induction false} SaysIs(fields: seq<Field>, name: string, value: string)
    ensures Says(fields, name, value) ==> Said(fields, name) == value
    ensures Silent(fields, name) ==> Said(fields, name) == ""
    decreases |fields|
  {
    hide CaseOf;
    if fields != [] {
      var rest := fields[1..];
      SaysIs(rest, name, value);
      if CaseOf(fields[0].name, name) && fields[0].value != "" {
      } else {
        if Says(fields, name, value) {
          var i :| 0 <= i < |fields| && CaseOf(fields[i].name, name) && fields[i].value == value
            && forall j :: 0 <= j < i && CaseOf(fields[j].name, name) ==> fields[j].value == "";
          assert rest[i - 1] == fields[i];
          assert forall j :: 0 <= j < i - 1 ==> rest[j] == fields[j + 1];
        }
        assert forall j :: 0 <= j < |rest| ==> rest[j] == fields[j + 1];
      }
    }
  }

  lemma {:induction false} LinesOf(fields: seq<Field>, name: string)
    requires AllOk(fields) && Key(name)
    ensures FirstValue(Lines(FieldLines(fields)), name) == Said(fields, name)
    decreases |fields|
  {
    hide FieldOk, Key, CaseOf, Lines, Line, Find, ValueOf;
    var s := FieldLines(fields);
    var line := if fields == [] then "" else Line(fields[0]);
    var rest := if fields == [] then "" else FieldLines(fields[1..]);
    if fields != [] {
      LineIsLine(fields[0]);
    }
    FirstOfLines(line, rest);
    assert s == line + "\r\n" + rest;
    FirstLine(line, Lines(rest), name);
    if fields == [] {
      LinesEnd();
      NoValue(line, name);
    } else {
      LineValue(fields[0], name);
      LinesOf(fields[1..], name);
    }
  }

  lemma FirstOfLines(line: string, rest: string)
    requires OneLine(line)
    ensures Lines(line + "\r\n" + rest) == [line] + Lines(rest)
  {
    var s := line + "\r\n" + rest;
    var front := line + "\r";
    assert s == front + ("\n" + rest);
    assert '\n' !in front;
    FindChar(front, "\n", rest);
    LinesStep(s);
    assert DropCr(front) == line;
  }

  lemma FieldsFound(first: string, fields: seq<Field>, name: string)
    requires OneLine(first) && AllOk(fields) && Key(name)
    ensures FirstValue(HeaderLines(Render(first, fields)), name) == Said(fields, name)
  {
    hide *;
    LinesOf(fields, name);
    var front := first + "\r";
    FirstLineEnds(first, FieldLines(fields));
    RenderIs(first, fields);
    FindChar(front, "\n", FieldLines(fields));
    LinesAfter(front + ("\n" + FieldLines(fields)), |front|, FieldLines(fields));
  }

  lemma FirstLineEnds(first: string, rest: string)
    requires OneLine(first)
    ensures '\n' !in first + "\r" && first + "\r\n" + rest == (first + "\r") + ("\n" + rest)
  {
  }

  lemma RenderIs(first: string, fields: seq<Field>)
    ensures Render(first, fields) == first + "\r\n" + FieldLines(fields)
  {
    hide FieldLines;
  }

  lemma LinesAfter(head: string, k: nat, rest: string)
    requires Find(head, "\n", 0) == Some(k) && k < |head| && head[k + 1..] == rest
    ensures HeaderLines(head) == Lines(rest)
  {
    hide Lines;
  }

  lemma KeysAre(e: string, l: string, t: string)
    requires e == "expect" && l == "content-length" && t == "transfer-encoding"
    ensures Key(e) && Key(l) && Key(t)
  {
  }

  /** The three fields that the reader looks for. */
  lemma RenderSays(first: string, fields: seq<Field>, e: string, l: string, t: string)
    requires e == "expect" && l == "content-length" && t == "transfer-encoding"
    requires OneLine(first) && AllOk(fields)
    ensures PreflightOf(Render(first, fields)) == Preflight(Said(fields, e), Said(fields, l), Said(fields, t))
  {
    KeysAre(e, l, t);
    hide Key, HeaderLines, FirstValue, AllOk, OneLine;
    FieldsFound(first, fields, e);
    FieldsFound(first, fields, l);
    FieldsFound(first, fields, t);
  }

  // ----- lengths --------------------------------------------------------------------------------

  predicate Zeros(s: string) { forall k :: 0 <= k < |s| ==> s[k] == '0' }

  lemma {:induction false} DecimalReads(zeros: string, n: nat)
    requires Zeros(zeros)
    ensures DigitsIn(zeros + Decimal(n), 10) && NumberValue(zeros + Decimal(n), 10) == n && Decimal(n) != ""
    decreases n
  {
    var s := zeros + Decimal(n);
    HexDigitsAre(n % 10);
    ZerosAreNothing(zeros);
    var front := if n < 10 then zeros else zeros + Decimal(n / 10);
    assert s == front + [HexChar(n % 10)];
    assert IsDigit(HexChar(n % 10)) && HexValue(HexChar(n % 10)) == n % 10;
    if n >= 10 {
      DecimalReads(zeros, n / 10);
    }
    hide Decimal, HexChar, HexValue;
    assert s[..|s| - 1] == front;
    LastDigit(front, s[|s| - 1], s);
  }

  lemma LastDigit(front: string, c: char, s: string)
    requires DigitsIn(front, 10) && IsDigit(c) && s == front + [c]
    ensures DigitsIn(s, 10) && NumberValue(s, 10) == NumberValue(front, 10) * 10 + HexValue(c)
  {
    assert s[..|s| - 1] == front;
  }

  lemma {:induction false} ZerosAreNothing(zeros: string)
    requires Zeros(zeros)
    ensures DigitsIn(zeros, 10) && NumberValue(zeros, 10) == 0
    decreases |zeros|
  {
    if zeros != "" {
      ZerosAreNothing(zeros[..|zeros| - 1]);
    }
  }

  /** A decimal numeral is its number, leading zeros or not, if it fits 64 bits; anything else is no number. */
  lemma LengthReads(zeros: string, n: nat)
    requires Zeros(zeros)
    ensures FullNumber(zeros + Decimal(n), 10) == if n < 0x1_0000_0000_0000_0000 then Some(n) else None
    ensures zeros + Decimal(n) != ""
  {
    DecimalReads(zeros, n);
    hide Decimal;
  }

  lemma DecimalsRead(value: string)
    ensures (exists k :: 0 <= k < |value| && !('0' <= value[k] <= '9')) ==> FullNumber(value, 10) == None && value != ""
    ensures forall n: nat :: value == Decimal(n)
              ==> value != "" && FullNumber(value, 10) == if n < 0x1_0000_0000_0000_0000 then Some(n) else None
  {
    hide Decimal, FullNumber;
    if exists k :: 0 <= k < |value| && !('0' <= value[k] <= '9') {
      NoNumber(value);
    }
    forall n: nat | value == Decimal(n)
      ensures value != "" && FullNumber(value, 10) == if n < 0x1_0000_0000_0000_0000 then Some(n) else None
    {
      LengthReads("", n);
      assert "" + Decimal(n) == value;
    }
  }

  lemma NoNumber(value: string)
    requires exists k :: 0 <= k < |value| && !('0' <= value[k] <= '9')
    ensures FullNumber(value, 10) == None && value != ""
  {
    var k :| 0 <= k < |value| && !('0' <= value[k] <= '9');
    assert !IsDigit(value[k]);
    hide NumberValue;
  }

  /** The hexadecimal numeral of a chunk size. */
  function HexText(n: nat): string
  {
    if n < 16 then ["0123456789abcdef"[n]] else HexText(n / 16) + ["0123456789abcdef"[n % 16]]
  }

  lemma {:induction false} HexReads(n: nat)
    ensures HexText(n) != "" && DigitsIn(HexText(n), 16) && NumberValue(HexText(n), 16) == n
  {
    HexDigitsAre(n % 16);
    HexStep(n, HexChar(n % 16));
    if n >= 16 {
      HexReads(n / 16);
    }
    hide HexText, HexChar, HexValue, IsHexDigit;
    LastHexDigit(if n < 16 then "" else HexText(n / 16), HexChar(n % 16), HexText(n));
  }

  lemma HexStep(n: nat, c: char)
    requires c == "0123456789abcdef"[n % 16]
    ensures HexText(n) == (if n < 16 then "" else HexText(n / 16)) + [c]
  {
  }

  lemma LastHexDigit(front: string, c: char, s: string)
    requires DigitsIn(front, 16) && IsHexDigit(c) && s == front + [c]
    ensures DigitsIn(s, 16) && NumberValue(s, 16) == NumberValue(front, 16) * 16 + HexValue(c)
  {
    hide IsHexDigit, HexValue;
    assert s[..|s| - 1] == front;
  }

  // ----- what is planned ------------------------------------------------------------------------

  /** The value of a field: a numeral of n, or no such field and n is 0. */
  ghost predicate Announces(fields: seq<Field>, l: string, n: nat)
  {
    (n == 0 && Silent(fields, l)) || exists zeros :: Zeros(zeros) && Says(fields, l, zeros + Decimal(n))
  }

  /** One of the parts of the value between commas is the word, with or without white space around it. */
  ghost predicate Lists(value: string, word: string)
  {
    exists front, s, back ::
      value == front + s + back && CaseOf(s, word)
      && (Gap(front) || exists x, gap :: Gap(gap) && front == x + ("," + gap))
      && (Gap(back) || exists gap, y :: Gap(gap) && back == gap + ("," + y))
  }

  /** A single part that is another word. */
  predicate Alone(value: string, word: string) { ',' !in value && !CaseOf(value, word) }

  lemma TokenAtFront(s: string, back: string, word: string)
    requires CaseOf(s, word) && word != "" && Key(word) && ',' !in word
    requires Gap(back) || exists gap, y :: Gap(gap) && back == gap + ("," + y)
    ensures HasToken(s + back, word)
  {
    WordChars(s, word);
    if Gap(back) {
      TokenBefore(s, back, "", word);
      assert s + back + "" == s + back;
    } else {
      var gap, y :| Gap(gap) && back == gap + ("," + y);
      TokenBefore(s, gap, "," + y, word);
      assert s + gap + ("," + y) == s + back;
    }
  }

  lemma TokenBefore(s: string, gap: string, rest: string, word: string)
    requires s != "" && LowerAll(s) == word && ',' !in s && !White(s[0]) && !White(s[|s| - 1]) && Gap(gap)
    requires rest == "" || rest[0] == ','
    ensures HasToken(s + gap + rest, word)
  {
    var t, j := s + gap + rest, |s| + |gap|;
    hide LowerAll, HasToken;
    Trimmed("", s, gap);
    assert "" + s + gap == s + gap && t[..j] == s + gap && t[0] == s[0];
    forall k | 0 <= k < j ensures t[k] != ',' {
      assert t[k] == if k < |s| then s[k] else gap[k - |s|];
    }
    TokenPart(t, j, word);
  }

  lemma WordChars(s: string, word: string)
    requires CaseOf(s, word) && word != "" && Key(word) && ',' !in word
    ensures s != "" && LowerAll(s) == word && ',' !in s && !White(s[0]) && !White(s[|s| - 1])
  {
    LoweredIsCase(s, word);
    hide LowerAll;
    assert !White(word[0]) && !White(word[|word| - 1]);
    forall k | 0 <= k < |s| ensures s[k] != ',' {
      assert word[k] != ',';
    }
  }

  lemma {:induction false} TokenAfter(x: string, s: string, word: string)
    requires HasToken(s, word) && (x == "" || x[|x| - 1] == ',' || Gap(x))
    ensures HasToken(x + s, word)
    decreases |x|
  {
    hide HasToken;
    if x == "" {
      assert x + s == s;
    } else {
      var t := x + s;
      if x[0] == ' ' || x[0] == '\t' || x[0] == ',' {
        assert t[1..] == x[1..] + s;
        TokenAfter(x[1..], s, word);
        TokenSkip(t, word);
      } else {
        assert !Gap(x);
        FindFacts(x, ",", 0);
        hide Find;
        assert x[|x| - 1..|x|] == ",";
        assert OccursAt(x, ",", |x| - 1);
        var j := Find(x, ",", 0).value;
        forall k | 0 <= k < j ensures t[k] != ',' {
          assert !OccursAt(x, ",", k);
          assert x[k..k + 1] == [x[k]];
        }
        assert x[j..j + 1] == "," && j > 0 && x[j] == ',';
        assert t[j..] == x[j..] + s;
        TokenAfter(x[j..], s, word);
        TokenPart(t, j, word);
      }
    }
  }

  /** A value that lists the word holds it as a token; another word alone does not. */
  lemma TokenListed(value: string, word: string)
    requires word != "" && Key(word) && ',' !in word
    ensures Lists(value, word) ==> HasToken(value, word)
    ensures Alone(value, word) && (value != "" ==> !White(value[0]) && !White(value[|value| - 1])) ==> !HasToken(value, word)
  {
    hide HasToken, Lists, Gap, CaseOf, White, Key;
    if Lists(value, word) {
      ListedToken(value, word);
    }
    if Alone(value, word) && (value != "" ==> !White(value[0]) && !White(value[|value| - 1])) {
      OtherWord(value, word);
    }
  }

  lemma ListedToken(value: string, word: string)
    requires word != "" && Key(word) && ',' !in word && Lists(value, word)
    ensures HasToken(value, word)
  {
    hide HasToken, Gap, CaseOf, Key;
    var front, s, back :|
      value == front + s + back && CaseOf(s, word)
      && (Gap(front) || exists x, gap :: Gap(gap) && front == x + ("," + gap))
      && (Gap(back) || exists gap, y :: Gap(gap) && back == gap + ("," + y));
    TokenAtFront(s, back, word);
    assert value == front + (s + back);
    BehindFront(front, s + back, word);
  }

  lemma BehindFront(front: string, s: string, word: string)
    requires HasToken(s, word) && (Gap(front) || exists x, gap :: Gap(gap) && front == x + ("," + gap))
    ensures HasToken(front + s, word)
  {
    hide HasToken;
    if Gap(front) {
      TokenAfter(front, s, word);
    } else {
      var x, gap :| Gap(gap) && front == x + ("," + gap);
      TokenAfter(gap, s, word);
      TokenAfter(x + ",", gap + s, word);
      Regrouped(x, ",", gap, s);
    }
  }

  lemma Regrouped(a: string, b: string, c: string, d: string)
    ensures (a + b) + (c + d) == a + (b + c) + d
  {
  }

  lemma OtherWord(value: string, word: string)
    requires Alone(value, word) && Key(word) && (value != "" ==> !White(value[0]) && !White(value[|value| - 1]))
    ensures !HasToken(value, word)
  {
    hide HasToken;
    NoToken(value, word);
    Trimmed("", value, "");
    assert "" + value + "" == value;
    LoweredIsCase(value, word);
  }

  lemma LoweredIsCase(s: string, word: string)
    requires Key(word)
    ensures LowerAll(s) == word <==> CaseOf(s, word)
  {
    LowerAllShape(s);
    hide LowerAll;
    if CaseOf(s, word) {
      CaseLowers(s, word, LowerAll(s));
    }
    if LowerAll(s) == word {
      forall k | 0 <= k < |word|
        ensures s[k] == word[k] || ('a' <= word[k] <= 'z' && s[k] as int == word[k] as int - 'a' as int + 'A' as int)
      {
        assert LowerAll(s)[k] == word[k];
      }
    }
  }

  lemma CaseLowers(s: string, word: string, lowered: string)
    requires Key(word) && CaseOf(s, word)
    requires |lowered| == |s| && forall k :: 0 <= k < |s| ==> lowered[k] == Lower(s[k])
    ensures lowered == word
  {
  }

  // ----- the fields that matter -----------------------------------------------------------------

  /** The body has n bytes: Content-Length is a numeral of n, or is missing and n is 0. */
  ghost predicate SaysLength(fields: seq<Field>, n: nat) { Announces(fields, "content-length", n) }

  /** Content-Length has a character that is no digit. */
  ghost predicate SaysNoNumber(fields: seq<Field>)
  {
    exists v: string, k :: Says(fields, "content-length", v) && 0 <= k < |v| && !('0' <= v[k] <= '9')
  }

  /** Transfer-Encoding lists `chunked`. */
  ghost predicate SaysChunked(fields: seq<Field>)
  {
    exists v :: Says(fields, "transfer-encoding", v) && Lists(v, "chunked")
  }

  /** Transfer-Encoding is missing or a single other coding. */
  ghost predicate SaysUnchunked(fields: seq<Field>)
  {
    Silent(fields, "transfer-encoding") || exists v :: Says(fields, "transfer-encoding", v) && Alone(v, "chunked")
  }

  /** Expect starts with 100-continue, as a word. */
  ghost predicate SaysContinue(fields: seq<Field>)
  {
    exists s, rest :: Says(fields, "expect", s + rest) && CaseOf(s, "100-continue")
      && (rest == "" || rest[0] == ',' || White(rest[0]))
  }

  lemma {:induction false} SaidSays(fields: seq<Field>, name: string)
    requires Said(fields, name) != ""
    ensures Says(fields, name, Said(fields, name))
    decreases |fields|
  {
    hide CaseOf;
    if CaseOf(fields[0].name, name) && fields[0].value != "" {
      assert fields[0].value == Said(fields, name);
    } else {
      var rest, v := fields[1..], Said(fields, name);
      SaidSays(rest, name);
      var i :| 0 <= i < |rest| && CaseOf(rest[i].name, name) && rest[i].value == v
        && forall j :: 0 <= j < i && CaseOf(rest[j].name, name) ==> rest[j].value == "";
      assert fields[i + 1] == rest[i];
      assert forall j :: 0 < j < i + 1 ==> fields[j] == rest[j - 1];
    }
  }

  /** A value has no white space at its ends. */
  lemma SaidTrimmed(fields: seq<Field>, name: string, v: string)
    requires AllOk(fields) && Says(fields, name, v)
    ensures v != "" && !White(v[0]) && !White(v[|v| - 1])
  {
    hide CaseOf, White;
    var i :| 0 <= i < |fields| && CaseOf(fields[i].name, name) && fields[i].value == v
      && forall j :: 0 <= j < i && CaseOf(fields[j].name, name) ==> fields[j].value == "";
    assert FieldOk(fields[i]);
  }

  lemma LengthPlanned(fields: seq<Field>, l: string, n: nat)
    requires l == "content-length" && SaysLength(fields, n)
    ensures var v := Said(fields, l);
            if v == "" then n == 0
            else FullNumber(v, 10) == if n < 0x1_0000_0000_0000_0000 then Some(n) else None
  {
    hide Said, Says, Silent, FullNumber, Decimal, Zeros;
    if n == 0 && Silent(fields, l) {
      SaysIs(fields, l, "");
    } else {
      var zeros :| Zeros(zeros) && Says(fields, l, zeros + Decimal(n));
      SaysIs(fields, l, zeros + Decimal(n));
      LengthReads(zeros, n);
    }
  }

  lemma NoNumberPlanned(fields: seq<Field>, l: string)
    requires l == "content-length" && SaysNoNumber(fields)
    ensures Said(fields, l) != "" && FullNumber(Said(fields, l), 10) == None
  {
    hide Said, Says, FullNumber;
    var v: string, k :| Says(fields, l, v) && 0 <= k < |v| && !('0' <= v[k] <= '9');
    SaysIs(fields, l, v);
    NoNumber(v);
  }

  lemma ChunkedWord(word: string)
    requires word == "chunked"
    ensures word != "" && Key(word) && ',' !in word
  {
  }

  lemma ChunkedPlanned(fields: seq<Field>, t: string, word: string)
    requires AllOk(fields) && t == "transfer-encoding" && word == "chunked"
    ensures SaysChunked(fields) ==> Said(fields, t) != "" && HasToken(Said(fields, t), word)
    ensures SaysUnchunked(fields) ==> Said(fields, t) == "" || !HasToken(Said(fields, t), word)
  {
    ChunkedWord(word);
    hide AllOk, Says, Silent, HasToken, Lists, Alone, Said, Key, White;
    if SaysChunked(fields) {
      var v :| Says(fields, t, v) && Lists(v, word);
      SaysIs(fields, t, v);
      SaidTrimmed(fields, t, v);
      TokenListed(v, word);
    }
    if SaysUnchunked(fields) {
      if Silent(fields, t) {
        SaysIs(fields, t, "");
      } else {
        var v :| Says(fields, t, v) && Alone(v, word);
        SaysIs(fields, t, v);
        SaidTrimmed(fields, t, v);
        TokenListed(v, word);
      }
    }
  }

  /** What the reader plans for such headers. */
  lemma PlanIs(first: string, fields: seq<Field>, n: nat)
    requires OneLine(first) && AllOk(fields)
    ensures var plan := PlanOf(PreflightOf(Render(first, fields)));
            && (SaysLength(fields, n) && n <= 16777216 && SaysUnchunked(fields) ==> plan == Fixed(n))
            && (SaysLength(fields, n) && n <= 16777216 && SaysChunked(fields) ==> plan == Chunked)
            && (SaysLength(fields, n) && 16777216 < n < 0x1_0000_0000_0000_0000 ==> plan == TooLong(n))
            && (SaysLength(fields, n) && n >= 0x1_0000_0000_0000_0000 ==> plan == Malformed)
            && (SaysNoNumber(fields) ==> plan == Malformed)
  {
    var e, l, t, word := "expect", "content-length", "transfer-encoding", "chunked";
    hide PreflightOf, HasToken, FullNumber, Said, SaysLength, SaysNoNumber, SaysChunked, SaysUnchunked, AllOk, OneLine, Render;
    RenderSays(first, fields, e, l, t);
    if SaysLength(fields, n) {
      LengthPlanned(fields, l, n);
    }
    if SaysNoNumber(fields) {
      NoNumberPlanned(fields, l);
    }
    ChunkedPlanned(fields, t, word);
  }

  lemma ContinueWord(word: string)
    requires word == "100-continue"
    ensures |word| == 12 && Key(word)
  {
  }

  lemma ContinueIs(v: string, word: string)
    requires word == "100-continue" && v != "" && !White(v[0]) && !White(v[|v| - 1])
    ensures IsContinue(v) <==> StartsWord(v, word)
  {
    ContinueWord(word);
    Trimmed("", v, "");
    assert "" + v + "" == v;
    hide Trim, LowerAll, Key, CaseOf;
    if |v| >= 12 {
      LoweredIsCase(v[..12], word);
    }
    SameSpace(v);
    hide IsSpace, White;
  }

  lemma SameSpace(v: string)
    ensures |v| > 12 ==> (IsSpace(v[12]) <==> White(v[12]))
  {
  }

  /** The reader sees an expectation exactly when the headers ask to continue. */
  lemma ExpectsExactly(first: string, fields: seq<Field>)
    requires OneLine(first) && AllOk(fields)
    ensures Expects(PreflightOf(Render(first, fields))) <==> SaysContinue(fields)
  {
    var e, l, t, word := "expect", "content-length", "transfer-encoding", "100-continue";
    hide PreflightOf, Said, AllOk, OneLine, Render, IsContinue, StartsWord, SaysContinue;
    RenderSays(first, fields, e, l, t);
    var v := Said(fields, e);
    ContinueSaid(fields, e, word);
    if v != "" {
      ValueTrimmed(fields, e);
      ContinueIs(v, word);
    }
  }

  lemma ValueTrimmed(fields: seq<Field>, name: string)
    requires AllOk(fields) && Said(fields, name) != ""
    ensures var v := Said(fields, name); !White(v[0]) && !White(v[|v| - 1])
  {
    hide AllOk, Said, Says, White;
    SaidSays(fields, name);
    SaidTrimmed(fields, name, Said(fields, name));
  }

  /** The text starts with the word, which ends there or before a comma or white space. */
  predicate StartsWord(v: string, word: string)
  {
    |v| >= |word| && CaseOf(v[..|word|], word) && (|v| > |word| ==> v[|word|] == ',' || White(v[|word|]))
  }

  lemma ContinueSaid(fields: seq<Field>, e: string, word: string)
    requires e == "expect" && word == "100-continue"
    ensures SaysContinue(fields) <==> Said(fields, e) != "" && StartsWord(Said(fields, e), word)
  {
    ContinueWord(word);
    hide Said, CaseOf, Says, White, Key;
    var v := Said(fields, e);
    if SaysContinue(fields) {
      var s, rest :| Says(fields, e, s + rest) && CaseOf(s, word) && (rest == "" || rest[0] == ',' || White(rest[0]));
      SaysIs(fields, e, s + rest);
      CaseLength(s, word);
      assert (s + rest)[..12] == s;
      assert s + rest != "";
    }
    if v != "" && StartsWord(v, word) {
      SaidSays(fields, e);
      assert v == v[..12] + v[12..];
    }
  }

  lemma CaseLength(s: string, word: string)
    requires CaseOf(s, word)
    ensures |s| == |word|
  {
  }

  // ----- one message ----------------------------------------------------------------------------

  /** A body of the announced length: headers and body are one message. */
  lemma LengthIsFramed(first: string, fields: seq<Field>, body: string)
    requires HeadOk(first, fields) && |body| <= 16777216
    requires SaysLength(fields, |body|) && SaysUnchunked(fields)
    ensures Framed(Render(first, fields) + body)
  {
    HeadFields(first, fields);
    hide *;
    RenderPlain(first, fields);
    PlanIs(first, fields, |body|);
    FixedIsFramed(Render(first, fields), body);
  }

  lemma HeadFields(first: string, fields: seq<Field>)
    requires HeadOk(first, fields)
    ensures OneLine(first) && AllOk(fields)
  {
    hide FieldOk, OneLine;
  }

  /** Where chunks are announced the chunked body ends the message, whatever length is announced. */
  lemma ChunksDecide(first: string, fields: seq<Field>, n: nat, b: Body)
    requires HeadOk(first, fields) && SaysLength(fields, n) && n <= 16777216 && SaysChunked(fields)
    requires BodyOk(b) && |Encode(b)| + 8191 <= 16777216
    ensures Framed(Render(first, fields) + Encode(b))
  {
    HeadFields(first, fields);
    hide *;
    RenderPlain(first, fields);
    PlanIs(first, fields, n);
    ChunkedIsFramed(Render(first, fields), b);
  }

  lemma ExpectingIs(first: string, fields: seq<Field>, body: string)
    requires HeadOk(first, fields) && Framed(Render(first, fields) + body)
    ensures FramedAt(Render(first, fields) + body, |Render(first, fields)|)
    ensures Expecting(Render(first, fields) + body) <==> SaysContinue(fields)
  {
    var head := Render(first, fields);
    var m := head + body;
    HeadFields(first, fields);
    assert m[..|head|] == head;
    hide *;
    RenderPlain(first, fields);
    ExpectsExactly(first, fields);
    HeadDecides(head, body);
  }

  /** A framed message that starts with a plain head has its headers there. */
  lemma HeadDecides(head: string, body: string)
    requires PlainHead(head) && Framed(head + body)
    ensures FramedAt(head + body, |head|)
    ensures Expecting(head + body) <==> Expects(PreflightOf(head))
  {
    var m := head + body;
    assert m[..|head|] == head;
    HeadFacts(head);
    hide SplitHttpHeaders, PlainHead, Expects, PreflightOf, BodyFits;
    forall h: nat | FramedAt(m, h) ensures h == |head| {
      FrontSplit(m, h, "", head);
      assert m + "" == m;
    }
  }

  /** What one call gives for the bytes of a message followed by others: the message itself, one 100 Continue if the
      headers ask for it, and the other bytes kept. */
  lemma MessageIsRead(c: Conn, maxRequests: nat, first: string, fields: seq<Field>, body: string, tail: string)
    requires HeadOk(first, fields) && Framed(Render(first, fields) + body)
    requires Pieces(c.input) && Bytes(c) == Render(first, fields) + body + tail && Allowed(c.count, maxRequests)
    requires c.up || !SaysContinue(fields)
    ensures var r := Next(c, maxRequests);
            && r.outcome == Request(Render(first, fields) + body) && Bytes(r.conn) == tail
            && r.conn.sent == c.sent + if SaysContinue(fields) then [Continue] else []
  {
    var head := Render(first, fields);
    var m := head + body;
    HeadFields(first, fields);
    assert m[..|head|] == head;
    hide *;
    ExpectingIs(first, fields, body);
    ExpectsExactly(first, fields);
    NextIs(c, maxRequests, m, tail);
    NextServes(c, maxRequests, m, |head|, tail);
    ServedSent(c, Next(c, maxRequests), if Expects(PreflightOf(m[..|head|])) then [Continue] else []);
  }

  lemma ServedSent(c: Conn, r: Result, replies: seq<Reply>)
    requires Served(c.(count := (c.count + 1) % COUNT_LIMIT), r, replies)
    ensures r.conn.sent == c.sent + replies
  {
  }

  // ----- refused lengths ------------------------------------------------------------------------

  lemma FirstEndIs(head: string, rest: string)
    requires PlainHead(head)
    ensures FirstEnd(head + rest, |head|) && 0 < |head| <= 65536
  {
    NothingEarlier(head);
    SameEarly(head, rest);
    HeadFacts(head);
    assert (head + rest)[..|head|] == head;
    hide PlainHead, NoEarlyEnd;
    SplitBounds(head);
    hide SplitHttpHeaders;
  }

  /** The reader has these bytes, the pieces of input are still to come, and the body is handled by the plan. */
  ghost predicate GoesOn(c: Conn, maxRequests: nat, head: string, rest: string, raw: string, input: seq<string>)
  {
    && Pieces(input) && raw + Flat(input) == head + rest && |head| <= |raw| < |head| + 8192
    && var c1 := c.(count := (c.count + 1) % COUNT_LIMIT, pending := "", input := input);
       var p := PreflightOf(head);
       var c2 := if Expects(p) then Send(c1, Continue) else c1;
       Next(c, maxRequests) == if Expects(p) && !c.up then Result(Abort, c2) else BodyBy(c2, raw, |head|, PlanOf(p))
  }

  /** Reading stops within one buffer after such headers. */
  lemma HeadIsSeen(c: Conn, maxRequests: nat, head: string, rest: string)
    requires PlainHead(head) && Delivers(c, head + rest) && Allowed(c.count, maxRequests)
    ensures exists raw: string, input: seq<string> :: GoesOn(c, maxRequests, head, rest, raw, input)
  {
    FirstEndIs(head, rest);
    HeadFacts(head);
    hide *;
    var f := HeadersOf(c);
    HeadersWithin(c, head, rest);
    DeliveredBytes(c, head, rest);
    NextByHeaders(c, maxRequests);
    HeadKept(f.raw, Flat(f.rest), head, rest);
    CrlfSplit(head, f.raw);
    BodyIs(c.(count := (c.count + 1) % COUNT_LIMIT, pending := "", input := f.rest), f.raw, head);
    GoesOnIs(c, maxRequests, head, rest, f.raw, f.rest);
  }

  lemma DeliveredBytes(c: Conn, head: string, rest: string)
    requires Delivers(c, head + rest) && head != ""
    ensures Pieces(c.input) && Bytes(c) != ""
  {
  }

  lemma HeadersWithin(c: Conn, head: string, rest: string)
    requires FirstEnd(head + rest, |head|) && Delivers(c, head + rest) && 0 < |head| <= 65536
    ensures var f := HeadersOf(c);
            f.Filled? && Pieces(f.rest) && f.raw + Flat(f.rest) == head + rest && |head| <= |f.raw| < |head| + 8192
  {
    hide FirstEnd, ReadHeaders, Flat;
    ReadWithin(head + rest, |head|, c.pending, c.input);
    hide Pieces;
  }

  lemma HeadKept(raw: string, left: string, head: string, rest: string)
    requires raw + left == head + rest && |head| <= |raw|
    ensures head <= raw && raw[..|head|] == head
  {
    assert (raw + left)[..|head|] == raw[..|head|];
    assert (head + rest)[..|head|] == head;
  }

  lemma BodyIs(c: Conn, raw: string, head: string)
    requires SplitHttpHeaders(raw) == Some(HeaderSplit(|head|, 4)) && head <= raw && raw[..|head|] == head
    ensures var p := PreflightOf(head);
            var c2 := if Expects(p) then Send(c, Continue) else c;
            HttpFraming.Body(c, raw) == if Expects(p) && !c.up then Result(Abort, c2) else BodyBy(c2, raw, |head|, PlanOf(p))
  {
    hide SplitHttpHeaders, PreflightOf, Expects, PlanOf, BodyBy;
  }

  lemma GoesOnIs(c: Conn, maxRequests: nat, head: string, rest: string, raw: string, input: seq<string>)
    requires Pieces(input) && raw + Flat(input) == head + rest && |head| <= |raw| < |head| + 8192
    requires var c1 := c.(count := (c.count + 1) % COUNT_LIMIT, pending := "", input := input);
             var p := PreflightOf(head);
             var c2 := if Expects(p) then Send(c1, Continue) else c1;
             Next(c, maxRequests) == if Expects(p) && !c.up then Result(Abort, c2) else BodyBy(c2, raw, |head|, PlanOf(p))
    ensures GoesOn(c, maxRequests, head, rest, raw, input)
  {
    hide Pieces, Flat, PreflightOf, Expects, PlanOf, BodyBy, Next, Send;
  }

  /** The replies of a refusal. */
  predicate Refused(c: Conn, asked: bool, r: Result)
  {
    && r.outcome == Abort
    && r.conn.sent == c.sent + if !c.up then [] else if asked then [Continue, BadRequest] else [BadRequest]
  }

  lemma WhatIsLeft(raw: string, left: string, head: string, rest: string)
    requires raw + left == head + rest && |head| <= |raw|
    ensures |raw| - |head| <= |rest| && left == rest[|raw| - |head|..]
  {
    assert (raw + left)[|raw|..] == left;
    assert (head + rest)[|raw|..] == rest[|raw| - |head|..];
  }

  lemma MalformedFrom(c: Conn, maxRequests: nat, head: string, rest: string, raw: string, input: seq<string>)
    requires GoesOn(c, maxRequests, head, rest, raw, input) && PlanOf(PreflightOf(head)).Malformed?
    ensures Refused(c, Expects(PreflightOf(head)), Next(c, maxRequests))
    ensures Flat(Next(c, maxRequests).conn.input) == Flat(input)
  {
    hide PreflightOf, Expects, PlanOf, Flat, Next;
  }

  /** A length that is no number, or that does not fit 64 bits: the request is refused and nothing more is read. */
  lemma NoNumberRefused(c: Conn, maxRequests: nat, first: string, fields: seq<Field>, rest: string, n: nat)
    requires HeadOk(first, fields) && Delivers(c, Render(first, fields) + rest) && Allowed(c.count, maxRequests)
    requires SaysNoNumber(fields) || (SaysLength(fields, n) && n >= 0x1_0000_0000_0000_0000)
    ensures Refused(c, SaysContinue(fields), Next(c, maxRequests))
    ensures exists k: nat :: k < 8192 && k <= |rest| && Flat(Next(c, maxRequests).conn.input) == rest[k..]
  {
    var head := Render(first, fields);
    HeadFields(first, fields);
    hide *;
    RenderPlain(first, fields);
    PlanIs(first, fields, n);
    ExpectsExactly(first, fields);
    HeadIsSeen(c, maxRequests, head, rest);
    var raw: string, input: seq<string> :| GoesOn(c, maxRequests, head, rest, raw, input);
    MalformedFrom(c, maxRequests, head, rest, raw, input);
    SeenBytes(c, maxRequests, head, rest, raw, input);
  }

  lemma SeenBytes(c: Conn, maxRequests: nat, head: string, rest: string, raw: string, input: seq<string>)
    requires GoesOn(c, maxRequests, head, rest, raw, input)
    ensures |head| <= |raw| < |head| + 8192 && |raw| - |head| <= |rest| && Flat(input) == rest[|raw| - |head|..] && Pieces(input)
  {
    hide Next, BodyBy, PlanOf, PreflightOf, Expects, Flat;
    WhatIsLeft(raw, Flat(input), head, rest);
  }

  lemma {:induction false} DiscardLeaves(input: seq<string>, n: nat)
    requires Pieces(input)
    ensures Flat(Discard(input, n)) == Dropped(Flat(input), n)
    decreases n
  {
    hide Flat, Read, Pieces;
    if n == 0 {
      assert Flat(input)[0..] == Flat(input);
    } else {
      var max := if n < BUFFER_SIZE then n else BUFFER_SIZE;
      var got := Read(input, max);
      if got.data == "" {
        assert Flat(input) == "";
      } else {
        DiscardLeaves(got.rest, n - |got.data|);
        DroppedLater(got.data, Flat(got.rest), n);
      }
    }
  }

  /** Without the first n characters, or nothing. */
  function Dropped(s: string, n: nat): string { if n <= |s| then s[n..] else "" }

  lemma DroppedLater(a: string, b: string, n: nat)
    requires |a| <= n
    ensures Dropped(a + b, n) == Dropped(b, n - |a|)
  {
    if n <= |a + b| {
      assert (a + b)[n..] == b[n - |a|..];
    }
  }

  lemma TooLongFrom(c: Conn, maxRequests: nat, head: string, rest: string, raw: string, input: seq<string>, n: nat)
    requires GoesOn(c, maxRequests, head, rest, raw, input) && PlanOf(PreflightOf(head)) == TooLong(n) && n > 16777216
    ensures Refused(c, Expects(PreflightOf(head)), Next(c, maxRequests))
    ensures c.up || !Expects(PreflightOf(head)) ==> Next(c, maxRequests).conn.input == Discard(input, n - (|raw| - |head|))
  {
    hide PreflightOf, Expects, PlanOf, Flat, Next, Discard;
  }

  /** A length above the limit: the request is refused after exactly so many bytes have been read and dropped, or all
      there are. */
  lemma TooLongRefused(c: Conn, maxRequests: nat, first: string, fields: seq<Field>, rest: string, n: nat)
    requires HeadOk(first, fields) && Delivers(c, Render(first, fields) + rest) && Allowed(c.count, maxRequests)
    requires SaysLength(fields, n) && 16777216 < n < 0x1_0000_0000_0000_0000
    ensures Refused(c, SaysContinue(fields), Next(c, maxRequests))
    ensures c.up || !SaysContinue(fields)
            ==> Flat(Next(c, maxRequests).conn.input) == if n <= |rest| then rest[n..] else ""
  {
    var head := Render(first, fields);
    HeadFields(first, fields);
    hide *;
    RenderPlain(first, fields);
    PlanIs(first, fields, n);
    ExpectsExactly(first, fields);
    HeadIsSeen(c, maxRequests, head, rest);
    var raw: string, input: seq<string> :| GoesOn(c, maxRequests, head, rest, raw, input);
    LongLeaves(c, maxRequests, head, rest, raw, input, n);
  }

  lemma LongLeaves(c: Conn, maxRequests: nat, head: string, rest: string, raw: string, input: seq<string>, n: nat)
    requires GoesOn(c, maxRequests, head, rest, raw, input) && PlanOf(PreflightOf(head)) == TooLong(n) && n > 16777216
    ensures Refused(c, Expects(PreflightOf(head)), Next(c, maxRequests))
    ensures c.up || !Expects(PreflightOf(head))
            ==> Flat(Next(c, maxRequests).conn.input) == if n <= |rest| then rest[n..] else ""
  {
    hide *;
    TooLongFrom(c, maxRequests, head, rest, raw, input, n);
    SeenBytes(c, maxRequests, head, rest, raw, input);
    var already := |raw| - |head|;
    DiscardLeaves(input, n - already);
    DroppedAfter(rest, already, n);
  }

  lemma DroppedAfter(s: string, k: nat, n: nat)
    requires k <= |s| && k <= n
    ensures Dropped(s[k..], n - k) == if n <= |s| then s[n..] else ""
  {
    DroppedLater(s[..k], s[k..], n);
    assert s[..k] + s[k..] == s;
  }
}
