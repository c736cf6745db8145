/**
 White space in JSON text: blanks, tabs, newlines and carriage returns may stand around every token and change
 nothing, at any depth, and no other character is passed over.
 */
module JsonLayout {
  import opened Chars
  import opened JsonText
  import opened JsonRoundTrip

  // ----- layouts --------------------------------------------------------------------------------

  predicate Blank(c: char) { c == ' ' || c == '\t' || c == '\n' || c == '\r' }

  predicate Blanks(w: string) { forall k :: 0 <= k < |w| ==> Blank(w[k]) }

  /** What stands around the key and the value of one member. */
  datatype Gaps = Gaps(beforeKey: string, afterKey: string, beforeValue: string, afterValue: string)

  /** What stands before and after a document, inside empty braces, and around its members or elements. */
  datatype Layout = Layout(before: string, inside: string, members: seq<Gaps>, elements: seq<Layout>, after: string)

  predicate GapsOk(g: Gaps) { Blanks(g.beforeKey) && Blanks(g.afterKey) && Blanks(g.beforeValue) && Blanks(g.afterValue) }

  predicate Fits(d: Doc, l: Layout)
  {
    && Blanks(l.before) && Blanks(l.inside) && Blanks(l.after)
    && if d.items == [] then
         |l.members| == |d.keys| && forall k :: 0 <= k < |d.keys| ==> GapsOk(l.members[k]) && d.keys[k] in d.data
       else |l.elements| == |d.items| && forall k :: 0 <= k < |d.items| ==> Fits(d.items[k], l.elements[k])
  }

  function MemberLaid(key: string, value: string, g: Gaps): string
  {
    g.beforeKey + "\"" + key + "\"" + g.afterKey + ":" + g.beforeValue + ValueText(value) + g.afterValue
  }

  function MembersLaid(keys: seq<string>, data: map<string, string>, gaps: seq<Gaps>): string
    requires |gaps| == |keys| && forall k :: 0 <= k < |keys| ==> keys[k] in data
  {
    if keys == [] then ""
    else if |keys| == 1 then MemberLaid(keys[0], data[keys[0]], gaps[0])
    else MemberLaid(keys[0], data[keys[0]], gaps[0]) + "," + MembersLaid(keys[1..], data, gaps[1..])
  }

  /** The text of a document from its first bracket to its last one. */
  function Core(d: Doc, l: Layout): string
    requires Fits(d, l)
    decreases d, 1
  {
    if d.items != [] then "[" + ElementsLaid(d.items, l.elements) + "]"
    else if d.keys == [] then "{" + l.inside + "}"
    else "{" + MembersLaid(d.keys, d.data, l.members) + "}"
  }

  function ElementsLaid(items: seq<Doc>, ls: seq<Layout>): string
    requires |ls| == |items| && forall k :: 0 <= k < |items| ==> Fits(items[k], ls[k])
    decreases items, 0
  {
    if items == [] then ""
    else if |items| == 1 then ls[0].before + Core(items[0], ls[0]) + ls[0].after
    else ls[0].before + Core(items[0], ls[0]) + ls[0].after + "," + ElementsLaid(items[1..], ls[1..])
  }

  /** The text is a print of the document with white space around its tokens. */
  ghost predicate IsLayout(s: string, d: Doc)
  {
    exists l: Layout :: Fits(d, l) && s == l.before + Core(d, l) + l.after
  }

  // ----- white space and nothing else -----------------------------------------------------------

  /** Exactly the characters of white space at the front go. */
  lemma {:induction false} SkipWsExactly(s: string)
    ensures exists w :: Blanks(w) && s == w + SkipWs(s)
    ensures SkipWs(s) != "" ==> !Blank(SkipWs(s)[0])
  {
    if s != "" && Blank(s[0]) {
      SkipWsExactly(s[1..]);
      var w :| Blanks(w) && s[1..] == w + SkipWs(s[1..]);
      assert s == ([s[0]] + w) + SkipWs(s);
      assert Blanks([s[0]] + w);
    } else {
      assert Blanks("") && s == "" + s;
    }
  }

  lemma {:induction false} BlanksGo(w: string, s: string)
    requires Blanks(w)
    ensures SkipWs(w + s) == SkipWs(s)
  {
    if w == "" {
      assert w + s == s;
    } else {
      assert (w + s)[1..] == w[1..] + s;
      BlanksGo(w[1..], s);
    }
  }

  lemma TokenStays(w: string, s: string)
    requires Blanks(w) && s != "" && !Blank(s[0])
    ensures SkipWs(w + s) == s
  {
    BlanksGo(w, s);
  }

  lemma DataAfterBlanks(w: string, s: string)
    requires Blanks(w)
    ensures ReadData(w + s) == ReadData(s)
  {
    BlanksGo(w, s);
    hide ReadString, ReadNumber, Nested;
  }

  lemma SeparatedBy(w: string, tail: string)
    requires Blanks(w) && ValueEnds(tail)
    ensures Separated(w + tail)
  {
  }

  // ----- objects --------------------------------------------------------------------------------

  lemma MemberParts(key: string, value: string, g: Gaps, tail: string)
    ensures MemberLaid(key, value, g) + tail
         == g.beforeKey + ("\"" + (key + ("\"" + (g.afterKey + (":" + (g.beforeValue + (ValueText(value)
            + (g.afterValue + tail))))))))
  {
    hide ValueText;
  }

  lemma KeyToken(key: string, rest: string)
    requires PlainKey(key)
    ensures ReadString("\"" + (key + ("\"" + rest))) == (key, rest)
  {
    KeyReads(key, rest);
    hide Quoted;
    assert ("\"" + (key + ("\"" + rest)))[1..] == key + ("\"" + rest);
  }

  /** One member in any layout, followed by the rest of the object. */
  lemma MemberReads(key: string, value: string, g: Gaps, tail: string, keys: seq<string>, data: map<string, string>)
    requires PlainKey(key) && PrintableValue(value) && GapsOk(g) && ValueEnds(tail)
    ensures Fields(MemberLaid(key, value, g) + tail, keys, data)
         == if tail[0] == ',' then Fields(tail[1..], keys + [key], data[key := value])
            else if tail[0] == '}' then FieldsRead(keys + [key], data[key := value], tail[1..], "")
            else Fields(tail, keys + [key], data[key := value])
  {
    var afterValue := g.afterValue + tail;
    var atValue := g.beforeValue + (ValueText(value) + afterValue);
    var afterKey := g.afterKey + (":" + atValue);
    var atKey := "\"" + (key + ("\"" + afterKey));
    assert key != "" && atKey[0] == '"' && tail != "" && !Blank(tail[0]);
    SeparatedBy(g.afterValue, tail);
    hide *;
    MemberParts(key, value, g, tail);
    TokenStays(g.beforeKey, atKey);
    KeyToken(key, afterKey);
    TokenStays(g.afterKey, ":" + atValue);
    DataAfterBlanks(g.beforeValue, ValueText(value) + afterValue);
    ValueReads(value, afterValue);
    TokenStays(g.afterValue, tail);
    assert (":" + atValue)[1..] == atValue;
    FieldsOnce(MemberLaid(key, value, g) + tail, atKey, key, afterKey, ":" + atValue, value, afterValue, tail, keys, data);
  }

  /** One round of the member loop from what its readers return. */
  lemma FieldsOnce(s: string, atKey: string, key: string, afterKey: string, atColon: string, value: string,
                   afterValue: string, tail: string, keys: seq<string>, data: map<string, string>)
    requires SkipWs(s) == atKey && Starts(atKey, '"') && ReadString(atKey) == (key, afterKey) && key != ""
    requires SkipWs(afterKey) == atColon && Starts(atColon, ':') && ReadData(atColon[1..]) == (value, afterValue)
    requires SkipWs(afterValue) == tail && tail != ""
    ensures Fields(s, keys, data)
         == if tail[0] == ',' then Fields(tail[1..], keys + [key], data[key := value])
            else if tail[0] == '}' then FieldsRead(keys + [key], data[key := value], tail[1..], "")
            else Fields(tail, keys + [key], data[key := value])
  {
    hide ReadString, ReadData;
  }

  lemma {:induction false} MembersRead(before: seq<string>, keys: seq<string>, data: map<string, string>, gaps: seq<Gaps>,
                                       tail: string)
    requires keys != [] && FieldsOk(keys, data) && |gaps| == |keys| && forall k :: 0 <= k < |keys| ==> GapsOk(gaps[k])
    ensures Fields(MembersLaid(keys, data, gaps) + ("}" + tail), before, Restrict(data, before))
         == FieldsRead(before + keys, Restrict(data, before + keys), tail, "")
    decreases |keys|
  {
    hide *;
    MembersParts(keys, data, gaps);
    RestrictMoves(before, keys, data);
    var key, so, ending := keys[0], Restrict(data, before), "}" + tail;
    var one := MemberLaid(key, data[key], gaps[0]);
    SeparatorsEnd(tail);
    if |keys| == 1 {
      MemberReads(key, data[key], gaps[0], ending, before, so);
      assert keys == [key];
    } else {
      var more := MembersLaid(keys[1..], data, gaps[1..]);
      CommaMoves(one, more, ending);
      SeparatorsEnd(more + ending);
      MemberReads(key, data[key], gaps[0], "," + (more + ending), before, so);
      MembersRead(before + [key], keys[1..], data, gaps[1..], tail);
      assert before + [key] + keys[1..] == before + keys;
    }
  }

  lemma SeparatorsEnd(tail: string)
    ensures ("}" + tail)[1..] == tail && ValueEnds("}" + tail) && ("," + tail)[1..] == tail && ValueEnds("," + tail)
  {
  }

  lemma MembersParts(keys: seq<string>, data: map<string, string>, gaps: seq<Gaps>)
    requires keys != [] && FieldsOk(keys, data) && |gaps| == |keys| && forall k :: 0 <= k < |keys| ==> GapsOk(gaps[k])
    ensures keys[0] in data && PlainKey(keys[0]) && PrintableValue(data[keys[0]]) && GapsOk(gaps[0])
    ensures FieldsOk(keys[1..], data) && forall k :: 0 <= k < |keys[1..]| ==> GapsOk(gaps[1..][k]) && keys[1..][k] in data
    ensures var one := MemberLaid(keys[0], data[keys[0]], gaps[0]);
            MembersLaid(keys, data, gaps) == if |keys| == 1 then one else one + "," + MembersLaid(keys[1..], data, gaps[1..])
  {
    hide PlainKey, PrintableValue, GapsOk, MemberLaid;
  }

  lemma RestrictMoves(before: seq<string>, keys: seq<string>, data: map<string, string>)
    requires keys != [] && keys[0] in data
    ensures Restrict(data, before)[keys[0] := data[keys[0]]] == Restrict(data, before + [keys[0]])
  {
  }

  lemma PrintableObject(d: Doc)
    requires Printable(d) && d.items == []
    ensures FieldsOk(d.keys, d.data) && Restrict(d.data, []) == map[] && Restrict(d.data, d.keys) == d.data
    ensures d == Doc(d.keys, d.data, [], "")
  {
    hide PrintableValue, PlainKey;
  }

  /** The text is read as this document, with an error if anything but white space comes after it. */
  ghost predicate ReadsTo(s: string, tail: string, d: Doc)
  {
    Parse(s + tail) == Finished(d.(error := if SkipWs(tail) == "" then "" else "trailing data after JSON value"))
  }

  lemma ObjectReads(d: Doc, l: Layout, tail: string)
    requires Printable(d) && d.items == [] && Fits(d, l)
    ensures ReadsTo(Core(d, l), tail, d)
  {
    PrintableObject(d);
    hide FieldsOk, Printable, ReadsTo;
    if d.keys == [] {
      assert d.data == map[];
      EmptyReads(l.inside, tail);
    } else {
      MembersRead([], d.keys, d.data, l.members, tail);
      assert [] + d.keys == d.keys;
      BracesParse(MembersLaid(d.keys, d.data, l.members), tail, d);
    }
  }

  lemma BracesParse(inside: string, tail: string, d: Doc)
    requires Fields(inside + ("}" + tail), [], map[]) == FieldsRead(d.keys, d.data, tail, "")
    requires d == Doc(d.keys, d.data, [], "")
    ensures ReadsTo("{" + inside + "}", tail, d)
  {
    hide Fields;
    var s := "{" + inside + "}" + tail;
    assert s[1..] == inside + ("}" + tail);
    assert SkipWs(s) == s;
  }

  lemma EmptyReads(w: string, tail: string)
    requires Blanks(w)
    ensures ReadsTo("{" + w + "}", tail, Doc([], map[], [], ""))
  {
    TokenStays(w, "}" + tail);
    assert ("}" + tail)[1..] == tail;
    assert Fields(w + ("}" + tail), [], map[]) == FieldsRead([], map[], tail, "");
    BracesParse(w, tail, Doc([], map[], [], ""));
  }

  // ----- arrays ---------------------------------------------------------------------------------

  lemma {:induction false} BlanksNeutral(w: string)
    requires Blanks(w)
    ensures Neutral(w)
  {
    assert PlainChars(w) by {
      forall k | 0 <= k < |w| ensures PlainChar(w[k]) {
        assert Blank(w[k]);
      }
    }
    NeutralPlain(w);
  }

  lemma KeyNeutral(key: string)
    requires PlainKey(key)
    ensures Neutral("\"" + key + "\"")
  {
    KeyStays(key, St(true, false, 0, 0));
    QuotedNeutral(key);
  }

  lemma MemberLaidNeutral(key: string, value: string, g: Gaps)
    requires PlainKey(key) && PrintableValue(value) && GapsOk(g)
    ensures Neutral(MemberLaid(key, value, g))
  {
    var front := g.beforeKey + ("\"" + key + "\"") + g.afterKey;
    var back := g.beforeValue + ValueText(value) + g.afterValue;
    assert MemberLaid(key, value, g) == front + ":" + back;
    assert PlainChar(':') && Blanks(g.beforeKey) && Blanks(g.afterKey) && Blanks(g.beforeValue) && Blanks(g.afterValue);
    hide *;
    KeyNeutral(key);
    ValueNeutral(value);
    AroundNeutral(g.beforeKey, "\"" + key + "\"", g.afterKey);
    AroundNeutral(g.beforeValue, ValueText(value), g.afterValue);
    NeutralChar(':');
    NeutralConcat(front, ":");
    NeutralConcat(front + ":", back);
  }

  lemma AroundNeutral(before: string, s: string, after: string)
    requires Blanks(before) && Neutral(s) && Blanks(after)
    ensures Neutral(before + s + after)
  {
    BlanksNeutral(before);
    BlanksNeutral(after);
    NeutralConcat(before, s);
    NeutralConcat(before + s, after);
  }

  lemma WithComma(a: string, b: string)
    requires Neutral(a) && Neutral(b)
    ensures Neutral(a + "," + b)
  {
    assert PlainChar(',');
    hide Neutral;
    NeutralChar(',');
    NeutralConcat(a, ",");
    NeutralConcat(a + ",", b);
  }

  lemma {:induction false} MembersLaidNeutral(keys: seq<string>, data: map<string, string>, gaps: seq<Gaps>)
    requires FieldsOk(keys, data) && |gaps| == |keys| && forall k :: 0 <= k < |keys| ==> GapsOk(gaps[k])
    ensures Neutral(MembersLaid(keys, data, gaps))
    decreases |keys|
  {
    hide Neutral, MemberLaid, PrintableValue, PlainKey, GapsOk;
    if keys == [] {
      BlanksNeutral("");
    } else {
      MemberLaidNeutral(keys[0], data[keys[0]], gaps[0]);
      MembersLaidNeutral(keys[1..], data, gaps[1..]);
      WithComma(MemberLaid(keys[0], data[keys[0]], gaps[0]), MembersLaid(keys[1..], data, gaps[1..]));
    }
  }

  lemma {:induction false} CoreBalanced(d: Doc, l: Layout)
    requires Printable(d) && Fits(d, l)
    ensures Balanced(Core(d, l))
    decreases d, 1
  {
    hide Balanced, Neutral;
    if d.items != [] {
      ElementsNeutral(d.items, l.elements);
      Enclosed(ElementsLaid(d.items, l.elements), '[', ']');
    } else {
      PrintableObject(d);
      BlanksNeutral(l.inside);
      MembersLaidNeutral(d.keys, d.data, l.members);
      Enclosed(if d.keys == [] then l.inside else MembersLaid(d.keys, d.data, l.members), '{', '}');
    }
  }

  lemma {:induction false} ElementsNeutral(items: seq<Doc>, ls: seq<Layout>)
    requires |ls| == |items| && forall k :: 0 <= k < |items| ==> Printable(items[k]) && Fits(items[k], ls[k])
    ensures Neutral(ElementsLaid(items, ls))
    decreases items, 0
  {
    if items == [] {
      BlanksNeutral("");
    } else {
      CoreBalanced(items[0], ls[0]);
      BalancedIsNeutral(Core(items[0], ls[0]));
      assert Blanks(ls[0].before) && Blanks(ls[0].after);
      hide Neutral, Printable, Fits, Core;
      AroundNeutral(ls[0].before, Core(items[0], ls[0]), ls[0].after);
      ElementsNeutral(items[1..], ls[1..]);
      WithComma(ls[0].before + Core(items[0], ls[0]) + ls[0].after, ElementsLaid(items[1..], ls[1..]));
    }
  }

  /** One element with white space around it, followed by the rest of the array. */
  lemma ElementReads(before: string, v: string, after: string, tail: string, d: Doc, items: seq<Doc>)
    requires Blanks(before) && Balanced(v) && Parse(v) == Finished(d) && Blanks(after) && ValueEnds(tail)
    ensures Items(before + (v + (after + tail)), items)
         == if tail[0] == ',' then Items(tail[1..], items + [d])
            else if tail[0] == ']' then Finished((items + [d], tail[1..]))
            else Items(tail, items + [d])
  {
    var afterElement := after + tail;
    assert tail != "" && !Blank(tail[0]);
    hide Neutral, Nested, Parse, Blank;
    BalancedEnds(v);
    assert v[0] == '{' || v[0] == '[';
    assert (v + afterElement)[0] == v[0];
    TokenStays(after, tail);
    assert !Blank(v[0]) by {
      BracketNoBlank(v[0]);
    }
    TokenStays(before, v + afterElement);
    NestedElement(v, afterElement);
    hide SkipWs, ReadData, Blanks, Balanced;
  }

  lemma BracketNoBlank(c: char)
    requires c == '{' || c == '['
    ensures !Blank(c)
  {
  }

  lemma NestedElement(v: string, tail: string)
    requires Balanced(v)
    ensures ReadData(v + tail) == (v, tail) && v != ""
  {
    hide Neutral, Nested;
    BalancedEnds(v);
    NestedReads(v, tail, v[0], v[|v| - 1]);
    assert SkipWs(v + tail) == v + tail;
  }

  lemma {:induction false} ElementsRead(before: seq<Doc>, items: seq<Doc>, ls: seq<Layout>, tail: string)
    requires items != [] && |ls| == |items| && forall k :: 0 <= k < |items| ==> Printable(items[k]) && Fits(items[k], ls[k])
    ensures Items(ElementsLaid(items, ls) + ("]" + tail), before) == Finished((before + items, tail))
    decreases items, 0
  {
    hide *;
    ElementFacts(items[0], ls[0]);
    ElementsParts(items, ls);
    ElementsFit(items, ls);
    var l, v, ending := ls[0], Core(items[0], ls[0]), "]" + tail;
    var one := l.before + v + l.after;
    if |items| == 1 {
      LastElement(l.before, v, l.after, tail, items[0], before);
      assert items == [items[0]];
    } else {
      var more := ElementsLaid(items[1..], ls[1..]);
      NextElement(l.before, v, l.after, more + ending, items[0], before);
      CommaMoves(one, more, ending);
      ElementsRead(before + [items[0]], items[1..], ls[1..], tail);
      FirstMoves(before, items);
    }
  }

  lemma FirstMoves(before: seq<Doc>, items: seq<Doc>)
    requires items != []
    ensures before + [items[0]] + items[1..] == before + items
  {
  }

  lemma CommaMoves(a: string, b: string, c: string)
    ensures a + "," + b + c == a + ("," + (b + c))
  {
  }

  lemma ElementsFit(items: seq<Doc>, ls: seq<Layout>)
    requires items != [] && |ls| == |items| && forall k :: 0 <= k < |items| ==> Printable(items[k]) && Fits(items[k], ls[k])
    ensures Fits(items[0], ls[0])
    ensures forall k :: 0 <= k < |items[1..]| ==> Printable(items[1..][k]) && Fits(items[1..][k], ls[1..][k])
  {
    hide Printable, Fits;
  }

  lemma ElementsParts(items: seq<Doc>, ls: seq<Layout>)
    requires items != [] && |ls| == |items| && forall k :: 0 <= k < |items| ==> Fits(items[k], ls[k])
    ensures var one := ls[0].before + Core(items[0], ls[0]) + ls[0].after;
            ElementsLaid(items, ls) == if |items| == 1 then one else one + "," + ElementsLaid(items[1..], ls[1..])
  {
    hide Fits, Core;
  }

  lemma {:induction false} ElementFacts(d: Doc, l: Layout)
    requires Printable(d) && Fits(d, l)
    ensures Blanks(l.before) && Blanks(l.after) && Balanced(Core(d, l)) && Parse(Core(d, l)) == Finished(d)
    decreases d, 2
  {
    hide Printable, Balanced, Core;
    CoreBalanced(d, l);
    CoreReads(d, l, "");
    assert Core(d, l) + "" == Core(d, l);
    assert d.(error := "") == d by {
      NoError(d);
    }
  }

  lemma NoError(d: Doc)
    requires Printable(d)
    ensures d.error == ""
  {
  }

  lemma LastElement(before: string, v: string, after: string, tail: string, d: Doc, items: seq<Doc>)
    requires Blanks(before) && Balanced(v) && Parse(v) == Finished(d) && Blanks(after)
    ensures Items(before + v + after + ("]" + tail), items) == Finished((items + [d], tail))
  {
    hide Items, Parse, Balanced, Blanks;
    var rest := "]" + tail;
    assert rest[1..] == tail && ValueEnds(rest);
    ElementReads(before, v, after, rest, d, items);
    assert before + v + after + rest == before + (v + (after + rest));
  }

  lemma NextElement(before: string, v: string, after: string, more: string, d: Doc, items: seq<Doc>)
    requires Blanks(before) && Balanced(v) && Parse(v) == Finished(d) && Blanks(after)
    ensures Items(before + v + after + ("," + more), items) == Items(more, items + [d])
  {
    hide Items, Parse, Balanced, Blanks;
    var rest := "," + more;
    assert rest[1..] == more && ValueEnds(rest);
    ElementReads(before, v, after, rest, d, items);
    assert before + v + after + rest == before + (v + (after + rest));
  }

  lemma {:induction false} CoreReads(d: Doc, l: Layout, tail: string)
    requires Printable(d) && Fits(d, l)
    ensures ReadsTo(Core(d, l), tail, d)
    decreases d, 1
  {
    if d.items == [] {
      ObjectReads(d, l, tail);
    } else {
      ElementsRead([], d.items, l.elements, tail);
      assert [] + d.items == d.items && d == Doc([], map[], d.items, "");
      ArrayParse(ElementsLaid(d.items, l.elements), tail, d.items);
    }
  }

  lemma ArrayParse(inside: string, tail: string, items: seq<Doc>)
    requires Items(inside + ("]" + tail), []) == Finished((items, tail))
    ensures ReadsTo("[" + inside + "]", tail, Doc([], map[], items, ""))
  {
    hide Items;
    var s := "[" + inside + "]" + tail;
    assert s[1..] == inside + ("]" + tail);
    assert SkipWs(s) == s;
  }

  // ----- any layout is read alike ---------------------------------------------------------------

  lemma ParseSkips(w: string, s: string)
    requires Blanks(w)
    ensures Parse(w + s) == Parse(s)
  {
    BlanksGo(w, s);
    hide Items, Fields, Finish, SkipWs;
  }

  lemma OnlyBlanks(w: string)
    requires Blanks(w)
    ensures SkipWs(w) == ""
  {
    BlanksGo(w, "");
    assert w + "" == w;
  }

  /** Every layout of a printable document is read as the document, as its own print is. */
  lemma LayoutReadBack(s: string, d: Doc)
    requires Printable(d) && IsLayout(s, d)
    ensures Parse(s) == Finished(d)
  {
    var l: Layout :| Fits(d, l) && s == l.before + Core(d, l) + l.after;
    LaidReads(d, l);
  }

  lemma LaidReads(d: Doc, l: Layout)
    requires Printable(d) && Fits(d, l)
    ensures Parse(l.before + Core(d, l) + l.after) == Finished(d)
  {
    NoError(d);
    assert Blanks(l.before) && Blanks(l.after);
    hide *;
    var core := Core(d, l);
    CoreReads(d, l, l.after);
    ReadsClean(core, l.after, d);
    ParseSkips(l.before, core + l.after);
    assert l.before + core + l.after == l.before + (core + l.after);
  }

  lemma ReadsClean(s: string, tail: string, d: Doc)
    requires ReadsTo(s, tail, d) && Blanks(tail) && d.error == ""
    ensures Parse(s + tail) == Finished(d)
  {
    OnlyBlanks(tail);
  }

  /** The print itself is a layout, without any white space. */
  lemma PrintIsLayout(d: Doc)
    requires Printable(d)
    ensures IsLayout(ToString(d), d)
  {
    var l := Tight(d);
    TightIs(d);
    assert ToString(d) == l.before + Core(d, l) + l.after;
  }

  function Tight(d: Doc): Layout
    decreases d, 0
  {
    Layout("", "", seq(|d.keys|, k => Gaps("", "", "", "")), seq(|d.items|, k requires 0 <= k < |d.items| => Tight(d.items[k])), "")
  }

  lemma {:induction false} TightIs(d: Doc)
    requires Printable(d)
    ensures Fits(d, Tight(d)) && Core(d, Tight(d)) == ToString(d)
    ensures Tight(d).before == "" && Tight(d).after == ""
    decreases d, 1
  {
    var l := Tight(d);
    if d.items == [] {
      PrintableObject(d);
      hide Member, PrintableValue, PlainKey;
      TightMembers(d.keys, d.data, l.members);
    } else {
      TightElements(d.items, l.elements);
    }
  }

  lemma {:induction false} TightMembers(keys: seq<string>, data: map<string, string>, gaps: seq<Gaps>)
    requires |gaps| == |keys| && forall k :: 0 <= k < |keys| ==> keys[k] in data && gaps[k] == Gaps("", "", "", "")
    ensures MembersLaid(keys, data, gaps) == Members(keys, data, true)
  {
    if keys != [] {
      hide Members, MemberLaid, Member;
      TightMember(keys[0], data[keys[0]]);
      MembersPrinted(keys, data);
      if |keys| > 1 {
        TightMembers(keys[1..], data, gaps[1..]);
      }
    }
  }

  lemma MembersPrinted(keys: seq<string>, data: map<string, string>)
    requires keys != [] && forall k :: 0 <= k < |keys| ==> keys[k] in data
    ensures Members(keys, data, true)
         == if |keys| == 1 then Member(keys[0], data[keys[0]])
            else Member(keys[0], data[keys[0]]) + "," + Members(keys[1..], data, true)
  {
    FirstPrinted(keys, data);
    hide Member, Members;
    if |keys| > 1 {
      MembersComma(keys[1..], data);
    } else {
      NonePrinted(keys[1..], data);
    }
  }

  lemma FirstPrinted(keys: seq<string>, data: map<string, string>)
    requires keys != [] && keys[0] in data
    ensures Members(keys, data, true) == Member(keys[0], data[keys[0]]) + Members(keys[1..], data, false)
  {
    hide Member;
  }

  lemma NonePrinted(keys: seq<string>, data: map<string, string>)
    requires keys == []
    ensures Members(keys, data, false) == ""
  {
  }

  lemma TightMember(key: string, value: string)
    ensures MemberLaid(key, value, Gaps("", "", "", "")) == Member(key, value)
  {
    hide ValueText;
  }

  lemma {:induction false} TightElements(items: seq<Doc>, ls: seq<Layout>)
    requires |ls| == |items| && forall k :: 0 <= k < |items| ==> Printable(items[k]) && ls[k] == Tight(items[k])
    ensures forall k :: 0 <= k < |items| ==> Fits(items[k], ls[k])
    ensures ElementsLaid(items, ls) == ItemsText(items, true)
    decreases items, 0
  {
    if items != [] {
      hide *;
      TightIs(items[0]);
      TightElements(items[1..], ls[1..]);
      assert forall k :: 0 < k < |items| ==> items[k] == items[1..][k - 1] && ls[k] == ls[1..][k - 1];
      ElementsParts(items, ls);
      NothingAround(ls[0], Core(items[0], ls[0]));
      ItemsParts(items);
    }
  }

  lemma NothingAround(l: Layout, v: string)
    requires l.before == "" && l.after == ""
    ensures l.before + v + l.after == v
  {
  }

  lemma ItemsParts(items: seq<Doc>)
    requires items != []
    ensures ItemsText(items, true)
         == if |items| == 1 then ToString(items[0]) else ToString(items[0]) + "," + ItemsText(items[1..], true)
  {
    hide ToString;
    if |items| > 1 {
      ItemsComma(items[1..]);
    } else {
      assert ItemsText(items[1..], false) == "";
    }
  }

  // ----- nested documents -----------------------------------------------------------------------

  /** A child stored in any layout: the document stays printable, any layout of it is read as it, and getObject gives the
      child. */
  lemma ChildLayoutBack(d: Doc, key: string, child: Doc, l: Layout, s: string)
    requires Printable(d) && d.items == [] && PlainKey(key) && Printable(child) && Fits(child, l)
    requires IsLayout(s, Store(d, key, Core(child, l)))
    ensures var stored := Store(d, key, Core(child, l));
            Printable(stored) && Parse(s) == Finished(stored) && GetObject(stored, key) == Finished(child)
  {
    CoreBalanced(child, l);
    BalancedPrintable(Core(child, l));
    ElementFacts(child, l);
    hide Printable, PrintableValue, PlainKey, IsLayout, Parse, Balanced, Fits, Core;
    StorePrintable(d, key, Core(child, l));
    LayoutReadBack(s, Store(d, key, Core(child, l)));
  }

  function Cores(items: seq<Doc>, ls: seq<Layout>): seq<string>
    requires |ls| == |items| && forall k :: 0 <= k < |items| ==> Fits(items[k], ls[k])
  {
    if items == [] then [] else [Core(items[0], ls[0])] + Cores(items[1..], ls[1..])
  }

  lemma {:induction false} SplitBlanks(w: string, tail: string, current: string)
    requires Blanks(w)
    ensures Split(w + tail, current, false, false, 0, 0) == Split(tail, current + w, false, false, 0, 0)
  {
    if w == "" {
      assert w + tail == tail && current + w == current;
    } else {
      assert Blank(w[0]);
      assert (w + tail)[1..] == w[1..] + tail;
      SplitBlanks(w[1..], tail, current + [w[0]]);
      assert current + [w[0]] + w[1..] == current + w;
    }
  }

  lemma {:induction false} TrimEndBlanks(s: string, w: string)
    requires Blanks(w) && s != "" && !Blank(s[|s| - 1])
    ensures TrimEnd(s + w) == s
  {
    if w == "" {
      assert s + w == s;
    } else {
      var v := s + w;
      assert v[|v| - 1] == w[|w| - 1] && v[..|v| - 1] == s + w[..|w| - 1];
      assert Blank(w[|w| - 1]);
      TrimEndBlanks(s, w[..|w| - 1]);
    }
  }

  lemma KeepsCore(before: string, v: string, after: string)
    requires Blanks(before) && Balanced(v) && Blanks(after)
    ensures Keep(before + v + after) == [v]
  {
    BalancedEnds(v);
    assert !Blank(v[0]) && !Blank(v[|v| - 1]);
    assert before + v + after == before + (v + after) && (v + after)[0] == v[0];
    hide Balanced, Blanks, Blank;
    TokenStays(before, v + after);
    TrimEndBlanks(v, after);
  }

  /** One element of the split, up to the separator that follows it. */
  lemma SplitLaid(before: string, v: string, after: string, tail: string)
    requires Blanks(before) && Balanced(v) && Blanks(after)
    ensures Split(before + v + after + tail, "", false, false, 0, 0) == Split(tail, before + v + after, false, false, 0, 0)
  {
    hide *;
    assert before + v + after + tail == before + (v + (after + tail));
    SplitBlanks(before, v + (after + tail), "");
    assert "" + before == before;
    SplitElement(v, after + tail, before);
    SplitBlanks(after, tail, before + v);
  }

  lemma {:induction false} SplitReadsLaid(items: seq<Doc>, ls: seq<Layout>)
    requires items != [] && |ls| == |items| && forall k :: 0 <= k < |items| ==> Printable(items[k]) && Fits(items[k], ls[k])
    ensures Split(ElementsLaid(items, ls) + "]", "", false, false, 0, 0) == Cores(items, ls)
    decreases |items|
  {
    ElementFacts(items[0], ls[0]);
    ElementsParts(items, ls);
    ElementsFit(items, ls);
    CoresParts(items, ls);
    hide *;
    var l, v := ls[0], Core(items[0], ls[0]);
    var one := l.before + v + l.after;
    KeepsCore(l.before, v, l.after);
    if |items| == 1 {
      SplitLaid(l.before, v, l.after, "]");
      SplitEnds(one);
    } else {
      var more := ElementsLaid(items[1..], ls[1..]);
      SplitLaid(l.before, v, l.after, "," + (more + "]"));
      CommaMoves(one, more, "]");
      SplitGoesOn(one, more + "]");
      SplitReadsLaid(items[1..], ls[1..]);
    }
  }

  lemma CoresParts(items: seq<Doc>, ls: seq<Layout>)
    requires items != [] && |ls| == |items| && forall k :: 0 <= k < |items| ==> Fits(items[k], ls[k])
    ensures Cores(items, ls)
         == if |items| == 1 then [Core(items[0], ls[0])] else [Core(items[0], ls[0])] + Cores(items[1..], ls[1..])
  {
    hide Fits, Core;
  }

  lemma SplitEnds(current: string)
    ensures Split("]", current, false, false, 0, 0) == Keep(current)
  {
  }

  lemma SplitGoesOn(current: string, tail: string)
    ensures Split("," + tail, current, false, false, 0, 0) == Keep(current) + Split(tail, "", false, false, 0, 0)
  {
    assert ("," + tail)[1..] == tail;
  }

  lemma {:induction false} CoresParse(items: seq<Doc>, ls: seq<Layout>)
    requires |ls| == |items| && forall k :: 0 <= k < |items| ==> Printable(items[k]) && Fits(items[k], ls[k])
    ensures ParseAll(Cores(items, ls)) == Finished(items)
    decreases |items|
  {
    if items == [] {
      NothingParses(items, ls);
    } else {
      hide *;
      ElementFacts(items[0], ls[0]);
      ElementsFit(items, ls);
      CoresParse(items[1..], ls[1..]);
      FirstParses(Core(items[0], ls[0]), items[0], Cores(items[1..], ls[1..]), items[1..]);
      CoresStart(items, ls);
      assert [items[0]] + items[1..] == items;
    }
  }

  lemma NothingParses(items: seq<Doc>, ls: seq<Layout>)
    requires items == [] && ls == []
    ensures ParseAll(Cores(items, ls)) == Finished(items)
  {
  }

  lemma CoresStart(items: seq<Doc>, ls: seq<Layout>)
    requires items != [] && |ls| == |items| && forall k :: 0 <= k < |items| ==> Fits(items[k], ls[k])
    ensures Cores(items, ls) == [Core(items[0], ls[0])] + Cores(items[1..], ls[1..])
  {
    hide Fits, Core;
  }

  lemma FirstParses(text: string, d: Doc, texts: seq<string>, items: seq<Doc>)
    requires Parse(text) == Finished(d) && ParseAll(texts) == Finished(items)
    ensures ParseAll([text] + texts) == Finished([d] + items)
  {
    hide Parse;
    assert ([text] + texts)[1..] == texts;
  }

  /** An array of printable documents, each in any layout. */
  function ArrayLaid(items: seq<Doc>, ls: seq<Layout>, inside: string): string
    requires |ls| == |items| && forall k :: 0 <= k < |items| ==> Fits(items[k], ls[k])
  {
    "[" + (if items == [] then inside else ElementsLaid(items, ls)) + "]"
  }

  /** Children stored in any layout: getArrayOfJSON gives them back from any layout of the document. */
  lemma ChildrenLayoutBack(d: Doc, key: string, children: seq<Doc>, ls: seq<Layout>, inside: string, s: string)
    requires Printable(d) && d.items == [] && PlainKey(key) && Blanks(inside) && |ls| == |children|
    requires forall k :: 0 <= k < |children| ==> Printable(children[k]) && Fits(children[k], ls[k])
    requires IsLayout(s, Store(d, key, ArrayLaid(children, ls, inside)))
    ensures var stored := Store(d, key, ArrayLaid(children, ls, inside));
            Printable(stored) && Parse(s) == Finished(stored) && GetArrayOfJSON(stored, key) == Finished(children)
  {
    var text := ArrayLaid(children, ls, inside);
    ArrayLaidReads(children, ls, inside);
    CoresParse(children, ls);
    BalancedPrintable(text);
    hide *;
    StorePrintable(d, key, text);
    LayoutReadBack(s, Store(d, key, text));
    StoredArray(d, key, text, Cores(children, ls), children);
  }

  lemma StoredArray(d: Doc, key: string, text: string, texts: seq<string>, children: seq<Doc>)
    requires SplitArray(text) == texts && ParseAll(texts) == Finished(children)
    ensures GetArrayOfJSON(Store(d, key, text), key) == Finished(children)
  {
    hide SplitArray, ParseAll;
  }

  lemma ArrayLaidReads(children: seq<Doc>, ls: seq<Layout>, inside: string)
    requires Blanks(inside) && |ls| == |children|
    requires forall k :: 0 <= k < |children| ==> Printable(children[k]) && Fits(children[k], ls[k])
    ensures Balanced(ArrayLaid(children, ls, inside))
    ensures SplitArray(ArrayLaid(children, ls, inside)) == Cores(children, ls)
  {
    var text := ArrayLaid(children, ls, inside);
    hide Neutral, Balanced, Printable, Fits, Core;
    ElementsNeutral(children, ls);
    BlanksNeutral(inside);
    Enclosed(if children == [] then inside else ElementsLaid(children, ls), '[', ']');
    if children == [] {
      assert text[1..] == inside + "]";
      SplitBlanks(inside, "]", "");
      assert "" + inside == inside;
      SplitEnds(inside);
      OnlyBlanks(inside);
    } else {
      SplitReadsLaid(children, ls);
      assert text[1..] == ElementsLaid(children, ls) + "]";
    }
  }

  // ----- what is not passed over ----------------------------------------------------------------

  /** A text that does not start with a bracket after its white space is refused. */
  lemma OtherStart(w: string, c: char, s: string)
    requires Blanks(w) && c != ' ' && c != '\t' && c != '\n' && c != '\r' && c != '{' && c != '['
    ensures Parse(w + ([c] + s)) == Finished(Doc([], map[], [], "expected JSON object or array"))
  {
    TokenStays(w, [c] + s);
  }

  /** A document followed by anything but white space is read with an error. */
  lemma OtherEnd(d: Doc, l: Layout, w: string, c: char, s: string)
    requires Printable(d) && Fits(d, l) && Blanks(w) && c != ' ' && c != '\t' && c != '\n' && c != '\r'
    ensures Parse(l.before + (Core(d, l) + (w + ([c] + s)))) == Finished(d.(error := "trailing data after JSON value"))
  {
    assert Blanks(l.before);
    hide Printable, Fits, Core, Parse;
    ParseSkips(l.before, Core(d, l) + (w + ([c] + s)));
    CoreReads(d, l, w + ([c] + s));
    TokenStays(w, [c] + s);
  }

  /** Anything but white space, a quote or a closing brace where a key should stand ends the object with an error. */
  lemma OtherKey(w: string, c: char, s: string, keys: seq<string>, data: map<string, string>)
    requires Blanks(w) && c != ' ' && c != '\t' && c != '\n' && c != '\r' && c != '"' && c != '}'
    ensures Fields(w + ([c] + s), keys, data) == FieldsRead(keys, data, [c] + s, "expected object key")
  {
    TokenStays(w, [c] + s);
    TokenStays("", [c] + s);
    assert "" + ([c] + s) == [c] + s;
  }

  /** Anything but white space or a colon after a key ends the object with an error. */
  lemma OtherColon(before: string, key: string, w: string, c: char, s: string, keys: seq<string>,
                   data: map<string, string>)
    requires Blanks(before) && PlainKey(key) && Blanks(w)
    requires c != ' ' && c != '\t' && c != '\n' && c != '\r' && c != ':'
    ensures Fields(before + ("\"" + (key + ("\"" + (w + ([c] + s))))), keys, data)
         == FieldsRead(keys + [key], data, [c] + s, "expected ':' after object key")
  {
    var atKey := "\"" + (key + ("\"" + (w + ([c] + s))));
    assert key != "";
    TokenStays(w, [c] + s);
    TokenStays(before, atKey);
    KeyToken(key, w + ([c] + s));
    hide ReadString, PlainKey, SkipWs;
  }
}
