/**
 Exactly which objects come back when their printed text is parsed (src/parser/JSONParser.cpp:342-417 and 1030-1088).
 */
module JsonExactly {
  import opened Chars
  import opened JsonText
  import opened JsonRoundTrip

  /** An object as the setters build it: each key once, with its value, and nothing else. */
  ghost predicate Built(d: Doc)
  {
    && d.error == "" && d.items == []
    && (forall j, k :: 0 <= j < k < |d.keys| ==> d.keys[j] != d.keys[k])
    && (forall key :: key in d.keys <==> key in d.data)
  }

  /** A value that is read back unchanged. */
  predicate Survives(v: string)
  {
    if v != "" && (v[0] == '{' || v[0] == '[') then ClosesLast(v, Start, v[0])
    else NoControls(v) && !(IsNumberLiteral(v) && HasExponent(v))
  }

  predicate MemberSurvives(key: string, value: string) { PlainKey(key) && Survives(value) }

  ghost predicate AllSurvive(d: Doc)
    requires Built(d)
  {
    forall k :: 0 <= k < |d.keys| ==> d.keys[k] in d.data && MemberSurvives(d.keys[k], d.data[d.keys[k]])
  }

  // ----- a member that does not survive ---------------------------------------------------------

  predicate Slashes(s: string) { s != "" && forall k :: 0 <= k < |s| ==> s[k] == '\\' }

  /** After a backslash was dropped the text read can never catch up. */
  lemma {:induction false} NeverCatchesUp(slashes: string, b: string, tail: string)
    requires Slashes(slashes)
    ensures Quoted(b + ("\"" + tail)).0 != slashes + b
    decreases |b|
  {
    var s := b + ("\"" + tail);
    assert (slashes + b)[0] == '\\' && s[0] == if b == "" then '"' else b[0];
    if b != "" && b[0] == '\\' {
      if |b| >= 2 && b[1] == '\\' {
        var more := slashes[1..] + ['\\', '\\'];
        assert s[2..] == b[2..] + ("\"" + tail);
        NeverCatchesUp(more, b[2..], tail);
        assert slashes + b == [slashes[0]] + (more + b[2..]);
        assert ([s[1]] + Quoted(s[2..]).0)[1..] == Quoted(s[2..]).0;
      } else {
        assert |s| >= 2 && s[1] == if |b| >= 2 then b[1] else '"';
        assert Quoted(s).0[0] == s[1];
      }
    }
  }

  /** A key with a quote or backslash is read as another key. */
  lemma {:induction false} KeyDiffers(key: string, tail: string)
    requires exists k :: 0 <= k < |key| && (key[k] == '"' || key[k] == '\\')
    ensures Quoted(key + ("\"" + tail)).0 != key
    decreases |key|
  {
    var s := key + ("\"" + tail);
    if key[0] == '\\' {
      assert s[1] == if |key| >= 2 then key[1] else '"';
      if |key| >= 2 && key[1] == '\\' {
        assert s[2..] == key[2..] + ("\"" + tail);
        NeverCatchesUp("\\", key[2..], tail);
        assert key == ['\\'] + ("\\" + key[2..]);
        assert ([s[1]] + Quoted(s[2..]).0)[1..] == Quoted(s[2..]).0;
      }
    } else if key[0] != '"' {
      var k :| 0 <= k < |key| && (key[k] == '"' || key[k] == '\\');
      assert key[1..][k - 1] == key[k];
      assert s[1..] == key[1..] + ("\"" + tail);
      KeyDiffers(key[1..], tail);
      assert ([key[0]] + Quoted(s[1..]).0)[1..] == Quoted(s[1..]).0;
    }
  }

  lemma LiteralDiffers(v: string, tail: string)
    requires ValueEnds(tail) && IsNumberLiteral(v) && !Survives(v)
    ensures ReadData(ValueText(v) + tail).0 != v
  {
    LiteralStarts(v);
    hide IsNumberLiteral, DigitsAndDots, HasExponent, ReadNumber;
    assert (v + tail)[0] == v[0];
    NumberDispatch(v + tail);
    NumberHasNoExponent(v + tail);
    if !HasExponent(v) {
      LiteralIsPlain(v);
    }
  }

  lemma LiteralIsPlain(v: string)
    requires IsNumberLiteral(v) && !HasExponent(v)
    ensures NoControls(v)
  {
    LiteralShape(v);
    SignedDigitsPlain(v);
    hide IsNumberLiteral, HasExponent;
  }

  lemma TextDiffers(v: string, tail: string)
    requires v == "" || (v[0] != '{' && v[0] != '[')
    requires v != "true" && v != "false" && v != "null" && !IsNumberLiteral(v) && !Survives(v)
    ensures ReadData(ValueText(v) + tail).0 != v
  {
    hide IsNumberLiteral, Quoted, EscapeJson, Reread;
    QuotedRereads(v, tail);
    var text := "\"" + (EscapeJson(v) + ("\"" + tail));
    assert ValueText(v) + tail == text;
    assert text[1..] == EscapeJson(v) + ("\"" + tail);
  }

  lemma NamesSurvive(v: string)
    requires v == "true" || v == "false" || v == "null"
    ensures Survives(v)
  {
    if IsNumberLiteral(v) {
      LiteralStarts(v);
    }
  }

  lemma NestedDiffers(v: string, tail: string)
    requires ValueEnds(tail) && v != "" && (v[0] == '{' || v[0] == '[') && !Survives(v)
    ensures ReadData(ValueText(v) + tail).0 != v
  {
    ValueSurvives(v, tail);
    NestedDispatch(v, tail);
    hide ReadData, ValueText, Nested, ClosesLast;
    var r := Nested(v + tail, v[0], if v[0] == '{' then '}' else ']', 0, false, false);
    SameStart(r.0, r.1, v, tail);
  }

  /** A value that does not survive is read as another value. */
  lemma ValueDiffers(v: string, tail: string)
    requires ValueEnds(tail) && !Survives(v)
    ensures ReadData(ValueText(v) + tail).0 != v
  {
    hide *;
    if v != "" && (v[0] == '{' || v[0] == '[') {
      NestedDiffers(v, tail);
    } else if v == "true" || v == "false" || v == "null" {
      NamesSurvive(v);
    } else if IsNumberLiteral(v) {
      LiteralDiffers(v, tail);
    } else {
      TextDiffers(v, tail);
    }
  }

  lemma SameStart(a: string, b: string, v: string, tail: string)
    requires a + b == v + tail
    ensures a == v ==> b == tail
  {
    assert (a + b)[|a|..] == b && (v + tail)[|v|..] == tail;
  }

  // ----- what reading on keeps ------------------------------------------------------------------

  /** Keys are only added, and a value only changes when its key is read again. */
  ghost predicate Extends(keys: seq<string>, data: map<string, string>, r: FieldsRead)
  {
    && keys <= r.keys
    && forall key :: key in data && key !in r.keys[|keys|..] ==> key in r.data && r.data[key] == data[key]
  }

  lemma ExtendsFurther(keys: seq<string>, data: map<string, string>, key: string, value: string, r: FieldsRead)
    requires Extends(keys + [key], data[key := value], r)
    ensures Extends(keys, data, r)
  {
    assert r.keys[|keys|] == key;
    assert r.keys[|keys|..] == [key] + r.keys[|keys| + 1..];
  }

  lemma {:induction false} FieldsExtend(s: string, keys: seq<string>, data: map<string, string>)
    ensures Extends(keys, data, Fields(s, keys, data))
    decreases |s|, 1
  {
    hide ReadString, ReadData, Extends;
    var r := Fields(s, keys, data);
    var t := SkipWs(s);
    var (key, afterKey) := ReadString(t);
    if s == "" || Starts(t, '}') || key == "" {
      ExtendsItself(keys, data, r);
    } else if Starts(SkipWs(afterKey), ':') {
      MemberExtends(s, keys, data);
      ExtendsFurther(keys, data, key, ReadData(SkipWs(afterKey)[1..]).0, r);
    } else {
      OneKeyMore(keys, data, key, r);
    }
  }

  lemma {:induction false} MemberExtends(s: string, keys: seq<string>, data: map<string, string>)
    requires s != "" && !Starts(SkipWs(s), '}')
    requires var (key, afterKey) := ReadString(SkipWs(s)); key != "" && Starts(SkipWs(afterKey), ':')
    ensures var (key, afterKey) := ReadString(SkipWs(s));
            Extends(keys + [key], data[key := ReadData(SkipWs(afterKey)[1..]).0], Fields(s, keys, data))
    decreases |s|, 0
  {
    hide ReadString, ReadData, Extends;
    var (key, afterKey) := ReadString(SkipWs(s));
    var (value, afterValue) := ReadData(SkipWs(afterKey)[1..]);
    var v := SkipWs(afterValue);
    var more := data[key := value];
    if Starts(v, ',') {
      FieldsExtend(v[1..], keys + [key], more);
    } else if Starts(v, '}') {
      ExtendsItself(keys + [key], more, Fields(s, keys, data));
    } else {
      FieldsExtend(v, keys + [key], more);
    }
  }

  lemma ExtendsItself(keys: seq<string>, data: map<string, string>, r: FieldsRead)
    requires r.keys == keys && r.data == data
    ensures Extends(keys, data, r)
  {
  }

  lemma OneKeyMore(keys: seq<string>, data: map<string, string>, key: string, r: FieldsRead)
    requires r.keys == keys + [key] && r.data == data
    ensures Extends(keys, data, r)
  {
  }

  // ----- one member -----------------------------------------------------------------------------

  /** The member at position n of what was read is not this one. */
  ghost predicate Differs(r: FieldsRead, n: nat, key: string, value: string)
  {
    || r.error != "" || |r.keys| <= n || r.keys[n] != key
    || (key !in r.keys[n + 1..] ==> key in r.data && r.data[key] != value)
  }

  /** What reading a member does, whatever its key and value are. */
  lemma MemberStart(key: string, value: string, tail: string, keys: seq<string>, data: map<string, string>)
    ensures var s := Member(key, value) + tail;
            var afterKey := ":" + (ValueText(value) + tail);
            var (k, rest) := Quoted(key + ("\"" + afterKey));
            && s != "" && SkipWs(s) == s && !Starts(s, '}') && ReadString(s) == (k, rest)
            && afterKey[1..] == ValueText(value) + tail && SkipWs(afterKey) == afterKey && Starts(afterKey, ':')
  {
    hide Quoted, ValueText;
    var s := Member(key, value) + tail;
    var afterKey := ":" + (ValueText(value) + tail);
    assert s == "\"" + (key + ("\"" + afterKey));
    assert s[1..] == key + ("\"" + afterKey);
  }

  /** Reading goes on with this key, or ends with an error. */
  lemma ReadsKey(s: string, keys: seq<string>, data: map<string, string>)
    requires s != "" && SkipWs(s) == s && !Starts(s, '}')
    ensures var r := Fields(s, keys, data);
            var (k, afterKey) := ReadString(s);
            var u := SkipWs(afterKey);
            && (k == "" ==> r.error != "")
            && (k != "" && !Starts(u, ':') ==> r.error != "")
            && (k != "" && Starts(u, ':') ==> Extends(keys + [k], data[k := ReadData(u[1..]).0], r))
  {
    hide ReadString, ReadData, Extends;
    var (k, afterKey) := ReadString(s);
    if k != "" && Starts(SkipWs(afterKey), ':') {
      MemberExtends(s, keys, data);
    }
  }

  lemma BadMember(key: string, value: string, tail: string, keys: seq<string>, data: map<string, string>)
    requires !MemberSurvives(key, value) && ValueEnds(tail)
    ensures Differs(Fields(Member(key, value) + tail, keys, data), |keys|, key, value)
  {
    var s := Member(key, value) + tail;
    var afterKey := ":" + (ValueText(value) + tail);
    MemberStart(key, value, tail, keys, data);
    if PlainKey(key) {
      KeyReads(key, afterKey);
      ValueDiffers(value, tail);
    } else if key != "" {
      KeyDiffers(key, afterKey);
    } else {
      KeyReads(key, afterKey);
    }
    hide Fields, Member, Quoted, ReadString, ReadData, ValueText, SkipWs, Survives, PlainKey;
    ReadsKey(s, keys, data);
  }

  // ----- whole objects --------------------------------------------------------------------------

  /** What was read are these members, after `before`. */
  ghost predicate SameMembers(r: FieldsRead, before: seq<string>, keys: seq<string>, data: map<string, string>)
    requires forall k :: 0 <= k < |keys| ==> keys[k] in data
  {
    && r.error == "" && r.keys == before + keys
    && forall k :: 0 <= k < |keys| ==> keys[k] in r.data && r.data[keys[k]] == data[keys[k]]
  }

  /** If one of the members does not survive, what is read are other members. */
  lemma {:induction false} OtherMembers(before: seq<string>, keys: seq<string>, data: map<string, string>,
                                        acc: map<string, string>)
    requires forall k :: 0 <= k < |keys| ==> keys[k] in data
    requires forall j, k :: 0 <= j < k < |keys| ==> keys[j] != keys[k]
    requires exists k :: 0 <= k < |keys| && !MemberSurvives(keys[k], data[keys[k]])
    ensures !SameMembers(Fields(Members(keys, data, true) + ("}" + ""), before, acc), before, keys, data)
    decreases |keys|
  {
    hide Fields, Member, MemberSurvives;
    var key, value := keys[0], data[keys[0]];
    var rest := Members(keys[1..], data, false) + ("}" + "");
    var r := Fields(Members(keys, data, true) + ("}" + ""), before, acc);
    assert Members(keys, data, true) + ("}" + "") == Member(key, value) + rest;
    if |keys| > 1 {
      MembersComma(keys[1..], data);
      assert rest == "," + (Members(keys[1..], data, true) + ("}" + ""));
    } else {
      assert Members(keys[1..], data, false) == "" && rest == "}";
    }
    assert ValueEnds(rest);
    if !MemberSurvives(key, value) {
      BadMember(key, value, rest, before, acc);
      DiffersNotSame(r, before, keys, data);
    } else {
      var k :| 0 <= k < |keys| && !MemberSurvives(keys[k], data[keys[k]]);
      assert keys[1..][k - 1] == keys[k];
      MemberReadsOn(key, value, rest, before, acc);
      assert rest[1..] == Members(keys[1..], data, true) + ("}" + "");
      SameLater(r, before, keys, data);
      OtherMembers(before + [key], keys[1..], data, acc[key := value]);
    }
  }

  lemma DiffersNotSame(r: FieldsRead, before: seq<string>, keys: seq<string>, data: map<string, string>)
    requires keys != [] && forall k :: 0 <= k < |keys| ==> keys[k] in data
    requires forall j, k :: 0 <= j < k < |keys| ==> keys[j] != keys[k]
    requires Differs(r, |before|, keys[0], data[keys[0]])
    ensures !SameMembers(r, before, keys, data)
  {
    if r.keys == before + keys {
      assert r.keys[|before|] == keys[0] && r.keys[|before| + 1..] == keys[1..];
    }
  }

  lemma SameLater(r: FieldsRead, before: seq<string>, keys: seq<string>, data: map<string, string>)
    requires keys != [] && forall k :: 0 <= k < |keys| ==> keys[k] in data
    ensures SameMembers(r, before, keys, data) ==> SameMembers(r, before + [keys[0]], keys[1..], data)
  {
    assert before + [keys[0]] + keys[1..] == before + keys;
    assert forall j :: 0 <= j < |keys[1..]| ==> keys[1..][j] == keys[j + 1];
  }

  lemma MemberReadsOn(key: string, value: string, rest: string, before: seq<string>, acc: map<string, string>)
    requires MemberSurvives(key, value) && ValueEnds(rest)
    ensures var r := Fields(Member(key, value) + rest, before, acc);
            && (rest[0] == ',' ==> r == Fields(rest[1..], before + [key], acc[key := value]))
            && (rest[0] == '}' ==> r == FieldsRead(before + [key], acc[key := value], rest[1..], ""))
  {
    ValueSurvives(value, rest);
    hide Fields, Member, ReadData, ValueText, PlainKey, ClosesLast, IsNumberLiteral;
    FieldStep(key, value, rest, before, acc);
  }

  lemma RestrictStep(acc: map<string, string>, data: map<string, string>, keys: seq<string>)
    requires keys != [] && keys[0] in data
    ensures acc[keys[0] := data[keys[0]]] + Restrict(data, keys[1..]) == acc + Restrict(data, keys)
  {
    assert keys == [keys[0]] + keys[1..];
    assert forall k :: k in keys <==> k == keys[0] || k in keys[1..];
  }

  /** If all survive, exactly these members are read. */
  lemma {:induction false} TheseMembers(before: seq<string>, keys: seq<string>, data: map<string, string>,
                                        acc: map<string, string>)
    requires keys != [] && forall k :: 0 <= k < |keys| ==> keys[k] in data && MemberSurvives(keys[k], data[keys[k]])
    ensures Fields(Members(keys, data, true) + ("}" + ""), before, acc)
         == FieldsRead(before + keys, acc + Restrict(data, keys), "", "")
    decreases |keys|
  {
    hide Fields, Member, MemberSurvives, Restrict;
    var key, value := keys[0], data[keys[0]];
    var rest := Members(keys[1..], data, false) + ("}" + "");
    assert Members(keys, data, true) + ("}" + "") == Member(key, value) + rest;
    RestrictStep(acc, data, keys);
    if |keys| > 1 {
      MembersComma(keys[1..], data);
      assert rest == "," + (Members(keys[1..], data, true) + ("}" + ""));
      assert rest[1..] == Members(keys[1..], data, true) + ("}" + "");
      MemberReadsOn(key, value, rest, before, acc);
      TheseMembers(before + [key], keys[1..], data, acc[key := value]);
      assert before + [key] + keys[1..] == before + keys;
    } else {
      assert keys[1..] == [] && keys == [key];
      assert Members(keys[1..], data, false) == "" && rest == "}" && rest[1..] == "";
      NoneRestrict(acc[key := value], data);
      MemberReadsOn(key, value, rest, before, acc);
    }
  }

  lemma NoneRestrict(acc: map<string, string>, data: map<string, string>)
    ensures acc + Restrict(data, []) == acc
  {
  }

  lemma ObjectText(d: Doc)
    requires Built(d)
    ensures ToString(d) == "{" + (Members(d.keys, d.data, true) + ("}" + ""))
    ensures d == Doc(d.keys, d.data, [], "") && Restrict(d.data, d.keys) == d.data && (d.keys == [] ==> d.data == map[])
  {
    hide Member, Members;
    assert ToString(d) == "{" + (Members(d.keys, d.data, true) + ("}" + ""));
  }

  lemma ParsesFields(inside: string)
    ensures var r := Fields(inside, [], map[]);
            Parse("{" + inside)
            == Finished(Doc(r.keys, r.data, [], if r.error != "" then r.error else Finish(r.rest)))
  {
    hide Fields;
    var s := "{" + inside;
    assert s[1..] == inside && SkipWs(s) == s;
  }

  lemma BackIfAll(d: Doc)
    requires Built(d) && AllSurvive(d)
    ensures Parse(ToString(d)) == Finished(d)
  {
    ObjectText(d);
    var inside := Members(d.keys, d.data, true) + ("}" + "");
    hide *;
    if d.keys == [] {
      EmptyObject(d);
    } else {
      SurviveAt(d);
      TheseMembers([], d.keys, d.data, map[]);
      NothingBefore(d.keys, d.data);
      ObjectParse(inside, d);
    }
  }

  lemma NothingBefore(keys: seq<string>, data: map<string, string>)
    ensures [] + keys == keys && map[] + data == data
  {
  }

  lemma SurviveAt(d: Doc)
    requires Built(d) && AllSurvive(d)
    ensures forall k :: 0 <= k < |d.keys| ==> d.keys[k] in d.data && MemberSurvives(d.keys[k], d.data[d.keys[k]])
  {
  }

  lemma NotBackIfOne(d: Doc)
    requires Built(d) && !AllSurvive(d)
    ensures Parse(ToString(d)) != Finished(d)
  {
    ObjectText(d);
    var inside := Members(d.keys, d.data, true) + ("}" + "");
    BuiltParts(d);
    hide *;
    OtherMembers([], d.keys, d.data, map[]);
    if Parse(ToString(d)) == Finished(d) {
      ParsesFields(inside);
      BackIsSame(d, Fields(inside, [], map[]));
    }
  }

  lemma BuiltParts(d: Doc)
    requires Built(d)
    ensures forall k :: 0 <= k < |d.keys| ==> d.keys[k] in d.data
    ensures forall j, k :: 0 <= j < k < |d.keys| ==> d.keys[j] != d.keys[k]
    ensures !AllSurvive(d) ==> exists k :: 0 <= k < |d.keys| && !MemberSurvives(d.keys[k], d.data[d.keys[k]])
  {
    hide MemberSurvives;
  }

  lemma BackIsSame(d: Doc, r: FieldsRead)
    requires Built(d) && d == Doc(r.keys, r.data, [], if r.error != "" then r.error else Finish(r.rest))
    ensures (forall k :: 0 <= k < |d.keys| ==> d.keys[k] in d.data) && SameMembers(r, [], d.keys, d.data)
  {
    assert [] + d.keys == d.keys;
  }

  /** An object comes back from its own text exactly when every key and every value survives. */
  lemma ObjectReadBackExactly(d: Doc)
    requires Built(d)
    ensures Parse(ToString(d)) == Finished(d) <==> AllSurvive(d)
  {
    hide *;
    if AllSurvive(d) {
      BackIfAll(d);
    } else {
      NotBackIfOne(d);
    }
  }
}
