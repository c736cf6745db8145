/**
 Strings and numbers rewritten as other literals (src/builders/JSObfuscator.cpp:1082-1202): the output means what
 the input meant. The input of the string encoder is UTF-8 (section 3 of RFC 3629); the output is read as an
 ECMAScript string literal (section 12.9.4 of ECMA-262), whose value is a sequence of UTF-16 code units.
 */
module StringLiteral {
  import opened Chars
  import opened Numbers

  // ----- hexadecimal ----------------------------------------------------------------------------

  function Hex2(n: nat): string
    requires n < 0x100
  {
    [HexChar(n / 16), HexChar(n % 16)]
  }

  function Hex4(n: nat): string
    requires n < 0x1_0000
  {
    Hex2(n / 256) + Hex2(n % 256)
  }

  // ----- the encoder ----------------------------------------------------------------------------

  /** Bytes that are copied. */
  predicate IsPlain(b: byte)
  {
    || '0' as int <= b <= '9' as int || 'A' as int <= b <= 'Z' as int || 'a' as int <= b <= 'z' as int
    || b == ' ' as int || b == '/' as int || b == '.' as int || b == '-' as int || b == '_' as int || b == '~' as int
  }

  /** First bits of a code point, and how many bytes follow. */
  datatype Lead = Lead(bits: nat, extra: nat)

  function LeadOf(b: byte): Option<Lead>
  {
    if 0xC0 <= b < 0xE0 then Some(Lead(b % 32, 1))
    else if 0xE0 <= b < 0xF0 then Some(Lead(b % 16, 2))
    else if 0xF0 <= b < 0xF8 then Some(Lead(b % 8, 3))
    else None
  }

  predicate IsContinuation(b: byte) { 0x80 <= b < 0xC0 }

  datatype Point = Point(code: nat, used: nat)

  /** Up to `extra` continuation bytes are taken. */
  function Continued(s: seq<byte>, extra: nat, code: nat): (r: Point)
    ensures r.used <= extra && r.used <= |s|
  {
    if extra == 0 || s == [] || !IsContinuation(s[0]) then Point(code, 0)
    else
      var r := Continued(s[1..], extra - 1, code * 64 + s[0] % 64);
      Point(r.code, r.used + 1)
  }

  lemma {:induction false} ContinuedBound(s: seq<byte>, extra: nat, code: nat, bound: nat)
    requires code < bound && extra <= 3
    ensures Continued(s, extra, code).code < bound * (if extra == 0 then 1 else if extra == 1 then 64 else if extra == 2 then 4096 else 262144)
    decreases extra
  {
    if extra > 0 && s != [] && IsContinuation(s[0]) {
      ContinuedBound(s[1..], extra - 1, code * 64 + s[0] % 64, bound * 64);
    }
  }

  function LeadPoint(lead: Lead, s: seq<byte>): (r: Point)
    requires exists b: byte :: LeadOf(b) == Some(lead)
    ensures r.used <= |s| && r.code < 0x20_0000
  {
    var b: byte :| LeadOf(b) == Some(lead);
    ContinuedBound(s, lead.extra, lead.bits, if lead.extra == 1 then 32 else if lead.extra == 2 then 16 else 8);
    Continued(s, lead.extra, lead.bits)
  }

  /** UTF-16 code units. */
  function Units(code: nat): seq<nat>
  {
    if code <= 0xFFFF then [code]
    else [0xD800 + (code - 0x1_0000) / 1024, 0xDC00 + (code - 0x1_0000) % 1024]
  }

  function UnitEscape(u: nat): string
    requires u < 0x1_0000
  {
    "\\u" + Hex4(u)
  }

  function PointEscape(code: nat): string
    requires code < 0x20_0000
  {
    if code <= 0xFFFF then UnitEscape(code)
    else UnitEscape(0xD800 + (code - 0x1_0000) / 1024) + UnitEscape(0xDC00 + (code - 0x1_0000) % 1024)
  }

  function Escapes(s: seq<byte>): string
    decreases |s|
  {
    if s == [] then ""
    else if IsPlain(s[0]) then [s[0] as char] + Escapes(s[1..])
    else if LeadOf(s[0]).None? then "\\x" + Hex2(s[0]) + Escapes(s[1..])
    else
      var p := LeadPoint(LeadOf(s[0]).value, s[1..]);
      PointEscape(p.code) + Escapes(s[1 + p.used..])
  }

  function Literal(s: seq<byte>): string { "\"" + Escapes(s) + "\"" }

  /** The code point of a sequence whose first byte is a lead byte. */
  method DecodePoint(str: seq<byte>, i: nat) returns (code: nat, next: nat)
    requires i < |str| && LeadOf(str[i]).Some?
    ensures var p := LeadPoint(LeadOf(str[i]).value, str[i + 1..]); code == p.code && next == i + 1 + p.used && code < 0x20_0000
  {
    var lead := LeadOf(str[i]).value;
    ghost var p := LeadPoint(lead, str[i + 1..]);
    code := lead.bits;
    var j := 0;
    next := i + 1;
    while j < lead.extra && next < |str|
      invariant j <= lead.extra && next == i + 1 + j && next <= |str|
      invariant var r := Continued(str[next..], lead.extra - j, code); p == Point(r.code, r.used + j)
    {
      var cont := str[next];
      if !(0x80 <= cont < 0xC0) {
        break;
      }
      assert str[next..][1..] == str[next + 1..];
      code := code * 64 + cont % 64;
      j := j + 1;
      next := next + 1;
    }
  }

  /** What the byte or the code point at i is escaped to, and where the next one starts. */
  method EscapeNext(str: seq<byte>, i: nat) returns (piece: string, next: nat)
    requires i < |str|
    ensures i < next <= |str| && Escapes(str[i..]) == piece + Escapes(str[next..])
  {
    hide *;
    var b := str[i];
    ghost var rest := str[i..];
    EscapesStep(rest);
    piece, next := "", i + 1;
    if IsPlain(b) {
      piece := [b as char];
    } else if LeadOf(b).None? {
      piece := "\\x" + Hex2(b);
    } else {
      var code;
      code, next := DecodePoint(str, i);
      piece := PointEscape(code);
    }
    assert rest[next - i..] == str[next..] && rest[1..] == str[i + 1..];
  }

  method EncodeStringLiteral(str: seq<byte>) returns (encoded: string)
    ensures encoded == Literal(str)
  {
    hide *;
    var body := "";
    var i := 0;
    assert str[0..] == str;
    while i < |str|
      invariant i <= |str| && Escapes(str) == body + Escapes(str[i..])
    {
      var piece, next := EscapeNext(str, i);
      body := body + piece;
      i := next;
    }
    assert str[i..] == [];
    EscapesEnd(str, body);
    encoded := "\"" + body + "\"";
  }

  lemma EscapesStep(s: seq<byte>)
    requires s != []
    ensures Escapes(s)
         == if IsPlain(s[0]) then [s[0] as char] + Escapes(s[1..])
            else if LeadOf(s[0]).None? then ("\\x" + Hex2(s[0])) + Escapes(s[1..])
            else
              var p := LeadPoint(LeadOf(s[0]).value, s[1..]);
              PointEscape(p.code) + Escapes(s[1 + p.used..])
  {
    hide LeadPoint, PointEscape, Hex2, IsPlain, LeadOf;
  }

  lemma EscapesEnd(s: seq<byte>, body: string)
    requires Escapes(s) == body + Escapes([])
    ensures Literal(s) == "\"" + body + "\""
  {
    assert body + "" == body;
  }

  // ----- what a literal means -------------------------------------------------------------------

  /** Single-character escapes. */
  function Single(c: char): Option<nat>
  {
    if c == '\'' || c == '"' || c == '\\' then Some(c as nat)
    else if c == 'b' then Some(8)
    else if c == 't' then Some(9)
    else if c == 'n' then Some(10)
    else if c == 'v' then Some(11)
    else if c == 'f' then Some(12)
    else if c == 'r' then Some(13)
    else None
  }

  function Prepend(units: seq<nat>, rest: Option<seq<nat>>): Option<seq<nat>>
  {
    if rest.None? then None else Some(units + rest.value)
  }

  /** Value of the text between the quotes; None when it is not part of a literal. */
  function Eval(s: string): Option<seq<nat>>
    decreases |s|
  {
    if s == "" then Some([])
    else if s[0] == '\\' then
      if |s| >= 4 && s[1] == 'x' && DigitsIn(s[2..4], 16) then Prepend([NumberValue(s[2..4], 16)], Eval(s[4..]))
      else if |s| >= 6 && s[1] == 'u' && DigitsIn(s[2..6], 16) then Prepend([NumberValue(s[2..6], 16)], Eval(s[6..]))
      else if |s| >= 2 && Single(s[1]).Some? then Prepend([Single(s[1]).value], Eval(s[2..]))
      else None
    else if s[0] == '"' || s[0] == '\n' || s[0] == '\r' || s[0] as int >= 0x1_0000 then None
    else Prepend([s[0] as nat], Eval(s[1..]))
  }

  function EvalLiteral(t: string): Option<seq<nat>>
  {
    if |t| >= 2 && t[0] == '"' && t[|t| - 1] == '"' then Eval(t[1..|t| - 1]) else None
  }

  // ----- UTF-8 and UTF-16 -----------------------------------------------------------------------

  /** Unicode scalar values. */
  predicate IsScalar(code: nat) { code < 0xD800 || 0xE000 <= code <= 0x10_FFFF }

  function Utf8(code: nat): seq<byte>
    requires IsScalar(code)
  {
    if code < 0x80 then [code]
    else if code < 0x800 then [0xC0 + code / 64, 0x80 + code % 64]
    else if code < 0x1_0000 then [0xE0 + code / 4096, 0x80 + code / 64 % 64, 0x80 + code % 64]
    else [0xF0 + code / 262144, 0x80 + code / 4096 % 64, 0x80 + code / 64 % 64, 0x80 + code % 64]
  }

  predicate AllScalar(text: seq<nat>) { forall k :: 0 <= k < |text| ==> IsScalar(text[k]) }

  function Utf8All(text: seq<nat>): seq<byte>
    requires AllScalar(text)
  {
    if text == [] then [] else Utf8(text[0]) + Utf8All(text[1..])
  }

  function Utf16All(text: seq<nat>): seq<nat>
  {
    if text == [] then [] else Units(text[0]) + Utf16All(text[1..])
  }

  // ----- one escape -----------------------------------------------------------------------------

  lemma HexTwo(n: nat)
    requires n < 0x100
    ensures DigitsIn(Hex2(n), 16) && NumberValue(Hex2(n), 16) == n
  {
    var s := Hex2(n);
    assert s[..1] == [HexChar(n / 16)];
    assert s[..1][..0] == "";
    assert NumberValue(s[..1], 16) == NumberValue("", 16) * 16 + HexValue(s[0]);
  }

  lemma HexFour(n: nat)
    requires n < 0x1_0000
    ensures DigitsIn(Hex4(n), 16) && NumberValue(Hex4(n), 16) == n
  {
    var s := Hex4(n);
    HexTwo(n / 256);
    var low := n % 256;
    assert s[..2] == Hex2(n / 256);
    assert s[..3] == Hex2(n / 256) + [HexChar(low / 16)];
    assert s[..3][..2] == s[..2];
    assert NumberValue(s[..3], 16) == NumberValue(s[..2], 16) * 16 + low / 16;
  }

  lemma EvalUnit(u: nat, t: string)
    requires u < 0x1_0000
    ensures Eval(UnitEscape(u) + t) == Prepend([u], Eval(t))
  {
    HexFour(u);
    hide Hex4, NumberValue, DigitsIn;
    HexFourLength(u);
    var s := UnitEscape(u) + t;
    assert s[0] == '\\' && s[1] == 'u';
    assert s[2..6] == Hex4(u) && s[6..] == t;
  }

  lemma HexFourLength(u: nat)
    requires u < 0x1_0000
    ensures |Hex4(u)| == 4
  {
  }

  lemma EvalByte(n: nat, t: string)
    requires n < 0x100
    ensures Eval("\\x" + Hex2(n) + t) == Prepend([n], Eval(t))
  {
    HexTwo(n);
    var h := Hex2(n);
    assert |h| == 2;
    hide Hex2, NumberValue, DigitsIn;
    var s := "\\x" + h + t;
    assert s[0] == '\\' && s[1] == 'x';
    assert s[2..4] == h && s[4..] == t;
  }

  lemma PrependTwice(a: nat, b: nat, rest: Option<seq<nat>>)
    ensures Prepend([a], Prepend([b], rest)) == Prepend([a, b], rest)
  {
    if rest.Some? {
      assert [a] + ([b] + rest.value) == [a, b] + rest.value;
    }
  }

  lemma EvalPair(high: nat, low: nat, t: string)
    requires high < 0x1_0000 && low < 0x1_0000
    ensures Eval(UnitEscape(high) + UnitEscape(low) + t) == Prepend([high, low], Eval(t))
  {
    hide *;
    EvalUnit(high, UnitEscape(low) + t);
    EvalUnit(low, t);
    assert UnitEscape(high) + UnitEscape(low) + t == UnitEscape(high) + (UnitEscape(low) + t);
    PrependTwice(high, low, Eval(t));
  }

  lemma EvalPoint(code: nat, t: string)
    requires code < 0x20_0000
    ensures Eval(PointEscape(code) + t) == Prepend(Units(code), Eval(t))
  {
    hide UnitEscape, Eval, Prepend;
    if code <= 0xFFFF {
      EvalUnit(code, t);
    } else {
      EvalPair(0xD800 + (code - 0x1_0000) / 1024, 0xDC00 + (code - 0x1_0000) % 1024, t);
    }
  }

  lemma EvalPlain(b: byte, t: string)
    requires IsPlain(b)
    ensures Eval([b as char] + t) == Prepend([b], Eval(t))
  {
    var s := [b as char] + t;
    assert s[1..] == t;
    assert s[0] != '\\' && s[0] != '"' && s[0] != '\n' && s[0] != '\r';
  }

  // ----- any bytes give a literal ---------------------------------------------------------------

  lemma {:induction false} EscapesEvaluate(s: seq<byte>)
    ensures Eval(Escapes(s)).Some?
    decreases |s|
  {
    hide Eval, LeadPoint, PointEscape, Hex2, IsPlain, LeadOf;
    if s == [] {
      EvalEmpty();
    } else if IsPlain(s[0]) {
      EscapesEvaluate(s[1..]);
      EvalPlain(s[0], Escapes(s[1..]));
    } else if LeadOf(s[0]).None? {
      EscapesEvaluate(s[1..]);
      EvalByte(s[0], Escapes(s[1..]));
    } else {
      var p := LeadPoint(LeadOf(s[0]).value, s[1..]);
      EscapesEvaluate(s[1 + p.used..]);
      EvalPoint(p.code, Escapes(s[1 + p.used..]));
    }
  }

  lemma EvalEmpty()
    ensures Eval("") == Some([])
  {
  }

  lemma LiteralBody(s: seq<byte>)
    ensures EvalLiteral(Literal(s)) == Eval(Escapes(s))
  {
    hide Eval, Escapes;
    var t := Literal(s);
    assert t[1..|t| - 1] == Escapes(s);
  }

  /** Whatever the bytes, the output is one complete literal. */
  lemma AlwaysALiteral(s: seq<byte>)
    ensures EvalLiteral(Literal(s)).Some?
  {
    hide *;
    LiteralBody(s);
    EscapesEvaluate(s);
  }

  // ----- valid UTF-8 keeps its meaning ----------------------------------------------------------

  lemma ContinuedStep(c: byte, s: seq<byte>, extra: nat, code: nat)
    requires IsContinuation(c) && extra > 0
    ensures var r := Continued(s, extra - 1, code * 64 + c % 64);
            Continued([c] + s, extra, code) == Point(r.code, r.used + 1)
  {
    assert ([c] + s)[1..] == s;
  }

  lemma ContinuedDone(s: seq<byte>, code: nat)
    ensures Continued(s, 0, code) == Point(code, 0)
  {
  }

  /** Dropping six bits at a time. */
  lemma SixBits(code: nat)
    ensures code / 4096 == code / 64 / 64 && code / 262144 == code / 4096 / 64
  {
    QuotientIs(code, 4096, code / 64 / 64, code / 64 % 64 * 64 + code % 64);
    QuotientIs(code, 262144, code / 4096 / 64, code / 4096 % 64 * 4096 + code % 4096);
  }

  lemma ContinuationBits(n: nat, c: byte)
    requires c == 0x80 + n % 64
    ensures IsContinuation(c) && c % 64 == n % 64 && n / 64 * 64 + c % 64 == n
  {
  }

  lemma TwoBytes(code: nat, c1: byte, rest: seq<byte>)
    requires c1 == 0x80 + code % 64
    ensures Continued([c1] + rest, 1, code / 64) == Point(code, 1)
  {
    ContinuationBits(code, c1);
    hide Continued, IsContinuation;
    ContinuedStep(c1, rest, 1, code / 64);
    ContinuedDone(rest, code);
  }

  lemma ThreeBytes(code: nat, c1: byte, c2: byte, rest: seq<byte>)
    requires c1 == 0x80 + code / 64 % 64 && c2 == 0x80 + code % 64
    ensures Continued([c1] + ([c2] + rest), 2, code / 4096) == Point(code, 2)
  {
    hide Continued, IsContinuation;
    SixBits(code);
    ContinuationBits(code / 64, c1);
    ContinuedStep(c1, [c2] + rest, 2, code / 4096);
    TwoBytes(code, c2, rest);
  }

  lemma FourBytes(code: nat, c1: byte, c2: byte, c3: byte, rest: seq<byte>)
    requires c1 == 0x80 + code / 4096 % 64 && c2 == 0x80 + code / 64 % 64 && c3 == 0x80 + code % 64
    ensures Continued([c1] + ([c2] + ([c3] + rest)), 3, code / 262144) == Point(code, 3)
  {
    hide Continued, IsContinuation;
    SixBits(code);
    ContinuationBits(code / 4096, c1);
    ContinuedStep(c1, [c2] + ([c3] + rest), 3, code / 262144);
    ThreeBytes(code, c2, c3, rest);
  }

  lemma LeadBits(code: nat)
    requires IsScalar(code) && code >= 0x80
    ensures !IsPlain(Utf8(code)[0])
    ensures LeadOf(Utf8(code)[0])
         == Some(if code < 0x800 then Lead(code / 64, 1)
                 else if code < 0x1_0000 then Lead(code / 4096, 2)
                 else Lead(code / 262144, 3))
  {
  }

  lemma LeadPointIs(b: byte, s: seq<byte>)
    requires LeadOf(b).Some?
    ensures LeadPoint(LeadOf(b).value, s) == Continued(s, LeadOf(b).value.extra, LeadOf(b).value.bits)
  {
    hide Continued, LeadOf;
  }

  /** The bytes of a code point from U+0080 on are decoded back, and no more is taken. */
  lemma PointBack(code: nat, rest: seq<byte>)
    requires IsScalar(code) && code >= 0x80
    ensures var s := Utf8(code) + rest;
            LeadOf(s[0]).Some? && !IsPlain(s[0]) && LeadPoint(LeadOf(s[0]).value, s[1..]) == Point(code, |Utf8(code)| - 1)
  {
    var u := Utf8(code);
    var s := u + rest;
    LeadBits(code);
    assert s[0] == u[0];
    hide Continued, LeadOf, IsPlain, LeadPoint;
    LeadPointIs(u[0], s[1..]);
    if code < 0x800 {
      assert s[1..] == [u[1]] + rest;
      TwoBytes(code, u[1], rest);
    } else if code < 0x1_0000 {
      assert s[1..] == [u[1]] + ([u[2]] + rest);
      ThreeBytes(code, u[1], u[2], rest);
    } else {
      assert s[1..] == [u[1]] + ([u[2]] + ([u[3]] + rest));
      FourBytes(code, u[1], u[2], u[3], rest);
    }
  }

  lemma OnePoint(code: nat, rest: seq<byte>)
    requires IsScalar(code)
    ensures Eval(Escapes(Utf8(code) + rest)) == Prepend(Units(code), Eval(Escapes(rest)))
  {
    var s := Utf8(code) + rest;
    hide Eval, LeadPoint, PointEscape, Hex2, Prepend, Continued;
    if code < 0x80 {
      assert s[1..] == rest;
      if IsPlain(code) {
        EvalPlain(code, Escapes(rest));
      } else {
        EvalByte(code, Escapes(rest));
      }
    } else {
      PointBack(code, rest);
      hide LeadOf, IsPlain;
      assert s[|Utf8(code)|..] == rest;
      EvalPoint(code, Escapes(rest));
    }
  }

  lemma {:induction false} TextKept(text: seq<nat>)
    requires AllScalar(text)
    ensures Eval(Escapes(Utf8All(text))) == Some(Utf16All(text))
    decreases |text|
  {
    hide Eval, Escapes, Units, Utf8, IsScalar;
    if text == [] {
      EvalEmpty();
      NoEscapes();
    } else {
      TextKept(text[1..]);
      OnePoint(text[0], Utf8All(text[1..]));
    }
  }

  lemma NoEscapes()
    ensures Escapes([]) == ""
  {
  }

  /** For every valid UTF-8 text, the literal evaluates to its UTF-16 code units, surrogate pairs included. */
  lemma MeaningKept(text: seq<nat>)
    requires AllScalar(text)
    ensures EvalLiteral(Literal(Utf8All(text))) == Some(Utf16All(text))
  {
    hide Eval, Escapes, EvalLiteral, Literal, Utf8All, Utf16All, IsScalar;
    LiteralBody(Utf8All(text));
    TextKept(text);
  }

  // ----- how it is written ----------------------------------------------------------------------

  /** A single ASCII character is copied if it is a letter, a digit, a blank or one of five others, and otherwise written
      with two lower-case hexadecimal digits. */
  lemma OneByte(b: byte, hex: string)
    requires b < 0x80 && hex == "0123456789abcdef"
    ensures Literal([b])
         == if 'a' as int <= b <= 'z' as int || 'A' as int <= b <= 'Z' as int || '0' as int <= b <= '9' as int
               || b as char in " /.-_~"
            then "\"" + [b as char] + "\"" else "\"\\x" + [hex[b / 16], hex[b % 16]] + "\""
  {
    HexDigitsAre(b / 16);
    HexDigitsAre(b % 16);
    OnlyByte(b);
  }

  lemma OnlyByte(b: byte)
    requires b < 0x80
    ensures Escapes([b]) == if IsPlain(b) then [b as char] else "\\x" + Hex2(b)
  {
    assert [b][1..] == [];
    NoEscapes();
    hide Hex2, IsPlain;
  }

  /** The code units of a code point give it back: one unit, or a high and a low surrogate. */
  lemma UnitsBack(code: nat)
    requires IsScalar(code)
    ensures var u := Units(code);
            || (|u| == 1 && u[0] == code && code < 0x1_0000)
            || (|u| == 2 && 0xD800 <= u[0] < 0xDC00 && 0xDC00 <= u[1] < 0xE000
                && code == 0x1_0000 + (u[0] - 0xD800) * 0x400 + (u[1] - 0xDC00))
  {
  }

  /** The examples of section 7 of RFC 3629 and one beyond the basic plane. */
  lemma Utf8Examples()
    ensures Utf8(0x41) == [0x41] && Utf8(0x2262) == [0xE2, 0x89, 0xA2] && Utf8(0x391) == [0xCE, 0x91]
    ensures Utf8(0x2_33B4) == [0xF0, 0xA3, 0x8E, 0xB4]
  {
  }

  /** A sequence that is cut short stands for the bits that are there, and a byte that starts none for itself. */
  lemma CutShort(s: seq<byte>, t: seq<byte>)
    requires s == [0xE2, 0x82] && t == [0x82]
    ensures Escapes(s) == "\\u0082" && Escapes(t) == "\\x82"
  {
    assert s[1..] == [0x82] && [0x82][1..] == [] && s[2..] == [] && t[1..] == [];
    NoEscapes();
    assert LeadOf(0xE2) == Some(Lead(2, 2));
    assert Continued(t, 2, 2) == Point(130, 1);
    assert LeadPoint(Lead(2, 2), t) == Point(130, 1);
    assert Hex4(130) == "0082" && Hex2(0x82) == "82";
  }
}
