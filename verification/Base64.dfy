/** Base64 (section 4 of RFC 4648; src/security/Base64.hpp). */
module Base64 {
  import opened Chars
  import opened Numbers

  type digit = n: int | 0 <= n < 64

  // ----- the alphabet ---------------------------------------------------------------------------

  function Letter(d: digit): char
  {
    if d < 26 then 'A' + d as char
    else if d < 52 then 'a' + (d - 26) as char
    else if d < 62 then '0' + (d - 52) as char
    else if d == 62 then '+'
    else '/'
  }

  /** Place of a character in the alphabet. */
  function Place(c: char): Option<digit>
  {
    if 'A' <= c <= 'Z' then Some(c as int - 'A' as int)
    else if 'a' <= c <= 'z' then Some(c as int - 'a' as int + 26)
    else if '0' <= c <= '9' then Some(c as int - '0' as int + 52)
    else if c == '+' then Some(62)
    else if c == '/' then Some(63)
    else None
  }

  lemma PlaceOfLetter(d: digit)
    ensures Place(Letter(d)) == Some(d) && Letter(d) != '='
  {
  }

  // ----- encoding -------------------------------------------------------------------------------

  /** The digits of three bytes. */
  function Quad(b0: byte, b1: byte, b2: byte): (r: seq<digit>)
    ensures |r| == 4
  {
    [b0 / 4, b0 % 4 * 16 + b1 / 16, b1 % 16 * 4 + b2 / 64, b2 % 64]
  }

  /** The four characters for the first bytes of x. */
  function Group(x: seq<byte>): (r: string)
    requires x != []
    ensures |r| == 4
  {
    var q := Quad(x[0], if |x| > 1 then x[1] else 0, if |x| > 2 then x[2] else 0);
    [Letter(q[0]), Letter(q[1]), if |x| > 1 then Letter(q[2]) else '=', if |x| > 2 then Letter(q[3]) else '=']
  }

  function Encode(x: seq<byte>): string
    decreases |x|
  {
    if x == [] then "" else Group(x) + Encode(if |x| > 3 then x[3..] else [])
  }

  method Base64Encode(input: seq<byte>) returns (out: string)
    ensures out == Encode(input)
  {
    hide Letter, Group;
    out := "";
    var i := 0;
    assert input[0..] == input;
    while i < |input|
      invariant 0 <= i && Encode(input) == out + Encode(if i <= |input| then input[i..] else [])
      decreases |input| - i
    {
      var group := EncodeGroup(input, i);
      ghost var rest := input[i..];
      assert |rest| > 3 ==> rest[3..] == input[i + 3..];
      assert i + 3 == |input| ==> input[i + 3..] == [];
      assert Encode(rest) == group + Encode(if i + 3 <= |input| then input[i + 3..] else []);
      out := out + group;
      i := i + 3;
    }
  }

  /** The four characters for the bytes from position i. */
  method EncodeGroup(input: seq<byte>, i: nat) returns (out: string)
    requires i < |input|
    ensures out == Group(input[i..])
  {
    var b0: int := input[i];
    var b1: int := if i + 1 < |input| then input[i + 1] else 0;
    var b2: int := if i + 2 < |input| then input[i + 2] else 0;
    var triple := b0 * 65536 + b1 * 256 + b2;
    Split(b0, b1, b2, triple);
    out := [Letter(triple / 262144 % 64)];
    out := out + [Letter(triple / 4096 % 64)];
    out := out + if i + 1 < |input| then [Letter(triple / 64 % 64)] else "=";
    out := out + if i + 2 < |input| then [Letter(triple % 64)] else "=";
  }

  lemma SplitHigh(b0: byte, b1: byte, b2: byte, triple: int)
    requires triple == b0 * 65536 + b1 * 256 + b2
    ensures triple / 262144 % 64 == b0 / 4 && triple / 4096 % 64 == b0 % 4 * 16 + b1 / 16
  {
    QuotientIs(triple, 262144, b0 / 4, b0 % 4 * 65536 + b1 * 256 + b2);
    QuotientIs(triple, 4096, b0 * 16 + b1 / 16, b1 % 16 * 256 + b2);
    QuotientIs(b0 * 16 + b1 / 16, 64, b0 / 4, b0 % 4 * 16 + b1 / 16);
  }

  lemma SplitLow(b0: byte, b1: byte, b2: byte, triple: int)
    requires triple == b0 * 65536 + b1 * 256 + b2
    ensures triple / 64 % 64 == b1 % 16 * 4 + b2 / 64 && triple % 64 == b2 % 64
  {
    QuotientIs(triple, 64, b0 * 1024 + b1 * 4 + b2 / 64, b2 % 64);
    QuotientIs(b0 * 1024 + b1 * 4 + b2 / 64, 64, b0 * 16 + b1 / 16, b1 % 16 * 4 + b2 / 64);
  }

  /** Shifting the 24 bits gives the four digits. */
  lemma Split(b0: byte, b1: byte, b2: byte, triple: int)
    requires triple == b0 * 65536 + b1 * 256 + b2
    ensures Quad(b0, b1, b2) == [triple / 262144 % 64, triple / 4096 % 64, triple / 64 % 64, triple % 64]
  {
    SplitHigh(b0, b1, b2, triple);
    SplitLow(b0, b1, b2, triple);
  }

  lemma {:induction false} EncodedLength(x: seq<byte>)
    ensures |Encode(x)| == 4 * ((|x| + 2) / 3)
  {
    hide Group;
    if |x| > 3 {
      EncodedLength(x[3..]);
    } else if x != [] {
      assert Encode([]) == "";
    }
  }

  // ----- decoding -------------------------------------------------------------------------------

  /** The digits before the first equals sign; other characters are skipped. */
  function Digits(s: string): seq<digit>
  {
    if s == "" || s[0] == '=' then []
    else (if Place(s[0]).Some? then [Place(s[0]).value] else []) + Digits(s[1..])
  }

  /** The bytes of the first two, three or four digits. */
  function Bytes(d: seq<digit>): (r: seq<byte>)
    requires |d| <= 4
  {
    (if |d| >= 2 then [d[0] as int * 4 + d[1] / 16] else [])
    + (if |d| >= 3 then [d[1] as int % 16 * 16 + d[2] / 4] else [])
    + (if |d| >= 4 then [d[2] as int % 4 * 64 + d[3]] else [])
  }

  function DecodeDigits(d: seq<digit>): seq<byte>
  {
    if |d| <= 4 then Bytes(d) else Bytes(d[..4]) + DecodeDigits(d[4..])
  }

  function Decode(s: string): seq<byte> { DecodeDigits(Digits(s)) }

  lemma DigitsStep(s: string, i: nat)
    requires i < |s| && s[i] != '='
    ensures Digits(s[i..]) == (if Place(s[i]).Some? then [Place(s[i]).value] else []) + Digits(s[i + 1..])
  {
    assert s[i..][1..] == s[i + 1..];
  }

  /** Up to four digits from position i. */
  method TakeDigits(s: string, i: nat) returns (temp: seq<digit>, end: nat)
    requires i <= |s|
    ensures i <= end <= |s| && |temp| <= 4 && Digits(s[i..]) == temp + Digits(s[end..])
    ensures |temp| == 4 || end == |s| || s[end] == '='
    ensures i < |s| && s[i] != '=' ==> end > i
  {
    hide Digits;
    temp, end := [], i;
    while |temp| < 4 && end < |s| && s[end] != '='
      invariant i <= end <= |s| && |temp| <= 4 && Digits(s[i..]) == temp + Digits(s[end..])
      invariant end == i ==> temp == []
      decreases |s| - end
    {
      DigitsStep(s, end);
      var pos := Place(s[end]);
      if pos.None? {
        end := end + 1;
        continue;
      }
      ghost var rest := Digits(s[end + 1..]);
      assert (temp + [pos.value]) + rest == temp + ([pos.value] + rest);
      temp := temp + [pos.value];
      end := end + 1;
    }
  }

  method Base64Decode(encoded: string) returns (decoded: seq<byte>)
    ensures decoded == Decode(encoded)
  {
    hide Digits, DecodeDigits;
    decoded := [];
    var i := 0;
    assert encoded[0..] == encoded;
    while i < |encoded| && encoded[i] != '='
      invariant i <= |encoded|
      invariant DecodeDigits(Digits(encoded)) == decoded + DecodeDigits(Digits(encoded[i..]))
      decreases |encoded| - i
    {
      var temp;
      ghost var i0 := i;
      temp, i := TakeDigits(encoded, i);
      DigitsEnd(encoded, i);
      DecodeGroup(temp, Digits(encoded[i..]));
      var j := |temp|;
      if j >= 2 {
        decoded := decoded + [temp[0] as int * 4 + temp[1] / 16];
      }
      if j >= 3 {
        decoded := decoded + [temp[1] as int % 16 * 16 + temp[2] / 4];
      }
      if j >= 4 {
        decoded := decoded + [temp[2] as int % 4 * 64 + temp[3]];
      }
    }
    DigitsEnd(encoded, i);
    DecodeGroup([], []);
  }

  lemma DigitsEnd(s: string, i: nat)
    requires i <= |s|
    ensures i == |s| || s[i] == '=' ==> Digits(s[i..]) == []
  {
  }

  lemma DecodeGroup(temp: seq<digit>, rest: seq<digit>)
    requires |temp| == 4 || (|temp| < 4 && rest == [])
    ensures DecodeDigits(temp + rest) == Bytes(temp) + DecodeDigits(rest)
    ensures DecodeDigits([]) == []
  {
    if rest == [] {
      assert temp + rest == temp;
    } else {
      assert (temp + rest)[..4] == temp && (temp + rest)[4..] == rest;
    }
  }

  // ----- round trip -----------------------------------------------------------------------------

  lemma DigitsOfLetters(d: seq<digit>, rest: string)
    requires |d| == 4
    ensures Digits([Letter(d[0]), Letter(d[1]), Letter(d[2]), Letter(d[3])] + rest) == d + Digits(rest)
  {
    var s := [Letter(d[0]), Letter(d[1]), Letter(d[2]), Letter(d[3])] + rest;
    PlaceOfLetter(d[0]);
    PlaceOfLetter(d[1]);
    PlaceOfLetter(d[2]);
    PlaceOfLetter(d[3]);
    assert s[0..] == s && s[4..] == rest;
    DigitsStep(s, 0);
    DigitsStep(s, 1);
    DigitsStep(s, 2);
    DigitsStep(s, 3);
    assert d == [d[0]] + [d[1]] + [d[2]] + [d[3]];
  }

  lemma DigitsHead(d: digit, rest: string)
    ensures Digits([Letter(d)] + rest) == [d] + Digits(rest)
  {
    PlaceOfLetter(d);
    hide Letter, Place;
    assert ([Letter(d)] + rest)[1..] == rest;
  }

  lemma DigitsStop(rest: string)
    ensures Digits("=" + rest) == []
  {
  }

  /** The digits of the last group, of one or two bytes. */
  lemma LastDigits(x: seq<byte>)
    requires 1 <= |x| <= 2
    ensures Digits(Group(x)) == Quad(x[0], if |x| > 1 then x[1] else 0, 0)[..|x| + 1]
  {
    var q := Quad(x[0], if |x| > 1 then x[1] else 0, 0);
    hide Letter, Digits, Quad;
    if |x| > 1 {
      assert Group(x) == [Letter(q[0])] + ([Letter(q[1])] + ([Letter(q[2])] + ("=" + "")));
      DigitsHead(q[0], [Letter(q[1])] + ([Letter(q[2])] + ("=" + "")));
      DigitsHead(q[1], [Letter(q[2])] + ("=" + ""));
      DigitsHead(q[2], "=" + "");
      DigitsStop("");
    } else {
      assert Group(x) == [Letter(q[0])] + ([Letter(q[1])] + ("=" + "="));
      DigitsHead(q[0], [Letter(q[1])] + ("=" + "="));
      DigitsHead(q[1], "=" + "=");
      DigitsStop("=");
    }
  }

  lemma LastGroup(x: seq<byte>)
    requires 1 <= |x| <= 2
    ensures Decode(Group(x)) == x
  {
    LastDigits(x);
    hide Digits, Group;
  }

  lemma FullGroup(x: seq<byte>)
    requires |x| >= 3
    ensures var q := Quad(x[0], x[1], x[2]); Bytes(q) == x[..3] && Group(x) == [Letter(q[0]), Letter(q[1]), Letter(q[2]), Letter(q[3])]
  {
  }

  /** Decoding undoes encoding, for every byte string. */
  lemma {:induction false} RoundTrip(x: seq<byte>)
    ensures Decode(Encode(x)) == x
  {
    hide Group, Quad, Letter, Place, Bytes;
    if x == [] {
      DecodeGroup([], []);
      DigitsEnd("", 0);
      assert ""[0..] == "";
    } else if |x| >= 3 {
      var tail := if |x| > 3 then x[3..] else [];
      RoundTrip(tail);
      FullGroup(x);
      var q := Quad(x[0], x[1], x[2]);
      DigitsOfLetters(q, Encode(tail));
      DecodeGroup(q, Digits(Encode(tail)));
      assert x == x[..3] + tail;
    } else {
      LastGroup(x);
      assert Group(x) + "" == Group(x);
    }
  }

  /** Characters outside the alphabet, other than the equals sign, do not matter wherever they stand. */
  lemma {:induction false} ForeignIgnored(a: string, c: char, b: string)
    requires Place(c).None? && c != '='
    ensures Decode(a + [c] + b) == Decode(a + b)
  {
    ForeignDigits(a, c, b);
  }

  lemma {:induction false} ForeignDigits(a: string, c: char, b: string)
    requires Place(c).None? && c != '='
    ensures Digits(a + [c] + b) == Digits(a + b)
  {
    hide Place;
    var with := a + [c] + b;
    if a == "" {
      assert with[1..] == b && a + b == b;
    } else {
      assert with[1..] == a[1..] + [c] + b && (a + b)[1..] == a[1..] + b;
      ForeignDigits(a[1..], c, b);
    }
  }

  // ----- RFC 4648 -------------------------------------------------------------------------------

  /** The alphabet of section 4. */
  lemma Alphabet(d: digit)
    ensures d < 26 ==> Letter(d) == "ABCDEFGHIJKLMNOPQRSTUVWXYZ"[d]
    ensures 26 <= d < 52 ==> Letter(d) == "abcdefghijklmnopqrstuvwxyz"[d - 26]
    ensures d >= 52 ==> Letter(d) == "0123456789+/"[d - 52]
  {
  }

  /** Four digits to the base 64 are the number that three bytes are to the base 256. */
  lemma QuadIsNumber(b0: byte, b1: byte, b2: byte)
    ensures var q := Quad(b0, b1, b2);
            262144 * (q[0] as int) + 4096 * (q[1] as int) + 64 * (q[2] as int) + (q[3] as int)
            == 65536 * (b0 as int) + 256 * (b1 as int) + (b2 as int)
  {
  }

  /** Test vectors of section 10: "f", "fo", "foo" and "foobar". */
  lemma TestVectors(f: seq<byte>, fo: seq<byte>, foo: seq<byte>, foobar: seq<byte>)
    requires f == [0x66] && fo == [0x66, 0x6f] && foo == [0x66, 0x6f, 0x6f]
    requires foobar == [0x66, 0x6f, 0x6f, 0x62, 0x61, 0x72]
    ensures Encode(f) == "Zg==" && Encode(fo) == "Zm8=" && Encode(foo) == "Zm9v" && Encode(foobar) == "Zm9vYmFy"
  {
    hide *;
    OneGroup(f);
    OneGroup(fo);
    OneGroup(foo);
    var bar := foobar[3..];
    assert bar == [0x62, 0x61, 0x72] && foobar[..3] == foo;
    OneGroup(bar);
    FooGroups(f, fo, foo, bar);
    TwoGroups(foobar);
    GroupOfThree(foobar);
    assert "Zm9v" + "YmFy" == "Zm9vYmFy";
  }

  lemma TwoGroups(x: seq<byte>)
    requires |x| == 6
    ensures Encode(x) == Group(x) + Encode(x[3..])
  {
    hide Group;
  }

  lemma GroupOfThree(x: seq<byte>)
    requires |x| >= 3
    ensures Group(x) == Group(x[..3])
  {
  }

  lemma OneGroup(x: seq<byte>)
    requires 0 < |x| <= 3
    ensures Encode(x) == Group(x)
  {
    hide Group;
    assert Encode([]) == "";
  }

  lemma FooGroups(f: seq<byte>, fo: seq<byte>, foo: seq<byte>, bar: seq<byte>)
    requires f == [0x66] && fo == [0x66, 0x6f] && foo == [0x66, 0x6f, 0x6f] && bar == [0x62, 0x61, 0x72]
    ensures Group(f) == "Zg==" && Group(fo) == "Zm8=" && Group(foo) == "Zm9v" && Group(bar) == "YmFy"
  {
    hide *;
    QuadIs(0x66, 0, 0, [25, 32, 0, 0]);
    QuadIs(0x66, 0x6f, 0, [25, 38, 60, 0]);
    QuadIs(0x66, 0x6f, 0x6f, [25, 38, 61, 47]);
    QuadIs(0x62, 0x61, 0x72, [24, 38, 5, 50]);
    FooLetters();
    GroupIs(f, [25, 32, 0, 0]);
    GroupIs(fo, [25, 38, 60, 0]);
    GroupIs(foo, [25, 38, 61, 47]);
    GroupIs(bar, [24, 38, 5, 50]);
  }

  lemma QuadIs(b0: byte, b1: byte, b2: byte, q: seq<digit>)
    requires |q| == 4
    requires 262144 * (q[0] as int) + 4096 * (q[1] as int) + 64 * (q[2] as int) + (q[3] as int)
             == 65536 * (b0 as int) + 256 * (b1 as int) + (b2 as int)
    ensures Quad(b0, b1, b2) == q
  {
    QuadIsNumber(b0, b1, b2);
    hide Quad;
    SameDigits(Quad(b0, b1, b2), q);
  }

  lemma SameDigits(p: seq<digit>, q: seq<digit>)
    requires |p| == |q| == 4
    requires 262144 * (p[0] as int) + 4096 * (p[1] as int) + 64 * (p[2] as int) + (p[3] as int)
          == 262144 * (q[0] as int) + 4096 * (q[1] as int) + 64 * (q[2] as int) + (q[3] as int)
    ensures p == q
  {
    var p0: nat, p1: nat, p2: nat, q0: nat, q1: nat, q2: nat := p[0], p[1], p[2], q[0], q[1], q[2];
    LowDigit(4096 * p0 + 64 * p1 + p2, p[3], 4096 * q0 + 64 * q1 + q2, q[3]);
    LowDigit(64 * p0 + p1, p[2], 64 * q0 + q1, q[2]);
    LowDigit(p0, p[1], q0, q[1]);
  }

  lemma LowDigit(a: nat, d: digit, b: nat, e: digit)
    requires 64 * a + d == 64 * b + e
    ensures a == b && d == e
  {
    QuotientIs(64 * a + d, 64, a, d);
    QuotientIs(64 * b + e, 64, b, e);
  }

  lemma FooLetters()
    ensures Letter(25) == 'Z' && Letter(32) == 'g' && Letter(38) == 'm' && Letter(60) == '8' && Letter(61) == '9'
    ensures Letter(47) == 'v' && Letter(24) == 'Y' && Letter(5) == 'F' && Letter(50) == 'y'
  {
  }

  lemma GroupIs(x: seq<byte>, q: seq<digit>)
    requires 0 < |x| <= 3 && |q| == 4 && q == Quad(x[0], if |x| > 1 then x[1] else 0, if |x| > 2 then x[2] else 0)
    ensures |x| == 1 ==> Group(x) == [Letter(q[0]), Letter(q[1]), '=', '=']
    ensures |x| == 2 ==> Group(x) == [Letter(q[0]), Letter(q[1]), Letter(q[2]), '=']
    ensures |x| == 3 ==> Group(x) == [Letter(q[0]), Letter(q[1]), Letter(q[2]), Letter(q[3])]
  {
    hide Letter, Quad;
  }
}
