/** Integers rewritten as small expressions (src/builders/JSObfuscator.cpp:1151-1202). */
module NumberExpression {
  import opened Chars
  import opened Numbers
  import opened StringLiteral

  type int32 = n: int | -0x8000_0000 <= n < 0x8000_0000

  // ----- numerals -------------------------------------------------------------------------------

  /** std::hex: the 32 bits of the number, in lower case and without leading zeros. */
  function Hex(n: nat): string
  {
    if n < 16 then [HexChar(n)] else Hex(n / 16) + [HexChar(n % 16)]
  }

  function Bits(num: int32): nat { if num < 0 then num + 0x1_0000_0000 else num }

  lemma {:induction false} DecimalReads(n: nat)
    ensures Decimal(n) != "" && DigitsIn(Decimal(n), 10) && NumberValue(Decimal(n), 10) == n
  {
    var s := Decimal(n);
    if n < 10 {
      assert s[..0] == "";
      assert NumberValue("", 10) == 0;
    } else {
      DecimalReads(n / 10);
      assert s[..|s| - 1] == Decimal(n / 10);
    }
  }

  lemma {:induction false} HexReads(n: nat)
    ensures Hex(n) != "" && DigitsIn(Hex(n), 16) && NumberValue(Hex(n), 16) == n
  {
    var s := Hex(n);
    if n < 16 {
      assert s[..0] == "";
      assert NumberValue("", 16) == 0;
    } else {
      HexReads(n / 16);
      assert s[..|s| - 1] == Hex(n / 16);
    }
  }

  // ----- the encoder ----------------------------------------------------------------------------

  /** No bit is set in both. */
  predicate NoCommonBit(a: nat, b: nat)
  {
    a == 0 || b == 0 || (!(a % 2 == 1 && b % 2 == 1) && NoCommonBit(a / 2, b / 2))
  }

  predicate PowerOfTwo(n: nat) { n == 1 || (n > 1 && n % 2 == 0 && PowerOfTwo(n / 2)) }

  lemma {:induction false} SameBits(n: nat)
    ensures NoCommonBit(n, n) <==> n == 0
  {
    if n > 0 && n % 2 == 0 {
      SameBits(n / 2);
    }
  }

  /** The test n & (n - 1) == 0. */
  lemma {:induction false} BitTest(n: nat)
    requires n >= 1
    ensures NoCommonBit(n, n - 1) <==> PowerOfTwo(n)
  {
    if n > 1 {
      if n % 2 == 0 {
        BitTest(n / 2);
        assert (n - 1) / 2 == n / 2 - 1;
      } else {
        assert (n - 1) / 2 == n / 2;
        SameBits(n / 2);
      }
    }
  }

  function Log2(n: nat): nat { if n < 2 then 0 else 1 + Log2(n / 2) }

  lemma {:induction false} Log2OfPower(k: nat)
    ensures Log2(Pow2(k)) == k
  {
    if k > 0 {
      Log2OfPower(k - 1);
    }
  }

  /** How far 1 is shifted to give num. */
  method ShiftOf(num: int32) returns (shift: nat)
    requires num > 1 && PowerOfTwo(num)
    ensures Pow2(shift) == num && shift < 31
  {
    shift := 0;
    var temp: nat := num;
    while temp > 1
      invariant temp >= 1 && PowerOfTwo(temp) && temp * Pow2(shift) == num
    {
      HalfTwice(temp, Pow2(shift));
      temp := temp / 2;
      shift := shift + 1;
    }
    ShiftFits(shift);
  }

  lemma HalfTwice(n: nat, p: nat)
    requires n % 2 == 0
    ensures n / 2 * (2 * p) == n * p
  {
    assert n == n / 2 * 2;
  }

  /** The expression for num; `strategy` is the random choice among 0, 1 and 2. It means the number's 32 bits,
      so the number itself exactly when it is not negative. */
  method CreateNumberExpression(num: int32, strategy: nat) returns (text: string)
    ensures EvalNumber(text) == Some(Bits(num))
    ensures EvalNumber(text).value == num <==> num >= 0
    ensures text == if num == 0 then "0" else if num == 1 then "1"
                    else if strategy == 1 && num % 2 == 0 && num > 2 then "(" + Decimal(num / 2) + "*2)"
                    else if strategy == 2 && num > 1 && PowerOfTwo(num) then "(1<<" + Decimal(Log2(num)) + ")"
                    else "0x" + Hex(if num < 0 then num + 0x1_0000_0000 else num)
  {
    hide EvalNumber, Decimal, Hex, HexChar, PowerOfTwo, NoCommonBit, Pow2;
    if num == 0 {
      EvalDecimal(0);
      return "0";
    }
    if num == 1 {
      EvalDecimal(1);
      return "1";
    }
    if strategy == 1 && num % 2 == 0 && num > 2 {
      EvalDouble(num / 2);
      return "(" + Decimal(num / 2) + "*2)";
    }
    if num > 1 {
      BitTest(num);
    }
    if strategy == 2 && num > 1 && NoCommonBit(num, num - 1) {
      var shift := ShiftOf(num);
      Log2OfPower(shift);
      EvalShift(shift);
      return "(1<<" + Decimal(shift) + ")";
    }
    EvalHex(Bits(num));
    return "0x" + Hex(Bits(num));
  }

  // ----- what an expression means ---------------------------------------------------------------

  predicate IsDecimal(s: string) { s != "" && DigitsIn(s, 10) }

  /** A numeral, a doubled numeral in parentheses, or one shifted left by less than 31 in parentheses. */
  function EvalNumber(s: string): Option<nat>
  {
    if |s| > 5 && s[..4] == "(1<<" && s[|s| - 1] == ')' && IsDecimal(s[4..|s| - 1]) && NumberValue(s[4..|s| - 1], 10) < 31
    then Some(Pow2(NumberValue(s[4..|s| - 1], 10)))
    else if |s| > 4 && s[0] == '(' && s[|s| - 3..] == "*2)" && IsDecimal(s[1..|s| - 3])
    then Some(NumberValue(s[1..|s| - 3], 10) * 2)
    else if |s| > 2 && s[..2] == "0x" && DigitsIn(s[2..], 16) then Some(NumberValue(s[2..], 16))
    else if IsDecimal(s) then Some(NumberValue(s, 10))
    else None
  }

  lemma EvalDecimal(n: nat)
    requires n < 10
    ensures EvalNumber(['0' + n as char]) == Some(n)
  {
    DecimalReads(n);
    assert HexChar(n) == '0' + n as char;
  }

  lemma EvalHex(n: nat)
    ensures EvalNumber("0x" + Hex(n)) == Some(n)
  {
    HexReads(n);
    hide Hex, NumberValue;
    var s := "0x" + Hex(n);
    assert s[2..] == Hex(n) && s[..2] == "0x" && s[0] == '0';
    if |s| >= 4 {
      assert s[..4][0] == '0';
    }
  }

  lemma EvalDouble(n: nat)
    ensures EvalNumber("(" + Decimal(n) + "*2)") == Some(n * 2)
  {
    DecimalReads(n);
    hide Decimal, NumberValue;
    var d := Decimal(n);
    var s := "(" + d + "*2)";
    assert s[0] == '(' && s[|s| - 3..] == "*2)" && s[1..|s| - 3] == d;
    assert s[2] == if |d| > 1 then d[1] else '*';
    assert s[2] != '<' && s[..4][2] == s[2];
  }

  lemma EvalShift(shift: nat)
    requires shift < 31
    ensures EvalNumber("(1<<" + Decimal(shift) + ")") == Some(Pow2(shift))
  {
    DecimalReads(shift);
    hide Decimal, NumberValue, Pow2;
    var d := Decimal(shift);
    var s := "(1<<" + d + ")";
    assert s[..4] == "(1<<" && s[4..|s| - 1] == d && s[|s| - 1] == ')';
  }

  lemma {:induction false} Pow2Grows(a: nat, b: nat)
    requires a <= b
    ensures Pow2(a) <= Pow2(b)
    decreases b - a
  {
    if a < b {
      Pow2Grows(a + 1, b);
    }
  }

  lemma ShiftFits(shift: nat)
    requires Pow2(shift) < 0x8000_0000
    ensures shift < 31
  {
    assert Pow2(8) == 256;
    assert Pow2(16) == 0x1_0000;
    assert Pow2(24) == 0x100_0000;
    assert Pow2(31) == 0x8000_0000;
    if shift >= 31 {
      Pow2Grows(31, shift);
    }
  }
}
