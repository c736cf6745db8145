/** Optional values, the C-locale character classes that every scanner in the server relies on, and numerals. */
module Chars {

  datatype Option<+T> = None | Some(value: T)

  predicate IsDigit(c: char) { '0' <= c <= '9' }

  predicate IsAlpha(c: char) { 'a' <= c <= 'z' || 'A' <= c <= 'Z' }

  predicate IsAlnum(c: char) { IsAlpha(c) || IsDigit(c) }

  predicate IsHexDigit(c: char) { IsDigit(c) || 'a' <= c <= 'f' || 'A' <= c <= 'F' }

  /** std::isspace: blank, \t, \n, \v, \f and \r. */
  predicate IsSpace(c: char) { c == ' ' || '\t' <= c <= '\r' }

  function Lower(c: char): char
  {
    if 'A' <= c <= 'Z' then c + 32 as char else c
  }

  /** Numeric value of a hexadecimal digit, upper or lower case. */
  function HexValue(c: char): (v: nat)
    requires IsHexDigit(c)
    ensures v < 16
  {
    if IsDigit(c) then c as int - '0' as int
    else if 'a' <= c <= 'f' then c as int - 'a' as int + 10
    else c as int - 'A' as int + 10
  }

  /** The lower-case hexadecimal digit of a number. */
  function HexChar(n: nat): (c: char)
    requires n < 16
    ensures IsHexDigit(c) && HexValue(c) == n
  {
    if n < 10 then '0' + n as char else 'a' + (n - 10) as char
  }

  /** Both cases of the digits are read, the lower-case one is written. */
  lemma HexDigitsAre(n: nat)
    requires n < 16
    ensures HexChar(n) == "0123456789abcdef"[n] && HexValue("0123456789abcdef"[n]) == n
    ensures IsHexDigit("0123456789ABCDEF"[n]) && HexValue("0123456789ABCDEF"[n]) == n
  {
  }

  /** std::to_string of a number that is not negative. */
  function Decimal(n: nat): string
  {
    if n < 10 then [HexChar(n)] else Decimal(n / 10) + [HexChar(n % 10)]
  }

  predicate HasPrefix(s: string, p: string) { |p| <= |s| && s[..|p|] == p }

  predicate DigitsIn(s: string, base: nat)
    requires base == 10 || base == 16
  {
    forall k :: 0 <= k < |s| ==> if base == 10 then IsDigit(s[k]) else IsHexDigit(s[k])
  }

  function NumberValue(s: string, base: nat): nat
    requires (base == 10 || base == 16) && DigitsIn(s, base)
  {
    if s == "" then 0 else NumberValue(s[..|s| - 1], base) * base + HexValue(s[|s| - 1])
  }
}
