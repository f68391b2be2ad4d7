/**
  Printed numbers: the `%llu`, `%d`, `%0wX` and `%.1f` conversions of the Wi-Fi reports and
  Java's `Integer.parseInt`, with the laws that reading a printed number gives it back.
 */
module Numerals {

  datatype Option<+T> = None | Some(value: T)

  const INT_MIN: int := -0x8000_0000
  const INT_MAX: int := 0x7FFF_FFFF

  type u8 = n: nat | n < 0x100
  type u32 = n: nat | n < 0x1_0000_0000
  type u64 = n: nat | n < 0x1_0000_0000_0000_0000

  predicate IsDigit(c: char) {
    '0' <= c <= '9'
  }

  function Decimal(n: nat): (s: string)
    ensures s != []
    ensures forall c <- s :: IsDigit(c)
  {
    if n < 10 then ['0' + n as char] else Decimal(n / 10) + ['0' + (n % 10) as char]
  }

  function DigitsValue(s: string): nat
    requires forall c <- s :: IsDigit(c)
  {
    if s == [] then 0 else
      assert IsDigit(s[|s| - 1]);
      10 * DigitsValue(s[..|s| - 1]) + (s[|s| - 1] - '0') as nat
  }

  lemma {:induction false} ValueOfDecimal(n: nat)
    ensures DigitsValue(Decimal(n)) == n
  {
    var s := Decimal(n);
    if n < 10 {
      assert s[..|s| - 1] == [];
    } else {
      ValueOfDecimal(n / 10);
      assert s[..|s| - 1] == Decimal(n / 10);
    }
  }

  lemma DecimalInjective(m: nat, n: nat)
    requires Decimal(m) == Decimal(n)
    ensures m == n
  {
    ValueOfDecimal(m);
    ValueOfDecimal(n);
  }

  /** `%d`: a leading minus sign for negative values. */
  function SignedDecimal(n: int): (s: string)
    ensures s != [] && forall c <- s :: IsDigit(c) || c == '-'
  {
    if n < 0 then "-" + Decimal(-n) else Decimal(n)
  }

  lemma SignedDecimalInjective(m: int, n: int)
    requires SignedDecimal(m) == SignedDecimal(n)
    ensures m == n
  {
    var s := SignedDecimal(m);
    assert m >= 0 ==> s[0] in Decimal(m);
    assert n >= 0 ==> s[0] in Decimal(n);
    if s[0] == '-' {
      assert Decimal(-m) == s[1..] == Decimal(-n);
      DecimalInjective(-m, -n);
    } else {
      DecimalInjective(m, n);
    }
  }

  /** An unsigned 32-bit word handed to `%d` is read as a signed one. */
  function AsSigned32(w: u32): int {
    if w <= INT_MAX then w else w - 0x1_0000_0000
  }

  /** Java `Integer.parseInt`: an optional sign, at least one digit, within 32 bits;
      None stands for NumberFormatException. */
  function ParseInt(s: string): Option<int> {
    var digits := if s != [] && (s[0] == '-' || s[0] == '+') then s[1..] else s;
    if digits == [] || exists c <- digits :: !IsDigit(c) then
      None
    else
      var magnitude: int := DigitsValue(digits);
      var v := if s[0] == '-' then -magnitude else magnitude;
      if INT_MIN <= v <= INT_MAX then Some(v) else None
  }

  /** Parsing a printed 32-bit number gives the number back; a printed number outside
      the range is refused. */
  lemma ParseIntOfPrinted(n: int)
    ensures ParseInt(SignedDecimal(n)) == if INT_MIN <= n <= INT_MAX then Some(n) else None
  {
    var s := SignedDecimal(n);
    if n < 0 {
      ValueOfDecimal(-n);
      assert s[1..] == Decimal(-n);
    } else {
      ValueOfDecimal(n);
      assert s[0] in Decimal(n);
    }
  }

  /** `s` is the digits with an optional sign in front, and stands for `v`. */
  ghost predicate Denotes(s: string, digits: string, v: int) {
    && digits != [] && (forall c <- digits :: IsDigit(c))
    && (|| (s == "-" + digits && -v == DigitsValue(digits))
        || ((s == digits || s == "+" + digits) && v == DigitsValue(digits)))
  }

  /** The texts parseInt accepts and what it makes of them: at least one digit after an optional sign,
      within 32 bits. */
  lemma ParseIntExactly(s: string, v: int)
    ensures ParseInt(s) == Some(v) <==> INT_MIN <= v <= INT_MAX && exists digits :: Denotes(s, digits, v)
  {
    hide DigitsValue;
    var rest := if s != [] && (s[0] == '-' || s[0] == '+') then s[1..] else s;
    if ParseInt(s) == Some(v) {
      assert rest != s ==> s == [s[0]] + rest;
      assert rest == s ==> s[0] in s;
      assert Denotes(s, rest, v);
    }
    if digits :| Denotes(s, digits, v) {
      assert digits[0] in digits;
      assert digits == rest;
    }
  }

  function HexDigit(d: nat, upper: bool): (c: char)
    requires d < 16
    ensures IsDigit(c) || 'A' <= c <= 'F' || 'a' <= c <= 'f'
  {
    if d < 10 then '0' + d as char
    else if upper then 'A' + (d - 10) as char
    else 'a' + (d - 10) as char
  }

  /** `%0wX` (or `%0wx`) of a value that fits in `w` digits. */
  function Hex(n: nat, w: nat, upper: bool): (s: string)
    ensures |s| == w
    ensures forall c <- s :: IsDigit(c) || 'A' <= c <= 'F' || 'a' <= c <= 'f'
  {
    if w == 0 then [] else Hex(n / 16, w - 1, upper) + [HexDigit(n % 16, upper)]
  }

  function Pow16(w: nat): (p: nat)
    ensures p > 0
  {
    if w == 0 then 1 else 16 * Pow16(w - 1)
  }

  predicate IsHexDigit(c: char) {
    IsDigit(c) || 'A' <= c <= 'F' || 'a' <= c <= 'f'
  }

  function HexDigitValue(c: char): nat
    requires IsHexDigit(c)
  {
    if IsDigit(c) then (c - '0') as nat else if 'A' <= c <= 'F' then 10 + (c - 'A') as nat else 10 + (c - 'a') as nat
  }

  function HexValue(s: string): nat
    requires forall c <- s :: IsHexDigit(c)
  {
    if s == [] then 0 else
      assert IsHexDigit(s[|s| - 1]);
      16 * HexValue(s[..|s| - 1]) + HexDigitValue(s[|s| - 1])
  }

  lemma HexDigitReads(d: nat, upper: bool)
    requires d < 16
    ensures HexDigitValue(HexDigit(d, upper)) == d
    ensures upper ==> !('a' <= HexDigit(d, upper) <= 'f')
    ensures !upper ==> !('A' <= HexDigit(d, upper) <= 'F')
  {}

  /** Reading a printed hexadecimal number gives the number back, and its letters are of one case. */
  lemma {:induction false} ValueOfHex(n: nat, w: nat, upper: bool)
    requires n < Pow16(w)
    ensures HexValue(Hex(n, w, upper)) == n
    ensures forall c <- Hex(n, w, upper) :: if upper then !('a' <= c <= 'f') else !('A' <= c <= 'F')
  {
    hide HexDigit, HexDigitValue;
    if w > 0 {
      var s := Hex(n, w, upper);
      assert s[..w - 1] == Hex(n / 16, w - 1, upper) && s[w - 1] == HexDigit(n % 16, upper);
      HexDigitReads(n % 16, upper);
      ValueOfHex(n / 16, w - 1, upper);
    }
  }

  lemma HexInjective(m: nat, n: nat, w: nat, upper: bool)
    requires m < Pow16(w) && n < Pow16(w)
    requires Hex(m, w, upper) == Hex(n, w, upper)
    ensures m == n
  {
    ValueOfHex(m, w, upper);
    ValueOfHex(n, w, upper);
  }

  /** `%.1f` of a rate that is a whole number of halves. */
  function Halves(h: nat): (s: string)
    ensures s != [] && forall c <- s :: IsDigit(c) || c == '.'
  {
    Decimal(h / 2) + "." + (if h % 2 == 0 then "0" else "5")
  }

  lemma HalvesInjective(g: nat, h: nat)
    requires Halves(g) == Halves(h)
    ensures g == h
  {
    var s, t := Halves(g), Halves(h);
    assert s[..|s| - 2] == Decimal(g / 2) && t[..|t| - 2] == Decimal(h / 2);
    assert s[|s| - 1] == (if g % 2 == 0 then '0' else '5');
    assert t[|t| - 1] == (if h % 2 == 0 then '0' else '5');
    DecimalInjective(g / 2, h / 2);
  }
}
