/**
 * Python's `int(text, base)` on the strings `parse_color` hands it, and the
 * two ways of writing a channel value that parse back: `str(n)` and `'%02x' % n`.
 */
module Numerals {
  import opened Wrappers
  import opened Text

  /** The value of `c` as a digit of `int()`: 0-9, then a/A = 10 up to z/Z = 35; 36 for any other character. */
  function DigitValue(c: char): nat {
    if '0' <= c <= '9' then c as int - '0' as int
    else if 'a' <= c <= 'z' then c as int - 'a' as int + 10
    else if 'A' <= c <= 'Z' then c as int - 'A' as int + 10
    else 36
  }

  predicate IsDigit(c: char, base: nat) {
    DigitValue(c) < base
  }

  /**
   * A run of digits as `int()` accepts it: digits and underscores, starting
   * and ending with a digit, never two underscores in a row.
   */
  predicate WellFormedDigits(v: string, base: nat) {
    && |v| > 0
    && IsDigit(v[0], base)
    && IsDigit(v[|v| - 1], base)
    && (forall k :: 0 <= k < |v| ==> IsDigit(v[k], base) || v[k] == '_')
    && (forall k :: 0 < k < |v| ==> !DoubleUnderscoreAt(v, k))
  }

  /** Positions `k - 1` and `k` both hold an underscore. */
  predicate DoubleUnderscoreAt(v: string, k: nat)
    requires 0 < k < |v|
  {
    v[k - 1] == '_' && v[k] == '_'
  }

  /** The number a run of digits denotes, most significant first, underscores skipped. */
  function Value(v: string, base: nat): nat
    decreases |v|
  {
    if v == [] then 0
    else if IsDigit(v[|v| - 1], base) then Value(v[..|v| - 1], base) * base + DigitValue(v[|v| - 1])
    else Value(v[..|v| - 1], base)
  }

  /** After the sign: a `0x`/`0X` prefix is dropped in base 16, with one underscore after it. */
  function DropRadixPrefix(u: string, base: nat): string {
    if base == 16 && |u| >= 2 && u[0] == '0' && (u[1] == 'x' || u[1] == 'X') then
      if |u| >= 3 && u[2] == '_' then u[3..] else u[2..]
    else u
  }

  /** The text after an optional leading sign. */
  function Unsigned(t: string): (u: string)
    ensures |u| <= |t|
  {
    if |t| > 0 && (t[0] == '+' || t[0] == '-') then t[1..] else t
  }

  /** The run of digits `int(s, base)` reads: stripped, unsigned, without a radix prefix. */
  function DigitsPart(s: string, base: nat): string {
    DropRadixPrefix(Unsigned(Strip(s, IsIntSpace)), base)
  }

  /**
   * `int(s, base)`: surrounding whitespace, then an optional sign, then (in
   * base 16) an optional prefix, then a well-formed run of digits; `None`
   * where Python raises `ValueError`.
   */
  function ParseInt(s: string, base: nat): Option<int>
    requires 2 <= base <= 36
  {
    var t := Strip(s, IsIntSpace);
    var digits := DigitsPart(s, base);
    if WellFormedDigits(digits, base) then
      var v: int := Value(digits, base);
      Some(if |t| > 0 && t[0] == '-' then -v else v)
    else None
  }

  /** A string of plain digits parses to the number it denotes. */
  lemma ParseIntDigits(s: string, base: nat)
    requires 2 <= base <= 36
    requires |s| > 0 && forall k :: 0 <= k < |s| ==> IsDigit(s[k], base)
    ensures ParseInt(s, base) == Some(Value(s, base))
  {
    DigitNotIntSpace(s[0], base);
    DigitNotIntSpace(s[|s| - 1], base);
    assert Strip(s, IsIntSpace) == s;
    assert s[0] != '+' && s[0] != '-';
    assert Unsigned(s) == s;
    assert base == 16 && |s| >= 2 ==> DigitValue(s[1]) < 16;
    assert DigitsPart(s, base) == s;
    assert WellFormedDigits(s, base);
  }

  /** No digit is whitespace to `int()`. */
  lemma DigitNotIntSpace(c: char, base: nat)
    requires base <= 36 && IsDigit(c, base)
    ensures !IsIntSpace(c)
  {
  }

  /** Two digits denote the first times the base plus the second. */
  lemma ValueOfTwo(v: string, base: nat)
    requires |v| == 2 && IsDigit(v[0], base) && IsDigit(v[1], base)
    ensures Value(v, base) == DigitValue(v[0]) * base + DigitValue(v[1])
  {
    var first := v[..1];
    assert first[..0] == [] && first[0] == v[0];
    assert Value(first, base) == DigitValue(v[0]);
  }

  /** One digit denotes its own value. */
  lemma ValueOfOne(v: string, base: nat)
    requires |v| == 1 && IsDigit(v[0], base)
    ensures Value(v, base) == DigitValue(v[0])
  {
    assert v[..0] == [];
  }

  /**
   * A two-character field in base 16 (a pair of `#RRGGBB`) parses, if at all,
   * to a value in -15..255, and to a negative value only when it starts with `-`.
   */
  lemma ParseHexPairBounds(p: string)
    requires |p| == 2
    ensures ParseInt(p, 16).Some? ==> -15 <= ParseInt(p, 16).value <= 255
    ensures ParseInt(p, 16).Some? && ParseInt(p, 16).value < 0 ==> p[0] == '-'
  {
    var digits := DigitsPart(p, 16);
    if WellFormedDigits(digits, 16) {
      var t := Strip(p, IsIntSpace);
      var i := StripSlice(p, IsIntSpace);
      assert |digits| <= |Unsigned(t)| <= |t| <= 2;
      ShortDigitsAreDigits(digits, 16);
      if |digits| == 2 {
        assert t == p && Unsigned(t) == t;
        ValueOfTwo(digits, 16);
      } else {
        ValueOfOne(digits, 16);
        assert |t| == 2 && t[0] == '-' ==> t == p;
      }
    }
  }

  /** A minus sign followed by one digit parses to minus that digit's value. */
  lemma SignedDigitParses(p: string, base: nat)
    requires 2 <= base <= 36
    requires |p| == 2 && p[0] == '-' && IsDigit(p[1], base)
    ensures ParseInt(p, base) == Some(-(DigitValue(p[1]) as int))
  {
    DigitNotIntSpace(p[1], base);
    assert Strip(p, IsIntSpace) == p;
    assert DigitsPart(p, base) == p[1..];
    ValueOfOne(p[1..], base);
  }

  /** A well-formed run of at most two characters has no underscore. */
  lemma ShortDigitsAreDigits(v: string, base: nat)
    requires |v| <= 2 && WellFormedDigits(v, base)
    ensures forall k :: 0 <= k < |v| ==> IsDigit(v[k], base)
  {
  }

  /** A character that is no digit, no sign and no space makes a two-character base-16 field invalid. */
  lemma HexPairStrayCharacter(p: string, k: nat)
    requires |p| == 2 && k < 2
    requires !IsDigit(p[k], 16) && p[k] != '+' && p[k] != '-' && !IsIntSpace(p[k])
    ensures ParseInt(p, 16) == None
  {
    var t := Strip(p, IsIntSpace);
    var i := StripSlice(p, IsIntSpace);
    assert i <= k < i + |t|;
    assert t[k - i] == p[k];
    var digits := DigitsPart(p, 16);
    if WellFormedDigits(digits, 16) {
      ShortDigitsAreDigits(digits, 16);
      assert false;
    }
  }

  /** The character for a decimal digit. */
  function DecimalDigit(d: nat): (c: char)
    requires d < 10
    ensures IsDigit(c, 10) && DigitValue(c) == d
  {
    ('0' as int + d) as char
  }

  /** The character for a hexadecimal digit, lower case as `'%02x'` writes it. */
  function HexDigit(d: nat): (c: char)
    requires d < 16
    ensures IsDigit(c, 16) && DigitValue(c) == d
  {
    if d < 10 then ('0' as int + d) as char else ('a' as int + d - 10) as char
  }

  /** `str(n)`: the decimal digits of `n`, no sign, no leading zero. */
  function FormatDecimal(n: nat): (s: string)
    ensures |s| > 0 && forall k :: 0 <= k < |s| ==> IsDigit(s[k], 10)
    ensures ',' !in s
    decreases n
  {
    if n < 10 then [DecimalDigit(n)] else FormatDecimal(n / 10) + [DecimalDigit(n % 10)]
  }

  /** `'%02x' % n` for a channel value: exactly two lower-case hex digits. */
  function FormatHexByte(n: nat): (s: string)
    requires n < 256
    ensures |s| == 2 && IsDigit(s[0], 16) && IsDigit(s[1], 16)
  {
    [HexDigit(n / 16), HexDigit(n % 16)]
  }

  /** The digits `str(n)` writes denote `n`. */
  lemma {:induction false} FormatDecimalValue(n: nat)
    ensures Value(FormatDecimal(n), 10) == n
    decreases n
  {
    var s := FormatDecimal(n);
    if n < 10 {
      assert s[..0] == [];
    } else {
      FormatDecimalValue(n / 10);
      assert s[..|s| - 1] == FormatDecimal(n / 10);
    }
  }

  /** `int(str(n))` is `n` for every natural number. */
  lemma DecimalRoundTrip(n: nat)
    ensures ParseInt(FormatDecimal(n), 10) == Some(n)
  {
    ParseIntDigits(FormatDecimal(n), 10);
    FormatDecimalValue(n);
  }

  /** `int('%02x' % n, 16)` is `n` for every channel value. */
  lemma HexByteRoundTrip(n: nat)
    requires n < 256
    ensures ParseInt(FormatHexByte(n), 16) == Some(n)
  {
    ParseIntDigits(FormatHexByte(n), 16);
    HexByteValue(n);
  }

  /** The two digits `'%02x'` writes denote `n`. */
  lemma HexByteValue(n: nat)
    requires n < 256
    ensures Value(FormatHexByte(n), 16) == n
  {
    var s := FormatHexByte(n);
    ValueOfTwo(s, 16);
    assert DigitValue(s[0]) == n / 16 && DigitValue(s[1]) == n % 16;
  }
}
