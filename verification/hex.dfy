/**
 * `to_hex` (risc-v/__main__.py): the eight lower-case hexadecimal digits of
 * a register value, most significant first, as the breakpoint dump prints
 * them. Digit k from the right is `(value >> 4k) & 0xf`.
 */
module Hex {
  import opened Words
  import opened Bits

  /** `hex_lut`. */
  const HEX_DIGITS: string := "0123456789abcdef"

  /** The character of one digit value. */
  function Digit(d: int): (ch: char)
    requires 0 <= d < 16
    ensures ch == HEX_DIGITS[d]
    ensures ('0' <= ch <= '9') || ('a' <= ch <= 'f')
  {
    HEX_DIGITS[d]
  }

  /** The value of a hexadecimal digit character. */
  function DigitValue(ch: char): int
  {
    if '0' <= ch <= '9' then ch as int - '0' as int else ch as int - 'a' as int + 10
  }

  lemma DigitValueOfDigit(d: int)
    requires 0 <= d < 16
    ensures DigitValue(Digit(d)) == d
  {
  }

  /** The low n digits of v, most significant first. */
  function Digits(v: int, n: nat): (s: string)
    ensures |s| == n
    ensures forall i :: 0 <= i < n ==> ('0' <= s[i] <= '9') || ('a' <= s[i] <= 'f')
    decreases n
  {
    if n == 0 then "" else Digits(v / 16, n - 1) + [Digit(v % 16)]
  }

  /** `to_hex`. */
  function ToHex(value: int): (s: string)
    ensures |s| == 8 && forall i :: 0 <= i < 8 ==> ('0' <= s[i] <= '9') || ('a' <= s[i] <= 'f')
  {
    Digits(value, 8)
  }

  /** Reads a string of hexadecimal digits, most significant first. */
  function ParseHex(s: string): int
  {
    if s == [] then 0 else ParseHex(s[..|s| - 1]) * 16 + DigitValue(s[|s| - 1])
  }

  /** Digit k from the right of `Digits(v, n)` is `(v >> 4k) & 0xf`, as the source computes it. */
  lemma {:induction false} DigitsNibbles(v: int, n: nat, k: nat)
    requires k < n
    ensures Digits(v, n)[n - 1 - k] == HEX_DIGITS[(v / Pow2(4 * k)) % 16]
    decreases n
  {
    if k > 0 {
      DigitsNibbles(v / 16, n - 1, k - 1);
      Pow2Add(4, 4 * (k - 1));
      Pow2Values();
      DivDiv(v, 16, Pow2(4 * (k - 1)));
      assert 4 + 4 * (k - 1) == 4 * k;
    }
  }

  /** `to_hex` places nibble k of the value at position 7 - k. */
  lemma ToHexNibbles(value: int)
    ensures forall k :: 0 <= k < 8 ==> ToHex(value)[7 - k] == HEX_DIGITS[(value / Pow2(4 * k)) % 16]
  {
    forall k | 0 <= k < 8
      ensures ToHex(value)[7 - k] == HEX_DIGITS[(value / Pow2(4 * k)) % 16]
    {
      DigitsNibbles(value, 8, k);
    }
  }

  /** Reading the n digits back gives v modulo 16^n. */
  lemma {:induction false} DigitsRoundTrip(v: int, n: nat)
    ensures ParseHex(Digits(v, n)) == v % Pow2(4 * n)
    decreases n
  {
    if n == 0 {
      DivModUnique(v, 1, v, 0);
    } else {
      var s := Digits(v, n);
      var m := Pow2(4 * (n - 1));
      Pow2Add(4, 4 * (n - 1));
      Pow2Values();
      assert 4 + 4 * (n - 1) == 4 * n;
      assert Pow2(4 * n) == 16 * m;
      hide Pow2;
      assert s[..n - 1] == Digits(v / 16, n - 1);
      assert s[n - 1] == Digit(v % 16);
      DigitsRoundTrip(v / 16, n - 1);
      DigitValueOfDigit(v % 16);
      ModStep(v, m);
      assert ParseHex(s) == ParseHex(s[..n - 1]) * 16 + DigitValue(s[n - 1]);
    }
  }

  /** v mod 16m from v / 16 mod m and the low digit. */
  lemma ModStep(v: int, m: int)
    requires m > 0
    ensures ((v / 16) % m) * 16 + v % 16 == v % (16 * m)
  {
    var q := (v / 16) / m;
    var r := (v / 16) % m;
    assert v / 16 == m * q + r;
    assert v == 16 * (v / 16) + v % 16;
    assert v == (16 * m) * q + (16 * r + v % 16);
    DivModUnique(v, 16 * m, q, 16 * r + v % 16);
  }

  /** `to_hex` shows exactly the low 32 bits of its argument. */
  lemma HexRoundTrip(value: int)
    ensures ParseHex(ToHex(value)) == value % TWO_32
  {
    DigitsRoundTrip(value, 8);
    Pow2Values();
  }
}
