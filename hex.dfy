/** Rendering of a 32-bit value with the .NET format string "X8":
    exactly eight upper-case hexadecimal digits, most significant first. */
module Hex {
  import opened Types

  predicate IsHexDigit(c: char) {
    '0' <= c <= '9' || 'A' <= c <= 'F'
  }

  predicate AllHexDigits(s: string) {
    forall i :: 0 <= i < |s| ==> IsHexDigit(s[i])
  }

  function DigitValue(c: char): (d: nat)
    requires IsHexDigit(c)
    ensures d < 16
  {
    if c <= '9' then c as int - '0' as int else c as int - 'A' as int + 10
  }

  function Digit(d: nat): (c: char)
    requires d < 16
    ensures IsHexDigit(c) && DigitValue(c) == d
  {
    if d < 10 then ('0' as int + d) as char else ('A' as int + d - 10) as char
  }

  function Pow16(n: nat): (p: nat)
    ensures p > 0
  {
    if n == 0 then 1 else 16 * Pow16(n - 1)
  }

  /** The numeric value of a string of hexadecimal digits (the inverse of rendering). */
  function Value(s: string): nat
    requires AllHexDigits(s)
  {
    if s == [] then 0 else Value(s[..|s| - 1]) * 16 + DigitValue(s[|s| - 1])
  }

  /** The lowest `width` hexadecimal digits of `v`, zero-padded. */
  function Digits(v: nat, width: nat): (s: string)
    ensures |s| == width && AllHexDigits(s)
  {
    if width == 0 then "" else Digits(v / 16, width - 1) + [Digit(v % 16)]
  }

  lemma {:induction false} ValueOfDigits(v: nat, width: nat)
    requires v < Pow16(width)
    ensures Value(Digits(v, width)) == v
  {
    if width > 0 {
      var s := Digits(v, width);
      assert s[..|s| - 1] == Digits(v / 16, width - 1);
      ValueOfDigits(v / 16, width - 1);
    }
  }

  lemma {:induction false} DigitsOfValue(s: string)
    requires AllHexDigits(s)
    ensures Value(s) < Pow16(|s|)
    ensures Digits(Value(s), |s|) == s
  {
    if s != [] {
      var init := s[..|s| - 1];
      DigitsOfValue(init);
      var v := Value(s);
      assert v / 16 == Value(init) && v % 16 == DigitValue(s[|s| - 1]);
      assert Digit(v % 16) == s[|s| - 1];
      assert s == init + [s[|s| - 1]];
    }
  }

  lemma Pow16Of8()
    ensures Pow16(8) == 0x1_0000_0000
  {
    assert Pow16(2) == 256;
    assert Pow16(4) == 65536 by { assert Pow16(4) == 256 * Pow16(2); }
    assert Pow16(6) == 16777216 by { assert Pow16(6) == 256 * Pow16(4); }
    assert Pow16(8) == 256 * Pow16(6);
  }

  /** `v.ToString("X8")`: eight digits whose value is `v`. */
  function X8(v: uint32): (s: string)
    ensures |s| == 8 && AllHexDigits(s) && Value(s) == v
  {
    Pow16Of8();
    ValueOfDigits(v, 8);
    Digits(v, 8)
  }

  /** Every eight-digit upper-case hexadecimal string is the rendering of exactly one value. */
  lemma X8Surjective(s: string)
    requires |s| == 8 && AllHexDigits(s)
    ensures Value(s) < 0x1_0000_0000 && X8(Value(s)) == s
  {
    DigitsOfValue(s);
    Pow16Of8();
  }

  lemma X8Injective(a: uint32, b: uint32)
    ensures X8(a) == X8(b) <==> a == b
  {
  }
}
