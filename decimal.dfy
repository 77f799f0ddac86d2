/** Decimal rendering of a part number: `uint.ToString()` followed by
    `PadLeft(3, '0')`, as used to build the part file extension. */
module Decimal {

  predicate IsDigit(c: char) {
    '0' <= c <= '9'
  }

  predicate AllDigits(s: string) {
    forall i :: 0 <= i < |s| ==> IsDigit(s[i])
  }

  function Digit(d: nat): (c: char)
    requires d < 10
    ensures IsDigit(c) && c as int - '0' as int == d
  {
    ('0' as int + d) as char
  }

  /** The numeric value of a string of decimal digits; leading zeros add nothing. */
  function Value(s: string): nat
    requires AllDigits(s)
  {
    if s == [] then 0 else Value(s[..|s| - 1]) * 10 + (s[|s| - 1] as int - '0' as int)
  }

  /** `n.ToString()` for a non-negative integer: the shortest decimal rendering. */
  function ToDecimal(n: nat): (s: string)
    ensures |s| >= 1 && AllDigits(s)
    ensures n > 0 ==> s[0] != '0'
  {
    if n < 10 then [Digit(n)] else ToDecimal(n / 10) + [Digit(n % 10)]
  }

  lemma {:induction false} ValueOfDecimal(n: nat)
    ensures Value(ToDecimal(n)) == n
  {
    if n >= 10 {
      var s := ToDecimal(n);
      assert s[..|s| - 1] == ToDecimal(n / 10);
      ValueOfDecimal(n / 10);
    }
  }

  function Repeat(c: char, n: nat): (s: string)
    ensures |s| == n && forall i :: 0 <= i < n ==> s[i] == c
  {
    if n == 0 then "" else Repeat(c, n - 1) + [c]
  }

  /** `s.PadLeft(width, c)`: `s` preceded by as many copies of `c` as make
      it `width` long, or `s` itself when it is already that long. */
  function PadLeft(s: string, width: nat, c: char): (r: string)
    ensures |r| == if |s| >= width then |s| else width
    ensures r[|r| - |s|..] == s
    ensures forall i :: 0 <= i < |r| - |s| ==> r[i] == c
  {
    if |s| >= width then s else Repeat(c, width - |s|) + s
  }

  lemma {:induction false} LeadingZerosAddNothing(z: nat, s: string)
    requires AllDigits(s)
    ensures AllDigits(Repeat('0', z) + s)
    ensures Value(Repeat('0', z) + s) == Value(s)
    decreases |s|, z
  {
    var t := Repeat('0', z) + s;
    if s == [] {
      assert t == Repeat('0', z);
      if z > 0 {
        assert t[..|t| - 1] == Repeat('0', z - 1) + [];
        LeadingZerosAddNothing(z - 1, []);
      }
    } else {
      assert t[..|t| - 1] == Repeat('0', z) + s[..|s| - 1];
      LeadingZerosAddNothing(z, s[..|s| - 1]);
    }
  }

  lemma PaddedValue(d: string, width: nat)
    requires AllDigits(d)
    ensures AllDigits(PadLeft(d, width, '0')) && Value(PadLeft(d, width, '0')) == Value(d)
  {
    if |d| < width {
      LeadingZerosAddNothing(width - |d|, d);
    }
  }

  /** The part number of part `n`: its decimal digits, padded with zeros to
      three. */
  function PartNumber(n: nat): string {
    PadLeft(ToDecimal(n), 3, '0')
  }

  /** A part number has at least three digits and value `n`; below 1000 it
      has exactly three, and from 1000 on it is the plain decimal form, with
      no leading zero. */
  lemma PartNumberShape(n: nat)
    ensures var s := PartNumber(n);
      && |s| >= 3 && AllDigits(s) && Value(s) == n
      && (n < 1000 ==> |s| == 3)
      && (|s| > 3 ==> s[0] != '0')
      && (n >= 1000 ==> s == ToDecimal(n))
  {
    var d := ToDecimal(n);
    ValueOfDecimal(n);
    ShortDecimal(n);
    PaddedValue(d, 3);
    LongDecimal(n);
  }

  /** Part 0 is numbered "000". */
  lemma PartNumberZero()
    ensures PartNumber(0) == "000"
  {
    var s := PartNumber(0);
    assert ToDecimal(0) == "0";
    assert s[2] == '0';
    assert s[..2] == Repeat('0', 2);
  }

  lemma ShortDecimal(n: nat)
    ensures n < 1000 ==> |ToDecimal(n)| <= 3
  {
    if 10 <= n < 1000 {
      assert n / 10 < 100;
      if n / 10 >= 10 {
        assert n / 10 / 10 < 10;
        assert |ToDecimal(n / 10)| == 2;
      }
    }
  }

  lemma LongDecimal(n: nat)
    ensures n >= 1000 ==> |ToDecimal(n)| >= 3
  {
    if n >= 1000 {
      assert n / 10 >= 100;
    }
  }

  /** Different parts get different part numbers. */
  lemma PartNumberInjective(m: nat, n: nat)
    ensures PartNumber(m) == PartNumber(n) <==> m == n
  {
    PartNumberShape(m);
    PartNumberShape(n);
  }
}
