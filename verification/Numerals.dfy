/** Decimal and hexadecimal numerals and their readers, and rounding. */
module Numerals {
  import opened Text

  function DigitValue(c: char): nat
    requires IsDigit(c)
  {
    (c - '0') as int
  }

  function DigitChar(d: nat): (c: char)
    requires d < 10
    ensures IsDigit(c) && DigitValue(c) == d
  {
    '0' + d as char
  }

  /** The decimal numeral of a number, without leading zeros. */
  function Dec(n: nat): (s: string)
    ensures |s| > 0 && All(s, IsDigit)
  {
    if n < 10 then [DigitChar(n)] else Dec(n / 10) + [DigitChar(n % 10)]
  }

  function DecValue(s: string): nat
    requires All(s, IsDigit)
  {
    if s == [] then 0 else 10 * DecValue(s[..|s| - 1]) + DigitValue(s[|s| - 1])
  }

  lemma {:induction false} DecRoundTrip(n: nat)
    ensures DecValue(Dec(n)) == n
  {
    if n >= 10 {
      DecRoundTrip(n / 10);
      assert Dec(n)[..|Dec(n)| - 1] == Dec(n / 10);
    } else {
      assert Dec(n)[..0] == "";
    }
  }

  lemma DigitRoundTrip(c: char)
    requires IsDigit(c)
    ensures DigitChar(DigitValue(c)) == c
  {
  }

  /** Reading back: a numeral without leading zeros is the numeral of its value. */
  lemma {:induction false} DecOfValue(s: string)
    requires |s| > 0 && All(s, IsDigit) && (|s| > 1 ==> s[0] != '0')
    ensures Dec(DecValue(s)) == s
    ensures |s| > 1 ==> DecValue(s) >= 10
  {
    var front, d := s[..|s| - 1], s[|s| - 1];
    DigitRoundTrip(d);
    if |s| == 1 {
      assert s == [d];
    } else {
      DecOfValue(front);
      if |front| == 1 {
        assert DecValue(front[..0]) == 0;
        assert DecValue(front) == DigitValue(front[0]);
      }
      assert s == front + [d];
    }
  }

  lemma {:induction false} DecNoLeadingZero(n: nat)
    ensures |Dec(n)| > 1 ==> Dec(n)[0] != '0' && n >= 10
    ensures n > 0 ==> Dec(n)[0] != '0'
  {
    if n >= 10 {
      DecNoLeadingZero(n / 10);
    }
  }

  lemma OctetLength(n: nat)
    requires n < 1000
    ensures |Dec(n)| <= 3
  {
    if n >= 10 {
      assert |Dec(n)| == |Dec(n / 10)| + 1;
      if n >= 100 {
        assert |Dec(n / 10)| == |Dec(n / 10 / 10)| + 1;
      }
    }
  }

  /** The digits, by name. */
  lemma DigitNames(d: nat)
    ensures d < 10 ==> DigitChar(d) == "0123456789"[d] && DigitValue("0123456789"[d]) == d
    ensures d < 16 ==> HexChar(d) == "0123456789abcdef"[d]
    ensures d < 16 ==> HexDigit("0123456789abcdef"[d]) == d && HexDigit("0123456789ABCDEF"[d]) == d
  {
  }

  lemma DecSnoc(s: string, c: char)
    requires All(s, IsDigit) && IsDigit(c)
    ensures DecValue(s + [c]) == 10 * DecValue(s) + DigitValue(c)
  {
    assert (s + [c])[..|s|] == s;
  }

  // ----- rounding

  /** The nearest integer, of two the even one. */
  function Nearest(x: real): (n: int)
    ensures -0.5 <= n as real - x <= 0.5
    ensures x == x.Floor as real ==> n as real == x
  {
    var below := x.Floor;
    var over := x - below as real;
    if over < 0.5 || (over == 0.5 && below % 2 == 0) then below else below + 1
  }

  // ----- hexadecimal

  function HexDigit(c: char): (d: nat)
    requires IsHex(c)
    ensures d < 16
  {
    if IsDigit(c) then (c - '0') as int
    else if 'a' <= c <= 'f' then (c - 'a') as int + 10
    else (c - 'A') as int + 10
  }

  function HexChar(d: nat): (c: char)
    requires d < 16
    ensures IsHex(c) && HexDigit(c) == d && c != '.' && c != ':'
  {
    if d < 10 then '0' + d as char else 'a' + (d - 10) as char
  }

  function HexValue(s: string): nat
    requires All(s, IsHex)
  {
    if s == [] then 0 else 16 * HexValue(s[..|s| - 1]) + HexDigit(s[|s| - 1])
  }

  /** Neither letter case nor leading zeros matter. */
  lemma {:induction false} HexLower(s: string)
    requires All(s, IsHex)
    ensures All(Lower(s), IsHex) && HexValue(Lower(s)) == HexValue(s)
  {
    if s != [] {
      var front, d := s[..|s| - 1], s[|s| - 1];
      HexLower(front);
      assert Lower(s)[..|s| - 1] == Lower(front);
    }
  }

  lemma {:induction false} HexLeadingZero(s: string)
    requires All(s, IsHex)
    ensures HexValue("0" + s) == HexValue(s)
  {
    if s != [] {
      HexLeadingZero(s[..|s| - 1]);
      assert ("0" + s)[..|s|] == "0" + s[..|s| - 1];
    } else {
      assert ("0" + s)[..0] == "";
    }
  }

  /** The four-digit numeral of a 16-bit group. */
  function Hex4(g: nat): (s: string)
    requires g < 0x10000
    ensures |s| == 4 && All(s, IsHex)
  {
    [HexChar(g / 4096), HexChar(g / 256 % 16), HexChar(g / 16 % 16), HexChar(g % 16)]
  }

  lemma HexSnoc(s: string, d: nat)
    requires All(s, IsHex) && d < 16
    ensures All(s + [HexChar(d)], IsHex) && HexValue(s + [HexChar(d)]) == 16 * HexValue(s) + d
  {
    assert (s + [HexChar(d)])[..|s|] == s;
  }

  lemma Hex4RoundTrip(g: nat)
    requires g < 0x10000
    ensures HexValue(Hex4(g)) == g
  {
    var a, b, c, d := g / 4096, g / 256 % 16, g / 16 % 16, g % 16;
    HexSnoc("", a);
    HexSnoc("" + [HexChar(a)], b);
    HexSnoc("" + [HexChar(a)] + [HexChar(b)], c);
    HexSnoc("" + [HexChar(a)] + [HexChar(b)] + [HexChar(c)], d);
    assert Hex4(g) == "" + [HexChar(a)] + [HexChar(b)] + [HexChar(c)] + [HexChar(d)];
    Base16(g);
  }

  lemma Base16(g: nat)
    ensures g == 16 * (16 * (16 * (g / 4096) + g / 256 % 16) + g / 16 % 16) + g % 16
  {
    var x, y := g / 16, g / 256;
    assert y == x / 16 && g / 4096 == y / 16;
  }

  lemma {:induction false} HexBound(s: string)
    requires All(s, IsHex) && |s| <= 4
    ensures HexValue(s) < 0x10000
    ensures |s| <= 3 ==> HexValue(s) < 0x1000
    ensures |s| <= 2 ==> HexValue(s) < 0x100
    ensures |s| <= 1 ==> HexValue(s) < 0x10
  {
    if s != [] {
      HexBound(s[..|s| - 1]);
    }
  }
}
