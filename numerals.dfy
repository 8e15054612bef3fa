/** Decimal rendering of integers as JavaScript's String(n) and padStart produce it,
    and reading such a rendering back. */
module Numerals {
  import opened Wrappers

  predicate IsDigit(c: char) {
    '0' <= c <= '9'
  }

  predicate AllDigits(s: string) {
    forall i :: 0 <= i < |s| ==> IsDigit(s[i])
  }

  function DigitChar(d: nat): (c: char)
    requires d < 10
    ensures IsDigit(c) && c as int - '0' as int == d
  {
    ('0' as int + d) as char
  }

  function DigitValue(c: char): (d: nat)
    requires IsDigit(c)
    ensures d < 10 && DigitChar(d) == c
  {
    c as int - '0' as int
  }

  /** String(n) for a non-negative integer: shortest decimal form, no leading zero. */
  function NatStr(n: nat): (s: string)
    ensures 1 <= |s| && AllDigits(s)
    ensures (s[0] == '0') <==> (n == 0)
    ensures n < 10 <==> |s| == 1
    decreases n
  {
    if n < 10 then [DigitChar(n)] else NatStr(n / 10) + [DigitChar(n % 10)]
  }

  /** String(i) for any integer: a minus sign before the magnitude of a negative value. */
  function IntStr(i: int): (s: string)
    ensures i >= 0 ==> s == NatStr(i)
    ensures i < 0 ==> s == "-" + NatStr(-i)
  {
    if i < 0 then "-" + NatStr(-i) else NatStr(i)
  }

  function Repeat(c: char, k: nat): (s: string)
    ensures |s| == k && forall i :: 0 <= i < k ==> s[i] == c
  {
    if k == 0 then [] else [c] + Repeat(c, k - 1)
  }

  /** s.padStart(width, c) for a one-character filler. */
  function PadStart(s: string, width: nat, c: char): (r: string)
    ensures |r| == if |s| >= width then |s| else width
    ensures r[|r| - |s|..] == s
    ensures forall i :: 0 <= i < |r| - |s| ==> r[i] == c
  {
    if |s| >= width then s else Repeat(c, width - |s|) + s
  }

  /** String(n).padStart(2, "0") */
  function Pad2(n: nat): string {
    PadStart(NatStr(n), 2, '0')
  }

  /** The value of a string of decimal digits (leading zeros allowed). */
  function ParseNat(s: string): nat
    requires AllDigits(s)
  {
    if s == [] then 0 else 10 * ParseNat(s[..|s| - 1]) + DigitValue(s[|s| - 1])
  }

  function Pow10(k: nat): (p: nat)
    ensures p >= 1
  {
    if k == 0 then 1 else 10 * Pow10(k - 1)
  }

  lemma FourDigits(n: nat)
    requires 1000 <= n <= 9999
    ensures |NatStr(n)| == 4
  {
    assert Pow10(3) == 1000 by {
      assert Pow10(1) == 10;
      assert Pow10(2) == 100;
    }
    NatStrLength(n, 4);
  }

  /** Reading the decimal form back gives the number: String(n) is a faithful encoding. */
  lemma {:induction false} ParseNatStr(n: nat)
    ensures ParseNat(NatStr(n)) == n
    decreases n
  {
    if n >= 10 {
      var s := NatStr(n);
      assert s[..|s| - 1] == NatStr(n / 10);
      ParseNatStr(n / 10);
    }
  }

  lemma NatStrInjective(a: nat, b: nat)
    requires NatStr(a) == NatStr(b)
    ensures a == b
  {
    ParseNatStr(a);
    ParseNatStr(b);
  }

  /** A number with exactly k digits renders in exactly k characters. */
  lemma {:induction false} NatStrLength(n: nat, k: nat)
    requires 1 <= k && Pow10(k - 1) <= n < Pow10(k)
    ensures |NatStr(n)| == k
    decreases k
  {
    if k > 1 {
      assert Pow10(k - 2) <= n / 10 < Pow10(k - 1);
      NatStrLength(n / 10, k - 1);
    }
  }

  /** Two-digit zero padding of a number below 100 is its tens digit followed by its units digit. */
  lemma Pad2Digits(n: nat)
    requires n < 100
    ensures Pad2(n) == [DigitChar(n / 10), DigitChar(n % 10)]
  {
    if n >= 10 {
      assert NatStr(n / 10) == [DigitChar(n / 10)];
    }
  }

  /** padStart(2, "0") is undone by reading the digits back, for every n below 100. */
  lemma Pad2RoundTrip(n: nat)
    requires n < 100
    ensures |Pad2(n)| == 2 && AllDigits(Pad2(n)) && ParseNat(Pad2(n)) == n
  {
    Pad2Digits(n);
    var s := Pad2(n);
    var t := s[..1];
    assert t == [DigitChar(n / 10)];
    assert t[..0] == [];
    assert ParseNat(t) == n / 10;
    assert ParseNat(s) == 10 * ParseNat(t) + n % 10;
  }

  /** The digits of a String(n), with a minus sign in front when negative. */
  function ParseInt(s: string): Option<int> {
    if |s| >= 2 && s[0] == '-' && AllDigits(s[1..]) then Some(-(ParseNat(s[1..]) as int))
    else if |s| >= 1 && AllDigits(s) then Some(ParseNat(s))
    else None
  }

  /** Reading String(i) back gives i. */
  lemma IntStrRoundTrip(i: int)
    ensures ParseInt(IntStr(i)) == Some(i)
  {
    var t := IntStr(i);
    if i < 0 {
      var s := NatStr(-i);
      ParseNatStr(-i);
      assert t == "-" + s;
      assert t[0] == '-' && t[1..] == s;
    } else {
      ParseNatStr(i);
      assert IsDigit(t[0]);
    }
  }
}
