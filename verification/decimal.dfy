/**
 Decimal rendering of natural numbers as Python's `str` produces it, the
 `zfill` left-padding with zeros, and `Parse`, the inverse reading of a run of
 decimal digits.
 */
module Decimal {

  predicate IsDigit(c: char) {
    '0' <= c <= '9'
  }

  predicate AllDigits(s: string) {
    forall i :: 0 <= i < |s| ==> IsDigit(s[i])
  }

  function DigitChar(n: nat): (c: char)
    requires n < 10
    ensures IsDigit(c)
  {
    (n + '0' as int) as char
  }

  function DigitValue(c: char): (n: nat)
    requires IsDigit(c)
    ensures n < 10
    ensures DigitChar(n) == c
  {
    c as int - '0' as int
  }

  /** Python's `str(n)` for n >= 0: decimal digits, no leading zero except for 0 itself. */
  function Show(n: nat): (s: string)
    ensures 1 <= |s|
    ensures AllDigits(s)
    ensures s[0] == '0' <==> n == 0
    ensures |s| == 1 <==> n < 10
  {
    if n < 10 then [DigitChar(n)] else Show(n / 10) + [DigitChar(n % 10)]
  }

  /** The value of a string of decimal digits (0 for the empty string). */
  function Parse(s: string): nat
    requires AllDigits(s)
  {
    if |s| == 0 then 0 else Parse(s[..|s| - 1]) * 10 + DigitValue(s[|s| - 1])
  }

  /** Reading back what `Show` wrote gives the number. */
  lemma {:induction false} ParseShow(n: nat)
    ensures Parse(Show(n)) == n
  {
    var s := Show(n);
    if n >= 10 {
      ParseShow(n / 10);
      assert s[..|s| - 1] == Show(n / 10);
    }
  }

  /** A digit string without a leading zero has a positive value. */
  lemma {:induction false} ParsePositive(s: string)
    requires 1 <= |s| && AllDigits(s) && s[0] != '0'
    ensures 1 <= Parse(s)
  {
    if |s| > 1 {
      ParsePositive(s[..|s| - 1]);
    }
  }

  /** A digit string without a leading zero is exactly what `Show` writes for its value. */
  lemma {:induction false} ShowParse(s: string)
    requires 1 <= |s| && AllDigits(s) && s[0] != '0'
    ensures Show(Parse(s)) == s
  {
    var init, c := s[..|s| - 1], s[|s| - 1];
    if |s| > 1 {
      ParsePositive(init);
      ShowParse(init);
      var n := Parse(s);
      assert n / 10 == Parse(init) && n % 10 == DigitValue(c);
      assert s == init + [c];
    }
  }

  /** Numbers from 1000 to 9999 have exactly four digits. */
  lemma ShowFourDigits(n: nat)
    requires 1000 <= n <= 9999
    ensures |Show(n)| == 4
  {
    var a, b, c := n / 10, n / 100, n / 1000;
    assert a / 10 == b && b / 10 == c;
    assert 1 <= c < 10 && 10 <= b && 100 <= a;
    assert |Show(b)| == |Show(c)| + 1 == 2;
    assert |Show(a)| == 3;
  }

  /** `Show` is injective. */
  lemma ShowInjective(a: nat, b: nat)
    requires Show(a) == Show(b)
    ensures a == b
  {
    ParseShow(a);
    ParseShow(b);
  }

  function Zeros(n: nat): (s: string)
    ensures |s| == n
    ensures forall i :: 0 <= i < n ==> s[i] == '0'
  {
    if n == 0 then [] else Zeros(n - 1) + ['0']
  }

  /** Python's `s.zfill(width)` on an unsigned string: pad with '0' on the left to `width`. */
  function ZFill(s: string, width: nat): (r: string)
    ensures |r| == if |s| >= width then |s| else width
  {
    if |s| >= width then s else Zeros(width - |s|) + s
  }

  /**
   `zfill` keeps the string as its suffix and adds only zeros in front of it,
   and adds nothing once the string is already `width` long.
   */
  lemma ZFillPads(s: string, width: nat)
    ensures var r := ZFill(s, width);
      && r[|r| - |s|..] == s
      && (forall i :: 0 <= i < |r| - |s| ==> r[i] == '0')
      && (|s| >= width ==> r == s)
  {
  }

  /** A month or day number as the file name writes it: `str(n).zfill(2)`. */
  function Pad2(n: nat): (r: string)
    ensures 2 <= |r|
    ensures n < 100 ==> |r| == 2
    ensures AllDigits(r)
  {
    ZFill(Show(n), 2)
  }

  /** Below 10, `zfill(2)` puts one '0' in front of the single digit. */
  lemma Pad2Below10(n: nat)
    requires 1 <= n < 10
    ensures Pad2(n) == ['0', DigitChar(n)]
    ensures Parse(Pad2(n)) == n
  {
    var p := ['0', DigitChar(n)];
    assert p[..1] == ['0'] && p[..1][..0] == [];
    assert DigitValue(DigitChar(n)) == n;
    assert Parse(['0']) == 0;
  }

  /** From 10 to 99, `str(n)` already has two digits and `zfill(2)` keeps it. */
  lemma Pad2From10(n: nat)
    requires 10 <= n <= 99
    ensures Pad2(n) == Show(n)
    ensures |Pad2(n)| == 2
    ensures Parse(Pad2(n)) == n
  {
    assert |Show(n / 10)| == 1;
    ParseShow(n);
  }

  /**
   For 1 .. 99 the padded field is exactly two digits: a leading '0' is added
   below 10 and `str(n)` is kept unchanged from 10 on; the field reads back as n.
   */
  lemma Pad2TwoDigits(n: nat)
    requires 1 <= n <= 99
    ensures |Pad2(n)| == 2
    ensures AllDigits(Pad2(n))
    ensures n < 10 ==> Pad2(n) == ['0'] + Show(n)
    ensures 10 <= n ==> Pad2(n) == Show(n)
    ensures Parse(Pad2(n)) == n
  {
    if n < 10 {
      Pad2Below10(n);
    } else {
      Pad2From10(n);
    }
  }

  /** The value of a two-digit string. */
  lemma ParseTwo(s: string)
    requires |s| == 2 && AllDigits(s)
    ensures Parse(s) == DigitValue(s[0]) * 10 + DigitValue(s[1])
  {
    var init := s[..1];
    assert init[..0] == [] && init[0] == s[0];
    assert Parse(init) == DigitValue(s[0]);
  }

  /** Every two-digit field with a value from 1 to 99 is what `Pad2` writes for that value. */
  lemma Pad2Parse(s: string)
    requires |s| == 2 && AllDigits(s) && 1 <= Parse(s)
    ensures Pad2(Parse(s)) == s
  {
    var n := Parse(s);
    ParseTwo(s);
    if s[0] == '0' {
      Pad2Below10(n);
    } else {
      Pad2From10(n);
      assert n / 10 == DigitValue(s[0]) && n % 10 == DigitValue(s[1]);
      assert Show(n / 10) == [s[0]];
    }
  }
}
