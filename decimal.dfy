/**
 * Python's decimal rendering of integers (`str(n)`, `f"{n:02d}"`, `"%04d"`) and
 * the reading of a run of decimal digits, as the pipeline's file names, URLs,
 * table names and `strptime` patterns use them.
 */
module Decimal {

  predicate IsDigit(c: char) {
    '0' <= c <= '9'
  }

  predicate AllDigits(s: string) {
    forall i :: 0 <= i < |s| ==> IsDigit(s[i])
  }

  /** Characters a rendered integer may contain: digits and the minus sign. */
  predicate NumeralChars(s: string) {
    forall i :: 0 <= i < |s| ==> IsDigit(s[i]) || s[i] == '-'
  }

  function DigitChar(v: nat): (c: char)
    requires v < 10
    ensures IsDigit(c)
  {
    (48 + v) as char
  }

  function DigitValue(c: char): (v: nat)
    requires IsDigit(c)
    ensures v < 10 && DigitChar(v) == c
  {
    c as int - 48
  }

  function Pow10(k: nat): (p: nat)
    ensures p >= 1
  {
    if k == 0 then 1 else 10 * Pow10(k - 1)
  }

  /** The value of a run of decimal digits, most significant first (leading zeros allowed). */
  function ParseNat(s: string): nat
    requires AllDigits(s)
    decreases |s|
  {
    if s == [] then 0 else 10 * ParseNat(s[..|s| - 1]) + DigitValue(s[|s| - 1])
  }

  /**
   * `str(n)` for a non-negative integer: the shortest numeral, which reads back
   * as `n` and has no leading zero.
   */
  function NatStr(n: nat): (s: string)
    ensures 1 <= |s| && AllDigits(s)
    ensures ParseNat(s) == n
    ensures |s| > 1 ==> s[0] != '0'
    decreases n
  {
    if n < 10 then [DigitChar(n)]
    else
      var s := NatStr(n / 10) + [DigitChar(n % 10)];
      assert s[..|s| - 1] == NatStr(n / 10);
      s
  }

  /** `str(n)` for any integer. */
  function IntStr(n: int): (s: string)
    ensures 1 <= |s| && NumeralChars(s)
    ensures n >= 0 <==> s[0] != '-'
    ensures n >= 0 ==> AllDigits(s) && ParseNat(s) == n
  {
    if n < 0 then "-" + NatStr(-n) else NatStr(n)
  }

  function Zeros(k: nat): (z: string)
    ensures |z| == k && AllDigits(z)
  {
    seq(k, _ => '0')
  }

  /** `"%0<w>d" % n` for `n >= 0`: the numeral of `n`, left-filled with zeros to width `w`. */
  function ZeroPad(n: nat, w: nat): string {
    var digits := NatStr(n);
    if |digits| < w then Zeros(w - |digits|) + digits else digits
  }

  /** A zero-filled numeral is at least `w` wide, no wider than needed, all digits, and reads back as `n`. */
  lemma ZeroPadShape(n: nat, w: nat)
    ensures var s := ZeroPad(n, w);
      && |s| == (if |NatStr(n)| < w then w else |NatStr(n)|)
      && AllDigits(s) && ParseNat(s) == n
  {
    var digits := NatStr(n);
    LeadingZeros(w - |digits|, digits);
  }

  /**
   * `f"{n:02d}"`: for a non-negative `n` the numeral zero-filled to two
   * characters; for a negative one the sign counts toward the width.
   */
  function Pad2(n: int): string {
    if n >= 0 then ZeroPad(n, 2) else "-" + ZeroPad(-n, 1)
  }

  /** `f"{n:02d}"` is at least two characters of digits and sign; below 100 it is exactly two digits reading `n`. */
  lemma Pad2Shape(n: int)
    ensures 2 <= |Pad2(n)| && NumeralChars(Pad2(n))
    ensures 0 <= n < 100 ==> |Pad2(n)| == 2 && AllDigits(Pad2(n)) && ParseNat(Pad2(n)) == n
  {
    if n >= 0 {
      ZeroPadShape(n, 2);
      if 10 <= n < 100 {
        NatStrLength(n, 1);
      }
    } else {
      ZeroPadShape(-n, 1);
    }
  }

  lemma {:induction false} LeadingZeros(k: int, s: string)
    requires AllDigits(s)
    ensures k > 0 ==> ParseNat(Zeros(k) + s) == ParseNat(s)
    decreases |s|
  {
    if k > 0 {
      if s == [] {
        ZerosValue(k);
        assert Zeros(k) + s == Zeros(k);
      } else {
        var t := Zeros(k) + s;
        assert t[..|t| - 1] == Zeros(k) + s[..|s| - 1];
        LeadingZeros(k, s[..|s| - 1]);
      }
    }
  }

  lemma {:induction false} ZerosValue(k: nat)
    ensures ParseNat(Zeros(k)) == 0
  {
    if k > 0 {
      assert Zeros(k)[..k - 1] == Zeros(k - 1);
      ZerosValue(k - 1);
    }
  }

  /** A number in `[10^k, 10^(k+1))` has a numeral of exactly `k + 1` digits. */
  lemma {:induction false} NatStrLength(n: nat, k: nat)
    requires Pow10(k) <= n < Pow10(k + 1)
    ensures |NatStr(n)| == k + 1
  {
    if k > 0 {
      NatStrLength(n / 10, k - 1);
    }
  }

  /** Different integers render differently under `str`. */
  lemma IntStrInjective(a: int, b: int)
    requires IntStr(a) == IntStr(b)
    ensures a == b
  {
    if a < 0 && b < 0 {
      assert NatStr(-a) == IntStr(a)[1..] == IntStr(b)[1..] == NatStr(-b);
    }
  }
}
