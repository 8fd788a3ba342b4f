/** The `%06d` conversion used to name storage blocks (`data_%06d`) and output
    files (`<prefix>%06d.cbf`), and a decimal reader that undoes it. */
module Decimal {

  predicate IsDigit(c: char) { '0' <= c <= '9' }

  predicate AllDigits(s: string) { forall i :: 0 <= i < |s| ==> IsDigit(s[i]) }

  function DigitChar(d: nat): (c: char)
    requires d < 10
    ensures IsDigit(c)
  {
    "0123456789"[d]
  }

  function DigitValue(c: char): (d: nat)
    requires IsDigit(c)
    ensures d < 10
  {
    (c as int) - ('0' as int)
  }

  function Pow10(k: nat): (r: nat)
    ensures r >= 1
  {
    if k == 0 then 1 else 10 * Pow10(k - 1)
  }

  /** The shortest decimal spelling of `n` (what `%d` prints for n >= 0). */
  function Digits(n: nat): (s: string)
    ensures 1 <= |s| && AllDigits(s)
    decreases n
  {
    if n < 10 then [DigitChar(n)] else Digits(n / 10) + [DigitChar(n % 10)]
  }

  function Zeros(k: nat): (s: string)
    ensures |s| == k && AllDigits(s)
  {
    seq(k, _ => '0')
  }

  /** Right-justify `s` in a field of `width` characters, padding with '0'. */
  function ZeroPad(s: string, width: nat): (r: string)
    ensures |r| == if |s| < width then width else |s|
    ensures AllDigits(s) ==> AllDigits(r)
  {
    if |s| < width then Zeros(width - |s|) + s else s
  }

  /** `%06d`: at least six characters; a negative number keeps its sign in
      front and is zero-padded to six characters including the sign. */
  function Format06(n: int): (s: string)
    ensures 6 <= |s|
    ensures n >= 0 ==> AllDigits(s)
    ensures n < 0 ==> s[0] == '-' && AllDigits(s[1..])
  {
    if n >= 0 then ZeroPad(Digits(n), 6) else "-" + ZeroPad(Digits(-n), 5)
  }

  /** Reads a run of decimal digits, most significant first, onto `acc`. */
  function ReadDigits(acc: nat, s: string): nat
    requires AllDigits(s)
    decreases |s|
  {
    if s == [] then acc else ReadDigits(acc * 10 + DigitValue(s[0]), s[1..])
  }

  /** Reads an optionally signed decimal number. */
  function ParseInt(s: string): int
  {
    if |s| > 0 && s[0] == '-' && AllDigits(s[1..]) then -(ReadDigits(0, s[1..]) as int)
    else if AllDigits(s) then ReadDigits(0, s)
    else 0
  }

  lemma {:induction false} ReadDigitsAppend(acc: nat, a: string, b: string)
    requires AllDigits(a) && AllDigits(b)
    ensures AllDigits(a + b)
    ensures ReadDigits(acc, a + b) == ReadDigits(ReadDigits(acc, a), b)
    decreases |a|
  {
    if a == [] {
      assert a + b == b;
    } else {
      assert (a + b)[1..] == a[1..] + b;
      ReadDigitsAppend(acc * 10 + DigitValue(a[0]), a[1..], b);
    }
  }

  /** Leading zeros do not change the number read. */
  lemma {:induction false} ReadLeadingZeros(k: nat, s: string)
    requires AllDigits(s)
    ensures AllDigits(Zeros(k) + s)
    ensures ReadDigits(0, Zeros(k) + s) == ReadDigits(0, s)
  {
    if k == 0 {
      assert Zeros(k) + s == s;
    } else {
      assert (Zeros(k) + s)[0] == '0' && DigitValue('0') == 0;
      var z := Zeros(k) + s;
      assert z[1..] == Zeros(k - 1) + s;
      ReadLeadingZeros(k - 1, s);
      assert ReadDigits(0, z) == ReadDigits(0 * 10 + DigitValue(z[0]), z[1..]);
    }
  }

  /** Reading back the digits of `n` gives `n`. */
  lemma {:induction false} ReadDigitsOfDigits(n: nat)
    ensures ReadDigits(0, Digits(n)) == n
    decreases n
  {
    if n >= 10 {
      ReadDigitsOfDigits(n / 10);
      ReadDigitsAppend(0, Digits(n / 10), [DigitChar(n % 10)]);
    }
  }

  lemma ReadZeroPadded(n: nat, width: nat)
    ensures AllDigits(ZeroPad(Digits(n), width))
    ensures ReadDigits(0, ZeroPad(Digits(n), width)) == n
  {
    ReadDigitsOfDigits(n);
    if |Digits(n)| < width {
      ReadLeadingZeros(width - |Digits(n)|, Digits(n));
    }
  }

  /** `%06d` loses no information: the number can be read back from it. */
  lemma Format06RoundTrip(n: int)
    ensures ParseInt(Format06(n)) == n
  {
    if n >= 0 {
      var s := ZeroPad(Digits(n), 6);
      ReadZeroPadded(n, 6);
      assert Format06(n) == s;
      assert s[0] != '-' by { assert IsDigit(s[0]); }
      assert ParseInt(s) == ReadDigits(0, s);
    } else {
      var t := ZeroPad(Digits(-n), 5);
      ReadZeroPadded(-n, 5);
      var s := "-" + t;
      assert Format06(n) == s;
      assert s[1..] == t;
      assert ParseInt(s) == -(ReadDigits(0, t) as int);
    }
  }

  /** Distinct numbers get distinct `%06d` spellings. */
  lemma Format06Injective(a: int, b: int)
    ensures a != b ==> Format06(a) != Format06(b)
  {
    Format06RoundTrip(a);
    Format06RoundTrip(b);
  }

  lemma {:induction false} DigitsLength(n: nat, k: nat)
    requires 1 <= k && n < Pow10(k)
    ensures |Digits(n)| <= k
    decreases n
  {
    if n >= 10 {
      assert k > 1;
      assert n / 10 < Pow10(k - 1);
      DigitsLength(n / 10, k - 1);
      assert Digits(n) == Digits(n / 10) + [DigitChar(n % 10)];
    }
  }

  /** A number below 10^6 is written in exactly six characters, a negative
      one above -10^5 too, and any 32-bit `int` in at most eleven. */
  lemma Format06Width(n: int)
    ensures 0 <= n < 1000000 ==> |Format06(n)| == 6
    ensures -100000 < n < 0 ==> |Format06(n)| == 6
    ensures -0x8000_0000 <= n < 0x8000_0000 ==> 6 <= |Format06(n)| <= 11
  {
    assert Pow10(5) == 100000;
    assert Pow10(6) == 1000000;
    assert Pow10(10) == 10000000000;
    if n >= 0 {
      if n < 1000000 { DigitsLength(n, 6); }
      if n < 0x8000_0000 { DigitsLength(n, 10); }
    } else {
      if -n < 100000 { DigitsLength(-n, 5); }
      if -n <= 0x8000_0000 { DigitsLength(-n, 10); }
    }
  }
}
