/**
 * Decimal text of non-negative integers: Python's `str(n)`, C's `"%d"` and
 * `"%0wd"` formats, and the digit-string readers `std::stoull` and `int()`.
 */
module Decimal {
  import opened Arith

  function Pow10(n: nat): (r: nat)
    ensures r >= 1
  {
    if n == 0 then 1 else 10 * Pow10(n - 1)
  }

  predicate IsDigit(c: char) { '0' <= c <= '9' }

  predicate AllDigits(s: string) { forall i | 0 <= i < |s| :: IsDigit(s[i]) }

  function DigitChar(d: nat): (c: char)
    requires d < 10
    ensures IsDigit(c)
  {
    (48 + d) as char
  }

  function DigitValue(c: char): (d: nat)
    requires IsDigit(c)
    ensures d < 10
  {
    c as int - 48
  }

  /** The number a string of decimal digits denotes (leading zeros allowed). */
  function Value(s: string): nat
    requires AllDigits(s)
  {
    if s == [] then 0 else Value(s[..|s| - 1]) * 10 + DigitValue(s[|s| - 1])
  }

  /** Decimal text of n without leading zeros: Python `str(n)`, C `"%d"`. */
  function Show(n: nat): (s: string)
    ensures AllDigits(s) && |s| >= 1
  {
    if n < 10 then [DigitChar(n)] else Show(n / 10) + [DigitChar(n % 10)]
  }

  function Zeros(k: nat): (s: string)
    ensures |s| == k && AllDigits(s)
    ensures forall i | 0 <= i < k :: s[i] == '0'
  {
    if k == 0 then [] else Zeros(k - 1) + ['0']
  }

  /** Digit text filled with zeros on the left to at least w characters. */
  function ZeroFill(d: string, w: nat): (s: string)
    requires AllDigits(d)
    ensures AllDigits(s)
    ensures |s| == if |d| < w then w else |d|
  {
    if |d| < w then Zeros(w - |d|) + d else d
  }

  /** C `"%0wd"` of a non-negative n: zero-filled on the left to at least w characters. */
  function Pad(n: nat, w: nat): (s: string)
    ensures AllDigits(s)
  {
    ZeroFill(Show(n), w)
  }

  lemma {:induction false} Pow10Monotone(i: nat, j: nat)
    requires i <= j
    ensures Pow10(i) <= Pow10(j)
  {
    if i < j {
      Pow10Monotone(i, j - 1);
    }
  }

  /** Appending digits shifts the value of the prefix. */
  lemma {:induction false} ValueAppend(a: string, b: string)
    requires AllDigits(a) && AllDigits(b)
    ensures AllDigits(a + b)
    ensures Value(a + b) == Value(a) * Pow10(|b|) + Value(b)
  {
    assert AllDigits(a + b) by {
      forall i | 0 <= i < |a + b| ensures IsDigit((a + b)[i]) {
        if i < |a| { assert (a + b)[i] == a[i]; } else { assert (a + b)[i] == b[i - |a|]; }
      }
    }
    if b == [] {
      assert a + b == a;
    } else {
      var b' := b[..|b| - 1];
      assert (a + b)[..|a + b| - 1] == a + b';
      assert (a + b)[|a + b| - 1] == b[|b| - 1];
      ValueAppend(a, b');
      ShiftDistributes(10, Value(a), Pow10(|b'|), Value(b'));
    }
  }

  lemma {:induction false} ValueBound(s: string)
    requires AllDigits(s)
    ensures Value(s) < Pow10(|s|)
  {
    if s != [] {
      ValueBound(s[..|s| - 1]);
    }
  }

  lemma {:induction false} ValueZeros(k: nat)
    ensures Value(Zeros(k)) == 0
  {
    if k > 0 {
      assert Zeros(k)[..k - 1] == Zeros(k - 1);
      ValueZeros(k - 1);
    }
  }

  /** Reading the text of n gives n back (`stoull(str(n)) == n`). */
  lemma {:induction false} ValueShow(n: nat)
    ensures Value(Show(n)) == n
  {
    if n >= 10 {
      ValueShow(n / 10);
      ValueAppend(Show(n / 10), [DigitChar(n % 10)]);
    }
  }

  /** Leading zeros do not change the value read back. */
  lemma ValueZeroFill(d: string, w: nat)
    requires AllDigits(d)
    ensures Value(ZeroFill(d, w)) == Value(d)
  {
    if |d| < w {
      var z := Zeros(w - |d|);
      assert ZeroFill(d, w) == z + d;
      ValueZeros(w - |d|);
      ValueAppend(z, d);
      ZeroTimes(Value(z), Pow10(|d|));
    }
  }

  lemma ZeroTimes(x: int, p: int)
    requires x == 0
    ensures x * p == 0
  {
  }

  /** Zero padding does not change the value read back. */
  lemma ValuePad(n: nat, w: nat)
    ensures Value(Pad(n, w)) == n
  {
    ValueShow(n);
    ValueZeroFill(Show(n), w);
  }

  /** A digit string that does not start with '0' is read as a number with that many digits. */
  lemma {:induction false} ValueLeading(s: string)
    requires AllDigits(s) && |s| >= 1 && s[0] != '0'
    ensures Pow10(|s| - 1) <= Value(s)
  {
    if |s| > 1 {
      ValueLeading(s[..|s| - 1]);
    }
  }

  /** Text without leading zeros is what `str` gives back for its value. */
  lemma {:induction false} ShowValue(s: string)
    requires AllDigits(s) && |s| >= 1 && s[0] != '0'
    ensures Show(Value(s)) == s
  {
    if |s| == 1 {
      assert Value(s) == DigitValue(s[0]) by { assert s[..0] == []; }
    } else {
      var s' := s[..|s| - 1];
      ValueLeading(s');
      ShowValue(s');
      assert Value(s) / 10 == Value(s') && Value(s) % 10 == DigitValue(s[|s| - 1]);
      assert s == s' + [s[|s| - 1]];
    }
  }

  /** The number of digits `str(n)` has is fixed by the decade n lies in. */
  lemma {:induction false} ShowLength(n: nat, k: nat)
    requires Pow10(k) <= n < Pow10(k + 1)
    ensures |Show(n)| == k + 1
  {
    if k > 0 {
      ShowLength(n / 10, k - 1);
    } else {
      assert n < 10;
    }
  }

  /** Conversely, a positive n whose `str` has k + 1 digits lies in the decade from 10^k to 10^(k+1). */
  lemma {:induction false} ShowLengthBounds(n: nat, k: nat)
    requires n >= 1 && |Show(n)| == k + 1
    ensures Pow10(k) <= n < Pow10(k + 1)
  {
    if n >= 10 {
      ShowLengthBounds(n / 10, k - 1);
    }
  }

  /** `"%0wd"` of a value below 10^w is exactly w characters. */
  lemma PadLength(n: nat, w: nat)
    requires 1 <= w && n < Pow10(w)
    ensures |Pad(n, w)| == w
  {
    var d := Show(n);
    if |d| > w {
      ShowNoLeadingZero(n);
      ValueShow(n);
      ValueLeading(d);
      Pow10Monotone(w, |d| - 1);
    }
  }

  lemma {:induction false} ShowNoLeadingZero(n: nat)
    ensures Show(n)[0] != '0' || n == 0
  {
    if n >= 10 {
      ShowNoLeadingZero(n / 10);
    }
  }
}
