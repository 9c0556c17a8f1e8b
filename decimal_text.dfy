/** Decimal digit strings: their values as whole numbers and as fractions, and
    the canonical way of writing a natural number (optionally zero-padded). */
module DecimalText {

  datatype Option<+T> = None | Some(value: T)

  predicate IsDigit(c: char) { '0' <= c <= '9' }

  predicate AllDigits(s: string) { forall i :: 0 <= i < |s| ==> IsDigit(s[i]) }

  function DigitValue(c: char): (d: nat)
    requires IsDigit(c)
    ensures d < 10
  { c as int - '0' as int }

  function DigitChar(d: nat): (c: char)
    requires d < 10
    ensures IsDigit(c) && DigitValue(c) == d
  { ('0' as int + d) as char }

  function Pow10(k: nat): (p: nat)
    ensures p >= 1
  { if k == 0 then 1 else 10 * Pow10(k - 1) }

  /** The whole number a digit string denotes, most significant digit first. */
  function NatValue(s: string): nat
    requires AllDigits(s)
  {
    if |s| == 0 then 0 else 10 * NatValue(s[..|s| - 1]) + DigitValue(s[|s| - 1])
  }

  /** The fraction ".s" denotes: the first digit counts tenths. */
  function FracValue(s: string): real
    requires AllDigits(s)
  {
    if |s| == 0 then 0.0 else (DigitValue(s[0]) as real + FracValue(s[1..])) / 10.0
  }

  /** The shortest decimal writing of n (no sign, no leading zeros except "0"). */
  function ShowNat(n: nat): (s: string)
    ensures |s| > 0 && AllDigits(s)
  {
    if n < 10 then [DigitChar(n)] else ShowNat(n / 10) + [DigitChar(n % 10)]
  }

  /** n written with exactly `width` digits, leading zeros added (n < 10^width). */
  function Padded(n: nat, width: nat): (s: string)
    requires n < Pow10(width)
    ensures |s| == width && AllDigits(s)
  {
    if width == 0 then [] else Padded(n / 10, width - 1) + [DigitChar(n % 10)]
  }

  function CountChar(s: string, c: char): nat
  {
    if |s| == 0 then 0 else (if s[0] == c then 1 else 0) + CountChar(s[1..], c)
  }

  lemma {:induction false} CountCharAppend(a: string, b: string, c: char)
    ensures CountChar(a + b, c) == CountChar(a, c) + CountChar(b, c)
  {
    if |a| == 0 {
      assert a + b == b;
    } else {
      assert (a + b)[1..] == a[1..] + b;
      CountCharAppend(a[1..], b, c);
    }
  }

  lemma {:induction false} CountCharAbsent(s: string, c: char)
    ensures CountChar(s, c) == 0 <==> c !in s
  {
    if |s| > 0 {
      CountCharAbsent(s[1..], c);
      assert s == [s[0]] + s[1..];
    }
  }

  lemma DigitsExclude(s: string, c: char)
    requires AllDigits(s) && !IsDigit(c)
    ensures c !in s
  {
  }

  /** Reading a concatenation of digit strings: the left part is shifted by the
      right part's length. */
  lemma {:induction false} NatValueAppend(a: string, b: string)
    requires AllDigits(a) && AllDigits(b)
    ensures AllDigits(a + b)
    ensures NatValue(a + b) == NatValue(a) * Pow10(|b|) + NatValue(b)
  {
    assert AllDigits(a + b) by {
      forall i | 0 <= i < |a + b| ensures IsDigit((a + b)[i]) {
        if i < |a| { assert (a + b)[i] == a[i]; } else { assert (a + b)[i] == b[i - |a|]; }
      }
    }
    if |b| == 0 {
      assert a + b == a;
    } else {
      var b' := b[..|b| - 1];
      assert (a + b)[..|a + b| - 1] == a + b';
      assert (a + b)[|a + b| - 1] == b[|b| - 1];
      NatValueAppend(a, b');
      ShiftDigit(NatValue(a), Pow10(|b'|), NatValue(b'), DigitValue(b[|b| - 1]));
    }
  }

  lemma ShiftDigit(x: int, p: int, y: int, d: int)
    ensures 10 * (x * p + y) + d == x * (10 * p) + (10 * y + d)
  {
  }

  /** Reading back the canonical writing of n gives n. */
  lemma {:induction false} ShowNatValue(n: nat)
    ensures NatValue(ShowNat(n)) == n
  {
    if n >= 10 {
      var s := ShowNat(n);
      assert s[..|s| - 1] == ShowNat(n / 10);
      ShowNatValue(n / 10);
    }
  }

  /** Reading back a zero-padded writing of n gives n. */
  lemma {:induction false} PaddedValue(n: nat, width: nat)
    requires n < Pow10(width)
    ensures NatValue(Padded(n, width)) == n
  {
    if width > 0 {
      var s := Padded(n, width);
      assert s[..|s| - 1] == Padded(n / 10, width - 1);
      PaddedValue(n / 10, width - 1);
    }
  }

  /** Two digits after the decimal point denote hundredths. */
  lemma Padded2Fraction(c: nat)
    requires c < 100
    ensures FracValue(Padded(c, 2)) == c as real / 100.0
  {
    var s := Padded(c, 2);
    var d0, d1 := c / 10, c % 10;
    assert Padded(d0, 1) == Padded(d0 / 10, 0) + [DigitChar(d0 % 10)] == [DigitChar(d0)];
    assert s == [DigitChar(d0), DigitChar(d1)];
    assert s[1..] == [DigitChar(d1)] && s[1..][1..] == [];
    assert FracValue(s[1..]) == d1 as real / 10.0;
    assert c as real == 10.0 * d0 as real + d1 as real;
  }

  lemma Padded1(d: nat)
    requires d < 10
    ensures Padded(d, 1) == [DigitChar(d)]
  {
    assert Padded(d, 1) == Padded(d / 10, 0) + [DigitChar(d % 10)];
  }

  lemma Padded2Digits(c: nat)
    requires c < 100
    ensures Padded(c, 2) == [DigitChar(c / 10), DigitChar(c % 10)]
  {
    assert Pow10(1) == 10;
    Padded1(c / 10);
    assert Padded(c, 2) == Padded(c / 10, 1) + [DigitChar(c % 10)];
  }

  /** Three digits after the decimal point denote thousandths. */
  lemma Padded3Fraction(c: nat)
    requires c < 1000
    ensures FracValue(Padded(c, 3)) == c as real / 1000.0
  {
    var s := Padded(c, 3);
    var d0, d1, d2 := c / 100, (c / 10) % 10, c % 10;
    Padded2Digits(c / 10);
    assert Padded(c / 10, 2) == [DigitChar(d0), DigitChar(d1)];
    assert s == [DigitChar(d0), DigitChar(d1), DigitChar(d2)];
    assert s[1..] == [DigitChar(d1), DigitChar(d2)];
    assert s[1..][1..] == [DigitChar(d2)] && s[1..][1..][1..] == [];
    assert FracValue(s[1..][1..]) == d2 as real / 10.0;
    assert FracValue(s[1..]) == (d1 as real + d2 as real / 10.0) / 10.0;
    assert c as real == 100.0 * d0 as real + 10.0 * d1 as real + d2 as real;
  }
}
