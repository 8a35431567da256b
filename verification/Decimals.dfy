/** Numbers in decimal, as Python prints non-negative integers. */
module Decimals {
  import Ordering

  const DIGITS := "0123456789"

  predicate IsDigit(ch: char) {
    '0' <= ch <= '9'
  }

  /** str(n) */
  function Decimal(n: nat): (text: string)
    ensures text != ""
  {
    if n < 10 then [DIGITS[n]] else Decimal(n / 10) + [DIGITS[n % 10]]
  }

  /** Only digits, and no leading zero except in zero itself. */
  predicate Numeral(text: string) {
    && text != "" && (forall i :: 0 <= i < |text| ==> IsDigit(text[i]))
    && (text[0] == '0' ==> |text| == 1)
  }

  function DigitValue(ch: char): (n: nat)
    requires IsDigit(ch)
    ensures n < 10 && DIGITS[n] == ch
  {
    ch as int - '0' as int
  }

  /** int(text) */
  function Value(text: string): nat
    requires forall i :: 0 <= i < |text| ==> IsDigit(text[i])
  {
    if text == "" then 0 else 10 * Value(text[..|text| - 1]) + DigitValue(text[|text| - 1])
  }

  lemma DigitOf(n: nat)
    requires n < 10
    ensures IsDigit(DIGITS[n]) && DigitValue(DIGITS[n]) == n && (DIGITS[n] == '0' <==> n == 0)
  {
  }

  /** Printing gives a numeral that reads back, without a leading zero. */
  lemma {:induction false} DecimalIsNumeral(n: nat)
    ensures Numeral(Decimal(n)) && Value(Decimal(n)) == n
    ensures Decimal(n)[0] == '0' <==> n == 0
  {
    if n < 10 {
      DigitOf(n);
      assert Decimal(n)[..0] == "";
    } else {
      DecimalIsNumeral(n / 10);
      DigitOf(n % 10);
      assert Decimal(n)[..|Decimal(n)| - 1] == Decimal(n / 10);
    }
  }

  lemma OneMoreDigit(v: nat, d: nat)
    requires d < 10
    ensures (10 * v + d) / 10 == v && (10 * v + d) % 10 == d
  {
  }

  lemma DecimalNext(v: nat, d: nat)
    requires v > 0 && d < 10
    ensures Decimal(10 * v + d) == Decimal(v) + [DIGITS[d]]
  {
    OneMoreDigit(v, d);
  }

  lemma {:induction false} NumeralIsDecimal(text: string)
    requires Numeral(text)
    ensures Decimal(Value(text)) == text
  {
    var init, last := text[..|text| - 1], text[|text| - 1];
    assert text == init + [last];
    if init == "" {
      assert Value(text) == DigitValue(last);
    } else {
      NumeralIsDecimal(init);
      Bounds(init);
      DecimalNext(Value(init), DigitValue(last));
    }
  }

  /** Shorter numerals are smaller, and among numerals of one length text order is the
      order of numbers: ORDER BY length(id), id is numeric order. */
  lemma {:induction false} LengthOrder(a: string, b: string)
    requires Numeral(a) && Numeral(b)
    ensures |a| < |b| ==> Value(a) < Value(b)
    ensures |a| == |b| ==> (Ordering.Less(a, b) <==> Value(a) < Value(b))
    decreases |a| + |b|
  {
    if |a| < |b| {
      Shorter(a, b);
    } else if |a| == |b| {
      SameLength(a, b);
    }
  }

  function Power(k: nat): (p: nat)
    ensures p >= 1
  {
    if k == 0 then 1 else 10 * Power(k - 1)
  }

  lemma {:induction false} Bounds(text: string)
    requires forall i :: 0 <= i < |text| ==> IsDigit(text[i])
    ensures Value(text) < Power(|text|)
    ensures text != "" && text[0] != '0' ==> Power(|text| - 1) <= Value(text)
  {
    if text != "" {
      var init := text[..|text| - 1];
      Bounds(init);
      if init == "" {
        assert DigitValue(text[0]) >= 1 || text[0] == '0';
      }
    }
  }

  lemma {:induction false} PowerGrows(j: nat, k: nat)
    requires j <= k
    ensures Power(j) <= Power(k)
  {
    if j < k {
      PowerGrows(j, k - 1);
    }
  }

  lemma Shorter(a: string, b: string)
    requires Numeral(a) && Numeral(b) && |a| < |b|
    ensures Value(a) < Value(b)
  {
    Bounds(a);
    Bounds(b);
    PowerGrows(|a|, |b| - 1);
  }

  /** Text order by the last character, once the rest is equal. */
  lemma {:induction false} LessLast(a: string, b: string, x: char, y: char)
    requires |a| == |b|
    ensures Ordering.Less(a + [x], b + [y]) <==> Ordering.Less(a, b) || (a == b && x < y)
    decreases |a|
  {
    if a == "" {
      assert a + [x] == [x] && b + [y] == [y];
    } else {
      LessLast(a[1..], b[1..], x, y);
      assert (a + [x])[1..] == a[1..] + [x] && (b + [y])[1..] == b[1..] + [y];
      assert a == [a[0]] + a[1..] && b == [b[0]] + b[1..];
    }
  }

  lemma {:induction false} SameLength(a: string, b: string)
    requires |a| == |b|
    requires forall i :: 0 <= i < |a| ==> IsDigit(a[i]) && IsDigit(b[i])
    ensures Ordering.Less(a, b) <==> Value(a) < Value(b)
    ensures Value(a) == Value(b) ==> a == b
    decreases |a|
  {
    if a != "" {
      var n := |a| - 1;
      SameLength(a[..n], b[..n]);
      SameLength(b[..n], a[..n]);
      LessLast(a[..n], b[..n], a[n], b[n]);
      assert a == a[..n] + [a[n]] && b == b[..n] + [b[n]];
    }
  }
}
