/** Decimal numerals: the value of a digit run, the text `{}` / `%d` prints
    for a number, and zero padding to a fixed width. */
module Decimal {
  import opened Text

  function Pow10(k: nat): (p: nat)
    ensures p >= 1
  {
    if k == 0 then 1 else 10 * Pow10(k - 1)
  }

  function DigitValue(c: char): (d: nat)
    requires IsDigit(c)
    ensures d < 10
  {
    c as int - '0' as int
  }

  function DigitChar(d: nat): (c: char)
    requires d < 10
    ensures IsDigit(c) && DigitValue(c) == d
  {
    ('0' as int + d) as char
  }

  /** The unsigned value of a digit string, leading zeros included. */
  function Value(s: string): nat
    requires AllDigits(s)
    decreases |s|
  {
    if s == [] then 0 else 10 * Value(s[..|s| - 1]) + DigitValue(s[|s| - 1])
  }

  lemma {:induction false} ValueBound(s: string)
    requires AllDigits(s)
    ensures Value(s) < Pow10(|s|)
    decreases |s|
  {
    if s != [] {
      ValueBound(s[..|s| - 1]);
    }
  }

  lemma {:induction false} ValueAppend(a: string, b: string)
    requires AllDigits(a) && AllDigits(b)
    ensures AllDigits(a + b)
    ensures Value(a + b) == Value(a) * Pow10(|b|) + Value(b)
    decreases |b|
  {
    assert AllDigits(a + b) by {
      forall k | 0 <= k < |a + b| ensures IsDigit((a + b)[k]) {
        if k < |a| { assert (a + b)[k] == a[k]; } else { assert (a + b)[k] == b[k - |a|]; }
      }
    }
    if b == [] {
      assert a + b == a;
    } else {
      var b' := b[..|b| - 1];
      var c := b[|b| - 1];
      assert (a + b)[..|a + b| - 1] == a + b';
      assert (a + b)[|a + b| - 1] == c;
      ValueAppend(a, b');
      assert Value(a + b) == 10 * Value(a + b') + DigitValue(c);
      assert Value(b) == 10 * Value(b') + DigitValue(c);
      assert Pow10(|b|) == 10 * Pow10(|b'|);
      Distribute(Value(a), Pow10(|b'|), Value(b'), DigitValue(c));
    }
  }

  lemma Distribute(x: int, p: int, y: int, d: int)
    ensures 10 * (x * p + y) + d == x * (10 * p) + (10 * y + d)
  {
  }

  /** The value seen from the front: leading digit times its place, plus the rest. */
  lemma ValueFront(s: string)
    requires AllDigits(s) && s != []
    ensures Value(s) == DigitValue(s[0]) * Pow10(|s| - 1) + Value(s[1..])
  {
    assert s == [s[0]] + s[1..];
    ValueAppend([s[0]], s[1..]);
    assert Value([s[0]]) == DigitValue(s[0]) by {
      assert [s[0]][..0] == [];
    }
  }

  /** The shortest decimal text of `n`: what Rust's `{}` and Java's `%d` print. */
  function ToDecimal(n: nat): (r: string)
    ensures IsRun(r)
    ensures |r| > 1 ==> r[0] != '0'
    decreases n
  {
    if n < 10 then [DigitChar(n)] else ToDecimal(n / 10) + [DigitChar(n % 10)]
  }

  lemma {:induction false} DecimalValue(n: nat)
    ensures Value(ToDecimal(n)) == n
    decreases n
  {
    var r := ToDecimal(n);
    if n >= 10 {
      DecimalValue(n / 10);
      assert r[..|r| - 1] == ToDecimal(n / 10);
    }
  }

  /** `|ToDecimal(n)|` is the number of decimal digits of `n`. */
  lemma {:induction false} DecimalLength(n: nat)
    ensures n < Pow10(|ToDecimal(n)|)
    ensures n > 0 ==> Pow10(|ToDecimal(n)| - 1) <= n
    decreases n
  {
    if n >= 10 {
      DecimalLength(n / 10);
    }
  }

  function Zeros(k: nat): (z: string)
    ensures |z| == k && AllDigits(z)
    ensures forall j :: 0 <= j < k ==> z[j] == '0'
  {
    seq(k, _ => '0')
  }

  lemma {:induction false} ValueOfZeros(k: nat)
    ensures Value(Zeros(k)) == 0
  {
    if k > 0 {
      ValueOfZeros(k - 1);
      assert Zeros(k)[..k - 1] == Zeros(k - 1);
    }
  }

  /** `n` in decimal, left-padded with zeros to at least `width` characters
      (the `%0<width>d` conversion). */
  function ZeroPad(n: nat, width: nat): (r: string)
    ensures |r| == if width > |ToDecimal(n)| then width else |ToDecimal(n)|
    ensures AllDigits(r) && Value(r) == n
  {
    var d := ToDecimal(n);
    var r := Zeros(if width > |d| then width - |d| else 0) + d;
    ValueAppend(Zeros(if width > |d| then width - |d| else 0), d);
    ValueOfZeros(if width > |d| then width - |d| else 0);
    DecimalValue(n);
    r
  }

  /** Digit strings of one width sort as text exactly as their values sort. */
  lemma {:induction false} LexOfEqualWidth(a: string, b: string)
    requires AllDigits(a) && AllDigits(b) && |a| == |b|
    ensures LexCompare(a, b) == IntCompare(Value(a), Value(b))
    decreases |a|
  {
    if a != [] {
      ValueFront(a);
      ValueFront(b);
      ValueBound(a[1..]);
      ValueBound(b[1..]);
      var p := Pow10(|a| - 1);
      var da, db := DigitValue(a[0]), DigitValue(b[0]);
      if a[0] == b[0] {
        LexOfEqualWidth(a[1..], b[1..]);
      } else if a[0] < b[0] {
        LeadingDigitDecides(da, db, p, Value(a[1..]), Value(b[1..]));
      } else {
        LeadingDigitDecides(db, da, p, Value(b[1..]), Value(a[1..]));
      }
    }
  }

  lemma LeadingDigitDecides(x: nat, y: nat, p: nat, u: nat, v: nat)
    requires x < y && u < p
    ensures x * p + u < y * p + v
  {
    assert (x + 1) * p <= y * p by {
      MultiplyMonotone(x + 1, y, p);
    }
  }

  lemma MultiplyMonotone(x: nat, y: nat, p: nat)
    requires x <= y
    ensures x * p <= y * p
  {
  }

  /** Numbers padded to a common width that fits both sort as text like numbers. */
  lemma PaddedOrder(i: nat, j: nat, width: nat)
    requires |ToDecimal(i)| <= width && |ToDecimal(j)| <= width
    ensures |ZeroPad(i, width)| == width == |ZeroPad(j, width)|
    ensures LexCompare(ZeroPad(i, width), ZeroPad(j, width)) == IntCompare(i, j)
  {
    LexOfEqualWidth(ZeroPad(i, width), ZeroPad(j, width));
  }
}
