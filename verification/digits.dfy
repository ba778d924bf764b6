/**
 Digit strings in a numeric base between 2 and 36, as the JavaScript runtime
 renders them (`Number.prototype.toString(radix)`) and reads them back
 (`parseInt(s, radix)`), over unbounded integers.
 */
module Digits {

  /** The radixes `toString` and `parseInt` accept. */
  predicate IsBase(base: int) {
    2 <= base <= 36
  }

  function Pow(b: int, e: nat): int {
    if e == 0 then 1 else b * Pow(b, e - 1)
  }

  /** Every power of a positive number is positive. */
  lemma {:induction false} PowPositive(b: int, e: nat)
    requires 1 <= b
    ensures 1 <= Pow(b, e)
  {
    if e > 0 {
      PowPositive(b, e - 1);
      MulLeq(b, 1, Pow(b, e - 1));
    }
  }

  /** Powers of a positive number do not shrink as the exponent grows. */
  lemma {:induction false} PowMonotone(b: int, e: nat, f: nat)
    requires 1 <= b && e <= f
    ensures Pow(b, e) <= Pow(b, f)
    decreases f
  {
    if e < f {
      PowMonotone(b, e, f - 1);
      PowPositive(b, f - 1);
      MulLeq(Pow(b, f - 1), 1, b);
    }
  }

  /** The character for digit value `v`: `0`-`9`, then lower-case `a`-`z`. */
  function DigitChar(v: int): char
    requires 0 <= v < 36
  {
    if v < 10 then ('0' as int + v) as char else ('a' as int + v - 10) as char
  }

  /** The value of a digit character, or -1 for a character that is no digit. */
  function DigitValue(c: char): int {
    if '0' <= c <= '9' then c as int - '0' as int
    else if 'a' <= c <= 'z' then c as int - 'a' as int + 10
    else -1
  }

  predicate IsDigitOf(c: char, base: int) {
    0 <= DigitValue(c) < base
  }

  predicate AllDigits(s: string, base: int) {
    forall i :: 0 <= i < |s| ==> IsDigitOf(s[i], base)
  }

  /** Every value of `ds` is a digit of `base`. */
  predicate AllBelow(ds: seq<int>, base: int) {
    forall i :: 0 <= i < |ds| ==> 0 <= ds[i] < base
  }

  lemma DigitRoundTrip(v: int)
    requires 0 <= v < 36
    ensures DigitValue(DigitChar(v)) == v
  {
  }

  /**
   `parseInt(s, base)` on a string made only of digits of `base`, most
   significant first. The empty string reads as 0, where `parseInt` gives `NaN`.
   */
  function Parse(s: string, base: int): nat
    requires IsBase(base) && AllDigits(s, base)
  {
    if |s| == 0 then 0 else Parse(s[..|s| - 1], base) * base + DigitValue(s[|s| - 1])
  }

  lemma ParseSnoc(s: string, c: char, base: int)
    requires IsBase(base) && AllDigits(s, base) && IsDigitOf(c, base)
    ensures AllDigits(s + [c], base)
    ensures Parse(s + [c], base) == Parse(s, base) * base + DigitValue(c)
  {
  }

  /** Integer division by a radix strictly shrinks a value that has more than one digit. */
  lemma DivStep(x: nat, base: int)
    requires IsBase(base) && base <= x
    ensures 0 <= x / base < x
    ensures (x / base) * base + x % base == x
  {
  }

  /**
   `x.toString(base)` for a non-negative integer: the digits of `base`, most
   significant first, and a single character exactly when `x` is below `base`.
   */
  function ToRadix(x: nat, base: int): (r: string)
    requires IsBase(base)
    ensures AllDigits(r, base)
    ensures |r| == 1 <==> x < base
    decreases x
  {
    if x < base then
      [DigitChar(x)]
    else
      DivStep(x, base);
      ToRadix(x / base, base) + [DigitChar(x % base)]
  }

  /** `parseInt(x.toString(base), base) == x`. */
  lemma {:induction false} ToRadixRoundTrip(x: nat, base: int)
    requires IsBase(base)
    ensures Parse(ToRadix(x, base), base) == x
    decreases x
  {
    var d := x % base;
    DigitRoundTrip(d);
    if x < base {
      ParseSnoc([], DigitChar(x), base);
      assert [] + [DigitChar(x)] == ToRadix(x, base);
    } else {
      var q := x / base;
      DivStep(x, base);
      ToRadixRoundTrip(q, base);
      var high := ToRadix(q, base);
      assert ToRadix(x, base) == high + [DigitChar(d)];
      ParseSnoc(high, DigitChar(d), base);
    }
  }

  /** The value of `ds` read least significant digit first. */
  function LittleEndian(ds: seq<int>, base: int): int {
    if |ds| == 0 then 0 else ds[0] + base * LittleEndian(ds[1..], base)
  }

  /** `|ds|` digits of `base` hold a value in `[0, base^|ds|)`. */
  lemma {:induction false} LittleEndianBound(ds: seq<int>, base: int)
    requires IsBase(base) && AllBelow(ds, base)
    ensures 0 <= LittleEndian(ds, base) < Pow(base, |ds|)
  {
    if |ds| > 0 {
      LittleEndianBound(ds[1..], base);
      DigitStep(ds[0], LittleEndian(ds[1..], base), base, Pow(base, |ds| - 1));
    }
  }

  /** One more low digit in front of a value below `p` gives a value below `base * p`. */
  lemma DigitStep(d: int, v: int, base: int, p: int)
    requires 0 <= d < base && 0 <= v < p
    ensures 0 <= d + base * v < base * p
  {
    MulLeq(base, 0, v);
    MulLeq(base, v, p - 1);
    assert base * (p - 1) == base * p - base;
  }

  lemma MulLeq(a: int, x: int, y: int)
    requires 0 <= a && x <= y
    ensures a * x <= a * y
  {
  }

  /**
   Renders the digits of `ds` so that `ds[0]` is the rightmost character and the
   last value of `ds` the leftmost: the string that results from prepending the
   rendering of each value in turn. Each value renders as one character.
   */
  function Render(ds: seq<int>, base: int): (r: string)
    requires IsBase(base) && AllBelow(ds, base)
    ensures |r| == |ds|
    ensures AllDigits(r, base)
    ensures forall k :: 0 <= k < |ds| ==> r[|ds| - 1 - k] == DigitChar(ds[k])
  {
    if |ds| == 0 then "" else Render(ds[1..], base) + ToRadix(ds[0], base)
  }

  /** Reading a rendered digit sequence back yields its little-endian value. */
  lemma {:induction false} RenderValue(ds: seq<int>, base: int)
    requires IsBase(base) && AllBelow(ds, base)
    ensures Parse(Render(ds, base), base) == LittleEndian(ds, base)
  {
    if |ds| > 0 {
      var rest := Render(ds[1..], base);
      RenderValue(ds[1..], base);
      DigitRoundTrip(ds[0]);
      assert ToRadix(ds[0], base) == [DigitChar(ds[0])];
      ParseSnoc(rest, DigitChar(ds[0]), base);
    }
  }

  /** Prepending the rendering of one more value extends `ds` at its end. */
  lemma {:induction false} RenderSnoc(ds: seq<int>, x: int, base: int)
    requires IsBase(base) && AllBelow(ds, base) && 0 <= x < base
    ensures AllBelow(ds + [x], base)
    ensures Render(ds + [x], base) == ToRadix(x, base) + Render(ds, base)
  {
    if |ds| > 0 {
      assert (ds + [x])[1..] == ds[1..] + [x];
      RenderSnoc(ds[1..], x, base);
    } else {
      assert (ds + [x])[1..] == [];
    }
  }
}
