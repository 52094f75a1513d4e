/**
 * Multiplication: `Mul<u32>` (multiply-with-carry by a scalar),
 * `times_radix` (shift by whole decimal places), the schoolbook `Mul`
 * built from the two, and `pow` by repeated multiplication.
 */
module Multiply {
  import opened Numeral
  import opened Compare
  import opened AddSub
  import opened Decimal

  /**
   * `Mul<u32>`: one pass over the stored digits with a running carry, then
   * the carry's own digits. The result is the product written in at least
   * the multiplicand's stored length.
   */
  method MulScalar(a: seq<nat>, s: U32) returns (r: seq<nat>)
    requires ValidDigits(a)
    ensures PaddedTo(r, |a|) && Val(r) == Val(a) * s
  {
    var out: seq<nat> := [];
    var carry: nat := 0;
    for i := 0 to |a|
      invariant |out| == i && ValidDigits(out) && carry <= s
      invariant Val(out) + Pow10(i) * carry == Val(a[..i]) * s
    {
      DigitProduct(s, a[i]);
      var temp: nat := s * a[i] + carry;
      assert temp < 0x1_0000_0000_0000_0000;
      var digit: nat, next: nat := temp % 10, temp / 10;
      ScalarColumn(a, i, out, s, carry, digit, next);
      out := out + [digit];
      carry := next;
    }
    assert a[..|a|] == a;
    while carry != 0
      invariant |out| >= |a| && ValidDigits(out)
      invariant Val(out) + Pow10(|out|) * carry == Val(a) * s
      invariant |out| > |a| ==> carry != 0 || out[|out| - 1] != 0
      decreases carry
    {
      var digit, next := carry % 10, carry / 10;
      CarryColumn(out, carry, digit, next);
      out := out + [digit];
      carry := next;
    }
    r := out;
  }

  /** One column of the scalar product keeps the carry equation and the carry bound. */
  lemma ScalarColumn(a: seq<nat>, i: nat, out: seq<nat>, s: nat, carry: nat, d: nat, q: nat)
    requires ValidDigits(a) && i < |a| && |out| == i && carry <= s
    requires s * a[i] + carry == d + 10 * q && d < 10
    requires Val(out) + Pow10(i) * carry == Val(a[..i]) * s
    ensures q <= s
    ensures Val(out + [d]) + Pow10(i + 1) * q == Val(a[..i + 1]) * s
  {
    assert a[..i + 1] == a[..i] + [a[i]];
    ValSnoc(out, d);
    ValSnoc(a[..i], a[i]);
    ScalarStep(Val(out), Val(a[..i]), Pow10(i), s, a[i], carry, d, q);
  }

  /** A scalar times a digit is at most nine times the scalar. */
  lemma DigitProduct(s: nat, x: nat)
    requires x < 10
    ensures 0 <= s * x <= 9 * s
  {
    MulLe(x, 9, s);
  }

  lemma ScalarStep(vo: nat, va: nat, p: nat, s: nat, x: nat, c: nat, d: nat, q: nat)
    requires x < 10 && c <= s
    requires s * x + c == d + 10 * q
    requires vo + p * c == va * s
    ensures q <= s
    ensures vo + p * d + (10 * p) * q == (va + p * x) * s
  {
    calc {
      vo + p * d + (10 * p) * q;
    == { PlaceSplit(p, d, q); }
      vo + p * (d + 10 * q);
    ==
      vo + p * (s * x + c);
    == { assert p * (s * x + c) == p * c + p * (s * x); }
      (vo + p * c) + p * (s * x);
    ==
      va * s + p * (s * x);
    == { assert p * (s * x) == (p * x) * s; }
      (va + p * x) * s;
    }
    DigitProduct(s, x);
  }

  /** `times_radix(n)`: `n` zero digits inserted at the low end, one at a time. */
  method TimesRadix(a: seq<nat>, n: nat) returns (r: seq<nat>)
    requires ValidDigits(a)
    ensures r == Zeros(n) + a
    ensures ValidDigits(r) && Val(r) == Val(a) * Pow10(n)
  {
    r := a;
    for i := 0 to n
      invariant r == Zeros(i) + a
    {
      assert [0] + (Zeros(i) + a) == Zeros(i + 1) + a;
      r := [0] + r;
    }
    ShiftValue(a, n);
  }

  /** Low zeros multiply the value by a power of ten. */
  lemma ShiftValue(a: seq<nat>, n: nat)
    requires ValidDigits(a)
    ensures ValidDigits(Zeros(n) + a) && Val(Zeros(n) + a) == Val(a) * Pow10(n)
  {
    ValidAppend(Zeros(n), a);
    ValAppend(Zeros(n), a);
    ValZeros(n);
    ShiftArith(Val(Zeros(n) + a), Val(Zeros(n)), Val(a), Pow10(n));
  }

  lemma ShiftArith(v: nat, vz: nat, va: nat, p: nat)
    requires v == vz + p * va && vz == 0
    ensures v == va * p
  {
  }

  /**
   * `Mul`: from `of(0)`, add the multiplicand times each digit of the
   * multiplier, shifted to that digit's place.
   */
  method Mul(a: seq<nat>, b: seq<nat>) returns (r: seq<nat>)
    requires ValidDigits(a) && ValidDigits(b)
    ensures ValidDigits(r) && Val(r) == Val(a) * Val(b)
    ensures b == [] ==> r == [0]
    ensures b != [] ==> Canonical(r)
  {
    r := Of(0);
    for ix := 0 to |b|
      invariant ValidDigits(r) && Val(r) == Val(a) * Val(b[..ix])
      invariant ix == 0 ==> r == [0]
      invariant ix > 0 ==> Canonical(r)
    {
      var partial := MulScalar(a, b[ix]);
      var toBeAdded := TimesRadix(partial, ix);
      PartialProduct(a, b, ix, Val(r), Val(toBeAdded));
      r := Add(r, toBeAdded);
    }
    assert b[..|b|] == b;
  }

  /** Adding the shifted partial product of digit `ix` extends the product by one multiplier digit. */
  lemma PartialProduct(a: seq<nat>, b: seq<nat>, ix: nat, acc: nat, added: nat)
    requires ValidDigits(b) && ix < |b|
    requires acc == Val(a) * Val(b[..ix])
    requires added == Val(a) * b[ix] * Pow10(ix)
    ensures acc + added == Val(a) * Val(b[..ix + 1])
  {
    assert b[..ix + 1] == b[..ix] + [b[ix]];
    ValSnoc(b[..ix], b[ix]);
    PartialStep(Val(a), Val(b[..ix]), b[ix], Pow10(ix));
  }

  lemma PartialStep(x: nat, y: nat, digit: nat, p: nat)
    ensures x * y + x * digit * p == x * (y + p * digit)
  {
  }

  /** n-th power of a natural number. */
  function Power(x: nat, n: nat): nat {
    if n == 0 then 1 else x * Power(x, n - 1)
  }

  /** `pow`: `of(1)` for exponent zero, otherwise the base times the previous power. */
  method Pow(v: seq<nat>, n: U32) returns (r: seq<nat>)
    requires ValidDigits(v)
    ensures ValidDigits(r) && Val(r) == Power(Val(v), n)
    ensures n == 0 ==> r == [1]
    ensures n > 0 ==> Canonical(r) || r == [0]
  {
    if n == 0 {
      r := Of(1);
    } else {
      var previous := Pow(v, n - 1);
      r := Mul(v, previous);
    }
  }

  /** Exponents add under multiplication of powers. */
  lemma {:induction false} PowerAdd(x: nat, m: nat, n: nat)
    ensures Power(x, m + n) == Power(x, m) * Power(x, n)
  {
    if m > 0 {
      PowerAdd(x, m - 1, n);
      assert Power(x, m + n) == x * Power(x, m - 1 + n);
      assert x * (Power(x, m - 1) * Power(x, n)) == (x * Power(x, m - 1)) * Power(x, n);
    }
  }

  /** Powers of ten are the `Pow10` place values. */
  lemma {:induction false} PowerOfTen(n: nat)
    ensures Power(10, n) == Pow10(n)
  {
    if n > 0 {
      PowerOfTen(n - 1);
    }
  }
}
