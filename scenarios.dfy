/**
 * Scenarios checked by assertions: the double-sided digit window test of
 * the library, a division that dispatches to long division, the
 * `multiplies_by_u32` and power-of-ten properties, and how `sum` and `pow`
 * split.
 */
module Scenarios {
  import opened Wrappers
  import opened Numeral
  import opened Decimal
  import opened DigitWindow
  import opened Compare
  import opened AddSub
  import opened Multiply
  import opened Division

  /** The canonical digits of 654321 are 1, 2, 3, 4, 5, 6 from the units up. */
  lemma DigitsOf654321()
    ensures FromNat(654321) == [1, 2, 3, 4, 5, 6]
  {
    var d: seq<nat> := [1, 2, 3, 4, 5, 6];
    assert d[1..] == [2, 3, 4, 5, 6];
    assert d[1..][1..] == [3, 4, 5, 6];
    assert d[1..][1..][1..] == [4, 5, 6];
    assert d[1..][1..][1..][1..] == [5, 6];
    assert d[1..][1..][1..][1..][1..] == [6];
    assert Val([6]) == 6 by { assert [6][1..] == []; }
    CanonicalDigits(d, 654321);
  }

  /**
   * `double_sided_iter_digits`, first half: a window of ten positions over
   * 654321 read alternately from both ends.
   */
  method DoubleSidedIterDigits() {
    var nsi := Of(654321);
    DigitsOf654321();
    var iter := new Window(nsi, 10);
    var x := iter.NextBack();
    assert x == Some(0);
    x := iter.NextBack();
    assert x == Some(0);
    x := iter.NextBack();
    assert x == Some(0);
    x := iter.NextBack();
    assert x == Some(0);
    BothEnds(iter);
  }

  /**
   * The middle of the first half: with positions 0 to 5 unread, the front
   * yields 1 and the back yields 6 and 5.
   */
  method BothEnds(iter: Window)
    requires iter.Valid() && iter.digits == [1, 2, 3, 4, 5, 6]
    requires iter.nextIx == 0 && iter.nextBackIx == 5
    modifies iter
  {
    var x := iter.Next();
    assert x == Some(1);
    x := iter.NextBack();
    assert x == Some(6);
    x := iter.NextBack();
    assert x == Some(5);
    FrontToEnd(iter);
  }

  /**
   * The rest of the first half: with only positions 1 to 3 unread, the
   * front cursor yields 2, 3 and 4 and then both ends are exhausted.
   */
  method FrontToEnd(iter: Window)
    requires iter.Valid() && iter.digits == [1, 2, 3, 4, 5, 6]
    requires iter.nextIx == 1 && iter.nextBackIx == 3
    modifies iter
  {
    var x := iter.Next();
    assert x == Some(2);
    x := iter.Next();
    assert x == Some(3);
    x := iter.Next();
    assert x == Some(4);
    x := iter.Next();
    assert x == None;
    x := iter.NextBack();
    assert x == None;
  }

  /**
   * `double_sided_iter_digits`, second half: a six-position window over
   * 654321 collected in reverse.
   */
  method ReversedDigits() {
    var nsi := Of(654321);
    DigitsOf654321();
    var reversed := ReadBackward(nsi, 6);
    assert reversed == [6, 5, 4, 3, 2, 1];
  }

  /** A ten-position window over 654321 read from the front: the digits, then four padding zeros. */
  method ForwardDigits() {
    var nsi := Of(654321);
    DigitsOf654321();
    var forward := ReadForward(nsi, 10);
    assert forward == [1, 2, 3, 4, 5, 6, 0, 0, 0, 0];
  }

  /** A window of length zero yields nothing from either end. */
  method EmptyWindow(d: seq<nat>) {
    var iter := new Window(d, 0);
    var x := iter.Next();
    assert x == None;
    x := iter.NextBack();
    assert x == None;
  }

  /** 654321 divided by 789 (three significant digits, so long division): 829 remainder 240. */
  method LongDivisionExample() {
    var x := Of(654321);
    var y := Of(789);
    var res := DivNsi(x, y);
    assert res.Some?;
    var (q, r) := res.value;
    assert Val(q) * 789 + Val(r) == 654321 && Val(r) < 789;
    assert Val(q) == 829 && Val(r) == 240 by {
      DivModUnique(654321, 789, Val(q), Val(r));
    }
  }

  /**
   * The remainder of 654321 by 789 keeps the seven digits of the remainder
   * buffer: 240 is stored as 0, 4, 2, 0, 0, 0, 0.
   */
  method LongDivisionRemainder() {
    var x := Of(654321);
    var y := Of(789);
    DigitsOf654321();
    var r := Rem(x, y);
    assert Val(r) == 240 by {
      DivModUnique(654321, 789, 829, 240);
    }
    assert |r| == 7;
    PaddedOfVal(r);
    SevenDigits240();
    assert r == [0, 4, 2, 0, 0, 0, 0];
  }

  /** 240 written in seven positions is 0, 4, 2 and four zeros. */
  lemma SevenDigits240()
    ensures Padded(240, 7) == [0, 4, 2, 0, 0, 0, 0]
  {
    var low: seq<nat> := [0, 4, 2];
    assert Val(low) == 240 by {
      assert low[1..][1..] == [2] && [2][1..] == [];
    }
    HighZerosIgnored(low, 4);
    var d := low + Zeros(4);
    assert ValidDigits(d) && |d| == 7;
    PaddedOfVal(d);
    assert d == [0, 4, 2, 0, 0, 0, 0];
  }

  /**
   * `multiplies_by_u32`: `of(x) * y == of(x * y)`. The product is taken
   * without the `u32` overflow of the property's own arithmetic.
   */
  method MultipliesByU32(x: U32, y: U32) {
    ProductFitsU64(x, y);
    var p: U64 := x * y;
    var xnsi := Of(x);
    var expected := Of(p);
    var product := MulScalar(xnsi, y);
    assert Val(product) == p;
    EqIffSameValue(product, expected);
    assert Eq(product, expected);
  }

  /** The digits of `a * s` are the product written in the width of `a`, or wider only as the product needs. */
  method ScalarProductDigits(a: seq<nat>, s: U32)
    requires ValidDigits(a)
  {
    var product := MulScalar(a, s);
    PaddedToUnique(product, |a|);
    assert product == Padded(Val(a) * s, |a|);
  }

  /** The product of two `u32` values fits a `u64`. */
  lemma ProductFitsU64(x: U32, y: U32)
    ensures x * y < 0x1_0000_0000_0000_0000
  {
    MulLe(x, 0x1_0000_0000, y);
    MulLe(y, 0x1_0000_0000, 0x1_0000_0000);
  }

  /** `of(10).pow(n)` and `of(1).times_radix(n)` are the same number, 10^n. */
  method PowersOfTen(n: U32) {
    var ten := Of(10);
    var power := Pow(ten, n);
    var one := Of(1);
    var shifted := TimesRadix(one, n);
    PowerOfTen(n);
    assert Val(power) == Pow10(n) == Val(shifted);
    EqIffSameValue(power, shifted);
    assert Eq(power, shifted);
  }

  /** Summing a concatenation is adding the two partial sums. */
  method SumSplits(xs: seq<seq<nat>>, ys: seq<seq<nat>>)
    requires forall i :: 0 <= i < |xs| ==> ValidDigits(xs[i])
    requires forall i :: 0 <= i < |ys| ==> ValidDigits(ys[i])
  {
    assert forall i :: 0 <= i < |xs + ys| ==> ValidDigits((xs + ys)[i]);
    var whole := Sum(xs + ys);
    var left := Sum(xs);
    var right := Sum(ys);
    var added := Add(left, right);
    SumOfValuesAppend(xs, ys);
    EqIffSameValue(whole, added);
    assert Eq(whole, added);
  }

  /** `v.pow(a + b) == v.pow(a) * v.pow(b)`. */
  method PowSplits(v: seq<nat>, a: U32, b: U32)
    requires ValidDigits(v) && a + b < 0x1_0000_0000
  {
    var whole := Pow(v, a + b);
    var left := Pow(v, a);
    var right := Pow(v, b);
    var product := Mul(left, right);
    PowerAdd(Val(v), a, b);
    EqIffSameValue(whole, product);
    assert Eq(whole, product);
  }
}
