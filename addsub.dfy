/**
 * Addition, checked subtraction and `Sum`: carry and borrow loops that read
 * both operands through zipped digit windows.
 */
module AddSub {
  import opened Wrappers
  import opened Numeral
  import opened Compare
  import opened DigitWindow
  import opened Decimal

  function Max(x: nat, y: nat): nat {
    if x < y then y else x
  }

  /**
   * `Add`: both operands read through windows as long as the longer
   * significant length, one carry digit appended at the end.
   */
  method Add(a: seq<nat>, b: seq<nat>) returns (r: seq<nat>)
    requires ValidDigits(a) && ValidDigits(b)
    ensures Canonical(r) && Val(r) == Val(a) + Val(b)
    ensures |r| <= Max(SigLen(a), SigLen(b)) + 1
  {
    var out: seq<nat> := [];
    var carry: nat := 0;
    var maxLength := Max(SigLen(a), SigLen(b));
    var ld := new Window(a, maxLength);
    var rd := new Window(b, maxLength);
    while true
      invariant ld.Valid() && rd.Valid() && ld.digits == a && rd.digits == b
      invariant ld.length == maxLength && rd.length == maxLength
      invariant ld.nextBackIx == maxLength - 1 && rd.nextBackIx == maxLength - 1
      invariant ld.nextIx == |out| && rd.nextIx == |out| && |out| <= maxLength
      invariant ValidDigits(out) && carry <= 1
      invariant Val(out) + (if carry == 0 then 0 else Pow10(|out|)) == Val(View(a, 0, |out|)) + Val(View(b, 0, |out|))
      decreases maxLength - |out|
    {
      var pair := ZipNext(ld, rd);
      if pair.None? {
        break;
      }
      var (l, rr) := pair.value;
      var temp := l + rr + carry;
      var digit, next := temp % 10, temp / 10;
      AddColumn(a, b, out, carry, l, rr, digit, next);
      out := out + [digit];
      carry := next;
    }
    ghost var columns := out;
    if carry != 0 {
      out := out + [carry % 10];
      CarryDigit(columns, carry);
    }
    r := out;
    AddResult(a, b, r, maxLength, |columns|, carry);
  }

  /** The final carry becomes the top digit. */
  lemma CarryDigit(out: seq<nat>, carry: nat)
    requires carry == 1
    ensures carry % 10 == 1 && Val(out + [carry % 10]) == Val(out) + Pow10(|out|)
  {
    assert carry % 10 == 1;
    ValSnoc(out, 1);
    assert Pow10(|out|) * 1 == Pow10(|out|);
  }

  /** Adding the column at position |out| extends the carry equation by one position. */
  lemma AddColumn(a: seq<nat>, b: seq<nat>, out: seq<nat>, carry: nat, l: nat, rr: nat, d: nat, q: nat)
    requires l == Lookup(a, |out|) && rr == Lookup(b, |out|)
    requires carry <= 1 && q <= 1 && l + rr + carry == d + 10 * q
    requires Val(out) + (if carry == 0 then 0 else Pow10(|out|)) == Val(View(a, 0, |out|)) + Val(View(b, 0, |out|))
    ensures Val(out + [d]) + (if q == 0 then 0 else Pow10(|out + [d]|))
      == Val(View(a, 0, |out + [d]|)) + Val(View(b, 0, |out + [d]|))
  {
    var n := |out|;
    assert |out + [d]| == n + 1;
    ViewSnoc(a, 0, n);
    ViewSnoc(b, 0, n);
    AddStep(View(a, 0, n), View(b, 0, n), out, carry, l, rr, d, q);
  }

  /** One column of the addition keeps the carry equation. */
  lemma AddStep(va: seq<nat>, vb: seq<nat>, out: seq<nat>, carry: nat, l: nat, rr: nat, d: nat, q: nat)
    requires |va| == |out| && |vb| == |out|
    requires carry <= 1 && q <= 1 && l + rr + carry == d + 10 * q
    requires Val(out) + (if carry == 0 then 0 else Pow10(|out|)) == Val(va) + Val(vb)
    ensures Val(out + [d]) + (if q == 0 then 0 else Pow10(|out| + 1)) == Val(va + [l]) + Val(vb + [rr])
  {
    var p := Pow10(|out|);
    calc {
      Val(out + [d]) + (if q == 0 then 0 else Pow10(|out| + 1));
    == { ValSnoc(out, d); }
      Val(out) + p * d + (if q == 0 then 0 else 10 * p);
    == { ColumnSum(Val(out), Val(va), Val(vb), p, l, rr, carry, d, q); }
      (Val(va) + p * l) + (Val(vb) + p * rr);
    == { ValSnoc(va, l); ValSnoc(vb, rr); }
      Val(va + [l]) + Val(vb + [rr]);
    }
  }

  /** Column arithmetic: the carry equation times the place value. */
  lemma ColumnSum(vo: nat, va: nat, vb: nat, p: nat, l: nat, rr: nat, c: nat, d: nat, q: nat)
    requires c <= 1 && q <= 1 && l + rr + c == d + 10 * q
    requires vo + (if c == 0 then 0 else p) == va + vb
    ensures vo + p * d + (if q == 0 then 0 else 10 * p) == (va + p * l) + (vb + p * rr)
  {
    assert p * (l + rr + c) == p * (d + 10 * q);
  }

  /** After the last column the digits are the canonical digits of the sum. */
  lemma AddResult(a: seq<nat>, b: seq<nat>, r: seq<nat>, w: nat, n: nat, carry: nat)
    requires ValidDigits(a) && ValidDigits(b) && ValidDigits(r) && carry <= 1
    requires SigLen(a) <= w && SigLen(b) <= w && (w == SigLen(a) || w == SigLen(b))
    requires n == w && |r| == w + carry && (carry == 1 ==> r[w] == 1)
    requires Val(r) == Val(View(a, 0, n)) + Val(View(b, 0, n))
    ensures Canonical(r) && Val(r) == Val(a) + Val(b)
  {
    AddValue(a, b, r, w);
    AddTopDigit(a, b, r, w, carry);
  }

  lemma AddValue(a: seq<nat>, b: seq<nat>, r: seq<nat>, w: nat)
    requires ValidDigits(a) && ValidDigits(b)
    requires SigLen(a) <= w && SigLen(b) <= w
    requires Val(r) == Val(View(a, 0, w)) + Val(View(b, 0, w))
    ensures Val(r) == Val(a) + Val(b)
  {
    ViewCoversValue(a, w);
    ViewCoversValue(b, w);
  }

  /** The sum's top digit is the carry, or else the top column of the longer operand is nonzero. */
  lemma AddTopDigit(a: seq<nat>, b: seq<nat>, r: seq<nat>, w: nat, carry: nat)
    requires ValidDigits(a) && ValidDigits(b) && ValidDigits(r) && carry <= 1
    requires SigLen(a) <= w && SigLen(b) <= w && (w == SigLen(a) || w == SigLen(b))
    requires |r| == w + carry && (carry == 1 ==> r[w] == 1)
    requires Val(r) == Val(a) + Val(b)
    ensures r == [] || r[|r| - 1] != 0
  {
    if carry == 0 && w > 0 {
      var p := Pow10(w - 1);
      if SigLen(a) == w {
        SigLenLowerBound(a);
        assert p <= Val(a);
      } else {
        SigLenLowerBound(b);
        assert p <= Val(b);
      }
      assert Pow10(|r| - 1) == p <= Val(r);
      TopDigitNonzero(r);
    }
  }

  /**
   * `safe_sub`: both operands read through windows as long as the longer
   * stored length; a borrow left over at the end means underflow.
   */
  method SafeSub(a: seq<nat>, b: seq<nat>) returns (res: Option<seq<nat>>)
    requires ValidDigits(a) && ValidDigits(b)
    ensures res.None? <==> Val(a) < Val(b)
    ensures res.Some? ==> ValidDigits(res.value) && Val(res.value) == Val(a) - Val(b)
    ensures res.Some? ==> |res.value| == Max(|a|, |b|)
    ensures res.Some? ==> res.value == Padded(Val(a) - Val(b), Max(|a|, |b|))
  {
    var out: seq<nat> := [];
    var borrow: nat := 0;
    var maxLength := Max(|a|, |b|);
    var ld := new Window(a, maxLength);
    var rd := new Window(b, maxLength);
    while true
      invariant ld.Valid() && rd.Valid() && ld.digits == a && rd.digits == b
      invariant ld.length == maxLength && rd.length == maxLength
      invariant ld.nextBackIx == maxLength - 1 && rd.nextBackIx == maxLength - 1
      invariant ld.nextIx == |out| && rd.nextIx == |out| && |out| <= maxLength
      invariant ValidDigits(out) && borrow <= 1
      invariant Val(out) + Val(View(b, 0, |out|)) == Val(View(a, 0, |out|)) + (if borrow == 0 then 0 else Pow10(|out|))
      decreases maxLength - |out|
    {
      var pair := ZipNext(ld, rd);
      if pair.None? {
        break;
      }
      var (l, rr) := pair.value;
      var diff: nat := 10 + l - (rr + borrow);
      var digit, next := diff % 10, 1 - diff / 10;
      SubColumn(a, b, out, borrow, l, rr, digit, next);
      out := out + [digit];
      borrow := next;
    }
    SubResult(a, b, out, maxLength, borrow);
    if borrow == 0 {
      PaddedOfVal(out);
      res := Some(out);
    } else {
      res := None;
    }
  }

  /** Subtracting the column at position |out| extends the borrow equation by one position. */
  lemma SubColumn(a: seq<nat>, b: seq<nat>, out: seq<nat>, borrow: nat, l: nat, rr: nat, d: nat, q: nat)
    requires l == Lookup(a, |out|) && rr == Lookup(b, |out|)
    requires borrow <= 1 && q <= 1 && d + rr + borrow == l + 10 * q
    requires Val(out) + Val(View(b, 0, |out|)) == Val(View(a, 0, |out|)) + (if borrow == 0 then 0 else Pow10(|out|))
    ensures Val(out + [d]) + Val(View(b, 0, |out + [d]|))
      == Val(View(a, 0, |out + [d]|)) + (if q == 0 then 0 else Pow10(|out + [d]|))
  {
    var n := |out|;
    assert |out + [d]| == n + 1;
    ViewSnoc(a, 0, n);
    ViewSnoc(b, 0, n);
    SubStep(View(a, 0, n), View(b, 0, n), out, borrow, l, rr, d, q);
  }

  /** One column of the subtraction keeps the borrow equation. */
  lemma SubStep(va: seq<nat>, vb: seq<nat>, out: seq<nat>, borrow: nat, l: nat, rr: nat, d: nat, q: nat)
    requires |va| == |out| && |vb| == |out|
    requires borrow <= 1 && q <= 1 && d + rr + borrow == l + 10 * q
    requires Val(out) + Val(vb) == Val(va) + (if borrow == 0 then 0 else Pow10(|out|))
    ensures Val(out + [d]) + Val(vb + [rr]) == Val(va + [l]) + (if q == 0 then 0 else Pow10(|out| + 1))
  {
    var p := Pow10(|out|);
    calc {
      Val(out + [d]) + Val(vb + [rr]);
    == { ValSnoc(out, d); ValSnoc(vb, rr); }
      (Val(out) + p * d) + (Val(vb) + p * rr);
    == { ColumnDifference(Val(out), Val(va), Val(vb), p, l, rr, borrow, d, q); }
      (Val(va) + p * l) + (if q == 0 then 0 else 10 * p);
    == { ValSnoc(va, l); }
      Val(va + [l]) + (if q == 0 then 0 else Pow10(|out| + 1));
    }
  }

  /** Column arithmetic: the borrow equation times the place value. */
  lemma ColumnDifference(vo: nat, va: nat, vb: nat, p: nat, l: nat, rr: nat, c: nat, d: nat, q: nat)
    requires c <= 1 && q <= 1 && d + rr + c == l + 10 * q
    requires vo + vb == va + (if c == 0 then 0 else p)
    ensures (vo + p * d) + (vb + p * rr) == (va + p * l) + (if q == 0 then 0 else 10 * p)
  {
    assert p * (d + rr + c) == p * (l + 10 * q);
  }

  /** The final borrow is 1 exactly on underflow, and otherwise the digits are the difference. */
  lemma SubResult(a: seq<nat>, b: seq<nat>, out: seq<nat>, w: nat, borrow: nat)
    requires ValidDigits(a) && ValidDigits(b) && ValidDigits(out) && borrow <= 1
    requires |a| <= w && |b| <= w && |out| == w
    requires Val(out) + Val(View(b, 0, w)) == Val(View(a, 0, w)) + (if borrow == 0 then 0 else Pow10(w))
    ensures borrow == 1 <==> Val(a) < Val(b)
    ensures borrow == 0 ==> Val(out) == Val(a) - Val(b)
  {
    StoredFitsView(a, w);
    StoredFitsView(b, w);
    ValBound(out);
    BorrowMeansUnderflow(Val(out), Val(a), Val(b), Pow10(w), borrow);
  }

  /** With all three numbers below p, a final borrow means the subtrahend was larger. */
  lemma BorrowMeansUnderflow(vo: nat, va: nat, vb: nat, p: nat, borrow: nat)
    requires vo < p && va < p && vb < p && borrow <= 1
    requires vo + vb == va + (if borrow == 0 then 0 else p)
    ensures borrow == 1 <==> va < vb
    ensures borrow == 0 ==> vo == va - vb
  {
  }

  /** `Sub`: panics on underflow, so the subtrahend may not exceed the minuend. */
  method Sub(a: seq<nat>, b: seq<nat>) returns (r: seq<nat>)
    requires ValidDigits(a) && ValidDigits(b)
    requires Val(b) <= Val(a)
    ensures ValidDigits(r) && Val(r) == Val(a) - Val(b)
    ensures |r| == Max(|a|, |b|) && r == Padded(Val(a) - Val(b), Max(|a|, |b|))
  {
    var res := SafeSub(a, b);
    r := res.value;
  }

  /** The sum of the numbers a sequence of digit sequences denotes. */
  function SumOfValues(xs: seq<seq<nat>>): nat {
    if xs == [] then 0 else SumOfValues(xs[..|xs| - 1]) + Val(xs[|xs| - 1])
  }

  /** Summing a concatenation adds the partial sums: the fold can be split anywhere. */
  lemma {:induction false} SumOfValuesAppend(xs: seq<seq<nat>>, ys: seq<seq<nat>>)
    ensures SumOfValues(xs + ys) == SumOfValues(xs) + SumOfValues(ys)
  {
    if ys != [] {
      var zs := xs + ys;
      assert zs[..|zs| - 1] == xs + ys[..|ys| - 1];
      assert zs[|zs| - 1] == ys[|ys| - 1];
      SumOfValuesAppend(xs, ys[..|ys| - 1]);
    } else {
      assert xs + ys == xs;
    }
  }

  /** `Sum`: `of(0)` plus each number in turn. */
  method Sum(xs: seq<seq<nat>>) returns (acc: seq<nat>)
    requires forall i :: 0 <= i < |xs| ==> ValidDigits(xs[i])
    ensures ValidDigits(acc) && Val(acc) == SumOfValues(xs)
    ensures xs == [] ==> acc == [0]
    ensures xs != [] ==> Canonical(acc)
  {
    acc := Of(0);
    for i := 0 to |xs|
      invariant ValidDigits(acc) && Val(acc) == SumOfValues(xs[..i])
      invariant i == 0 ==> acc == [0]
      invariant i > 0 ==> Canonical(acc)
    {
      assert xs[..i + 1][..i] == xs[..i];
      acc := Add(acc, xs[i]);
    }
    assert xs[..|xs|] == xs;
  }
}
