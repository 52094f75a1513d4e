/**
 * `long_division`: Knuth's Algorithm D (The Art of Computer Programming,
 * Vol. 2, section 4.3.1) on decimal digits. Both operands are scaled by
 * f = 10 div (top divisor digit + 1), so that the divisor's top digit is at
 * least 5; each quotient digit is estimated from three remainder digits and
 * two divisor digits, corrected at most once, and its multiple of the
 * divisor is subtracted in place from the remainder buffer; the remainder is
 * finally divided by f again.
 */
module AlgorithmD {
  import opened Wrappers
  import opened Numeral
  import opened Compare
  import opened AddSub
  import opened Multiply
  import opened ScalarDivision

  // ---------------------------------------------------------------------
  // `trial`

  /** The digits of `r` at positions km, km-1 and km-2 read as one three-digit number. */
  function Leading3(r: seq<nat>, km: nat): nat
    requires km >= 2
  {
    (Lookup(r, km) * 10 + Lookup(r, km - 1)) * 10 + Lookup(r, km - 2)
  }

  /** The top two of the m low digits of `d` read as one two-digit number. */
  function Leading2(d: seq<nat>, m: nat): nat
    requires m >= 2
  {
    Lookup(d, m - 1) * 10 + Lookup(d, m - 2)
  }

  /**
   * `trial`: the three leading digits of the window at offset k over the
   * two leading digits of the divisor, capped at 9. A zero two-digit
   * divisor would panic, so it is excluded.
   */
  function Trial(r: seq<nat>, d: seq<nat>, k: nat, m: nat): (t: nat)
    requires m >= 2 && Leading2(d, m) > 0
    ensures t <= 9
  {
    var estimate := Leading3(r, k + m) / Leading2(d, m);
    if estimate < 9 then estimate else 9
  }

  /**
   * For a normalised divisor (top digit at least 5) and a window below ten
   * divisors, the trial digit is never below the true quotient digit
   * (the window is below trial + 1 divisors) and at most one above it.
   */
  lemma TrialEstimate(r: seq<nat>, d: seq<nat>, k: nat, m: nat)
    requires ValidDigits(r) && ValidDigits(d) && m >= 2
    requires Val(d) < Pow10(m) && Lookup(d, m - 1) >= 5
    requires Val(View(r, k, m + 1)) < 10 * Val(d)
    ensures Leading2(d, m) >= 50
    ensures Val(View(r, k, m + 1)) < Trial(r, d, k, m) * Val(d) + Val(d)
    ensures Trial(r, d, k, m) * Val(d) <= Val(View(r, k, m + 1)) + Val(d)
  {
    WindowLeading(r, k, m);
    DivisorLeading(d, m);
    var r3, d2 := Leading3(r, k + m), Leading2(d, m);
    DivMod(r3, d2);
    var estimate, rest := r3 / d2, r3 % d2;
    var t := Trial(r, d, k, m);
    var w, dv, p := Val(View(r, k, m + 1)), Val(d), Pow10(m - 2);
    TrialNotBelow(w, dv, Val(View(r, k, m - 2)), p, r3, d2, estimate, rest, t);
    TrialAtMostOneOver(w, dv, Val(View(r, k, m - 2)), Val(View(d, 0, m - 2)), p, r3, d2, estimate, t);
  }

  /** The window at offset k is its three leading digits at place 10^(m-2) plus m - 2 lower digits. */
  lemma WindowLeading(r: seq<nat>, k: nat, m: nat)
    requires ValidDigits(r) && m >= 2
    ensures Val(View(r, k, m + 1)) == Val(View(r, k, m - 2)) + Pow10(m - 2) * Leading3(r, k + m)
    ensures Val(View(r, k, m - 2)) < Pow10(m - 2)
  {
    var low, top := View(r, k, m - 2), View(r, k + m - 2, 3);
    ViewConcat(r, k, m - 2, 3);
    assert View(r, k, m + 1) == low + top;
    ValAppend(low, top);
    LeadingWindow3(r, k + m - 2);
    ViewValid(r, k, m - 2);
    ValBound(low);
  }

  /** A divisor below 10^m is its two leading digits at place 10^(m-2) plus m - 2 lower digits. */
  lemma DivisorLeading(d: seq<nat>, m: nat)
    requires ValidDigits(d) && m >= 2 && Val(d) < Pow10(m)
    ensures Val(d) == Val(View(d, 0, m - 2)) + Pow10(m - 2) * Leading2(d, m)
    ensures Val(View(d, 0, m - 2)) < Pow10(m - 2)
  {
    var low, top := View(d, 0, m - 2), View(d, m - 2, 2);
    ViewOfSmall(d, m);
    ViewConcat(d, 0, m - 2, 2);
    assert View(d, 0, m) == low + top;
    ValAppend(low, top);
    LeadingWindow2(d, m - 2);
    ViewValid(d, 0, m - 2);
    ValBound(low);
  }

  /** The `len + more` digits from offset k are the first `len` followed by the next `more`. */
  lemma ViewConcat(d: seq<nat>, k: nat, len: nat, more: nat)
    ensures View(d, k, len + more) == View(d, k, len) + View(d, k + len, more)
  {
    var a, b := View(d, k, len + more), View(d, k, len) + View(d, k + len, more);
    forall j | 0 <= j < len + more ensures a[j] == b[j] {
      if j >= len {
        assert b[j] == View(d, k + len, more)[j - len];
      }
    }
  }

  /**
   * The operands of `trial` fit the source's `u64` arithmetic with room to
   * spare: the numerator is a three-digit number and the denominator a
   * two-digit one.
   */
  lemma TrialOperandsBounded(r: seq<nat>, d: seq<nat>, km: nat, m: nat)
    requires ValidDigits(r) && ValidDigits(d) && km >= 2 && m >= 2
    ensures Leading3(r, km) < 1000 && Leading2(d, m) < 100
  {
    LeadingWindow3(r, km - 2);
    ViewValid(r, km - 2, 3);
    ValBound(View(r, km - 2, 3));
    LeadingWindow2(d, m - 2);
    ViewValid(d, m - 2, 2);
    ValBound(View(d, m - 2, 2));
  }

  /** The three leading digits read by `trial` are the value of the three-digit window below position j + 3. */
  lemma LeadingWindow3(r: seq<nat>, j: nat)
    ensures Val(View(r, j, 3)) == Leading3(r, j + 2)
  {
    var w := View(r, j, 3);
    assert w[1..][1..][1..] == [];
    assert Val(w[1..][1..]) == w[2];
  }

  /** The two leading divisor digits read by `trial` are the value of the two-digit window below position j + 2. */
  lemma LeadingWindow2(d: seq<nat>, j: nat)
    ensures Val(View(d, j, 2)) == Leading2(d, j + 2)
  {
    var w := View(d, j, 2);
    assert w[1..][1..] == [];
    assert Val(w[1..]) == w[1];
  }

  /** The true quotient digit is at most the estimate: the window is below estimate + 1 divisors. */
  lemma TrialNotBelow(w: nat, dv: nat, wl: nat, p: nat, r3: nat, d2: nat, estimate: nat, rest: nat, t: nat)
    requires w == wl + p * r3 && wl < p
    requires dv >= p * d2
    requires r3 == estimate * d2 + rest && rest < d2
    requires t == (if estimate < 9 then estimate else 9)
    requires w < 10 * dv
    ensures w < t * dv + dv
  {
    if estimate < 9 {
      var pd := d2 * p;
      NotBelowSplit(r3, p, t, d2);
      MulLe(r3 + 1, t * d2 + d2, p);
      MulLe(pd, dv, t);
      assert w < (r3 + 1) * p;
      assert (t * d2 + d2) * p == t * pd + pd;
    }
  }

  lemma NotBelowSplit(r3: nat, p: nat, t: nat, d2: nat)
    ensures (r3 + 1) * p == p * r3 + p
    ensures (t * d2 + d2) * p == t * (d2 * p) + d2 * p
  {
  }

  /**
   * The estimate is at most one above the true quotient digit: with a
   * two-digit divisor prefix of at least 50, t - 1 divisors fit in the window.
   */
  lemma TrialAtMostOneOver(w: nat, dv: nat, wl: nat, dl: nat, p: nat, r3: nat, d2: nat, estimate: nat, t: nat)
    requires w == wl + p * r3
    requires dv == dl + p * d2 && dl < p && d2 >= 50
    requires r3 >= estimate * d2
    requires t == (if estimate < 9 then estimate else 9)
    ensures t * dv <= w + dv
  {
    if t > 0 {
      var s := t - 1;
      MulLe(t, estimate, d2);
      OverSplit(s, d2, p, dv);
      assert s * (d2 + 1) <= (s + 1) * d2;
      assert dv <= p * (d2 + 1);
      MulLe(dv, p * (d2 + 1), s);
      MulLe(s * (d2 + 1), (s + 1) * d2, p);
      MulLe((s + 1) * d2, r3, p);
    }
  }

  lemma OverSplit(s: nat, d2: nat, p: nat, dv: nat)
    ensures (s + 1) * d2 == s * d2 + d2 && s * (d2 + 1) == s * d2 + s
    ensures (p * (d2 + 1)) * s == (s * (d2 + 1)) * p && p * (d2 + 1) == p * d2 + p
    ensures (s + 1) * dv == s * dv + dv
  {
  }

  // ---------------------------------------------------------------------
  // `smaller`

  /**
   * `smaller`: scan the m+1 positions of the window at offset k and of `dq`
   * from the top until a pair differs (or position 0 is reached), and
   * compare there. The window is less than `dq` exactly when it denotes the
   * smaller number.
   */
  method Smaller(r: seq<nat>, dq: seq<nat>, k: nat, m: nat) returns (less: bool)
    requires ValidDigits(r) && ValidDigits(dq)
    ensures less <==> Val(View(r, k, m + 1)) < Val(View(dq, 0, m + 1))
  {
    var i: nat := m;
    var j: nat := 0;
    while i != j
      invariant j <= i <= m && (j == 0 || j == i)
      invariant forall p: nat :: i < p <= m ==> Lookup(r, p + k) == Lookup(dq, p)
      invariant 0 < j ==> Lookup(r, i + k) != Lookup(dq, i)
      decreases i - j
    {
      if Lookup(r, i + k) != Lookup(dq, i) {
        j := i;
      } else {
        i := i - 1;
      }
    }
    less := Lookup(r, i + k) < Lookup(dq, i);
    SmallerDecides(r, dq, k, m, i);
  }

  /** Where the scan stops, the pair of digits there decides the numeric comparison of the windows. */
  lemma SmallerDecides(r: seq<nat>, dq: seq<nat>, k: nat, m: nat, i: nat)
    requires ValidDigits(r) && ValidDigits(dq) && i <= m
    requires forall p: nat :: i < p <= m ==> Lookup(r, p + k) == Lookup(dq, p)
    requires 0 < i ==> Lookup(r, i + k) != Lookup(dq, i)
    ensures Lookup(r, i + k) < Lookup(dq, i) <==> Val(View(r, k, m + 1)) < Val(View(dq, 0, m + 1))
  {
    var a, b := View(r, k, m + 1), View(dq, 0, m + 1);
    ViewValid(r, k, m + 1);
    ViewValid(dq, 0, m + 1);
    forall p | i < p <= m ensures a[p] == b[p] {
      assert a[p] == Lookup(r, p + k);
    }
    assert a[i + 1..] == b[i + 1..];
    assert a[i] == Lookup(r, i + k);
    LexAt(a, b, i);
    if i == 0 {
      assert a[..0] == b[..0];
    }
  }

  // ---------------------------------------------------------------------
  // `difference`

  /** The remainder buffer that `difference` updates in place. */
  class DigitBuffer {
    var digits: seq<nat>

    constructor (d: seq<nat>)
      ensures digits == d
    {
      digits := d;
    }

    /**
     * `difference`: subtract the m+1 low digits of `dq` from the m+1
     * digits stored from position k on, writing each result digit in place
     * (appending it when it falls just past the end). Everything outside
     * the window is untouched, and the final borrow is dropped, so on
     * underflow the window wraps modulo 10^(m+1).
     */
    method Difference(dq: seq<nat>, k: nat, m: nat)
      requires ValidDigits(digits) && ValidDigits(dq) && k + m <= |digits|
      modifies this
      ensures ValidDigits(digits)
      ensures digits == Splice(old(digits), k, View(digits, k, m + 1))
      ensures Val(View(dq, 0, m + 1)) <= Val(View(old(digits), k, m + 1)) ==>
        Val(View(digits, k, m + 1)) == Val(View(old(digits), k, m + 1)) - Val(View(dq, 0, m + 1))
      ensures Val(View(old(digits), k, m + 1)) < Val(View(dq, 0, m + 1)) ==>
        Val(View(digits, k, m + 1)) == Pow10(m + 1) + Val(View(old(digits), k, m + 1)) - Val(View(dq, 0, m + 1))
    {
      ghost var start := digits;
      ghost var window := start[k..];
      ghost var out: seq<nat> := [];
      var borrow: nat := 0;
      assert Splice(start, k, out) == start;
      for i := 0 to m + 1
        invariant |out| == i && ValidDigits(out) && borrow <= 1
        invariant digits == Splice(start, k, out)
        invariant Val(out) + Val(View(dq, 0, i)) == Val(View(window, 0, i)) + (if borrow == 0 then 0 else Pow10(i))
      {
        var l := Lookup(digits, i + k);
        var rr := Lookup(dq, i);
        SpliceAhead(start, k, out);
        var diff: nat := 10 + l - (rr + borrow);
        ColumnDigits(diff);
        var digit: nat, next: nat := diff % 10, 1 - diff / 10;
        SubColumn(window, dq, out, borrow, l, rr, digit, next);
        SpliceExtend(start, k, out, digit);
        if i + k < |digits| {
          digits := digits[i + k := digit];
        } else {
          digits := digits + [digit];
        }
        out := out + [digit];
        borrow := next;
      }
      DifferenceResult(start, k, m, out, dq, borrow);
    }
  }

  /** A column difference below 20 is one result digit and a borrow quotient of 0 or 1. */
  lemma ColumnDigits(diff: nat)
    requires diff < 20
    ensures diff % 10 < 10 && diff / 10 <= 1 && diff == diff % 10 + 10 * (diff / 10)
  {
  }

  /** Past the digits written so far, the buffer still holds the old window's digits. */
  lemma SpliceAhead(s: seq<nat>, k: nat, out: seq<nat>)
    requires k + |out| <= |s|
    ensures Lookup(Splice(s, k, out), |out| + k) == Lookup(s[k..], |out|)
  {
  }

  /** Writing the next digit at position k + |out| extends the spliced-in prefix by that digit. */
  lemma SpliceExtend(s: seq<nat>, k: nat, out: seq<nat>, v: nat)
    requires k + |out| <= |s|
    ensures |Splice(s, k, out)| == |s|
    ensures |out| + k < |s| ==> Splice(s, k, out)[|out| + k := v] == Splice(s, k, out + [v])
    ensures |out| + k == |s| ==> Splice(s, k, out) + [v] == Splice(s, k, out + [v])
  {
  }

  /** The written digits are the new window, and the final borrow is 1 exactly on underflow. */
  lemma DifferenceResult(start: seq<nat>, k: nat, m: nat, out: seq<nat>, dq: seq<nat>, borrow: nat)
    requires ValidDigits(start) && ValidDigits(dq) && ValidDigits(out) && k + m <= |start|
    requires |out| == m + 1 && borrow <= 1
    requires Val(out) + Val(View(dq, 0, m + 1)) == Val(View(start[k..], 0, m + 1)) + (if borrow == 0 then 0 else Pow10(m + 1))
    ensures ValidDigits(Splice(start, k, out))
    ensures View(Splice(start, k, out), k, m + 1) == out
    ensures Val(View(dq, 0, m + 1)) <= Val(View(start, k, m + 1)) ==>
      Val(out) == Val(View(start, k, m + 1)) - Val(View(dq, 0, m + 1))
    ensures Val(View(start, k, m + 1)) < Val(View(dq, 0, m + 1)) ==>
      Val(out) == Pow10(m + 1) + Val(View(start, k, m + 1)) - Val(View(dq, 0, m + 1))
  {
    var s := Splice(start, k, out);
    var front := start[..k] + out;
    assert |front| == k + m + 1 && s == front + Drop(start, k + |out|);
    forall j | 0 <= j < m + 1 ensures View(s, k, m + 1)[j] == out[j] {
      assert View(s, k, m + 1)[j] == Lookup(s, k + j);
      assert k + j < |s|;
      assert s[k + j] == front[k + j];
      assert front[k + j] == out[j];
    }
    ViewShift(start, k, m + 1);
    ViewValid(start, k, m + 1);
    ViewValid(dq, 0, m + 1);
    ValBound(out);
    ValBound(View(start, k, m + 1));
    ValBound(View(dq, 0, m + 1));
    BorrowMeansUnderflow(Val(out), Val(View(start, k, m + 1)), Val(View(dq, 0, m + 1)), Pow10(m + 1), borrow);
  }

  // ---------------------------------------------------------------------
  // `longdivide`

  /**
   * `longdivide`: normalise, then produce one quotient digit for each
   * offset k from n - m down to 0, prepending it to the quotient, and undo
   * the scaling of the remainder at the end.
   */
  method LongDivide(x: seq<nat>, y: seq<nat>) returns (q: seq<nat>, rem: seq<nat>)
    requires ValidDigits(x) && ValidDigits(y)
    requires 2 <= SigLen(y) <= SigLen(x)
    ensures ValidDigits(q) && |q| == SigLen(x) - SigLen(y) + 1
    ensures ValidDigits(rem) && |rem| == Max(|x|, SigLen(x) + 1)
    ensures Val(q) * Val(y) + Val(rem) == Val(x) && Val(rem) < Val(y)
  {
    var n := SigLen(x);
    var m := SigLen(y);
    var f := 10 / (y[m - 1] + 1);
    ScaledDivisor(y, m, f);
    var scaled := MulScalar(x, f);
    var d := MulScalar(y, f);
    NormalisedDivisor(d, m);
    InitialRemainder(x, y, f, n, m);
    var r := new DigitBuffer(scaled);
    q := QuotientDigits(r, d, n, m);
    ScaledWidth(x, scaled, f);
    var res := DivU32(r.digits, f);
    rem := res.value.0;
    FinalScale(Val(x), Val(y), f, Val(q), Val(d), Val(r.digits), Val(rem), Val(res.value.1));
  }

  /**
   * The scaled dividend x * f is stored in at least |x| digits and, since
   * f < 10, in no more than one digit above the significant length of x.
   */
  lemma ScaledWidth(x: seq<nat>, scaled: seq<nat>, f: nat)
    requires ValidDigits(x) && f < 10
    requires PaddedTo(scaled, |x|) && Val(scaled) == Val(x) * f
    ensures |x| <= |scaled| <= Max(|x|, SigLen(x) + 1)
  {
    var n := SigLen(x);
    SigLenValue(x);
    DigitMultipleFits(Val(x), f, Pow10(n));
    assert Val(scaled) < Pow10(n + 1);
    if |scaled| > |x| {
      TopDigitBound(scaled, n + 1);
    }
  }

  /** Digits with a nonzero top digit and a value below 10^L number at most L. */
  lemma TopDigitBound(d: seq<nat>, l: nat)
    requires ValidDigits(d) && d != [] && d[|d| - 1] != 0 && Val(d) < Pow10(l)
    ensures |d| <= l
  {
    assert SigLen(d) == |d|;
    SigLenValue(d);
    if |d| > l {
      Pow10Mono(l, |d| - 1);
    }
  }

  /**
   * The `for k` loop of `longdivide`: one quotient digit for each offset k
   * from n - m down to 0, prepended to the quotient. The remainder buffer
   * ends below the divisor, and the first pass widens it to n + 1 digits.
   */
  method QuotientDigits(r: DigitBuffer, d: seq<nat>, n: nat, m: nat) returns (q: seq<nat>)
    requires ValidDigits(r.digits) && ValidDigits(d) && 2 <= m <= n <= |r.digits|
    requires Val(d) < Pow10(m) && Lookup(d, m - 1) >= 5
    requires Val(r.digits) < Val(d) * Pow10(n - m + 1)
    modifies r
    ensures |q| == n - m + 1 && ValidDigits(q) && ValidDigits(r.digits)
    ensures |r.digits| == Max(old(|r.digits|), n + 1)
    ensures old(Val(r.digits)) == Val(q) * Val(d) + Val(r.digits) && Val(r.digits) < Val(d)
  {
    ghost var start := Val(r.digits);
    ghost var width := |r.digits|;
    q := [];
    for k := n - m + 1 downto 0
      invariant |q| == n - m + 1 - k && ValidDigits(q)
      invariant ValidDigits(r.digits) && |r.digits| >= n
      invariant |r.digits| == if k == n - m + 1 then width else Max(width, n + 1)
      invariant start == Val(q) * Val(d) * Pow10(k) + Val(r.digits)
      invariant Val(r.digits) < Val(d) * Pow10(k)
    {
      ghost var before := Val(r.digits);
      var qt := QuotientDigit(r, d, k, m);
      QuotientPrepend(start, q, qt, Val(d), k, before, Val(r.digits));
      q := [qt] + q;
    }
  }

  /**
   * One pass of the `for k` loop of `longdivide`: estimate the quotient
   * digit, correct it once if its multiple exceeds the window, and subtract
   * that multiple from the window in the remainder buffer. For a remainder
   * below dv * 10^(k+1) the digit is the true quotient digit: it takes
   * exactly qt * dv * 10^k off the remainder and leaves less than dv * 10^k.
   */
  method QuotientDigit(r: DigitBuffer, d: seq<nat>, k: nat, m: nat) returns (qt: nat)
    requires ValidDigits(r.digits) && ValidDigits(d) && m >= 2 && k + m <= |r.digits|
    requires Val(d) < Pow10(m) && Lookup(d, m - 1) >= 5
    requires Val(r.digits) < Val(d) * Pow10(k + 1)
    modifies r
    ensures qt <= 9 && ValidDigits(r.digits) && |r.digits| == Max(old(|r.digits|), k + m + 1)
    ensures old(Val(r.digits)) == qt * Val(d) * Pow10(k) + Val(r.digits)
    ensures Val(r.digits) < Val(d) * Pow10(k)
  {
    ghost var before := r.digits;
    ghost var w := Val(View(before, k, m + 1));
    RemainderWindow(before, k, m, Val(d));
    TrialEstimate(before, d, k, m);
    qt := Trial(r.digits, d, k, m);
    var dq := MulScalar(d, qt);
    ProductWindow(d, dq, qt, m);
    var isSmaller := Smaller(r.digits, dq, k, m);
    ghost var taken := qt * Val(d);
    if isSmaller {
      OneTooMany(w, Val(d), qt);
      qt := qt - 1;
      dq := MulScalar(d, qt);
      ProductWindow(d, dq, qt, m);
      taken := qt * Val(d);
    }
    assert taken == qt * Val(d) == Val(View(dq, 0, m + 1));
    assert taken <= w < taken + Val(d);
    r.Difference(dq, k, m);
    assert Val(View(r.digits, k, m + 1)) == w - taken;
    DivisionStep(before, r.digits, qt, Val(d), k, m);
  }

  /** Prepending the digit taken off at offset k keeps the division equation of `longdivide`. */
  lemma QuotientPrepend(xf: nat, q: seq<nat>, t: nat, dv: nat, k: nat, r: nat, r2: nat)
    requires xf == Val(q) * dv * Pow10(k + 1) + r
    requires r == t * dv * Pow10(k) + r2
    ensures xf == Val([t] + q) * dv * Pow10(k) + r2
  {
    assert ([t] + q)[1..] == q;
    assert Pow10(k + 1) == 10 * Pow10(k);
    PrependArith(xf, Val(q), t, dv, Pow10(k), r, r2);
  }

  lemma PrependArith(xf: nat, vq: nat, t: nat, dv: nat, p: nat, r: nat, r2: nat)
    requires xf == vq * dv * (10 * p) + r
    requires r == t * dv * p + r2
    ensures xf == (t + 10 * vq) * dv * p + r2
  {
  }

  /** A trial digit whose multiple exceeds the window, but by at most one divisor, is decremented to the true digit. */
  lemma OneTooMany(w: nat, dv: nat, t: nat)
    requires w < dv * t && t * dv <= w + dv
    ensures t >= 1 && (t - 1) * dv <= w && w < (t - 1) * dv + dv
  {
    assert t * dv == (t - 1) * dv + dv;
  }

  /**
   * The scaling factor f = 10 div (top + 1) lies in 1..5 and brings the
   * divisor into [5 * 10^(m-1), 10^m): same digit count, top digit at least 5.
   */
  lemma ScaledDivisor(y: seq<nat>, m: nat, f: nat)
    requires ValidDigits(y) && m == SigLen(y) && m >= 1
    requires f == 10 / (y[m - 1] + 1)
    ensures 1 <= f <= 5
    ensures 5 * Pow10(m - 1) <= Val(y) * f < Pow10(m)
  {
    var low, top := y[..m - 1], y[m - 1];
    SignificantValue(y);
    assert Significant(y) == low + [top];
    ValSnoc(low, top);
    ValBound(low);
    FactorBounds(top, f);
    ScaleArith(Val(y), Val(low), Pow10(m - 1), top, f);
  }

  lemma ScaleArith(v: nat, low: nat, p: nat, top: nat, f: nat)
    requires v == low + p * top && low < p
    requires 1 <= f && 5 <= top * f && (top + 1) * f <= 10
    ensures 5 * p <= v * f < 10 * p
  {
    var tf := top * f;
    ScaleSplit(low, p, top, f);
    MulLe(low + 1, p, f);
    MulLe(tf + f, 10, p);
    MulLe(5, tf, p);
    assert v * f == low * f + p * tf;
    assert low * f + f <= p * f;
    assert p * tf + p * f <= 10 * p;
  }

  lemma ScaleSplit(low: nat, p: nat, top: nat, f: nat)
    ensures (low + p * top) * f == low * f + p * (top * f)
    ensures (low + 1) * f == low * f + f
    ensures (top * f + f) * p == p * (top * f) + p * f
  {
  }

  /** The scaling factor for each possible top digit. */
  lemma FactorBounds(top: nat, f: nat)
    requires 1 <= top <= 9 && f == 10 / (top + 1)
    ensures 1 <= f <= 5 && 5 <= top * f && (top + 1) * f <= 10
  {
    if top == 1 {
      assert f == 5;
    } else if top == 2 {
      assert f == 3;
    } else if top <= 4 {
      assert f == 2;
    } else {
      assert f == 1;
    }
  }

  /** A divisor in [5 * 10^(m-1), 10^m) has m significant digits, the top one at least 5. */
  lemma NormalisedDivisor(d: seq<nat>, m: nat)
    requires ValidDigits(d) && m >= 1
    requires 5 * Pow10(m - 1) <= Val(d) < Pow10(m)
    ensures SigLen(d) == m && Lookup(d, m - 1) >= 5
  {
    SigLenValue(d);
    var n := SigLen(d);
    if n < m {
      Pow10Mono(n, m - 1);
    } else if n > m {
      Pow10Mono(m, n - 1);
    }
    var low := d[..m - 1];
    assert Significant(d) == low + [d[m - 1]];
    ValSnoc(low, d[m - 1]);
    ValBound(low);
    TopAtLeastFive(Val(d), Val(low), Pow10(m - 1), d[m - 1]);
  }

  lemma TopAtLeastFive(v: nat, low: nat, p: nat, top: nat)
    requires v == low + p * top && low < p && 5 * p <= v
    ensures top >= 5
  {
    if top <= 4 {
      MulLe(top, 4, p);
    }
  }

  /** The scaled dividend is below the scaled divisor shifted to offset n - m + 1. */
  lemma InitialRemainder(x: seq<nat>, y: seq<nat>, f: nat, n: nat, m: nat)
    requires ValidDigits(x) && ValidDigits(y)
    requires n == SigLen(x) && m == SigLen(y) && 1 <= m <= n && f >= 1
    ensures Val(x) * f < (Val(y) * f) * Pow10(n - m + 1)
  {
    SigLenValue(x);
    SigLenValue(y);
    var e := n - m + 1;
    Pow10Add(m - 1, e);
    assert m - 1 + e == n;
    MulLe(Pow10(m - 1), Val(y), Pow10(e));
    ShiftedBelow(Val(x), Val(y), f, Pow10(e), Pow10(n));
  }

  lemma ShiftedBelow(vx: nat, vy: nat, f: nat, pe: nat, pn: nat)
    requires vx < pn && pn <= vy * pe && f >= 1
    ensures vx * f < (vy * f) * pe
  {
    assert vx * f < pn * f;
    MulLe(pn, vy * pe, f);
  }

  /** The scaled divisor times a digit fits in m + 1 digits, so its m + 1 low digits carry its value. */
  lemma ProductWindow(d: seq<nat>, dq: seq<nat>, t: nat, m: nat)
    requires ValidDigits(dq) && Val(dq) == Val(d) * t && t <= 9 && Val(d) < Pow10(m)
    ensures Val(View(dq, 0, m + 1)) == t * Val(d)
  {
    DigitMultipleFits(Val(d), t, Pow10(m));
    assert Pow10(m + 1) == 10 * Pow10(m);
    ViewOfSmall(dq, m + 1);
  }

  lemma DigitMultipleFits(dv: nat, t: nat, pm: nat)
    requires dv < pm && t <= 9
    ensures dv * t < 10 * pm
  {
    MulLe(t, 9, dv);
  }

  /**
   * A remainder below dv * 10^(k+1), for dv < 10^m, has nothing above the
   * window at offset k, and the window holds fewer than ten divisors.
   */
  lemma RemainderWindow(rd: seq<nat>, k: nat, m: nat, dv: nat)
    requires ValidDigits(rd) && k <= |rd| && dv < Pow10(m)
    requires Val(rd) < dv * Pow10(k + 1)
    ensures Val(Drop(rd, k + m + 1)) == 0
    ensures Val(rd) == Val(rd[..k]) + Pow10(k) * Val(View(rd, k, m + 1))
    ensures Val(View(rd, k, m + 1)) < 10 * dv
  {
    ValView(rd, k, m + 1);
    Pow10Add(k, m + 1);
    assert Pow10(m + 1) == 10 * Pow10(m);
    assert Pow10(k + 1) == 10 * Pow10(k);
    RemainderArith(Val(rd), Val(rd[..k]), Pow10(k), Val(View(rd, k, m + 1)), Val(Drop(rd, k + m + 1)),
      Pow10(k + (m + 1)), dv, Pow10(m));
  }

  lemma RemainderArith(v: nat, low: nat, p: nat, w: nat, h: nat, big: nat, dv: nat, pm: nat)
    requires v == low + p * w + big * h && big == p * (10 * pm) && dv < pm
    requires v < dv * (10 * p)
    ensures h == 0 && w < 10 * dv
  {
    MulLe(dv, pm, 10 * p);
    if h > 0 {
      MulLe(1, h, big);
    }
    if w >= 10 * dv {
      MulLe(10 * dv, w, p);
    }
  }

  /**
   * One step of `longdivide`: subtracting t divisors from the window at
   * offset k, for the true quotient digit t, keeps the division equation
   * with t prepended to the quotient and leaves a remainder below dv * 10^k.
   */
  lemma DivisionStep(before: seq<nat>, after: seq<nat>, t: nat, dv: nat, k: nat, m: nat)
    requires ValidDigits(before) && k <= |before|
    requires Val(Drop(before, k + m + 1)) == 0
    requires Val(before) == Val(before[..k]) + Pow10(k) * Val(View(before, k, m + 1))
    requires t * dv <= Val(View(before, k, m + 1)) < t * dv + dv
    requires after == Splice(before, k, View(after, k, m + 1))
    requires Val(View(after, k, m + 1)) == Val(View(before, k, m + 1)) - t * dv
    ensures |after| >= |before|
    ensures Val(before) == t * dv * Pow10(k) + Val(after)
    ensures Val(after) < dv * Pow10(k)
  {
    var w2 := View(after, k, m + 1);
    ValSplice(before, k, w2);
    ValBound(before[..k]);
    RemainderStep(Val(before), Val(before[..k]), Pow10(k), Val(View(before, k, m + 1)), t, dv, Val(w2), Val(after));
  }

  lemma RemainderStep(r: nat, low: nat, p: nat, w: nat, t: nat, dv: nat, w2: nat, r2: nat)
    requires r == low + p * w && low < p
    requires t * dv <= w < t * dv + dv && w2 == w - t * dv
    requires r2 == low + p * w2
    ensures r == t * dv * p + r2
    ensures r2 < dv * p
  {
    assert p * w == p * w2 + p * (t * dv);
    MulLe(w2 + 1, dv, p);
  }

  /**
   * Undoing the scaling: from x * f == q * (y * f) + r with r < y * f, the
   * scaled remainder is a multiple of f, and r div f is x's remainder by y.
   */
  lemma FinalScale(vx: nat, vy: nat, f: nat, vq: nat, dv: nat, r: nat, e: nat, g: nat)
    requires f >= 1 && dv == vy * f
    requires vx * f == vq * dv + r && r < dv
    requires e * f + g == r && g < f
    ensures vq * vy + e == vx && e < vy
  {
    var z: int := vx - vq * vy - e;
    assert z * f == g;
    if z > 0 {
      MulLe(1, z, f);
    } else if z < 0 {
      assert (-z) * f == -g;
      MulPositive(f, -z);
    }
    if e >= vy {
      MulLe(vy, e, f);
    }
  }

  /**
   * `long_division`: `None` for a zero divisor; otherwise `longdivide`.
   * It is only called with 2 <= length(divisor) <= length(dividend).
   */
  method LongDivision(lhs: seq<nat>, rhs: seq<nat>) returns (res: Option<(seq<nat>, seq<nat>)>)
    requires ValidDigits(lhs) && ValidDigits(rhs)
    requires IsZero(rhs) || 2 <= SigLen(rhs) <= SigLen(lhs)
    ensures res.None? <==> IsZero(rhs)
    ensures res.Some? ==> ValidDigits(res.value.0) && ValidDigits(res.value.1)
    ensures res.Some? ==> |res.value.0| == SigLen(lhs) - SigLen(rhs) + 1
    ensures res.Some? ==> Val(res.value.0) * Val(rhs) + Val(res.value.1) == Val(lhs)
    ensures res.Some? ==> Val(res.value.1) < Val(rhs)
    ensures res.Some? ==> |res.value.1| == Max(|lhs|, SigLen(lhs) + 1)
  {
    if IsZero(rhs) {
      res := None;
    } else {
      var q, r := LongDivide(lhs, rhs);
      res := Some((q, r));
    }
  }
}
