/**
 * Significant length, the zero test, `==` and the order of NonSmallInts.
 * All of them look past stored high zeros.
 */
module Compare {
  import opened Wrappers
  import opened Numeral

  /** `length(RADIX)`: the stored length minus the run of high-index zeros. */
  function SigLen(d: seq<nat>): (n: nat)
    ensures n <= |d|
    ensures forall i :: n <= i < |d| ==> d[i] == 0
    ensures n > 0 ==> d[n - 1] != 0
  {
    if d == [] then 0
    else if d[|d| - 1] == 0 then SigLen(d[..|d| - 1])
    else |d|
  }

  /** The stored digits below the run of high zeros. */
  function Significant(d: seq<nat>): seq<nat> {
    d[..SigLen(d)]
  }

  /** `is_zero`: no digits stored, or every stored digit zero. */
  function IsZero(d: seq<nat>): (z: bool)
    ensures z <==> SigLen(d) == 0
  {
    |d| == 0 || forall i :: 0 <= i < |d| ==> d[i] == 0
  }

  /** `PartialEq::eq`: the two digit sequences agree once their high zeros are skipped. */
  function Eq(a: seq<nat>, b: seq<nat>): bool {
    Significant(a) == Significant(b)
  }

  /**
   * The search of `lt` over the two zero-padded windows read from the top:
   * positions i-1 down to 0, the first differing pair decides, and no
   * difference means "not less".
   */
  function LtFrom(a: seq<nat>, b: seq<nat>, i: nat): bool {
    if i == 0 then false
    else if Lookup(a, i - 1) != Lookup(b, i - 1) then Lookup(a, i - 1) < Lookup(b, i - 1)
    else LtFrom(a, b, i - 1)
  }

  /** `lt`: fewer significant digits means less; otherwise the top-down search decides. */
  function Lt(a: seq<nat>, b: seq<nat>): bool {
    if SigLen(a) < SigLen(b) then true
    else LtFrom(a, b, if |a| < |b| then |b| else |a|)
  }

  /** `Ord::cmp`: `Less` when `lt`, then `Equal` when `==`, else `Greater`. */
  function Cmp(a: seq<nat>, b: seq<nat>): Ordering {
    if Lt(a, b) then Less else if Eq(a, b) then Equal else Greater
  }

  // ---------------------------------------------------------------------
  // What the significant length says about the value

  /** The high zeros skipped by `length` contribute nothing to the value. */
  lemma SignificantValue(d: seq<nat>)
    ensures Val(d) == Val(Significant(d))
  {
    var n := SigLen(d);
    ValSplit(d, n);
    var high := d[n..];
    assert forall i :: 0 <= i < |high| ==> high[i] == d[n + i];
    ValZeroIff(high);
  }

  /** A positive significant length puts the value at or above 10^(length-1). */
  lemma SignificantLowerBound(d: seq<nat>)
    requires SigLen(d) > 0
    ensures Pow10(SigLen(d) - 1) <= Val(Significant(d))
  {
    var n := SigLen(d);
    var low := d[..n - 1];
    assert Significant(d) == low + [d[n - 1]];
    ValSnoc(low, d[n - 1]);
    MulLe(1, d[n - 1], Pow10(n - 1));
  }

  /** The significant digits carry the whole value, which has exactly that many decimal digits. */
  lemma SigLenValue(d: seq<nat>)
    requires ValidDigits(d)
    ensures Val(d) == Val(Significant(d))
    ensures Val(d) < Pow10(SigLen(d))
    ensures SigLen(d) > 0 ==> Pow10(SigLen(d) - 1) <= Val(d)
  {
    SignificantValue(d);
    ValBound(Significant(d));
    if SigLen(d) > 0 {
      SignificantLowerBound(d);
    }
  }

  /** A number with n significant digits is at least 10^(n-1). */
  lemma SigLenLowerBound(d: seq<nat>)
    ensures SigLen(d) > 0 ==> Pow10(SigLen(d) - 1) <= Val(d)
  {
    if SigLen(d) > 0 {
      SignificantValue(d);
      SignificantLowerBound(d);
    }
  }

  /** A zero-padded view at least as wide as the significant length has the whole value. */
  lemma ViewCoversValue(d: seq<nat>, w: nat)
    requires ValidDigits(d) && SigLen(d) <= w
    ensures Val(d) < Pow10(w)
    ensures Val(View(d, 0, w)) == Val(d)
  {
    SigLenValue(d);
    Pow10Mono(SigLen(d), w);
    ViewOfSmall(d, w);
  }

  /** The significant digits are the canonical digits of the value. */
  lemma SigLenCanonical(d: seq<nat>)
    requires ValidDigits(d)
    ensures Significant(d) == FromNat(Val(d))
    ensures SigLen(d) == |FromNat(Val(d))|
  {
    SignificantValue(d);
    FromNatOfVal(Significant(d));
  }

  /** `is_zero` holds exactly for the digit sequences denoting zero. */
  lemma IsZeroIffZero(d: seq<nat>)
    ensures IsZero(d) <==> Val(d) == 0
  {
    ValZeroIff(d);
  }

  /** Two digit sequences are `==` exactly when they denote the same number. */
  lemma EqIffSameValue(a: seq<nat>, b: seq<nat>)
    requires ValidDigits(a) && ValidDigits(b)
    ensures Eq(a, b) <==> Val(a) == Val(b)
  {
    SigLenCanonical(a);
    SigLenCanonical(b);
  }

  /** The top-down search finds "less" exactly when the low i positions denote a smaller number. */
  lemma {:induction false} LtFromIsLess(a: seq<nat>, b: seq<nat>, i: nat)
    requires ValidDigits(a) && ValidDigits(b)
    ensures LtFrom(a, b, i) <==> Val(View(a, 0, i)) < Val(View(b, 0, i))
  {
    if i > 0 {
      LtFromIsLess(a, b, i - 1);
      ViewSnoc(a, 0, i - 1);
      ViewSnoc(b, 0, i - 1);
      ViewValid(a, 0, i - 1);
      ViewValid(b, 0, i - 1);
      TopDigitDecides(View(a, 0, i - 1), View(b, 0, i - 1), Lookup(a, i - 1), Lookup(b, i - 1));
    }
  }

  /** `lt` is the numeric order of the denoted numbers. */
  lemma LtIsLess(a: seq<nat>, b: seq<nat>)
    requires ValidDigits(a) && ValidDigits(b)
    ensures Lt(a, b) <==> Val(a) < Val(b)
  {
    if SigLen(a) < SigLen(b) {
      FewerDigitsSmaller(a, b);
    } else {
      var w := if |a| < |b| then |b| else |a|;
      LtFromIsLess(a, b, w);
      StoredFitsView(a, w);
      StoredFitsView(b, w);
    }
  }

  /** Fewer significant digits means a smaller number. */
  lemma FewerDigitsSmaller(a: seq<nat>, b: seq<nat>)
    requires ValidDigits(a) && ValidDigits(b) && SigLen(a) < SigLen(b)
    ensures Val(a) < Val(b)
  {
    SigLenValue(a);
    SigLenLowerBound(b);
    Pow10Mono(SigLen(a), SigLen(b) - 1);
  }

  /** `cmp` agrees with the order of the denoted numbers. */
  lemma CmpIsNumeric(a: seq<nat>, b: seq<nat>)
    requires ValidDigits(a) && ValidDigits(b)
    ensures Cmp(a, b) == CompareNat(Val(a), Val(b))
  {
    LtIsLess(a, b);
    EqIffSameValue(a, b);
  }

  /** Stored high zeros change neither the length, nor `==`, nor the order. */
  lemma HighZerosInvisible(a: seq<nat>, b: seq<nat>, n: nat)
    requires ValidDigits(a) && ValidDigits(b)
    ensures SigLen(a + Zeros(n)) == SigLen(a)
    ensures Eq(a + Zeros(n), a)
    ensures Cmp(a + Zeros(n), b) == Cmp(a, b)
  {
    var a' := a + Zeros(n);
    assert ValidDigits(a');
    HighZerosIgnored(a, n);
    SigLenCanonical(a);
    SigLenCanonical(a');
    CmpIsNumeric(a, b);
    CmpIsNumeric(a', b);
    EqIffSameValue(a', a);
  }
}
