/**
 * `div_nsi` and the `Div` and `Rem` operators: a zero divisor gives `None`
 * (and the operators panic), a one-digit divisor goes to `div_u32`, a
 * dividend with fewer significant digits is its own remainder, and
 * everything else goes to `long_division`.
 */
module Division {
  import opened Wrappers
  import opened Numeral
  import opened Compare
  import opened AddSub
  import opened ScalarDivision
  import opened AlgorithmD

  /** `div_nsi`: quotient and remainder, `None` exactly for a zero divisor. */
  method DivNsi(lhs: seq<nat>, rhs: seq<nat>) returns (res: Option<(seq<nat>, seq<nat>)>)
    requires ValidDigits(lhs) && ValidDigits(rhs)
    ensures res.None? <==> Val(rhs) == 0
    ensures res.Some? ==> ValidDigits(res.value.0) && ValidDigits(res.value.1)
    ensures res.Some? ==> Val(res.value.0) * Val(rhs) + Val(res.value.1) == Val(lhs)
    ensures res.Some? ==> Val(res.value.1) < Val(rhs)
    ensures SigLen(rhs) == 1 ==> res.Some? && |res.value.0| == |lhs| && Canonical(res.value.1)
    ensures 1 < SigLen(rhs) && SigLen(lhs) < SigLen(rhs) ==> res == Some(([], lhs))
    ensures 1 < SigLen(rhs) <= SigLen(lhs) ==> res.Some? && |res.value.0| == SigLen(lhs) - SigLen(rhs) + 1
    ensures 1 < SigLen(rhs) <= SigLen(lhs) ==> res.Some? && |res.value.1| == Max(|lhs|, SigLen(lhs) + 1)
  {
    IsZeroIffZero(rhs);
    if IsZero(rhs) {
      res := None;
    } else if SigLen(rhs) == 1 {
      OneDigitValue(rhs);
      res := DivU32(lhs, rhs[0]);
    } else if SigLen(lhs) < SigLen(rhs) {
      FewerDigitsSmaller(lhs, rhs);
      res := Some(([], lhs));
    } else {
      res := LongDivision(lhs, rhs);
    }
  }

  /** A divisor with one significant digit denotes that digit. */
  lemma OneDigitValue(d: seq<nat>)
    requires ValidDigits(d) && SigLen(d) == 1
    ensures Val(d) == d[0]
  {
    SignificantValue(d);
    assert Significant(d) == [d[0]];
  }

  /**
   * The number of digits `div_nsi` stores for the quotient: those of the
   * dividend for a one-digit divisor, none when the dividend is its own
   * remainder, and one per offset of long division.
   */
  function QuotientWidth(lhs: seq<nat>, rhs: seq<nat>): nat {
    if SigLen(rhs) <= 1 then |lhs|
    else if SigLen(lhs) < SigLen(rhs) then 0
    else SigLen(lhs) - SigLen(rhs) + 1
  }

  /**
   * The number of digits `div_nsi` stores for the remainder beyond those its
   * value needs: none for a one-digit divisor, the dividend's own for a
   * shorter dividend, and the width of the remainder buffer of long division.
   */
  function RemainderWidth(lhs: seq<nat>, rhs: seq<nat>): nat {
    if SigLen(rhs) <= 1 then 0
    else if SigLen(lhs) < SigLen(rhs) then |lhs|
    else Max(|lhs|, SigLen(lhs) + 1)
  }

  /** `Div`: panics on a zero divisor. */
  method Div(lhs: seq<nat>, rhs: seq<nat>) returns (q: seq<nat>)
    requires ValidDigits(lhs) && ValidDigits(rhs) && Val(rhs) != 0
    ensures ValidDigits(q) && Val(q) == Val(lhs) / Val(rhs)
    ensures q == Padded(Val(lhs) / Val(rhs), QuotientWidth(lhs, rhs))
  {
    var res := DivNsi(lhs, rhs);
    q := res.value.0;
    DivisionDigits(Val(lhs), Val(rhs), q, res.value.1);
    IsZeroIffZero(rhs);
  }

  /** `Rem`: panics on a zero divisor. */
  method Rem(lhs: seq<nat>, rhs: seq<nat>) returns (r: seq<nat>)
    requires ValidDigits(lhs) && ValidDigits(rhs) && Val(rhs) != 0
    ensures ValidDigits(r) && Val(r) == Val(lhs) % Val(rhs)
    ensures r == Padded(Val(lhs) % Val(rhs), RemainderWidth(lhs, rhs))
  {
    var res := DivNsi(lhs, rhs);
    r := res.value.1;
    DivisionDigits(Val(lhs), Val(rhs), res.value.0, r);
    IsZeroIffZero(rhs);
    if SigLen(rhs) <= 1 {
      FromNatOfVal(r);
    }
  }
}
