/**
 * Division by a `u32`: `div_u32` runs a carry from the most significant
 * digit down, then writes out the final carry as the remainder, and the
 * `Div<u32>` and `Rem<u32>` operators keep one half of its result.
 */
module ScalarDivision {
  import opened Wrappers
  import opened Numeral

  /**
   * `div_u32`: `None` for a zero divisor; otherwise the quotient, with one
   * digit per stored digit of the dividend, and the canonical remainder.
   */
  method DivU32(a: seq<nat>, rhs: U32) returns (res: Option<(seq<nat>, seq<nat>)>)
    requires ValidDigits(a)
    ensures res.None? <==> rhs == 0
    ensures res.Some? ==> ValidDigits(res.value.0) && |res.value.0| == |a|
    ensures res.Some? ==> Val(res.value.0) == Val(a) / rhs
    ensures res.Some? ==> Canonical(res.value.1) && Val(res.value.1) == Val(a) % rhs
    ensures res.Some? ==> Val(res.value.0) * rhs + Val(res.value.1) == Val(a) && Val(res.value.1) < rhs
  {
    if rhs == 0 {
      return None;
    }
    var quotient: seq<nat> := [];
    var carry: nat := 0;
    var i := |a|;
    while i > 0
      invariant 0 <= i <= |a| && |quotient| == |a| - i
      invariant ValidDigits(quotient) && carry < rhs
      invariant Val(a[i..]) == Val(quotient) * rhs + carry
    {
      i := i - 1;
      var digit := a[i];
      var temp := carry * 10 + digit;
      assert temp < 0x1_0000_0000_0000_0000;
      var out, next := temp / rhs, temp % rhs;
      DivColumn(a, i, quotient, rhs, carry, out, next);
      carry := next;
      quotient := [out] + quotient;
    }
    ghost var rest := carry;
    var remainder: seq<nat> := [];
    while carry > 0
      invariant ValidDigits(remainder)
      invariant Val(remainder) + Pow10(|remainder|) * carry == rest
      invariant remainder != [] ==> carry != 0 || remainder[|remainder| - 1] != 0
      decreases carry
    {
      var out, next := carry % 10, carry / 10;
      CarryColumn(remainder, carry, out, next);
      carry := next;
      remainder := remainder + [out];
    }
    DivResult(a, quotient, rhs, rest);
    res := Some((quotient, remainder));
  }

  /**
   * Bringing down digit `i` of the dividend: the running remainder times ten
   * plus the digit splits into one quotient digit (below ten, because the
   * carry is below the divisor) and the next carry.
   */
  lemma DivColumn(a: seq<nat>, i: nat, quotient: seq<nat>, rhs: nat, carry: nat, out: int, next: int)
    requires ValidDigits(a) && i < |a| && 0 < rhs && carry < rhs
    requires Val(a[i + 1..]) == Val(quotient) * rhs + carry
    requires out == (10 * carry + a[i]) / rhs && next == (10 * carry + a[i]) % rhs
    ensures 0 <= out < 10 && 0 <= next < rhs
    ensures Val(a[i..]) == Val([out] + quotient) * rhs + next
    ensures ValidDigits(quotient) ==> ValidDigits([out] + quotient)
  {
    var t := 10 * carry + a[i];
    DivMod(t, rhs);
    assert a[i..] == [a[i]] + a[i + 1..];
    var q := [out] + quotient;
    assert q[0] == out && q[1..] == quotient;
    DivStep(Val(a[i + 1..]), Val(quotient), rhs, carry, a[i], out, next);
  }

  lemma DivMod(t: nat, y: nat)
    requires y > 0
    ensures t == (t / y) * y + t % y && 0 <= t % y < y && t / y >= 0
  {
  }

  lemma DivStep(va: nat, vq: nat, rhs: nat, c: nat, x: nat, o: nat, c2: nat)
    requires x < 10 && c < rhs && c2 < rhs
    requires va == vq * rhs + c
    requires 10 * c + x == o * rhs + c2
    ensures o < 10
    ensures x + 10 * va == (o + 10 * vq) * rhs + c2
  {
    if o >= 10 {
      MulLe(10, o, rhs);
      assert false;
    }
    assert 10 * va == (10 * vq) * rhs + 10 * c;
  }

  /** The whole dividend is the quotient times the divisor plus the final carry. */
  lemma DivResult(a: seq<nat>, quotient: seq<nat>, rhs: nat, rest: nat)
    requires rhs > 0 && rest < rhs
    requires Val(a[0..]) == Val(quotient) * rhs + rest
    ensures Val(quotient) == Val(a) / rhs && rest == Val(a) % rhs
    ensures Val(quotient) * rhs + rest == Val(a)
  {
    assert a[0..] == a;
    DivModUnique(Val(a), rhs, Val(quotient), rest);
  }

  /** `Div<u32>`: panics on a zero divisor. */
  method DivScalar(a: seq<nat>, rhs: U32) returns (q: seq<nat>)
    requires ValidDigits(a) && rhs != 0
    ensures ValidDigits(q) && |q| == |a| && Val(q) == Val(a) / rhs
  {
    var res := DivU32(a, rhs);
    q := res.value.0;
  }

  /** `Rem<u32>`: panics on a zero divisor. */
  method RemScalar(a: seq<nat>, rhs: U32) returns (r: seq<nat>)
    requires ValidDigits(a) && rhs != 0
    ensures Canonical(r) && Val(r) == Val(a) % rhs
  {
    var res := DivU32(a, rhs);
    r := res.value.1;
  }
}
