/**
 * The digit store of a NonSmallInt: a little-endian sequence of decimal
 * digits (`digits: Vec<u8>`, least significant digit at index 0), the value
 * it denotes, and the reference representations of a natural number that
 * the arithmetic results are stated against.
 */
module Numeral {

  /** The machine integers of the source, as ranges of `nat`. */
  type U32 = x: nat | x < 0x1_0000_0000
  type U64 = x: nat | x < 0x1_0000_0000_0000_0000

  /** The data invariant of a NonSmallInt: every stored digit is below RADIX = 10. */
  predicate ValidDigits(d: seq<nat>) {
    forall i :: 0 <= i < |d| ==> d[i] < 10
  }

  function Pow10(n: nat): (p: nat)
    ensures p >= 1
  {
    if n == 0 then 1 else 10 * Pow10(n - 1)
  }

  /** The number a digit sequence denotes: the sum of d[i] * 10^i. */
  function Val(d: seq<nat>): nat {
    if d == [] then 0 else d[0] + 10 * Val(d[1..])
  }

  /** `lookup`: the digit at position `ix`, zero past the stored digits. */
  function Lookup(d: seq<nat>, ix: nat): nat {
    if ix < |d| then d[ix] else 0
  }

  /** The `len` digits of `d` from position `k` on, zero-padded past the stored ones. */
  function View(d: seq<nat>, k: nat, len: nat): (w: seq<nat>)
    ensures |w| == len
  {
    seq<nat>(len, j requires 0 <= j < len => Lookup(d, k + j))
  }

  /** The stored digits from position `n` on; empty when `n` is past the end. */
  function Drop(d: seq<nat>, n: nat): seq<nat> {
    if n <= |d| then d[n..] else []
  }

  function Zeros(n: nat): (z: seq<nat>)
    ensures |z| == n
  {
    seq(n, _ => 0)
  }

  /** The digits of `s` with positions k .. k+|w|-1 overwritten by `w`, growing `s` if needed. */
  function Splice(s: seq<nat>, k: nat, w: seq<nat>): (r: seq<nat>)
    requires k <= |s|
  {
    s[..k] + w + Drop(s, k + |w|)
  }

  /** Valid digits without a stored high zero; zero has none at all. */
  predicate Canonical(d: seq<nat>) {
    ValidDigits(d) && (d == [] || d[|d| - 1] != 0)
  }

  /** The canonical digits of `x`: no stored high zero, and empty for zero. */
  function FromNat(x: nat): (d: seq<nat>)
    ensures Canonical(d) && Val(d) == x
    decreases x
  {
    if x == 0 then []
    else
      var high := FromNat(x / 10);
      var d := [x % 10] + high;
      assert d[0] == x % 10 && d[1..] == high && d[|d| - 1] != 0;
      d
  }

  /** The digits of `x` written in at least `w` positions, high positions zero-filled. */
  function Padded(x: nat, w: nat): (d: seq<nat>)
    ensures ValidDigits(d) && Val(d) == x && |d| >= w
    ensures x < Pow10(w) ==> |d| == w
    decreases w
  {
    if w == 0 then FromNat(x)
    else
      var high := Padded(x / 10, w - 1);
      var d := [x % 10] + high;
      assert d[0] == x % 10 && d[1..] == high;
      d
  }

  // ---------------------------------------------------------------------
  // Facts about Val

  lemma {:induction false} ValAppend(a: seq<nat>, b: seq<nat>)
    ensures Val(a + b) == Val(a) + Pow10(|a|) * Val(b)
  {
    if a == [] {
      assert a + b == b;
    } else {
      var ab := a + b;
      assert ab[0] == a[0] && ab[1..] == a[1..] + b;
      ValAppend(a[1..], b);
      var p := Pow10(|a| - 1);
      ShiftLeft(a[0], Val(a[1..]), p, Val(b));
    }
  }

  /** One place up: the arithmetic step of `ValAppend`. */
  lemma ShiftLeft(h: nat, x: nat, p: nat, v: nat)
    ensures h + 10 * (x + p * v) == (h + 10 * x) + (10 * p) * v
  {
  }

  lemma ValSplit(d: seq<nat>, k: nat)
    requires k <= |d|
    ensures Val(d) == Val(d[..k]) + Pow10(k) * Val(d[k..])
  {
    assert d == d[..k] + d[k..];
    ValAppend(d[..k], d[k..]);
  }

  lemma ValSnoc(d: seq<nat>, c: nat)
    ensures Val(d + [c]) == Val(d) + Pow10(|d|) * c
  {
    ValAppend(d, [c]);
    assert Val([c]) == c by { assert [c][1..] == []; }
  }

  lemma {:induction false} ValBound(d: seq<nat>)
    requires ValidDigits(d)
    ensures Val(d) < Pow10(|d|)
  {
    if d != [] {
      ValBound(d[1..]);
    }
  }

  /** A digit sequence denotes zero exactly when all of its digits are zero. */
  lemma {:induction false} ValZeroIff(d: seq<nat>)
    ensures Val(d) == 0 <==> forall i :: 0 <= i < |d| ==> d[i] == 0
  {
    if d != [] {
      ValZeroIff(d[1..]);
      if Val(d) == 0 {
        forall i | 0 <= i < |d| ensures d[i] == 0 {
          if i > 0 { assert d[i] == d[1..][i - 1]; }
        }
      }
      if forall i :: 0 <= i < |d| ==> d[i] == 0 {
        forall i | 0 <= i < |d[1..]| ensures d[1..][i] == 0 {
          assert d[1..][i] == d[i + 1];
        }
      }
    }
  }

  lemma ValZeros(n: nat)
    ensures Val(Zeros(n)) == 0
  {
    ValZeroIff(Zeros(n));
  }

  /** Stored high zeros do not change the value. */
  lemma HighZerosIgnored(d: seq<nat>, n: nat)
    ensures Val(d + Zeros(n)) == Val(d)
  {
    ValAppend(d, Zeros(n));
    ValZeros(n);
  }

  lemma {:induction false} Pow10Add(a: nat, b: nat)
    ensures Pow10(a + b) == Pow10(a) * Pow10(b)
  {
    if a > 0 {
      Pow10Add(a - 1, b);
      assert Pow10(a + b) == 10 * Pow10(a - 1 + b);
      assert 10 * (Pow10(a - 1) * Pow10(b)) == (10 * Pow10(a - 1)) * Pow10(b);
    }
  }

  lemma {:induction false} Pow10Mono(a: nat, b: nat)
    requires a <= b
    ensures Pow10(a) <= Pow10(b)
  {
    if a < b {
      Pow10Mono(a, b - 1);
    }
  }

  /** The value of a zero-padded view from position 0 plus what lies above it. */
  lemma ValViewLow(t: seq<nat>, len: nat)
    ensures Val(t) == Val(View(t, 0, len)) + Pow10(len) * Val(Drop(t, len))
  {
    var w := View(t, 0, len);
    var h := Drop(t, len);
    if len <= |t| {
      forall j | 0 <= j < len ensures w[j] == t[j] {
        assert w[j] == Lookup(t, j);
      }
      assert t == w + h;
      ValAppend(w, h);
    } else {
      var z := Zeros(len - |t|);
      forall j | 0 <= j < len ensures w[j] == (t + z)[j] {
        assert w[j] == Lookup(t, j);
      }
      assert w == t + z;
      HighZerosIgnored(t, len - |t|);
    }
  }

  lemma ViewShift(d: seq<nat>, k: nat, len: nat)
    requires k <= |d|
    ensures View(d, k, len) == View(d[k..], 0, len)
    ensures Drop(d, k + len) == Drop(d[k..], len)
  {
    var t := d[k..];
    forall j | 0 <= j < len ensures View(t, 0, len)[j] == View(d, k, len)[j] {
      assert View(t, 0, len)[j] == Lookup(t, j) && View(d, k, len)[j] == Lookup(d, k + j);
    }
  }

  lemma Distribute3(p: nat, q: nat, w: nat, h: nat)
    ensures p * (w + q * h) == p * w + (p * q) * h
  {
  }

  /** The value of a zero-padded view: what lies below it, inside it and above it. */
  lemma ValView(d: seq<nat>, k: nat, len: nat)
    requires k <= |d|
    ensures Val(d) == Val(d[..k]) + Pow10(k) * Val(View(d, k, len)) + Pow10(k + len) * Val(Drop(d, k + len))
  {
    ViewShift(d, k, len);
    ValSplit(d, k);
    ValViewLow(d[k..], len);
    Pow10Add(k, len);
    Distribute3(Pow10(k), Pow10(len), Val(View(d, k, len)), Val(Drop(d, k + len)));
  }

  /** Widening a view by one position appends the next padded digit. */
  lemma ViewSnoc(d: seq<nat>, k: nat, len: nat)
    ensures View(d, k, len + 1) == View(d, k, len) + [Lookup(d, k + len)]
  {
    var a, b := View(d, k, len + 1), View(d, k, len) + [Lookup(d, k + len)];
    forall j | 0 <= j < len + 1 ensures a[j] == b[j] {
      assert a[j] == Lookup(d, k + j);
      if j < len { assert b[j] == View(d, k, len)[j] == Lookup(d, k + j); }
    }
  }

  /** A view at least as wide as the value's digits has the value itself. */
  lemma ViewOfSmall(d: seq<nat>, len: nat)
    requires Val(d) < Pow10(len)
    ensures Val(View(d, 0, len)) == Val(d)
  {
    ValViewLow(d, len);
    MulPositive(Pow10(len), Val(Drop(d, len)));
  }

  /** A view at least as long as the stored digits has their value, which is below 10^w. */
  lemma StoredFitsView(d: seq<nat>, w: nat)
    requires ValidDigits(d) && |d| <= w
    ensures Val(d) < Pow10(w) && Val(View(d, 0, w)) == Val(d)
  {
    ValBound(d);
    Pow10Mono(|d|, w);
    ViewOfSmall(d, w);
  }

  lemma ValidAppend(s: seq<nat>, t: seq<nat>)
    requires ValidDigits(s) && ValidDigits(t)
    ensures ValidDigits(s + t)
  {
    forall i | 0 <= i < |s + t| ensures (s + t)[i] < 10 {
      if i >= |s| { assert (s + t)[i] == t[i - |s|]; }
    }
  }

  lemma ViewValid(d: seq<nat>, k: nat, len: nat)
    requires ValidDigits(d)
    ensures ValidDigits(View(d, k, len))
  {
    var w := View(d, k, len);
    forall j | 0 <= j < len ensures w[j] < 10 {
      assert w[j] == Lookup(d, k + j);
    }
  }

  lemma ValSplice(s: seq<nat>, k: nat, w: seq<nat>)
    requires k <= |s|
    ensures Val(Splice(s, k, w)) == Val(s[..k]) + Pow10(k) * Val(w) + Pow10(k + |w|) * Val(Drop(s, k + |w|))
  {
    var h := Drop(s, k + |w|);
    ValAppend(s[..k] + w, h);
    ValAppend(s[..k], w);
    Pow10Add(k, |w|);
    assert (s[..k] + w) + h == Splice(s, k, w);
  }

  // ---------------------------------------------------------------------
  // Uniqueness of the representations

  /** A valid digit sequence is exactly its value written in its own width. */
  lemma {:induction false} PaddedOfVal(d: seq<nat>)
    requires ValidDigits(d)
    ensures Padded(Val(d), |d|) == d
  {
    if d != [] {
      var t := d[1..];
      PaddedOfVal(t);
      LowDigit(Val(d), d[0], Val(t));
      assert d == [d[0]] + t;
    }
  }

  /** The lowest digit and the rest of `h + 10 * x` when `h` is a digit. */
  lemma LowDigit(v: nat, h: nat, x: nat)
    requires h < 10 && v == h + 10 * x
    ensures v % 10 == h && v / 10 == x
  {
  }

  /** A valid digit sequence without a stored high zero is the canonical one. */
  lemma {:induction false} FromNatOfVal(d: seq<nat>)
    requires ValidDigits(d)
    requires d == [] || d[|d| - 1] != 0
    ensures FromNat(Val(d)) == d
  {
    if d != [] {
      var t := d[1..];
      assert d == [d[0]] + t;
      assert t != [] ==> t[|t| - 1] == d[|d| - 1];
      FromNatOfVal(t);
      NonzeroTop(d);
      FromNatCons(Val(d), d[0], Val(t), t);
    }
  }

  /** A number whose top stored digit is nonzero is positive. */
  lemma NonzeroTop(d: seq<nat>)
    requires d != [] && d[|d| - 1] != 0
    ensures Val(d) != 0
  {
    ValZeroIff(d);
  }

  lemma FromNatCons(x: nat, h: nat, y: nat, t: seq<nat>)
    requires x != 0 && h < 10 && x == h + 10 * y && FromNat(y) == t
    ensures FromNat(x) == [h] + t
  {
    LowDigit(x, h, y);
  }

  /** Valid digits without a high zero are the canonical digits of the number they denote. */
  lemma CanonicalDigits(d: seq<nat>, x: nat)
    requires Canonical(d) && Val(d) == x
    ensures FromNat(x) == d
  {
    FromNatOfVal(d);
  }

  /** Valid digits, at least `w` of them, with no stored high zero above the first `w`. */
  predicate PaddedTo(d: seq<nat>, w: nat) {
    ValidDigits(d) && |d| >= w && (|d| > w ==> d[|d| - 1] != 0)
  }

  /** Digits of that shape are exactly the padded digits of their value. */
  lemma {:induction false} PaddedToUnique(d: seq<nat>, w: nat)
    requires PaddedTo(d, w)
    ensures Padded(Val(d), w) == d
  {
    if w == 0 {
      FromNatOfVal(d);
    } else {
      var t := d[1..];
      assert d == [d[0]] + t;
      assert |t| > w - 1 ==> t[|t| - 1] == d[|d| - 1];
      PaddedToUnique(t, w - 1);
      LowDigit(Val(d), d[0], Val(t));
    }
  }

  /** A sequence whose value reaches 10^(|d|-1) has a nonzero top digit. */
  lemma TopDigitNonzero(d: seq<nat>)
    requires ValidDigits(d) && |d| > 0
    requires Val(d) >= Pow10(|d| - 1)
    ensures d[|d| - 1] != 0
  {
    var n := |d| - 1;
    ValSplit(d, n);
    ValBound(d[..n]);
    assert d[n..] == [d[n]] && Val(d[n..]) == d[n] by { assert d[n..][1..] == []; }
  }

  // ---------------------------------------------------------------------
  // Comparing digit sequences from the most significant end

  /** Between equally long prefixes, the appended top digit decides, then the prefixes. */
  lemma TopDigitDecides(s: seq<nat>, t: seq<nat>, c: nat, e: nat)
    requires ValidDigits(s) && ValidDigits(t) && |s| == |t|
    ensures Val(s + [c]) < Val(t + [e]) <==> c < e || (c == e && Val(s) < Val(t))
  {
    ValSnoc(s, c);
    ValSnoc(t, e);
    ValBound(s);
    ValBound(t);
    PlaceValueOrder(Val(s), Val(t), c, e, Pow10(|s|));
  }

  lemma PlaceValueOrder(x: nat, y: nat, c: nat, e: nat, p: nat)
    requires x < p && y < p
    ensures x + p * c < y + p * e <==> c < e || (c == e && x < y)
  {
    if c < e {
      MulLe(c + 1, e, p);
      assert p * c + p == (c + 1) * p;
    } else if e < c {
      MulLe(e + 1, c, p);
      assert p * e + p == (e + 1) * p;
    }
  }

  /** Two equally long sequences that agree above position i compare as they do at i and below. */
  lemma LexAt(a: seq<nat>, b: seq<nat>, i: nat)
    requires ValidDigits(a) && ValidDigits(b) && |a| == |b| && i < |a|
    requires a[i + 1..] == b[i + 1..]
    ensures Val(a) < Val(b) <==> a[i] < b[i] || (a[i] == b[i] && Val(a[..i]) < Val(b[..i]))
  {
    var la, lb := a[..i], b[..i];
    assert ValidDigits(la) && ValidDigits(lb);
    assert a[..i + 1] == la + [a[i]];
    assert b[..i + 1] == lb + [b[i]];
    ValSplit(a, i + 1);
    ValSplit(b, i + 1);
    TopDigitDecides(la, lb, a[i], b[i]);
    SameHigh(Val(la + [a[i]]), Val(lb + [b[i]]), Pow10(i + 1), Val(a[i + 1..]));
  }

  lemma SameHigh(x: nat, y: nat, p: nat, h: nat)
    ensures x + p * h < y + p * h <==> x < y
  {
  }

  // ---------------------------------------------------------------------
  // Division arithmetic

  /** Splitting a column total into its digit and its carry keeps its weight. */
  lemma DigitCarry(p: nat, t: nat)
    ensures p * (t % 10) + (10 * p) * (t / 10) == p * t
  {
    assert t == 10 * (t / 10) + t % 10;
  }

  /** Writing out one digit of the final carry keeps the carry equation and the top digit. */
  lemma CarryColumn(out: seq<nat>, carry: nat, d: nat, q: nat)
    requires carry == d + 10 * q && d < 10
    ensures Val(out + [d]) + Pow10(|out| + 1) * q == Val(out) + Pow10(|out|) * carry
    ensures q == 0 && carry != 0 ==> d != 0
  {
    ValSnoc(out, d);
    CarryArith(Val(out), Val(out + [d]), Pow10(|out|), Pow10(|out| + 1), carry, d, q);
  }

  lemma CarryArith(vo: nat, vod: nat, p: nat, p1: nat, carry: nat, d: nat, q: nat)
    requires vod == vo + p * d && p1 == 10 * p && carry == d + 10 * q
    ensures vod + p1 * q == vo + p * carry
  {
    PlaceSplit(p, d, q);
  }

  /** A digit and a carry at place value p weigh what their total does. */
  lemma PlaceSplit(p: nat, d: nat, q: nat)
    ensures p * (d + 10 * q) == p * d + (10 * p) * q
  {
  }

  lemma MulPositive(p: nat, h: nat)
    ensures h == 0 || p * h >= p
  {
    if h > 0 {
      MulLe(1, h, p);
    }
  }

  lemma MulLe(a: nat, b: nat, c: nat)
    requires a <= b
    ensures a * c <= b * c
  {
  }

  /** Euclidean division is determined by its defining equation. */
  lemma DivModUnique(x: nat, y: nat, q: nat, r: nat)
    requires y > 0 && r < y && x == q * y + r
    ensures q == x / y && r == x % y
  {
    var q0, r0 := x / y, x % y;
    if q > q0 {
      MulLe(q0 + 1, q, y);
      assert false;
    } else if q < q0 {
      MulLe(q + 1, q0, y);
      assert false;
    }
  }

  /**
   * Valid quotient and remainder digits that satisfy the division equation
   * are the padded digits of x div y and x mod y at their stored widths.
   */
  lemma DivisionDigits(x: nat, y: nat, q: seq<nat>, r: seq<nat>)
    requires y > 0 && ValidDigits(q) && ValidDigits(r)
    requires Val(q) * y + Val(r) == x && Val(r) < y
    ensures q == Padded(x / y, |q|) && r == Padded(x % y, |r|)
  {
    DivModUnique(x, y, Val(q), Val(r));
    PaddedOfVal(q);
    PaddedOfVal(r);
  }
}
