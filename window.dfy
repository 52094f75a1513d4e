/**
 * The `Digits` double-ended iterator of a NonSmallInt: a zero-padded window
 * of `length` digit positions over the stored digits, read by a front cursor
 * (`next`) and a back cursor (`next_back`) that stop once they cross.
 */
module DigitWindow {
  import opened Wrappers
  import opened Numeral

  class Window {
    /** The stored digits of the borrowed NonSmallInt. */
    const digits: seq<nat>
    /** The window length given to `iter_digits`. */
    ghost const length: nat
    /** Set when the window has length zero. */
    const empty: bool
    /** The front cursor (a `usize`). */
    var nextIx: nat
    /** The back cursor (an `isize`); it reaches -1 when the back end is used up. */
    var nextBackIx: int

    /** The cursors stay inside the window and never cross by more than one. */
    ghost predicate Valid()
      reads this
    {
      && empty == (length == 0)
      && -1 <= nextBackIx < length
      && nextIx <= nextBackIx + 1
    }

    /** The positions neither cursor has read yet, in increasing order. */
    ghost function Remaining(): seq<int>
      reads this
    {
      Span(nextIx, nextBackIx)
    }

    /** `iter_digits(length)`: both cursors at the ends of the window. */
    constructor (digits: seq<nat>, length: nat)
      ensures Valid()
      ensures this.digits == digits && this.length == length
      ensures nextIx == 0 && nextBackIx == length - 1
      ensures Remaining() == Span(0, length - 1)
    {
      this.digits := digits;
      this.length := length;
      this.empty := length == 0;
      nextIx := 0;
      nextBackIx := length - 1;
    }

    /**
     * `next`: the padded digit at the front cursor, which then advances.
     * When the back cursor is at -1 the source's `as usize` cast wraps and
     * the window would read on; that state is excluded here.
     */
    method Next() returns (r: Option<nat>)
      requires Valid()
      requires empty || nextBackIx >= 0
      modifies this
      ensures Valid() && nextBackIx == old(nextBackIx)
      ensures r.None? <==> old(Remaining()) == []
      ensures r.None? <==> old(nextIx) > old(nextBackIx)
      ensures r.None? ==> nextIx == old(nextIx)
      ensures r.Some? ==> r.value == Lookup(digits, old(nextIx))
      ensures r.Some? ==> r.value == Lookup(digits, old(Remaining())[0]) && nextIx == old(nextIx) + 1
      ensures r.Some? ==> Remaining() == old(Remaining())[1..]
    {
      if !empty && nextIx <= nextBackIx {
        var out := Lookup(digits, nextIx);
        nextIx := nextIx + 1;
        r := Some(out);
      } else {
        r := None;
      }
    }

    /** `next_back`: the padded digit at the back cursor, which then retreats. */
    method NextBack() returns (r: Option<nat>)
      requires Valid()
      modifies this
      ensures Valid() && nextIx == old(nextIx)
      ensures r.None? <==> old(Remaining()) == []
      ensures r.None? <==> old(nextIx) > old(nextBackIx)
      ensures r.None? ==> nextBackIx == old(nextBackIx)
      ensures r.Some? ==> r.value == Lookup(digits, old(nextBackIx))
      ensures r.Some? ==> old(nextBackIx) >= 0 && nextBackIx == old(nextBackIx) - 1
      ensures r.Some? ==> var last := old(Remaining())[|old(Remaining())| - 1];
        last == old(nextBackIx) && r.value == Lookup(digits, last)
      ensures r.Some? ==> Remaining() == old(Remaining())[..|old(Remaining())| - 1]
    {
      if !empty && nextBackIx >= nextIx {
        var out := Lookup(digits, nextBackIx);
        nextBackIx := nextBackIx - 1;
        r := Some(out);
      } else {
        r := None;
      }
    }
  }

  /** The positions lo .. hi in increasing order; empty when hi < lo. */
  function Span(lo: int, hi: int): (s: seq<int>)
    ensures |s| == if lo <= hi then hi - lo + 1 else 0
    ensures forall i :: 0 <= i < |s| ==> s[i] == lo + i
  {
    if lo <= hi then seq(hi - lo + 1, i => lo + i) else []
  }

  /**
   * One step of `a.zip(b)`: advance `a`, and only when it yields advance `b`;
   * a pair comes out when both yield.
   */
  method ZipNext(a: Window, b: Window) returns (p: Option<(nat, nat)>)
    requires a != b && a.Valid() && b.Valid()
    requires a.empty || a.nextBackIx >= 0
    requires b.empty || b.nextBackIx >= 0
    modifies a, b
    ensures a.Valid() && b.Valid()
    ensures a.nextBackIx == old(a.nextBackIx) && b.nextBackIx == old(b.nextBackIx)
    ensures old(a.Remaining()) == [] ==> p.None? && a.nextIx == old(a.nextIx) && b.nextIx == old(b.nextIx)
    ensures old(a.Remaining()) != [] ==> a.nextIx == old(a.nextIx) + 1
    ensures old(a.Remaining()) != [] && old(b.Remaining()) == [] ==> p.None? && b.nextIx == old(b.nextIx)
    ensures old(a.Remaining()) != [] && old(b.Remaining()) != [] ==>
      p == Some((Lookup(a.digits, old(a.nextIx)), Lookup(b.digits, old(b.nextIx)))) && b.nextIx == old(b.nextIx) + 1
  {
    var x := a.Next();
    if x.None? {
      return None;
    }
    var y := b.Next();
    if y.None? {
      return None;
    }
    return Some((x.value, y.value));
  }

  /** Collecting a window read from the front: the padded digits 0 .. length-1. */
  method ReadForward(d: seq<nat>, length: nat) returns (s: seq<nat>)
    ensures s == View(d, 0, length)
  {
    var w := new Window(d, length);
    s := [];
    while true
      invariant w.Valid() && w.digits == d && w.length == length
      invariant w.nextBackIx == length - 1 && w.nextIx == |s| <= length
      invariant s == View(d, 0, |s|)
      decreases length - |s|
    {
      var x := w.Next();
      if x.None? {
        break;
      }
      ViewSnoc(d, 0, |s|);
      s := s + [x.value];
    }
  }

  /** `iter_digits(length).rev().collect()`: the padded digits length-1 down to 0. */
  method ReadBackward(d: seq<nat>, length: nat) returns (s: seq<nat>)
    ensures |s| == length
    ensures forall i :: 0 <= i < length ==> s[i] == Lookup(d, length - 1 - i)
  {
    var w := new Window(d, length);
    s := [];
    while true
      invariant w.Valid() && w.digits == d && w.length == length
      invariant w.nextIx == 0 && w.nextBackIx == length - 1 - |s|
      invariant forall i :: 0 <= i < |s| ==> s[i] == Lookup(d, length - 1 - i)
      decreases length - |s|
    {
      var x := w.NextBack();
      if x.None? {
        break;
      }
      s := s + [x.value];
    }
  }
}
