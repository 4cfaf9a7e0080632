/** Keeping the pointer on a display: where one that has wandered off comes back to. */
module Pointer {
  import opened Wrappers

  datatype Point = Point(x: real, y: real)

  /** A display's place in the layout: a corner and a size, in whole units. */
  datatype Rect = Rect(x: int, y: int, w: int, h: int)

  predicate Holds(r: Rect, p: Point) {
    r.x as real <= p.x < (r.x + r.w) as real && r.y as real <= p.y < (r.y + r.h) as real
  }

  /** How far right, or down, a pointer may go: one short of the end, or the start of a display of no size. */
  function Far(near: int, size: int): real {
    var far := (near + size) as real - 1.0;
    if far < near as real then near as real else far
  }

  function Between(low: real, x: real, high: real): real {
    if x < low then low else if x > high then high else x
  }

  /** The points of a display the pointer is put back on. */
  predicate Inset(r: Rect, p: Point) {
    r.x as real <= p.x <= Far(r.x, r.w) && r.y as real <= p.y <= Far(r.y, r.h)
  }

  function HeldInside(r: Rect, p: Point): Point {
    Point(Between(r.x as real, p.x, Far(r.x, r.w)), Between(r.y as real, p.y, Far(r.y, r.h)))
  }

  function Distance(p: Point, q: Point): real {
    Square(q.x - p.x) + Square(q.y - p.y)
  }

  function Square(x: real): real {
    x * x
  }

  lemma Closer(p: real, near: real, q: real)
    requires (p <= near <= q) || (q <= near <= p)
    ensures Square(near - p) <= Square(q - p)
  {
    if p <= near <= q {
      Grows(near - p, q - p);
    } else {
      Grows(p - near, p - q);
      Flipped(near - p, p - near);
      Flipped(q - p, p - q);
    }
  }

  lemma Flipped(x: real, y: real)
    requires y == -x
    ensures Square(y) == Square(x)
  {}

  lemma Grows(a: real, b: real)
    requires 0.0 <= a <= b
    ensures Square(a) <= Square(b)
  {
    assert b * b - a * a == (b - a) * (b + a);
  }

  /** Held inside a display is the nearest place on it, and a place already on it is left where it is. */
  lemma HeldInsideIsNearest(r: Rect, p: Point, q: Point)
    requires Inset(r, q)
    ensures Inset(r, HeldInside(r, p)) && Distance(p, HeldInside(r, p)) <= Distance(p, q)
    ensures Inset(r, p) ==> HeldInside(r, p) == p
  {
    var held := HeldInside(r, p);
    Closer(p.x, held.x, q.x);
    Closer(p.y, held.y, q.y);
  }

  /** The first display whose nearest point is nearest of all. */
  ghost predicate Best(outputs: seq<Rect>, p: Point, k: int) {
    && 0 <= k < |outputs|
    && (forall i :: 0 <= i < |outputs| ==> Distance(p, HeldInside(outputs[k], p)) <= Distance(p, HeldInside(outputs[i],
        p)))
    && (forall i :: 0 <= i < k ==> Distance(p, HeldInside(outputs[k], p)) < Distance(p, HeldInside(outputs[i], p)))
  }

  predicate OnAnOutput(outputs: seq<Rect>, p: Point) {
    exists r :: r in outputs && Holds(r, p)
  }

  method ClampPointer(outputs: seq<Rect>, p: Point) returns (location: Point)
    ensures Clamps(outputs, p, location)
  {
    if OnAnOutput(outputs, p) {
      return p;
    }
    var best: Option<(real, Point)> := None;
    ghost var which := 0;
    for i := 0 to |outputs|
      invariant i == 0 <==> best.None?
      invariant best.Some? ==> Best(outputs[..i], p, which)
      invariant best.Some? ==>
              best.value.1 == HeldInside(outputs[which], p) && best.value.0 == Distance(p, best.value.1)
    {
      var clamped := HeldInside(outputs[i], p);
      var dist := Distance(p, clamped);
      if best.None? || dist < best.value.0 {
        best, which := Some((dist, clamped)), i;
      }
    }
    assert outputs[..|outputs|] == outputs;
    location := if best.Some? then best.value.1 else p;
  }

  ghost predicate Clamps(outputs: seq<Rect>, p: Point, location: Point) {
    if OnAnOutput(outputs, p) || outputs == [] then location == p
    else exists k :: Best(outputs, p, k) && location == HeldInside(outputs[k], p)
  }

  lemma BestOfAll(outputs: seq<Rect>, p: Point, k: int, i: int)
    requires Best(outputs, p, k) && 0 <= i < |outputs|
    ensures Distance(p, HeldInside(outputs[k], p)) <= Distance(p, HeldInside(outputs[i], p))
    ensures i < k ==> Distance(p, HeldInside(outputs[k], p)) < Distance(p, HeldInside(outputs[i], p))
  {}

  lemma HeldIsInset(r: Rect, p: Point)
    ensures Inset(r, HeldInside(r, p))
  {}

  /** A pointer off every display comes back to a point of one of them, and no point of any of them is
      nearer to where it was. */
  lemma ComesBackToTheNearest(outputs: seq<Rect>, p: Point, location: Point, q: Point, r: Rect)
    requires Clamps(outputs, p, location) && !OnAnOutput(outputs, p)
    requires r in outputs && Inset(r, q)
    ensures exists o :: o in outputs && Inset(o, location)
    ensures Distance(p, location) <= Distance(p, q)
  {
    var k :| Best(outputs, p, k) && location == HeldInside(outputs[k], p);
    HeldIsInset(outputs[k], p);
    assert outputs[k] in outputs;
    var i :| 0 <= i < |outputs| && outputs[i] == r;
    NoneNearer(outputs, p, k, i, q);
  }

  /** A point of a display short of its far edges by one, or the very start of one that has no such points. */
  ghost predicate On(r: Rect, q: Point) {
    && (q.x == r.x as real || r.x as real <= q.x <= (r.x + r.w - 1) as real)
    && (q.y == r.y as real || r.y as real <= q.y <= (r.y + r.h - 1) as real)
  }

  /** Put on one display, with no point of any nearer in a straight line and none of an earlier one as near. */
  ghost predicate PutOn(outputs: seq<Rect>, p: Point, location: Point, k: int) {
    && 0 <= k < |outputs| && On(outputs[k], location)
    && forall i, q :: 0 <= i < |outputs| && On(outputs[i], q) ==> NoFarther(p, location, q, i < k)
  }

  /** In a straight line, and strictly so where asked. */
  ghost predicate NoFarther(p: Point, a: Point, b: Point, strictly: bool) {
    var here := (a.x - p.x) * (a.x - p.x) + (a.y - p.y) * (a.y - p.y);
    var there := (b.x - p.x) * (b.x - p.x) + (b.y - p.y) * (b.y - p.y);
    here <= there && (strictly ==> here < there)
  }

  /** In numbers: a pointer over a display stays, a half-open range each way; any other is put on the display
      with the nearest point, the first of those as near. */
  lemma ClampsExactly(outputs: seq<Rect>, p: Point, location: Point)
    requires Clamps(outputs, p, location)
    ensures forall r :: r in outputs ==>
              r.x as real <= p.x < (r.x + r.w) as real && r.y as real <= p.y < (r.y + r.h) as real ==> location == p
    ensures outputs != [] && (forall r :: r in outputs ==>
              p.x < r.x as real || p.x >= (r.x + r.w) as real || p.y < r.y as real || p.y >= (r.y + r.h) as real) ==>
              exists k :: PutOn(outputs, p, location, k)
  {
    if outputs != [] && !OnAnOutput(outputs, p) {
      var k :| Best(outputs, p, k) && location == HeldInside(outputs[k], p);
      forall i, q | 0 <= i < |outputs| && On(outputs[i], q) ensures NoFarther(p, location, q, i < k) {
        NoneAsNear(outputs, p, k, i, q);
      }
      assert PutOn(outputs, p, location, k);
    }
  }

  lemma NoneAsNear(outputs: seq<Rect>, p: Point, k: int, i: int, q: Point)
    requires Best(outputs, p, k) && 0 <= i < |outputs| && On(outputs[i], q)
    ensures NoFarther(p, HeldInside(outputs[k], p), q, i < k)
  {
    BestOfAll(outputs, p, k, i);
    OnIsInset(outputs[i], q);
    HeldInsideIsNearest(outputs[i], p, q);
    Straight(p, HeldInside(outputs[k], p), q, i < k);
  }

  lemma OnIsInset(r: Rect, q: Point)
    requires On(r, q)
    ensures Inset(r, q)
  {}

  lemma Straight(p: Point, a: Point, b: Point, strictly: bool)
    requires Distance(p, a) <= Distance(p, b) && (strictly ==> Distance(p, a) < Distance(p, b))
    ensures NoFarther(p, a, b, strictly)
  {}

  lemma NoneNearer(outputs: seq<Rect>, p: Point, k: int, i: int, q: Point)
    requires Best(outputs, p, k) && 0 <= i < |outputs| && Inset(outputs[i], q)
    ensures Distance(p, HeldInside(outputs[k], p)) <= Distance(p, q)
  {
    BestOfAll(outputs, p, k, i);
    HeldInsideIsNearest(outputs[i], p, q);
  }

  /** Where it comes back to is settled by the layout and where it was. */
  lemma ClampsOnce(outputs: seq<Rect>, p: Point, a: Point, b: Point)
    requires Clamps(outputs, p, a) && Clamps(outputs, p, b)
    ensures a == b
  {
    if !OnAnOutput(outputs, p) && outputs != [] {
      var j :| Best(outputs, p, j) && a == HeldInside(outputs[j], p);
      var k :| Best(outputs, p, k) && b == HeldInside(outputs[k], p);
      OneBest(outputs, p, j, k);
    }
  }

  lemma OneBest(outputs: seq<Rect>, p: Point, j: int, k: int)
    requires Best(outputs, p, j) && Best(outputs, p, k)
    ensures j == k
  {
    BestOfAll(outputs, p, j, k);
    BestOfAll(outputs, p, k, j);
  }

  /** Where the pointer has been put it stays; and with displays that have a size, that is on one. */
  lemma ClampedStays(outputs: seq<Rect>, p: Point, once: Point, twice: Point)
    requires Clamps(outputs, p, once) && Clamps(outputs, once, twice)
    ensures twice == once
    ensures outputs != [] && (forall r :: r in outputs ==> r.w > 0 && r.h > 0) ==> OnAnOutput(outputs, once)
  {
    if !OnAnOutput(outputs, p) && outputs != [] {
      var k :| Best(outputs, p, k) && once == HeldInside(outputs[k], p);
      HeldIsInset(outputs[k], p);
      assert outputs[k] in outputs;
      assert outputs[k].w > 0 && outputs[k].h > 0 ==> Holds(outputs[k], once);
      if !OnAnOutput(outputs, once) {
        var j :| Best(outputs, once, j) && twice == HeldInside(outputs[j], once);
        NoneNearer(outputs, once, j, k, once);
        NoDistance(once, twice);
      }
    }
  }

  lemma NoDistance(p: Point, q: Point)
    requires Distance(p, q) <= Distance(p, p)
    ensures p == q
  {
    NotNegative(q.x - p.x);
    NotNegative(q.y - p.y);
    assert Square(p.x - p.x) == 0.0 && Square(p.y - p.y) == 0.0;
  }

  lemma NotNegative(x: real)
    ensures Square(x) >= 0.0 && (x != 0.0 ==> Square(x) > 0.0)
  {
    if x > 0.0 {
      Positive(x);
    } else if x < 0.0 {
      Positive(-x);
      Flipped(x, -x);
    }
  }

  lemma Positive(x: real)
    requires x > 0.0
    ensures Square(x) > 0.0
  {
    Times(x, x, Square(x));
  }

  lemma Times(a: real, b: real, product: real)
    requires a > 0.0 && b > 0.0 && product == a * b
    ensures product > 0.0
  {}
}
