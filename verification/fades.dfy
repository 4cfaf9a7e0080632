/** What the two sheets and the overview share: a clock in nanoseconds and a smoothstepped leg. */
module Fades {
  /** Nanoseconds in a millisecond. An instant is a number of nanoseconds since some start. */
  const MS: nat := 1_000_000

  /** The age of a leg. An instant before its start counts as its start. */
  function Since(started: nat, now: nat): nat {
    if now < started then 0 else now - started
  }

  function Min(a: nat, b: nat): nat {
    if a < b then a else b
  }

  function Clamp(x: real): real {
    if x < 0.0 then 0.0 else if x > 1.0 then 1.0 else x
  }

  function Smoothstep(t: real): real {
    var u := Clamp(t);
    u * u * (3.0 - 2.0 * u)
  }

  lemma Product(a: real, b: real)
    requires a >= 0.0 && b >= 0.0
    ensures a * b >= 0.0
    ensures a > 0.0 && b > 0.0 ==> a * b > 0.0
  {}

  lemma Shrinks(a: real, b: real)
    requires 0.0 <= a <= 1.0 && b >= 0.0
    ensures 0.0 <= a * b <= b
  {}

  lemma Bounds(u: real)
    requires 0.0 <= u <= 1.0
    ensures 0.0 <= u * u * (3.0 - 2.0 * u) <= 1.0
  {
    var v := 1.0 - u;
    Product(u, u);
    Product(u * u, 3.0 - 2.0 * u);
    Product(v, v);
    Product(v * v, 1.0 + 2.0 * u);
    assert 1.0 - u * u * (3.0 - 2.0 * u) == v * v * (1.0 + 2.0 * u);
  }

  /** The difference of two cubics, as the difference of their arguments times something positive. */
  lemma Slope(s: real, t: real) returns (d: real, slope: real)
    requires 0.0 <= s < t <= 1.0
    ensures d > 0.0 && slope > 0.0 && t * t * (3.0 - 2.0 * t) - s * s * (3.0 - 2.0 * s) == d * slope
  {
    d := t - s;
    var u, v := 1.0 - s, 1.0 - t;
    Product(s, u);
    Product(t, v);
    Product(s, v);
    Product(t, u);
    slope := s * u * 2.0 + t * v * 2.0 + s * v + t * u;
    SlopeIs(s, t, slope);
  }

  lemma SlopeIs(s: real, t: real, slope: real)
    requires slope == s * (1.0 - s) * 2.0 + t * (1.0 - t) * 2.0 + s * (1.0 - t) + t * (1.0 - s)
    ensures t * t * (3.0 - 2.0 * t) - s * s * (3.0 - 2.0 * s) == (t - s) * slope
  {}

  lemma Cubic(s: real, t: real)
    requires 0.0 <= s < t <= 1.0
    ensures s * s * (3.0 - 2.0 * s) < t * t * (3.0 - 2.0 * t)
  {
    var d, slope := Slope(s, t);
    Product(d, slope);
  }

  lemma SmoothstepRises(s: real, t: real)
    requires 0.0 <= s < t <= 1.0
    ensures 0.0 <= Smoothstep(s) < Smoothstep(t) <= 1.0
  {
    Cubic(s, t);
    Bounds(s);
    Bounds(t);
  }

  /** It sets out and arrives at no speed, and its two halves are one another's mirror image. */
  lemma SmoothstepEases(u: real)
    requires 0.0 <= u <= 1.0
    ensures u * u <= Smoothstep(u) <= 3.0 * u * u
    ensures Smoothstep(u) + Smoothstep(1.0 - u) == 1.0
    ensures Smoothstep(0.25) == 0.15625 && Smoothstep(0.5) == 0.5
  {
    var square := u * u;
    assert Smoothstep(u) == square * (3.0 - 2.0 * u);
    Product(square, 1.0 - u);
    Product(square, u);
    assert square * (3.0 - 2.0 * u) == square + 2.0 * (square * (1.0 - u));
    assert 3.0 * square - square * (3.0 - 2.0 * u) == 2.0 * (square * u);
    Mirror(u, 1.0 - u);
  }

  lemma Mirror(u: real, v: real)
    requires u + v == 1.0
    ensures u * u * (3.0 - 2.0 * u) + v * v * (3.0 - 2.0 * v) == 1.0
  {}

  function Place(from: real, to: real, u: real): real {
    Clamp(from + (to - from) * Smoothstep(u))
  }

  /** How far a leg of `length` has got, `since` nanoseconds in. */
  function Travelled(from: real, to: real, since: nat, length: nat): real
    requires length > 0
  {
    Place(from, to, since as real / length as real)
  }

  lemma Fraction(since: nat, length: nat)
    requires length > 0
    ensures 0.0 <= since as real / length as real
    ensures since < length ==> since as real / length as real < 1.0
    ensures since >= length ==> since as real / length as real >= 1.0
    ensures since == 0 ==> since as real / length as real == 0.0
  {}

  /** A leg starts where it was, ends where it is going, and stays between the two. */
  lemma TravelledEnds(from: real, to: real, since: nat, length: nat)
    requires length > 0 && 0.0 <= from <= 1.0 && 0.0 <= to <= 1.0
    ensures since == 0 ==> Travelled(from, to, since, length) == from
    ensures since >= length ==> Travelled(from, to, since, length) == to
    ensures 0.0 <= Travelled(from, to, since, length) <= 1.0
  {
    Fraction(since, length);
  }

  /** Past its end a leg does not move. */
  lemma TravelledStops(from: real, to: real, since: nat, length: nat)
    requires length > 0 && 0.0 <= from <= 1.0 && 0.0 <= to <= 1.0
    ensures Travelled(from, to, since, length) == Travelled(from, to, Min(since, length), length)
  {
    TravelledEnds(from, to, since, length);
    TravelledEnds(from, to, length, length);
  }

  lemma Mix(from: real, to: real, a: real, b: real)
    requires a >= 0.0 && b >= 0.0 && a + b == 1.0 && 0.0 <= from <= 1.0 && 0.0 <= to <= 1.0
    ensures 0.0 <= from * b + to * a <= 1.0
  {
    Shrinks(from, b);
    Shrinks(to, a);
    Adds(from * b, b, to * a, a);
  }

  lemma Adds(x: real, b: real, y: real, a: real)
    requires 0.0 <= x <= b && 0.0 <= y <= a
    ensures 0.0 <= x + y <= b + a
  {}

  lemma Split(from: real, to: real, a: real, b: real)
    requires b == 1.0 - a
    ensures from + (to - from) * a == from * b + to * a
  {
    assert from * b == from - from * a;
  }

  lemma Between(from: real, to: real, a: real)
    requires 0.0 <= a <= 1.0 && 0.0 <= from <= 1.0 && 0.0 <= to <= 1.0
    ensures 0.0 <= from + (to - from) * a <= 1.0
  {
    Mix(from, to, a, 1.0 - a);
    Split(from, to, a, 1.0 - a);
  }

  /** Where a leg is, without the clamp that never comes into it. */
  lemma PlaceIs(from: real, to: real, u: real)
    requires 0.0 <= from <= 1.0 && 0.0 <= to <= 1.0
    ensures 0.0 <= Smoothstep(u) <= 1.0
    ensures Place(from, to, u) == from + (to - from) * Smoothstep(u)
  {
    Bounds(Clamp(u));
    Between(from, to, Smoothstep(u));
  }

  lemma Short(from: real, to: real, a: real, step: real)
    requires 0.0 <= a <= 1.0 && from < 1.0 && to < 1.0 && step == (to - from) * a
    ensures from + step < 1.0
  {
    if from <= to {
      Within(to - from, a, step);
    } else {
      Product(from - to, a);
      assert step == -((from - to) * a);
    }
  }

  lemma Within(gap: real, a: real, step: real)
    requires 0.0 <= gap && 0.0 <= a <= 1.0 && step == gap * a
    ensures 0.0 <= step <= gap
  {
    Shrinks(a, gap);
  }

  /** A leg between two places short of the end is short of it all the way. */
  lemma NeverBeyond(from: real, to: real, since: nat, length: nat)
    requires length > 0 && 0.0 <= from < 1.0 && 0.0 <= to < 1.0
    ensures Travelled(from, to, since, length) < 1.0
  {
    var u := since as real / length as real;
    PlaceIs(from, to, u);
    Short(from, to, Smoothstep(u), (to - from) * Smoothstep(u));
  }

  lemma Apart(k: real, a: real, b: real)
    requires a < b && k != 0.0
    ensures k * a != k * b
  {
    assert k * b - k * a == k * (b - a);
    if k > 0.0 { Product(k, b - a); } else { Product(-k, b - a); assert (-k) * (b - a) == -(k * (b - a)); }
  }

  lemma PlacesDiffer(from: real, to: real, u: real, v: real)
    requires 0.0 <= u < v <= 1.0 && 0.0 <= from <= 1.0 && 0.0 <= to <= 1.0 && from != to
    ensures Place(from, to, u) != Place(from, to, v)
  {
    SmoothstepRises(u, v);
    Between(from, to, Smoothstep(u));
    Between(from, to, Smoothstep(v));
    Apart(to - from, Smoothstep(u), Smoothstep(v));
  }

  lemma Ratio(s: nat, t: nat, length: nat)
    requires s < t && length > 0
    ensures s as real / length as real < t as real / length as real
  {}

  /** A leg that is going anywhere is never twice in the same place: two looks at it agree exactly when
      the leg had run equally long, everything past its end counting as its end. */
  lemma SamePlaceSameMoment(from: real, to: real, s: nat, t: nat, length: nat)
    requires length > 0 && 0.0 <= from <= 1.0 && 0.0 <= to <= 1.0 && from != to
    ensures Travelled(from, to, s, length) == Travelled(from, to, t, length) <==> Min(s, length) == Min(t, length)
  {
    TravelledStops(from, to, s, length);
    TravelledStops(from, to, t, length);
    var a, b := Min(s, length), Min(t, length);
    if a < b {
      NeverTwice(from, to, a, b, length);
    } else if b < a {
      NeverTwice(from, to, b, a, length);
    }
  }

  lemma NeverTwice(from: real, to: real, s: nat, t: nat, length: nat)
    requires s < t <= length && 0.0 <= from <= 1.0 && 0.0 <= to <= 1.0 && from != to
    ensures Travelled(from, to, s, length) != Travelled(from, to, t, length)
  {
    Fraction(s, length);
    Ratio(s, t, length);
    assert t as real / length as real <= 1.0;
    PlacesDiffer(from, to, s as real / length as real, t as real / length as real);
  }
}
