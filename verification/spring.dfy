/** The critically damped spring a card rides, solved in closed form.

    The exponential is any positive function that turns sums into products and lies above its tangent
    at zero; nothing else about it is used. */
module Spring {
  const CARD_SPRING: real := 19.0
  const LONGEST_STEP: real := 0.1

  ghost predicate IsExp(exp: real -> real) {
    && exp(0.0) == 1.0
    && (forall x :: exp(x) > 0.0)
    && (forall x, y :: Multiplies(exp, x, y))
    && (forall x :: x >= 0.0 ==> exp(x) >= 1.0 + x)
  }

  ghost predicate Multiplies(exp: real -> real, x: real, y: real) {
    exp(x + y) == exp(x) * exp(y)
  }

  datatype Motion = Motion(at: real, speed: real)

  function Between(low: real, x: real, high: real): real {
    if x < low then low else if x > high then high else x
  }

  /** Where the spring is `t` seconds on, with nothing cutting the time short. */
  function Flow(exp: real -> real, m: Motion, target: real, rate: real, t: real): Motion {
    Moved(m, target, rate, t, Decay(exp, rate, t))
  }

  function Decay(exp: real -> real, rate: real, t: real): real {
    exp(-rate * t)
  }

  function Moved(m: Motion, target: real, rate: real, t: real, decay: real): Motion {
    Motion(target + Offset(m.at - target, m.speed, rate, t, decay), Speed(m.at - target, m.speed, rate, t, decay))
  }

  /** The closed form about the target: c == v + rate * o is what the solution carries at the start. */
  function Offset(o: real, v: real, rate: real, t: real, decay: real): real {
    (o + (v + rate * o) * t) * decay
  }

  function Speed(o: real, v: real, rate: real, t: real, decay: real): real {
    (v - (v + rate * o) * rate * t) * decay
  }

  /** One step as the program takes it: no longer than the longest one, whatever the stall. */
  function Step(exp: real -> real, m: Motion, target: real, rate: real, dt: real): Motion {
    Flow(exp, m, target, rate, Between(0.0, dt, LONGEST_STEP))
  }

  lemma Distribute(a: real, b: real, rate: real, k: real)
    ensures a * k + rate * (b * k) == (a + rate * b) * k
  {}

  lemma Associate(a: real, b: real, c: real)
    ensures a * b * c == a * (b * c)
  {}

  lemma Gathers(v: real, rate: real, o: real, c: real, s: real, ds: real, o1: real, v1: real)
    requires c == v + rate * o && o1 == (o + c * s) * ds && v1 == (v - c * rate * s) * ds
    ensures v1 + rate * o1 == c * ds
  {
    var a, b := v - c * rate * s, o + c * s;
    assert a + rate * b == c;
    Distribute(a, b, rate, ds);
  }

  lemma Offsets(o: real, c: real, s: real, t: real, ds: real, dt: real, o1: real, c1: real)
    requires o1 == (o + c * s) * ds && c1 == c * ds
    ensures (o1 + c1 * t) * dt == (o + c * (s + t)) * (ds * dt)
  {
    var whole := o + c * (s + t);
    assert o1 + c1 * t == whole * ds;
    Associate(whole, ds, dt);
  }

  lemma Speeds(v: real, c: real, rate: real, s: real, t: real, ds: real, dt: real, v1: real, c1: real)
    requires v1 == (v - c * rate * s) * ds && c1 == c * ds
    ensures (v1 - c1 * rate * t) * dt == (v - c * rate * (s + t)) * (ds * dt)
  {
    var whole := v - c * rate * (s + t);
    assert v1 - c1 * rate * t == whole * ds;
    Associate(whole, ds, dt);
  }

  lemma OffsetTwice(o: real, v: real, rate: real, s: real, t: real, ds: real, dt: real, o1: real, v1: real)
    requires o1 == Offset(o, v, rate, s, ds) && v1 == Speed(o, v, rate, s, ds)
    ensures Offset(o1, v1, rate, t, dt) == Offset(o, v, rate, s + t, ds * dt)
  {
    var c := v + rate * o;
    Gathers(v, rate, o, c, s, ds, o1, v1);
    Offsets(o, c, s, t, ds, dt, o1, v1 + rate * o1);
  }

  lemma SpeedTwice(o: real, v: real, rate: real, s: real, t: real, ds: real, dt: real, o1: real, v1: real)
    requires o1 == Offset(o, v, rate, s, ds) && v1 == Speed(o, v, rate, s, ds)
    ensures Speed(o1, v1, rate, t, dt) == Speed(o, v, rate, s + t, ds * dt)
  {
    var c := v + rate * o;
    Gathers(v, rate, o, c, s, ds, o1, v1);
    Speeds(v, c, rate, s, t, ds, dt, v1, v1 + rate * o1);
  }

  lemma MovedTwice(m: Motion, target: real, rate: real, s: real, t: real, ds: real, dt: real, whole: real)
    requires whole == ds * dt
    ensures Moved(Moved(m, target, rate, s, ds), target, rate, t, dt) == Moved(m, target, rate, s + t, whole)
  {
    var o := m.at - target;
    var o1, v1 := Offset(o, m.speed, rate, s, ds), Speed(o, m.speed, rate, s, ds);
    OffsetTwice(o, m.speed, rate, s, t, ds, dt, o1, v1);
    SpeedTwice(o, m.speed, rate, s, t, ds, dt, o1, v1);
    assert target + o1 - target == o1;
  }

  /** The flow law: two stretches of time are one. */
  lemma FlowsTogether(exp: real -> real, m: Motion, target: real, rate: real, s: real, t: real)
    requires IsExp(exp)
    ensures Flow(exp, Flow(exp, m, target, rate, s), target, rate, t) == Flow(exp, m, target, rate, s + t)
  {
    DecaysMultiply(exp, rate, s, t);
    MovedTwice(m, target, rate, s, t, Decay(exp, rate, s), Decay(exp, rate, t), Decay(exp, rate, s + t));
  }

  lemma DecaysMultiply(exp: real -> real, rate: real, s: real, t: real)
    requires IsExp(exp)
    ensures Decay(exp, rate, s + t) == Decay(exp, rate, s) * Decay(exp, rate, t)
  {
    assert -rate * (s + t) == -rate * s + -rate * t;
    assert Multiplies(exp, -rate * s, -rate * t);
  }

  lemma NoTimeNoMotion(exp: real -> real, m: Motion, target: real, rate: real)
    requires IsExp(exp)
    ensures Flow(exp, m, target, rate, 0.0) == m
  {
    assert -rate * 0.0 == 0.0;
    var c := m.speed + rate * (m.at - target);
    assert c * 0.0 == 0.0 && c * rate * 0.0 == 0.0;
  }

  lemma Damped(exp: real -> real, rate: real, t: real)
    requires IsExp(exp) && rate > 0.0 && t >= 0.0
    ensures 0.0 < (1.0 + rate * t) * Decay(exp, rate, t) <= 1.0
  {
    var x := rate * t;
    assert x >= 0.0 && -rate * t == -x && x + -x == 0.0;
    assert Multiplies(exp, x, -x);
    Under(1.0 + x, exp(x), exp(-x));
  }

  lemma Under(a: real, b: real, k: real)
    requires 0.0 < a <= b && k > 0.0
    ensures 0.0 < a * k <= b * k
  {}

  lemma Toward(o: real, left: real, after: real)
    requires 0.0 < left <= 1.0 && after == o * left
    ensures o > 0.0 ==> 0.0 < after <= o
    ensures o < 0.0 ==> o <= after < 0.0
    ensures o == 0.0 ==> after == 0.0
  {
    if o > 0.0 {
      Under(left, 1.0, o);
    } else if o < 0.0 {
      Under(left, 1.0, -o);
      assert left * -o == -(o * left);
    }
  }

  lemma FromRest(o: real, rate: real, t: real, decay: real)
    requires 0.0 < (1.0 + rate * t) * decay <= 1.0
    ensures var after := Offset(o, 0.0, rate, t, decay);
            && (o > 0.0 ==> 0.0 < after <= o)
            && (o < 0.0 ==> o <= after < 0.0)
            && (o == 0.0 ==> after == 0.0)
  {
    Share(o, rate, t, decay);
    Toward(o, (1.0 + rate * t) * decay, Offset(o, 0.0, rate, t, decay));
  }

  lemma Share(o: real, rate: real, t: real, decay: real)
    ensures Offset(o, 0.0, rate, t, decay) == o * ((1.0 + rate * t) * decay)
  {
    assert (rate * o) * t == o * (rate * t);
    Associate(o, 1.0 + rate * t, decay);
  }

  /** The motion is the critically damped one: against the decay, the offset moves along a straight line, and
      the speed and the rate's worth of offset together stand still. */
  lemma IsCriticallyDamped(exp: real -> real, m: Motion, target: real, rate: real, t: real)
    ensures var after, decay := Flow(exp, m, target, rate, t), exp(-rate * t);
            var carried := m.speed + rate * (m.at - target);
            && after.at - target == (m.at - target + carried * t) * decay
            && after.speed + rate * (after.at - target) == carried * decay
  {
    var o, c, decay := m.at - target, m.speed + rate * (m.at - target), Decay(exp, rate, t);
    Gathers(m.speed, rate, o, c, t, decay, Offset(o, m.speed, rate, t, decay), Speed(o, m.speed, rate, t, decay));
  }

  lemma Halved(exp: real -> real, x: real, half: real)
    requires IsExp(exp) && half >= 0.0 && x == half + half
    ensures exp(x) >= (1.0 + half) * (1.0 + half)
  {
    assert Multiplies(exp, half, half);
    var root := exp(half);
    Under(1.0 + half, root, 1.0 + half);
    Under(1.0 + half, root, root);
  }

  lemma Product(a: real, b: real, product: real)
    requires a > 0.0 && b > 0.0 && product == a * b
    ensures product > 0.0
  {}

  lemma Positive(a: real, b: real)
    requires a >= 0.0 && b > 0.0
    ensures a * b >= 0.0 && (a > 0.0 ==> a * b > 0.0)
  {}

  lemma Remains(x: real, left: real, grown: real, decay: real)
    requires x > 0.0 && decay > 0.0 && grown * decay == 1.0 && left == (1.0 + x) * decay
    requires grown >= (1.0 + x / 2.0) * (1.0 + x / 2.0)
    ensures left < 1.0 && left * x <= 4.0
  {
    var square := x * x;
    Product(x, x, square);
    assert (1.0 + x / 2.0) * (1.0 + x / 2.0) == 1.0 + x + square / 4.0;
    var part := square / 4.0;
    var body, quarter := 1.0 + x + part, part * decay;
    var whole, over, slack, rest := body * decay, (grown - body) * decay, (4.0 + 3.0 * x) * decay, (x + square) * decay;
    Positive(grown - body, decay);
    assert part > 0.0;
    Positive(part, decay);
    Positive(4.0 + 3.0 * x, decay);
    assert over == grown * decay - whole;
    assert whole <= 1.0 && whole == left + quarter && quarter > 0.0;
    Swapped(x, decay);
    assert left * x == rest;
    assert 4.0 * body == 4.0 + 3.0 * x + (x + square);
    Sum(4.0 + 3.0 * x, x + square, 4.0 * body, decay);
    assert 4.0 * body * decay == 4.0 * whole;
  }

  lemma Sum(a: real, b: real, c: real, k: real)
    requires c == a + b
    ensures c * k == a * k + b * k
  {}

  lemma Swapped(x: real, decay: real)
    ensures (1.0 + x) * decay * x == (x + x * x) * decay
  {
    assert (1.0 + x) * decay * x == (1.0 + x) * x * decay;
  }

  /** And it does arrive: of the way to go, no more is left than four parts in `rate` times the seconds. */
  lemma Arrives(exp: real -> real, rate: real, t: real)
    requires IsExp(exp) && rate > 0.0 && t > 0.0
    ensures var left := (1.0 + rate * t) * Decay(exp, rate, t);
            0.0 < left < 1.0 && left * (rate * t) <= 4.0
  {
    var x := rate * t;
    assert x > 0.0 && -rate * t == -x && x + -x == 0.0;
    assert Multiplies(exp, x, -x);
    Halved(exp, x, x / 2.0);
    Remains(x, (1.0 + x) * exp(-x), exp(x), exp(-x));
    Damped(exp, rate, t);
  }

  /** Let go at rest, a card closes on its slot and never crosses it. */
  lemma NeverCrosses(exp: real -> real, from: real, target: real, rate: real, t: real)
    requires IsExp(exp) && rate > 0.0 && t >= 0.0
    ensures var at := Flow(exp, Motion(from, 0.0), target, rate, t).at;
            && (from > target ==> target < at <= from)
            && (from < target ==> from <= at < target)
            && (from == target ==> at == target)
  {
    Damped(exp, rate, t);
    FromRest(from - target, rate, t, Decay(exp, rate, t));
  }
}
