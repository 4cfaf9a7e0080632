/** The transfer functions the ramps are filled from, over exact reals.

    A power with a fractional exponent is any function that satisfies the equation defining it:
    x to the 2.4 is the p with p^5 == x^12. Everything below is proved from those equations. */
module ToneCurves {

  function Power(x: real, n: nat): real {
    if n == 0 then 1.0 else x * Power(x, n - 1)
  }

  lemma {:induction false} PowerRises(x: real, y: real, n: nat)
    requires 0.0 <= x < y && n > 0
    ensures 0.0 <= Power(x, n) < Power(y, n)
  {
    if n == 1 {
      assert Power(x, 1) == x * Power(x, 0) && Power(y, 1) == y * Power(y, 0);
    } else {
      PowerRises(x, y, n - 1);
      Products(x, y, Power(x, n - 1), Power(y, n - 1));
    }
  }

  lemma Products(x: real, y: real, a: real, b: real)
    requires 0.0 <= x < y && 0.0 <= a < b
    ensures 0.0 <= x * a < y * b
  {
    assert x * a <= x * b;
    assert x * b < y * b;
  }

  /** Positive powers compare as their bases do. */
  lemma PowerCompares(x: real, y: real, n: nat)
    requires 0.0 <= x && 0.0 <= y && n > 0
    ensures x < y <==> Power(x, n) < Power(y, n)
    ensures x == y <==> Power(x, n) == Power(y, n)
  {
    if x < y {
      PowerRises(x, y, n);
    } else if y < x {
      PowerRises(y, x, n);
    }
  }

  /** x^2.4, and its inverse x^(1/2.4). */
  ghost predicate IsDecodingPower(p: real -> real) {
    forall x :: x >= 0.0 ==> p(x) >= 0.0 && Power(p(x), 5) == Power(x, 12)
  }

  ghost predicate IsEncodingPower(q: real -> real) {
    forall x :: x >= 0.0 ==> q(x) >= 0.0 && Power(q(x), 12) == Power(x, 5)
  }

  lemma DecodingPowerRises(p: real -> real, x: real, y: real)
    requires IsDecodingPower(p) && 0.0 <= x < y
    ensures p(x) < p(y)
  {
    PowerRises(x, y, 12);
    PowerCompares(p(x), p(y), 5);
  }

  /** The two powers undo each other, as an order: y encodes below z exactly when y lies below z decoded. */
  lemma PowersAreInverse(p: real -> real, q: real -> real, y: real, z: real)
    requires IsDecodingPower(p) && IsEncodingPower(q) && y >= 0.0 && z >= 0.0
    ensures q(y) < z <==> y < p(z)
    ensures q(y) == z <==> y == p(z)
  {
    PowerCompares(q(y), z, 12);
    PowerCompares(y, p(z), 5);
  }

  const LINEAR_UNTIL: real := 0.04045
  const LIGHT_LINEAR_UNTIL: real := 0.0031308

  function Unbent(coded: real): real { (coded + 0.055) / 1.055 }

  function SrgbToLinear(p: real -> real, coded: real): real {
    if coded <= LINEAR_UNTIL then coded / 12.92 else p(Unbent(coded))
  }

  function LinearToSrgb(q: real -> real, light: real): real {
    if light <= LIGHT_LINEAR_UNTIL then light * 12.92 else 1.055 * q(light) - 0.055
  }

  /** At the break the power branch starts above where the linear branch ends. */
  lemma DecodingBreakRises()
    ensures Power(LINEAR_UNTIL / 12.92, 5) < Power(Unbent(LINEAR_UNTIL), 12)
  {
    PowerCompares(LINEAR_UNTIL / 12.92, 0.003130805, 5);
    PowerCompares(0.09047393, Unbent(LINEAR_UNTIL), 12);
    assert Power(0.003130805, 5) < Power(0.09047393, 12);
  }

  lemma EncodingBreakDips()
    ensures Power(LIGHT_LINEAR_UNTIL, 5) < Power(Unbent(LIGHT_LINEAR_UNTIL * 12.92), 12)
  {
    PowerCompares(0.09047387, Unbent(LIGHT_LINEAR_UNTIL * 12.92), 12);
    assert Power(LIGHT_LINEAR_UNTIL, 5) < Power(0.09047387, 12);
  }

  // ------------------------------------------------------------------ sRGB

  /** Decoding rises over the whole range, through the break. */
  lemma SrgbToLinearRises(p: real -> real, x: real, y: real)
    requires IsDecodingPower(p) && 0.0 <= x < y
    ensures 0.0 <= SrgbToLinear(p, x) < SrgbToLinear(p, y)
  {
    if x > LINEAR_UNTIL {
      DecodingPowerRises(p, Unbent(x), Unbent(y));
    } else if y > LINEAR_UNTIL {
      DecodingBreakRises();
      PowerCompares(LINEAR_UNTIL / 12.92, p(Unbent(LINEAR_UNTIL)), 5);
      DecodingPowerRises(p, Unbent(LINEAR_UNTIL), Unbent(y));
    }
  }

  /** Where on the light scale the power branch reaches the code the linear branch gives `light`. */
  function Overtaken(p: real -> real, light: real): real {
    p(Unbent(light * 12.92))
  }

  /** Encoding does not rise everywhere: its two branches miss each other at the break. It steps back
      exactly between a light at or below the break and one above it that the power branch still
      encodes lower. */
  lemma LinearToSrgbDipsExactly(p: real -> real, q: real -> real, x: real, y: real)
    requires IsDecodingPower(p) && IsEncodingPower(q) && 0.0 <= x < y
    ensures LinearToSrgb(q, x) >= LinearToSrgb(q, y) <==>
            x <= LIGHT_LINEAR_UNTIL < y && y <= Overtaken(p, x)
  {
    if x > LIGHT_LINEAR_UNTIL {
      PowerRises(x, y, 5);
      PowerCompares(q(x), q(y), 12);
    } else if y > LIGHT_LINEAR_UNTIL {
      PowersAreInverse(p, q, y, Unbent(x * 12.92));
    }
  }

  /** The dip is there: just above the break the encoding is lower than at it. */
  lemma TheDip(p: real -> real, q: real -> real) returns (y: real)
    requires IsDecodingPower(p) && IsEncodingPower(q)
    ensures y > LIGHT_LINEAR_UNTIL && LinearToSrgb(q, y) < LinearToSrgb(q, LIGHT_LINEAR_UNTIL)
  {
    var top := Overtaken(p, LIGHT_LINEAR_UNTIL);
    EncodingBreakDips();
    PowerCompares(LIGHT_LINEAR_UNTIL, top, 5);
    y := (LIGHT_LINEAR_UNTIL + top) / 2.0;
    PowersAreInverse(p, q, y, Unbent(LIGHT_LINEAR_UNTIL * 12.92));
  }

  /** The last code whose light is still on the encoder's linear branch. */
  const LAST_LINEAR_CODE: real := 0.0031308 * 12.92

  lemma NoCrossing(p: real -> real, from: real, to: real, coded: real)
    requires IsDecodingPower(p) && 0.0 <= from <= coded <= to
    requires Power(to / 12.92, 5) < Power(Unbent(from), 12)
    ensures coded / 12.92 < p(Unbent(coded))
  {
    PowerCompares(to / 12.92, p(Unbent(from)), 5);
    if from < coded {
      DecodingPowerRises(p, Unbent(from), Unbent(coded));
    }
  }

  lemma Edge(from: real, to: real, up: real, down: real)
    requires 0.0 <= to && 0.0 <= from && 0.0 <= down && to / 12.92 < up && down < Unbent(from)
    requires Power(up, 5) < Power(down, 12)
    ensures Power(to / 12.92, 5) < Power(Unbent(from), 12)
  {
    PowerCompares(to / 12.92, up, 5);
    PowerCompares(down, Unbent(from), 12);
  }

  lemma FirstEdge()
    ensures Power(0.04044996 / 12.92, 5) < Power(Unbent(LAST_LINEAR_CODE), 12)
  {
    assert Power(0.003130801859, 5) < Power(0.09047387297, 12);
    Edge(LAST_LINEAR_CODE, 0.04044996, 0.003130801859, 0.09047387297);
  }

  lemma SecondEdge()
    ensures Power(0.04044998 / 12.92, 5) < Power(Unbent(0.04044996), 12)
  {
    assert Power(0.003130803407, 5) < Power(0.09047389572, 12);
    Edge(0.04044996, 0.04044998, 0.003130803407, 0.09047389572);
  }

  lemma ThirdEdge()
    ensures Power(0.04045 / 12.92, 5) < Power(Unbent(0.04044998), 12)
  {
    assert Power(0.003130804955, 5) < Power(0.09047391468, 12);
    Edge(0.04044998, 0.04045, 0.003130804955, 0.09047391468);
  }

  /** Between the two breaks the power branch lies above the linear one. */
  lemma GapIsBelow(p: real -> real, coded: real)
    requires IsDecodingPower(p) && LAST_LINEAR_CODE <= coded <= LINEAR_UNTIL
    ensures coded / 12.92 < p(Unbent(coded))
  {
    if coded <= 0.04044996 {
      FirstEdge();
      NoCrossing(p, LAST_LINEAR_CODE, 0.04044996, coded);
    } else if coded <= 0.04044998 {
      SecondEdge();
      NoCrossing(p, 0.04044996, 0.04044998, coded);
    } else {
      ThirdEdge();
      NoCrossing(p, 0.04044998, 0.04045, coded);
    }
  }

  /** Decoding a code and encoding it again gives it back, but for the sliver of codes that decode on
      the linear side of one break and encode on the power side of the other. */
  lemma CodesSurviveExactly(p: real -> real, q: real -> real, coded: real)
    requires IsDecodingPower(p) && IsEncodingPower(q) && coded >= 0.0
    ensures LinearToSrgb(q, SrgbToLinear(p, coded)) == coded <==> coded <= LAST_LINEAR_CODE || coded > LINEAR_UNTIL
  {
    var z := Unbent(coded);
    if coded > LINEAR_UNTIL {
      SrgbToLinearRises(p, LINEAR_UNTIL, coded);
      PowersAreInverse(p, q, p(z), z);
    } else if coded > LAST_LINEAR_CODE {
      GapIsBelow(p, coded);
      PowersAreInverse(p, q, coded / 12.92, z);
    }
  }

  /** In numbers: up to 0.04045 a code is 12.92 times its light; above, the code with 0.055 added and divided
      by 1.055 is to the twelfth what its light is to the fifth. */
  lemma DecodesInNumbers(p: real -> real, coded: real, u: real)
    requires IsDecodingPower(p) && 0.0 <= coded && u * 1.055 == coded + 0.055
    ensures coded <= 0.04045 ==> SrgbToLinear(p, coded) * 12.92 == coded
    ensures coded > 0.04045 ==> Power(SrgbToLinear(p, coded), 5) == Power(u, 12)
  {
    assert Unbent(coded) == u;
  }

  /** And so back, with a break of its own at 0.0031308 of the light. */
  lemma EncodesInNumbers(q: real -> real, light: real, u: real)
    requires IsEncodingPower(q) && 0.0 <= light && u * 1.055 == LinearToSrgb(q, light) + 0.055
    ensures light <= 0.0031308 ==> LinearToSrgb(q, light) == light * 12.92
    ensures light > 0.0031308 ==> Power(u, 12) == Power(light, 5)
  {
    if light > 0.0031308 {
      UnbentAgain(LinearToSrgb(q, light), q(light), u);
    }
  }

  lemma UnbentAgain(coded: real, power: real, u: real)
    requires coded == 1.055 * power - 0.055 && u * 1.055 == coded + 0.055
    ensures u == power
  {}

  // ------------------------------------------------------------------ PQ

  /** A power with a positive exponent, as far as PQ needs one. */
  ghost predicate IsRisingPower(m: real -> real) {
    && m(0.0) == 0.0 && m(1.0) == 1.0
    && forall x, y :: 0.0 <= x < y ==> m(x) < m(y)
  }

  const C1: real := 3424.0 / 4096.0
  const C2: real := 2413.0 / 4096.0 * 32.0
  const C3: real := 2392.0 / 4096.0 * 32.0

  function Fraction(y: real): real
    requires y >= 0.0
  {
    (C1 + C2 * y) / (1.0 + C3 * y)
  }

  function Clamped(x: real): real {
    if x < 0.0 then 0.0 else if x > 1.0 then 1.0 else x
  }

  function PqEncode(m1: real -> real, m2: real -> real, nits: real): real
    requires IsRisingPower(m1)
  {
    var y := m1(Clamped(nits / 10000.0));
    assert y >= 0.0 by {
      if Clamped(nits / 10000.0) > 0.0 { assert m1(0.0) < y; }
    }
    m2(Fraction(y))
  }

  /** SMPTE ST 2084's own constants: what the outer power is taken of. */
  lemma PqInNumbers(m1: real -> real, m2: real -> real, nits: real, y: real, e: real)
    requires IsRisingPower(m1) && 0.0 <= y
    requires y == m1(if nits < 0.0 then 0.0 else if nits > 10000.0 then 1.0 else nits / 10000.0)
    requires e * (1.0 + 18.6875 * y) == 0.8359375 + 18.8515625 * y
    ensures PqEncode(m1, m2, nits) == m2(e)
  {
    Quotient(0.8359375 + 18.8515625 * y, 1.0 + 18.6875 * y, e);
  }

  lemma Quotient(top: real, bottom: real, e: real)
    requires bottom > 0.0 && e * bottom == top
    ensures top / bottom == e
  {}

  lemma FractionRises(x: real, y: real)
    requires 0.0 <= x < y <= 1.0
    ensures 0.0 < Fraction(x) < Fraction(y) <= 1.0
  {
    var a, b, c, d := C1 + C2 * x, 1.0 + C3 * x, C1 + C2 * y, 1.0 + C3 * y;
    assert c * b - a * d == (C2 - C1 * C3) * (y - x);
    Cross(a, b, c, d);
    assert c <= d;
    Below(c, d);
  }

  lemma Cross(a: real, b: real, c: real, d: real)
    requires a > 0.0 && b > 0.0 && d > 0.0 && c * b > a * d
    ensures 0.0 < a / b < c / d
  {
    assert a / b == (a * d) / (b * d) && c / d == (c * b) / (b * d);
  }

  lemma Below(c: real, d: real)
    requires 0.0 < c <= d
    ensures c / d <= 1.0
  {}

  /** The encoding rises with luminance up to the ten thousand cd/m2 it is defined for, where it is 1. */
  lemma PqEncodeRises(m1: real -> real, m2: real -> real, low: real, high: real)
    requires IsRisingPower(m1) && IsRisingPower(m2) && 0.0 <= low < high <= 10000.0
    ensures 0.0 < PqEncode(m1, m2, low) < PqEncode(m1, m2, high) <= PqEncode(m1, m2, 10000.0) == 1.0
  {
    var x, y := m1(low / 10000.0), m1(high / 10000.0);
    assert x < y;
    assert x >= 0.0 by { if low > 0.0 { assert m1(0.0) < x; } }
    assert y <= 1.0 by { if high < 10000.0 { assert y < m1(1.0); } }
    FractionRises(x, y);
    assert m2(0.0) < m2(Fraction(x));
    if y < 1.0 {
      FractionRises(y, 1.0);
    }
    assert Fraction(1.0) == 1.0;
  }

  /** Beyond that it stands still: two luminances encode apart exactly when they differ and the lower one
      is below ten thousand. */
  lemma PqEncodeCompares(m1: real -> real, m2: real -> real, low: real, high: real)
    requires IsRisingPower(m1) && IsRisingPower(m2) && 0.0 <= low <= high
    ensures 0.0 < PqEncode(m1, m2, low) <= PqEncode(m1, m2, high) <= 1.0
    ensures PqEncode(m1, m2, low) < PqEncode(m1, m2, high) <==> low < high && low < 10000.0
  {
    TopsOut(m1, m2, low);
    TopsOut(m1, m2, high);
    PqEncodeRises(m1, m2, 0.0, 10000.0);
    var l, h := Topped(low), Topped(high);
    if l < h {
      PqEncodeRises(m1, m2, l, h);
    }
    if 0.0 < l < 10000.0 {
      PqEncodeRises(m1, m2, l, 10000.0);
    }
  }

  function Topped(nits: real): real {
    if nits > 10000.0 then 10000.0 else nits
  }

  lemma TopsOut(m1: real -> real, m2: real -> real, nits: real)
    requires IsRisingPower(m1) && nits >= 0.0
    ensures PqEncode(m1, m2, nits) == PqEncode(m1, m2, Topped(nits))
  {}

  /** The luminance one channel of the ramp encodes for a code: the sRGB decode folded in when no stage
      in front does it, scaled by the night light and by the luminance white is given. */
  function Nits(p: real -> real, decode: bool, gain: real, white: real, coded: real): real {
    Lit(Relative(p, decode, coded), gain, white)
  }

  function Relative(p: real -> real, decode: bool, coded: real): real {
    if decode then SrgbToLinear(p, coded) else coded
  }

  function Lit(relative: real, gain: real, white: real): real {
    relative * gain * white
  }

  /** The code that sample `index` of a ramp of `size` entries stands for. */
  function Coded(index: nat, size: nat): real
    requires index < size && size >= 2
  {
    index as real / (size - 1) as real
  }

  /** The entries are a step apart from 0 to 1, both ends among them. */
  lemma EvenSteps(index: nat, size: nat)
    requires index < size && size >= 2
    ensures Coded(index, size) * (size - 1) as real == index as real
    ensures Coded(index, size) == 0.0 <==> index == 0
    ensures Coded(index, size) == 1.0 <==> index == size - 1
  {}

  function HdrSample(p: real -> real, m1: real -> real, m2: real -> real,
                     decode: bool, gain: real, white: real, index: nat, size: nat): real
    requires IsRisingPower(m1) && index < size && size >= 2
  {
    PqEncode(m1, m2, Nits(p, decode, gain, white, Coded(index, size)))
  }

  lemma CodedRises(i: nat, j: nat, size: nat)
    requires i < j < size && size >= 2
    ensures 0.0 <= Coded(i, size) < Coded(j, size) <= 1.0
  {
    var n := (size - 1) as real;
    Cross((i + 1) as real, n, (j + 1) as real, n);
    assert (i + 1) as real / n == i as real / n + 1.0 / n;
    assert (j + 1) as real / n == j as real / n + 1.0 / n;
    Below(j as real, n);
  }

  lemma DecodesOneToOne(p: real -> real)
    requires IsDecodingPower(p)
    ensures SrgbToLinear(p, 1.0) == 1.0
  {
    assert Unbent(1.0) == 1.0;
    assert Power(1.0, 12) == 1.0 && Power(1.0, 5) == 1.0;
    PowerCompares(p(1.0), 1.0, 5);
  }

  /** What the ramp encodes: light between 0 and 1, rising. */
  lemma RelativeRises(p: real -> real, decode: bool, low: real, high: real)
    requires IsDecodingPower(p) && 0.0 <= low < high <= 1.0
    ensures 0.0 <= Relative(p, decode, low) < Relative(p, decode, high) <= 1.0
  {
    SrgbToLinearRises(p, low, high);
    DecodesOneToOne(p);
    if high < 1.0 {
      SrgbToLinearRises(p, high, 1.0);
    }
  }

  lemma Scaled(a: real, b: real, k: real)
    requires 0.0 <= a < b && k > 0.0
    ensures 0.0 <= a * k < b * k
  {}

  lemma LitIs(l: real, gain: real, white: real, level: real)
    requires level == gain * white
    ensures Lit(l, gain, white) == l * level
  {}

  /** What is lit keeps the order of the light, strictly exactly when there is any light to give. */
  lemma LitRises(l: real, h: real, level: real, low: real, high: real)
    requires 0.0 <= l < h && 0.0 <= level && low == l * level && high == h * level
    ensures 0.0 <= low <= high && (low < high <==> level > 0.0)
  {
    if level > 0.0 {
      Scaled(l, h, level);
    }
  }

  lemma LevelIs(gain: real, white: real, level: real)
    requires 0.0 <= gain && 0.0 <= white && level == gain * white
    ensures 0.0 <= level && (level > 0.0 <==> gain > 0.0 && white > 0.0)
  {
    if gain > 0.0 && white > 0.0 {
      Scaled(0.0, gain, white);
    }
  }

  lemma NitsRise(p: real -> real, decode: bool, gain: real, white: real, low: real, high: real)
    requires IsDecodingPower(p) && 0.0 <= low < high <= 1.0 && 0.0 <= gain && 0.0 <= white
    ensures 0.0 <= Nits(p, decode, gain, white, low) <= Nits(p, decode, gain, white, high)
    ensures Nits(p, decode, gain, white, low) < Nits(p, decode, gain, white, high) <==> gain > 0.0 && white > 0.0
  {
    RelativeRises(p, decode, low, high);
    LevelIs(gain, white, gain * white);
    LitIs(Relative(p, decode, low), gain, white, gain * white);
    LitIs(Relative(p, decode, high), gain, white, gain * white);
    LitRises(Relative(p, decode, low), Relative(p, decode, high), gain * white,
             Nits(p, decode, gain, white, low), Nits(p, decode, gain, white, high));
  }

  /** No HDR ramp ever goes backwards, whatever the white level, the warmth or the hardware's size; and it
      stands still exactly where no light is given or PQ has run out. */
  lemma HdrRampRises(p: real -> real, m1: real -> real, m2: real -> real,
                     decode: bool, gain: real, white: real, size: nat, i: nat, j: nat)
    requires IsDecodingPower(p) && IsRisingPower(m1) && IsRisingPower(m2)
    requires 0.0 <= gain && 0.0 <= white && i < j < size
    ensures 0.0 < HdrSample(p, m1, m2, decode, gain, white, i, size)
    ensures var low := HdrSample(p, m1, m2, decode, gain, white, i, size);
            var high := HdrSample(p, m1, m2, decode, gain, white, j, size);
            && low <= high <= 1.0 && Level(low) <= Level(high)
            && (low < high <==> gain > 0.0 && white > 0.0 && Nits(p, decode, gain, white, Coded(i, size)) < 10000.0)
  {
    CodedRises(i, j, size);
    NitsRise(p, decode, gain, white, Coded(i, size), Coded(j, size));
    var low, high := Nits(p, decode, gain, white, Coded(i, size)), Nits(p, decode, gain, white, Coded(j, size));
    PqEncodeCompares(m1, m2, low, high);
    LevelRises(PqEncode(m1, m2, low), PqEncode(m1, m2, high));
  }

  // ------------------------------------------------------------------ the ramp as it is written

  /** A sample in sixteen bits. */
  function Level(value: real): (level: nat)
    ensures level <= 65535
  {
    (Clamped(value) * 65535.0 + 0.5).Floor
  }

  /** No level in sixteen bits is nearer, and of two as near it is the upper. */
  lemma LevelIsNearest(value: real, level: nat)
    requires 0.0 <= value <= 1.0
    ensures Level(value) == level <==> level as real - 0.5 <= value * 65535.0 < level as real + 0.5
  {}

  lemma LevelRises(x: real, y: real)
    requires x <= y
    ensures Level(x) <= Level(y)
  {}

  /** What the encoder gives at its break and just past it is one level. */
  lemma OneLevelAtTheBreak(q: real -> real, y: real)
    requires IsEncodingPower(q) && y > LIGHT_LINEAR_UNTIL
    ensures Level(LIGHT_LINEAR_UNTIL * 12.92) == 2651 <= Level(LinearToSrgb(q, y))
  {
    assert Power(0.09047, 12) < Power(LIGHT_LINEAR_UNTIL, 5);
    PowerRises(LIGHT_LINEAR_UNTIL, y, 5);
    PowerCompares(0.09047, q(y), 12);
    LevelRises(1.055 * 0.09047 - 0.055, LinearToSrgb(q, y));
  }

  /** The dip is narrower than a level: written in sixteen bits, encoding never steps back. */
  lemma EncodedLevelsRise(p: real -> real, q: real -> real, x: real, y: real)
    requires IsDecodingPower(p) && IsEncodingPower(q) && 0.0 <= x <= y
    ensures Level(LinearToSrgb(q, x)) <= Level(LinearToSrgb(q, y))
  {
    if x < y {
      LinearToSrgbDipsExactly(p, q, x, y);
      if x <= LIGHT_LINEAR_UNTIL < y {
        OneLevelAtTheBreak(q, y);
        LevelRises(LinearToSrgb(q, x), LIGHT_LINEAR_UNTIL * 12.92);
      } else {
        LevelRises(LinearToSrgb(q, x), LinearToSrgb(q, y));
      }
    }
  }

  /** One channel of the night light's ramp on a display in SDR: decoded, scaled in light, encoded again. */
  function WarmSample(p: real -> real, q: real -> real, gain: real, index: nat, size: nat): real
    requires index < size && size >= 2
  {
    Rescaled(q, SrgbToLinear(p, Coded(index, size)), SrgbToLinear(p, gain))
  }

  function Rescaled(q: real -> real, light: real, scale: real): real {
    LinearToSrgb(q, light * scale)
  }

  lemma DecodesToLight(p: real -> real, coded: real)
    requires IsDecodingPower(p) && coded >= 0.0
    ensures SrgbToLinear(p, coded) >= 0.0
  {
    if coded > 0.0 {
      SrgbToLinearRises(p, 0.0, coded);
    }
  }

  lemma RescaledLevelsRise(p: real -> real, q: real -> real, low: real, high: real, scale: real)
    requires IsDecodingPower(p) && IsEncodingPower(q) && 0.0 <= low < high && 0.0 <= scale
    ensures Level(Rescaled(q, low, scale)) <= Level(Rescaled(q, high, scale))
  {
    LitRises(low, high, scale, low * scale, high * scale);
    EncodedLevelsRise(p, q, low * scale, high * scale);
  }

  /** No ramp the night light writes goes backwards, at any warmth and any size. */
  lemma WarmRampRises(p: real -> real, q: real -> real, gain: real, size: nat, i: nat, j: nat)
    requires IsDecodingPower(p) && IsEncodingPower(q) && 0.0 <= gain && i < j < size
    ensures Level(WarmSample(p, q, gain, i, size)) <= Level(WarmSample(p, q, gain, j, size))
  {
    CodedRises(i, j, size);
    SrgbToLinearRises(p, Coded(i, size), Coded(j, size));
    DecodesToLight(p, gain);
    RescaledLevelsRise(p, q, SrgbToLinear(p, Coded(i, size)), SrgbToLinear(p, Coded(j, size)), SrgbToLinear(p, gain));
  }
}
