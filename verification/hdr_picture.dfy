/** What a colour pipeline means: the picture that leaves on the cable and what the display is told about
    it, said without the stages and compared with what the stages commit. */
module HdrPicture {
  import opened Wrappers
  import opened HdrPipeline
  import opened ToneCurves

  /** The powers of the curves, and for one channel the scale that a colour temperature puts on its codes and
      the one that the matrix of an intensity puts on a grey. */
  datatype Optics = Optics(
    p: real -> real, q: real -> real, m1: real -> real, m2: real -> real, gain: nat -> real, grey: nat -> real)

  ghost predicate Sane(o: Optics) {
    IsDecodingPower(o.p) && IsEncodingPower(o.q) && IsRisingPower(o.m1) && IsRisingPower(o.m2)
  }

  // ------------------------------------------------------------------ the gamut matrix, on greys

  type Row = n: nat | n <= 2

  function Exact(row: Row, column: Row): real {
    if row == 0 then (if column == 0 then 0.6274039 else if column == 1 then 0.32928304 else 0.04331306)
    else if row == 1 then (if column == 0 then 0.06909729 else if column == 1 then 0.9195404 else 0.01136232)
    else if column == 0 then 0.01639144 else if column == 1 then 0.08801331 else 0.89559525
  }

  function Towards(intensity: nat): real {
    (if intensity > 100 then 100 else intensity) as real / 100.0
  }

  function Entry(row: Row, column: Row, intensity: nat): real {
    var identity := if row == column then 1.0 else 0.0;
    Exact(row, column) + (identity - Exact(row, column)) * Towards(intensity)
  }

  /** What one row makes of equal parts of all three colours. */
  function Grey(row: Row, intensity: nat): real {
    Entry(row, 0, intensity) + Entry(row, 1, intensity) + Entry(row, 2, intensity)
  }

  /** Nothing is taken from one channel twice or from any below nothing, and greys come through untouched in
      red and blue; in green they are one part in a hundred million too bright, less as the colours are
      stretched and not at all when they are stretched all the way. */
  lemma GreysComeThrough(row: Row, intensity: nat)
    ensures forall column: Row :: 0.0 <= Entry(row, column, intensity) <= 1.0
    ensures Grey(row, intensity) == 1.0 + if row == 1 then 0.00000001 * (1.0 - Towards(intensity)) else 0.0
    ensures Grey(row, intensity) == 1.0 <==> row != 1 || intensity >= 100
  {
    var t := Towards(intensity);
    forall column: Row ensures 0.0 <= Entry(row, column, intensity) <= 1.0 {
      Between(Exact(row, column), if row == column then 1.0 else 0.0, t);
    }
    SumOfBlends(Exact(row, 0), Exact(row, 1), Exact(row, 2), if row == 0 then 1.0 else 0.0,
                if row == 1 then 1.0 else 0.0, if row == 2 then 1.0 else 0.0, t);
  }

  lemma Between(a: real, b: real, t: real)
    requires 0.0 <= a <= 1.0 && 0.0 <= b <= 1.0 && 0.0 <= t <= 1.0
    ensures 0.0 <= a + (b - a) * t <= 1.0
  {
    var mine, yours := a * (1.0 - t), b * t;
    assert a + (b - a) * t == mine + yours;
    Share(a, 1.0 - t, mine);
    Share(b, t, yours);
  }

  lemma Share(a: real, whole: real, share: real)
    requires 0.0 <= a <= 1.0 && 0.0 <= whole && share == a * whole
    ensures 0.0 <= share <= whole
  {
    var rest := (1.0 - a) * whole;
    assert 0.0 <= share && 0.0 <= rest;
    assert rest == whole - share;
  }

  lemma SumOfBlends(a: real, b: real, c: real, x: real, y: real, z: real, t: real)
    ensures a + (x - a) * t + (b + (y - b) * t) + (c + (z - c) * t) == a + b + c + (x + y + z - (a + b + c)) * t
  {}

  // ------------------------------------------------------------------ what a committed property does

  function Bent(o: Optics, curve: Curve, x: real): real
    requires IsRisingPower(o.m1)
  {
    match curve
    case Straight => x
    case Decode => SrgbToLinear(o.p, x)
    case EncodePq(decodeFirst, white, warmth) =>
      var gain := if warmth.Some? then SrgbToLinear(o.p, o.gain(warmth.value)) else 1.0;
      PqEncode(o.m1, o.m2, Nits(o.p, decodeFirst, gain, white as real, x))
    case WarmSdr(temperature) =>
      Rescaled(o.q, SrgbToLinear(o.p, x), SrgbToLinear(o.p, o.gain(temperature)))
  }

  /** One stage at work on one channel of a grey; no blob and no property are no stage. */
  function Past(o: Optics, shown: map<Slot, Value>, slot: Slot, x: real): real
    requires IsRisingPower(o.m1)
  {
    if slot !in shown || !shown[slot].Blob? then x
    else match shown[slot].content
      case Lut(_, curve) => Bent(o, curve, x)
      case Gamut(intensity) => x * o.grey(intensity)
      case Infoframe(_) => x
  }

  /** What leaves on the cable for a grey of code `x`. */
  function Out(o: Optics, shown: map<Slot, Value>, x: real): real
    requires IsRisingPower(o.m1)
  {
    Past(o, shown, Gamma, Past(o, shown, Ctm, Past(o, shown, Degamma, x)))
  }

  // ------------------------------------------------------------------ what should

  /** A display is driven in HDR when it was asked for, the panel claims PQ, and the connector can be sent one
      request that both re-encodes the picture and says so. */
  predicate Drives(parts: Parts, panel: Panel, settings: Settings) {
    settings.enabled && panel.st2084 && parts.atomic && parts.metadata && parts.gamma.Some?
  }

  function Turned(o: Optics, parts: Parts, intensity: nat, x: real): real {
    if parts.ctm then x * o.grey(intensity) else x
  }

  /** The light a code stands for: through the matrix as light where a stage in front can decode it, and
      as a code where none can. */
  function Light(o: Optics, parts: Parts, intensity: nat, x: real): real {
    if parts.degamma.Some? then Turned(o, parts, intensity, SrgbToLinear(o.p, x))
    else SrgbToLinear(o.p, Turned(o, parts, intensity, x))
  }

  function InPq(o: Optics, light: real, scale: real, white: real): real
    requires IsRisingPower(o.m1)
  {
    PqEncode(o.m1, o.m2, light * scale * white)
  }

  function InSrgb(o: Optics, light: real, scale: real): real {
    LinearToSrgb(o.q, light * scale)
  }

  /** What should leave: in HDR, PQ of the code's light at the luminance white is given, or the code itself
      where the content is encoded already; out of it, the code. A night light scales light, and stands
      down for encoded content. */
  ghost function Sent(o: Optics, parts: Parts, panel: Panel, settings: Settings, night: NightLight, encoded: bool,
      x: real): real
    requires Sane(o)
  {
    var on := Drives(parts, panel, settings);
    var warm := night.enabled && night.temperature < 6500 && parts.atomic && parts.gamma.Some?;
    var scale := if warm then SrgbToLinear(o.p, o.gain(night.temperature)) else 1.0;
    if on && encoded then x
    else if on then
      InPq(o, Light(o, parts, settings.srgbIntensity, x), scale, settings.sdrBrightness as real)
    else if warm then InSrgb(o, SrgbToLinear(o.p, x), scale)
    else x
  }

  /** What the display should be told. In HDR: content no brighter than white, on a display whose peak is the
      user's, or its own, or four hundred, and never below white. Out of it: that it is, if it was ever told
      otherwise, and nothing if not. */
  ghost predicate Told(parts: Parts, panel: Panel, settings: Settings, before: bool, shown: map<Slot, Value>) {
    var on := Drives(parts, panel, settings);
    var peak := if settings.peakBrightness.Some? then settings.peakBrightness.value
                else if panel.maxLuminance.Some? then panel.maxLuminance.value else 400;
    && (parts.metadata ==> Metadata in shown && match shown[Metadata]
          case Blob(_, Infoframe(Hdr10(white, top, black))) =>
            on && white == settings.sdrBrightness && NearestBlack(panel.minLuminance, black)
            && top >= white && top >= peak && (top == white || top == peak)
          case Blob(_, Infoframe(Sdr)) => !on && before
          case NoBlob => !on && !before
          case _ => false)
    && (parts.colorspace.Some? ==>
          && Colorspace in shown
          && shown[Colorspace] == Raw(if on then parts.colorspace.value.bt2020 else parts.colorspace.value.plain))
  }

  /** Black in ten-thousandths: the nearest there is in sixteen bits, and one where none is declared. */
  ghost predicate NearestBlack(declared: Option<real>, black: nat) {
    && black <= 65535
    && (declared.None? ==> black == 1)
    && (declared.Some? ==> Nearest(declared.value, black))
  }

  ghost predicate Nearest(nits: real, black: nat) {
    forall other: nat :: other <= 65535 ==> Off(nits, black) <= Off(nits, other)
  }

  function Off(nits: real, black: nat): real {
    var difference := nits * 10000.0 - black as real;
    if difference < 0.0 then -difference else difference
  }

  predicate AsLong(value: Value, size: Option<nat>) {
    value.Blob? ==> size.Some? && value.content.Lut? && value.content.size == size.value
  }

  /** Every table that is in force is as long as the hardware's own. */
  ghost predicate Fits(parts: Parts, shown: map<Slot, Value>) {
    && (Degamma in shown ==> AsLong(shown[Degamma], parts.degamma))
    && (Gamma in shown ==> AsLong(shown[Gamma], parts.gamma))
  }

  // ------------------------------------------------------------------ one call

  lemma BlackIsNearest(panel: Panel)
    ensures NearestBlack(panel.minLuminance, BlackLevel(panel))
  {
    if panel.minLuminance.Some? {
      var tenths := panel.minLuminance.value * 10000.0;
      var rounded := (tenths + 0.5).Floor;
      forall other: nat | other <= 65535
        ensures Off(panel.minLuminance.value, BlackLevel(panel)) <= Off(panel.minLuminance.value, other)
      {
        assert other <= rounded || rounded + 1 <= other;
      }
    }
  }

  /** What a whole commit leaves, property by property. */
  ghost predicate Installed(parts: Parts, call: Call, before: bool, shown: map<Slot, Value>) {
    && (forall slot :: slot in shown <==> parts.Has(slot))
    && (forall slot :: slot in shown ==> Means(shown[slot], GoalOf(parts, call, before, slot)))
  }

  lemma WhatIsTold(parts: Parts, panel: Panel, settings: Settings, night: NightLight, encoded: bool, before: bool,
      shown: map<Slot, Value>)
    requires Installed(parts, HdrPipeline.Apply(panel, settings, night, encoded), before, shown)
    ensures Told(parts, panel, settings, before, shown)
  {
    BlackIsNearest(panel);
    assert parts.metadata ==> parts.Has(Metadata);
    assert parts.colorspace.Some? ==> parts.Has(Colorspace);
  }

  lemma WhatFits(parts: Parts, call: Call, before: bool, shown: map<Slot, Value>)
    requires Installed(parts, call, before, shown)
    ensures Fits(parts, shown)
  {
    assert Degamma in shown ==> Means(shown[Degamma], GoalOf(parts, call, before, Degamma));
    assert Gamma in shown ==> Means(shown[Gamma], GoalOf(parts, call, before, Gamma));
  }

  /** What a table of goals, stage by stage, makes of a grey. */
  function Aimed(o: Optics, parts: Parts, call: Call, slot: Slot, x: real): real
    requires IsRisingPower(o.m1)
  {
    if !parts.Has(slot) then x
    else match GoalOf(parts, call, false, slot)
      case Hold(Lut(_, curve)) => Bent(o, curve, x)
      case Hold(Gamut(intensity)) => x * o.grey(intensity)
      case _ => x
  }

  lemma StageIsAimed(o: Optics, parts: Parts, call: Call, before: bool, shown: map<Slot, Value>, slot: Slot, x: real)
    requires IsRisingPower(o.m1) && slot != Metadata && Installed(parts, call, before, shown)
    ensures Past(o, shown, slot, x) == Aimed(o, parts, call, slot, x)
  {
    if parts.Has(slot) {
      assert slot in shown;
      assert GoalOf(parts, call, false, slot) == GoalOf(parts, call, before, slot);
    }
  }

  function AllAimed(o: Optics, parts: Parts, call: Call, x: real): real
    requires IsRisingPower(o.m1)
  {
    Aimed(o, parts, call, Gamma, Aimed(o, parts, call, Ctm, Aimed(o, parts, call, Degamma, x)))
  }

  lemma WhatLeaves(o: Optics, parts: Parts, call: Call, before: bool, shown: map<Slot, Value>, x: real)
    requires IsRisingPower(o.m1) && Installed(parts, call, before, shown)
    ensures Out(o, shown, x) == AllAimed(o, parts, call, x)
  {
    var light := Aimed(o, parts, call, Degamma, x);
    StageIsAimed(o, parts, call, before, shown, Degamma, x);
    StageIsAimed(o, parts, call, before, shown, Ctm, light);
    StageIsAimed(o, parts, call, before, shown, Gamma, Aimed(o, parts, call, Ctm, light));
  }

  lemma BendsToPq(o: Optics, decodeFirst: bool, white: nat, warmth: Option<nat>, x: real)
    requires IsRisingPower(o.m1)
    ensures Bent(o, EncodePq(decodeFirst, white, warmth), x) ==
            InPq(o, if decodeFirst then SrgbToLinear(o.p, x) else x,
                 if warmth.Some? then SrgbToLinear(o.p, o.gain(warmth.value)) else 1.0, white as real)
  {
    var scale := if warmth.Some? then SrgbToLinear(o.p, o.gain(warmth.value)) else 1.0;
    NitsAre(o, decodeFirst, scale, white as real, x);
  }

  lemma NitsAre(o: Optics, decodeFirst: bool, scale: real, white: real, x: real)
    requires IsRisingPower(o.m1)
    ensures PqEncode(o.m1, o.m2, Nits(o.p, decodeFirst, scale, white, x)) ==
            InPq(o, if decodeFirst then SrgbToLinear(o.p, x) else x, scale, white)
  {
    var light := if decodeFirst then SrgbToLinear(o.p, x) else x;
    LitIsProduct(light, scale, white, Nits(o.p, decodeFirst, scale, white, x));
    SameNits(o, light, scale, white, Nits(o.p, decodeFirst, scale, white, x));
  }

  lemma LitIsProduct(light: real, scale: real, white: real, nits: real)
    requires nits == Lit(light, scale, white)
    ensures nits == light * scale * white
  {}

  lemma SameNits(o: Optics, light: real, scale: real, white: real, nits: real)
    requires IsRisingPower(o.m1) && nits == light * scale * white
    ensures PqEncode(o.m1, o.m2, nits) == InPq(o, light, scale, white)
  {}

  /** The stages of an HDR picture that is not encoded already, one by one. */
  lemma StagesInHdr(o: Optics, parts: Parts, panel: Panel, settings: Settings, night: NightLight, x: real)
    requires Sane(o) && Drives(parts, panel, settings)
    ensures var call := HdrPipeline.Apply(panel, settings, night, false);
            && Aimed(o, parts, call, Degamma, x) == (if parts.degamma.Some? then SrgbToLinear(o.p, x) else x)
            && Aimed(o, parts, call, Ctm, x) == Turned(o, parts, settings.srgbIntensity, x)
  {}

  lemma GammaInHdr(o: Optics, parts: Parts, panel: Panel, settings: Settings, night: NightLight, x: real)
    requires Sane(o) && Drives(parts, panel, settings)
    ensures var call := HdrPipeline.Apply(panel, settings, night, false);
            var warmth := if night.enabled && night.temperature < 6500 then Some(night.temperature) else None;
            Aimed(o, parts, call, Gamma, x) ==
            InPq(o, if parts.degamma.None? then SrgbToLinear(o.p, x) else x,
                 if warmth.Some? then SrgbToLinear(o.p, o.gain(warmth.value)) else 1.0, settings.sdrBrightness as real)
  {
    var warmth := if night.enabled && night.temperature < 6500 then Some(night.temperature) else None;
    BendsToPq(o, parts.degamma.None?, settings.sdrBrightness, warmth, x);
  }

  lemma AimedInHdr(o: Optics, parts: Parts, panel: Panel, settings: Settings, night: NightLight, x: real)
    requires Sane(o) && Drives(parts, panel, settings)
    ensures AllAimed(o, parts, HdrPipeline.Apply(panel, settings, night, false), x) ==
            Sent(o, parts, panel, settings, night, false, x)
  {
    var decoded := if parts.degamma.Some? then SrgbToLinear(o.p, x) else x;
    StagesInHdr(o, parts, panel, settings, night, x);
    StagesInHdr(o, parts, panel, settings, night, decoded);
    GammaInHdr(o, parts, panel, settings, night, Turned(o, parts, settings.srgbIntensity, decoded));
  }

  lemma AimedOutOfHdr(o: Optics, parts: Parts, panel: Panel, settings: Settings, night: NightLight, encoded: bool,
      x: real)
    requires Sane(o)
    requires !Drives(parts, panel, settings)
    ensures AllAimed(o, parts, HdrPipeline.Apply(panel, settings, night, encoded), x) ==
            Sent(o, parts, panel, settings, night, encoded, x)
  {
    var call := HdrPipeline.Apply(panel, settings, night, encoded);
    assert Aimed(o, parts, call, Degamma, x) == x && Aimed(o, parts, call, Ctm, x) == x;
  }

  lemma AimedPastEncoded(o: Optics, parts: Parts, panel: Panel, settings: Settings, night: NightLight, x: real)
    requires Sane(o) && Drives(parts, panel, settings)
    ensures AllAimed(o, parts, HdrPipeline.Apply(panel, settings, night, true), x) == x
  {
    var call := HdrPipeline.Apply(panel, settings, night, true);
    assert Aimed(o, parts, call, Degamma, x) == x && Aimed(o, parts, call, Ctm, x) == x;
  }

  lemma AimedIsSent(o: Optics, parts: Parts, panel: Panel, settings: Settings, night: NightLight, encoded: bool,
      x: real)
    requires Sane(o)
    ensures AllAimed(o, parts, HdrPipeline.Apply(panel, settings, night, encoded), x) ==
            Sent(o, parts, panel, settings, night, encoded, x)
  {
    if !Drives(parts, panel, settings) {
      AimedOutOfHdr(o, parts, panel, settings, night, encoded, x);
    } else if encoded {
      AimedPastEncoded(o, parts, panel, settings, night, x);
    } else {
      AimedInHdr(o, parts, panel, settings, night, x);
    }
  }

  /** What is sent and told, of every property and of every grey. */
  ghost predicate AsItShould(o: Optics, parts: Parts, panel: Panel, settings: Settings, night: NightLight,
      encoded: bool, before: bool, shown: map<Slot, Value>)
    requires Sane(o)
  {
    && Told(parts, panel, settings, before, shown) && Fits(parts, shown)
    && forall x :: Out(o, shown, x) == Sent(o, parts, panel, settings, night, encoded, x)
  }

  lemma InstalledIsAsItShould(o: Optics, parts: Parts, panel: Panel, settings: Settings, night: NightLight,
      encoded: bool, before: bool, shown: map<Slot, Value>)
    requires Sane(o) && Installed(parts, HdrPipeline.Apply(panel, settings, night, encoded), before, shown)
    ensures AsItShould(o, parts, panel, settings, night, encoded, before, shown)
  {
    var call := HdrPipeline.Apply(panel, settings, night, encoded);
    WhatIsTold(parts, panel, settings, night, encoded, before, shown);
    WhatFits(parts, call, before, shown);
    forall x ensures Out(o, shown, x) == Sent(o, parts, panel, settings, night, encoded, x) {
      WhatLeaves(o, parts, call, before, shown, x);
      AimedIsSent(o, parts, panel, settings, night, encoded, x);
    }
  }

  /** A call that is committed whole tells the display what it should and sends what it should, whatever
      stages the hardware has and whatever it showed before. */
  lemma AWholeCallSendsWhatItShould(o: Optics, parts: Parts, sys: Sys, panel: Panel, settings: Settings,
      night: NightLight, encoded: bool, answers: Answers)
    requires Sane(o) && Covers(parts, sys.shown)
    requires var call := HdrPipeline.Apply(panel, settings, night, encoded);
             Possible(parts, sys, call, answers) && answers.Committed() && Complete(parts, sys, call, answers)
    ensures var shown := Step(parts, sys, HdrPipeline.Apply(panel, settings, night, encoded), answers).shown;
            AsItShould(o, parts, panel, settings, night, encoded, sys.signalled, shown)
  {
    var call := HdrPipeline.Apply(panel, settings, night, encoded);
    CompleteStepInstalls(parts, sys, call, answers);
    InstalledIsAsItShould(o, parts, panel, settings, night, encoded, sys.signalled,
                          Step(parts, sys, call, answers).shown);
  }

  /** A reset is a call that does not ask for HDR, of any panel and however else it is asked. */
  lemma AResetAsksForNoHdr(parts: Parts, sys: Sys, panel: Panel, settings: Settings, night: NightLight, encoded: bool,
      answers: Answers)
    requires Covers(parts, sys.shown) && !settings.enabled
    ensures var (off, call) := (HdrPipeline.Reset(night), HdrPipeline.Apply(panel, settings, night, encoded));
            && (Possible(parts, sys, off, answers) <==> Possible(parts, sys, call, answers))
            && Step(parts, sys, off, answers) == Step(parts, sys, call, answers)
  {
    var off, call := HdrPipeline.Reset(night), HdrPipeline.Apply(panel, settings, night, encoded);
    forall slot | parts.Has(slot)
      ensures GoalOf(parts, off, sys.signalled, slot) == GoalOf(parts, call, sys.signalled, slot)
    {}
  }

  /** Whether the display has been driven in HDR, of the history alone. */
  ghost predicate EverDriven(parts: Parts, before: bool, run: seq<Turn>) {
    before || exists k :: 0 <= k < |run| && run[k].answers.Committed() && Drove(parts, run[k].call)
  }

  predicate Drove(parts: Parts, call: Call) {
    call.Apply? && Drives(parts, call.panel, call.settings)
  }

  /** So over every run: what is sent and told is what the last committed call asks for, if its blobs were
      made, and nothing of any call before it but whether the display had been driven in HDR. */
  lemma {:induction false} TheLastCallIsSent(o: Optics, parts: Parts, sys: Sys, run: seq<Turn>, k: nat)
    requires Sane(o) && Covers(parts, sys.shown) && ValidRun(parts, sys, run)
    requires k < |run| && run[k].answers.Committed() && run[k].call.Apply?
    requires forall j :: k < j < |run| ==> !run[j].answers.Committed()
    requires Complete(parts, Run(parts, sys, run[..k]), run[k].call, run[k].answers)
    ensures var call := run[k].call;
            AsItShould(o, parts, call.panel, call.settings, call.night, call.passthrough,
                       EverDriven(parts, sys.signalled, run[..k]), Run(parts, sys, run).shown)
  {
    var call, before := run[k].call, Run(parts, sys, run[..k]);
    LastCommitLeaves(parts, sys, run, k);
    AWholeCallSendsWhatItShould(o, parts, before, call.panel, call.settings, call.night, call.passthrough,
                                run[k].answers);
    RunSignalled(parts, sys, run[..k]);
    assert EverSignalled(parts, sys.signalled, run[..k]) <==> EverDriven(parts, sys.signalled, run[..k]) by {
      assert forall j :: 0 <= j < k ==> (Hdr(parts, run[j].call) <==> Drove(parts, run[j].call));
    }
  }
}
