/** The colour pipeline of one connector: what is committed to the display, and who owns the blobs.

    The kernel is the nondeterministic part. It may refuse to create any blob, reject the test
    commit, or reject the real one; everything below is proved for every such answer. */
module HdrPipeline {
  import opened Wrappers

  // ------------------------------------------------------------------ what is asked for

  datatype Settings = Settings(enabled: bool, sdrBrightness: nat, srgbIntensity: nat, peakBrightness: Option<nat>)

  const DEFAULT_PEAK := 400
  const NEUTRAL_KELVIN := 6500

  datatype NightLight = NightLight(enabled: bool, temperature: nat) {
    predicate Tints() { enabled && temperature < NEUTRAL_KELVIN }
  }

  /** What the display's EDID claims; the luminances in cd/m². */
  datatype Panel = Panel(st2084: bool, maxLuminance: Option<nat>, minLuminance: Option<real>)

  function Peak(settings: Settings, panel: Panel): nat {
    var declared := Or(settings.peakBrightness, panel.maxLuminance).GetOr(DEFAULT_PEAK);
    if declared < settings.sdrBrightness then settings.sdrBrightness else declared
  }

  /** The black level as the infoframe carries it: ten-thousandths of a cd/m², in sixteen bits. */
  function BlackLevel(panel: Panel): nat {
    match panel.minLuminance
    case None => 1
    case Some(nits) =>
      var rounded := (nits * 10000.0 + 0.5).Floor;
      if rounded < 0 then 0 else if rounded > 65535 then 65535 else rounded
  }

  datatype Call =
    | Apply(panel: Panel, settings: Settings, night: NightLight, passthrough: bool)
    | Reset(night: NightLight)

  // ------------------------------------------------------------------ what is committed

  /** The five properties, and what a blob staged for one of them was built from. */
  datatype Slot = Degamma | Ctm | Gamma | Colorspace | Metadata

  datatype Curve =
    | Straight
    | Decode
    | EncodePq(decodeFirst: bool, white: nat, warmth: Option<nat>)
    | WarmSdr(temperature: nat)

  datatype Frame = Hdr10(white: nat, peak: nat, black: nat) | Sdr

  datatype Content = Lut(size: nat, curve: Curve) | Gamut(intensity: nat) | Infoframe(frame: Frame)

  /** The value of one property. A blob's bytes never change, so they travel with its id. */
  datatype Value = NoBlob | Blob(id: nat, content: Content) | Raw(number: nat)

  /** What the colorspace property is given for each of the two encodings: the driver's own numbers. */
  datatype Encodings = Encodings(bt2020: nat, plain: nat)

  datatype Parts = Parts(
    colorspace: Option<Encodings>, metadata: bool, degamma: Option<nat>, ctm: bool, gamma: Option<nat>, atomic: bool)
  {
    predicate Has(slot: Slot) {
      match slot
      case Degamma => degamma.Some?
      case Ctm => ctm
      case Gamma => gamma.Some?
      case Colorspace => colorspace.Some?
      case Metadata => metadata
    }

    predicate Supported() { atomic && metadata && gamma.Some? }

    predicate Warms() { atomic && gamma.Some? }
  }

  predicate Hdr(parts: Parts, call: Call) {
    call.Apply? && call.settings.enabled && parts.Supported() && call.panel.st2084
  }

  predicate Passes(parts: Parts, call: Call) {
    Hdr(parts, call) && call.passthrough
  }

  predicate Warm(parts: Parts, call: Call) {
    call.night.Tints() && parts.Warms() && !Passes(parts, call)
  }

  /** What one call wants of one property, read off a table rather than off the staging code. */
  datatype Goal = Hold(content: Content) | Clear | Put(number: nat)

  function GoalOf(parts: Parts, call: Call, signalled: bool, slot: Slot): Goal
    requires parts.Has(slot)
  {
    var warmth := if Warm(parts, call) then Some(call.night.temperature) else None;
    match slot
    case Degamma =>
      if !Hdr(parts, call) then Clear
      else Hold(Lut(parts.degamma.value, if Passes(parts, call) then Straight else Decode))
    case Ctm =>
      if !Hdr(parts, call) || Passes(parts, call) then Clear else Hold(Gamut(call.settings.srgbIntensity))
    case Gamma =>
      if Passes(parts, call) then Hold(Lut(parts.gamma.value, Straight))
      else if Hdr(parts, call) then
        Hold(Lut(parts.gamma.value, EncodePq(parts.degamma.None?, call.settings.sdrBrightness, warmth)))
      else if warmth.Some? then Hold(Lut(parts.gamma.value, WarmSdr(warmth.value)))
      else Clear
    case Colorspace =>
      Put(if Hdr(parts, call) then parts.colorspace.value.bt2020 else parts.colorspace.value.plain)
    case Metadata =>
      if Hdr(parts, call) then
        Hold(Infoframe(Hdr10(call.settings.sdrBrightness, Peak(call.settings, call.panel), BlackLevel(call.panel))))
      else if signalled then Hold(Infoframe(Sdr))
      else Clear
  }

  predicate Means(value: Value, goal: Goal) {
    match goal
    case Hold(content) => value.Blob? && value.content == content
    case Clear => value.NoBlob?
    case Put(number) => value == Raw(number)
  }

  // ------------------------------------------------------------------ one call, abstractly

  /** The display and the books: every blob any client holds on the device, the committed value
      of every property this connector has, the blobs this pipeline keeps, and whether the display
      has ever been told it is in HDR. */
  datatype Sys = Sys(live: set<nat>, shown: map<Slot, Value>, held: set<nat>, signalled: bool)

  /** The kernel's side of one call: an id for every blob it agreed to create, and its two verdicts. */
  datatype Answers = Answers(ids: map<Slot, nat>, tested: bool, landed: bool) {
    predicate Committed() { tested && landed }
  }

  ghost predicate Covers(parts: Parts, shown: map<Slot, Value>) {
    forall slot :: slot in shown <==> parts.Has(slot)
  }

  predicate Referenced(shown: map<Slot, Value>, id: nat) {
    exists slot :: slot in shown && shown[slot].Blob? && shown[slot].id == id
  }

  ghost predicate Wants(parts: Parts, call: Call, signalled: bool, slot: Slot) {
    parts.Has(slot) && GoalOf(parts, call, signalled, slot).Hold?
  }

  /** Ids the kernel can hand out: none of them zero, in use, repeated, or still behind a property. */
  ghost predicate Possible(parts: Parts, sys: Sys, call: Call, answers: Answers) {
    && (forall slot :: slot in answers.ids ==> Wants(parts, call, sys.signalled, slot))
    && (forall slot :: slot in answers.ids ==> FreshId(sys, answers.ids[slot]))
    && (forall s, t :: s in answers.ids && t in answers.ids && answers.ids[s] == answers.ids[t] ==> s == t)
  }

  ghost predicate FreshId(sys: Sys, id: nat) {
    id != 0 && id !in sys.live && !Referenced(sys.shown, id)
  }

  /** A property after a commit. A stage whose blob could not be created was left out of the request. */
  function Landed(parts: Parts, sys: Sys, call: Call, answers: Answers, slot: Slot): Value
    requires parts.Has(slot) && slot in sys.shown
  {
    match GoalOf(parts, call, sys.signalled, slot)
    case Hold(content) => if slot in answers.ids then Blob(answers.ids[slot], content) else sys.shown[slot]
    case Clear => NoBlob
    case Put(number) => Raw(number)
  }

  ghost function Step(parts: Parts, sys: Sys, call: Call, answers: Answers): Sys
    requires Covers(parts, sys.shown)
  {
    if !answers.Committed() then sys
    else
      Sys(sys.live - sys.held + answers.ids.Values,
          map slot | slot in sys.shown :: Landed(parts, sys, call, answers, slot),
          answers.ids.Values,
          sys.signalled || Hdr(parts, call))
  }

  /** Every stage this call wanted a blob for was given one. */
  ghost predicate Complete(parts: Parts, sys: Sys, call: Call, answers: Answers) {
    forall slot :: Wants(parts, call, sys.signalled, slot) ==> slot in answers.ids
  }

  /** No property points at a blob whose handle has been let go of. */
  ghost predicate Anchored(sys: Sys) {
    forall slot :: slot in sys.shown && sys.shown[slot].Blob? ==> sys.shown[slot].id in sys.held
  }

  /** The device's blobs are other clients' and this pipeline's, and nothing is in both. */
  ghost predicate Accounted(sys: Sys, foreign: set<nat>) {
    sys.live == foreign + sys.held && foreign !! sys.held
  }

  ghost predicate Described(sys: Sys) {
    Metadata in sys.shown && sys.shown[Metadata].Blob? && sys.shown[Metadata].content.Infoframe?
  }

  // ------------------------------------------------------------------ one call, what it keeps

  lemma StepAccounts(parts: Parts, sys: Sys, call: Call, answers: Answers, foreign: set<nat>)
    requires Covers(parts, sys.shown) && Possible(parts, sys, call, answers) && Accounted(sys, foreign)
    ensures Accounted(Step(parts, sys, call, answers), foreign)
  {
    forall id | id in answers.ids.Values ensures id !in sys.live {
      var slot :| slot in answers.ids && answers.ids[slot] == id;
    }
  }

  /** A commit with every blob created installs exactly the table, whatever was there before. */
  lemma CompleteStepInstalls(parts: Parts, sys: Sys, call: Call, answers: Answers)
    requires Covers(parts, sys.shown) && Possible(parts, sys, call, answers)
    requires answers.Committed() && Complete(parts, sys, call, answers)
    ensures var after := Step(parts, sys, call, answers);
            && Anchored(after)
            && forall slot :: parts.Has(slot) ==>
                 slot in after.shown && Means(after.shown[slot], GoalOf(parts, call, sys.signalled, slot))
  {
    var after := Step(parts, sys, call, answers);
    forall slot | parts.Has(slot)
      ensures slot in after.shown && Means(after.shown[slot], GoalOf(parts, call, sys.signalled, slot))
      ensures after.shown[slot].Blob? ==> after.shown[slot].id in after.held
    {
      assert slot in sys.shown;
      if GoalOf(parts, call, sys.signalled, slot).Hold? {
        assert Wants(parts, call, sys.signalled, slot);
      }
    }
  }

  /** A stage left out for want of a blob leaves its property where it was, and the pipeline lets go
      of the old generation all the same. So the commit strands a property exactly when one of the
      stages left out was showing a blob. */
  lemma CommitAnchorsExactly(parts: Parts, sys: Sys, call: Call, answers: Answers)
    requires Covers(parts, sys.shown) && Possible(parts, sys, call, answers) && answers.Committed()
    requires Anchored(sys) && sys.held <= sys.live
    ensures Anchored(Step(parts, sys, call, answers)) <==>
            forall slot :: Wants(parts, call, sys.signalled, slot) && slot !in answers.ids ==> !sys.shown[slot].Blob?
  {
    var after := Step(parts, sys, call, answers);
    forall slot | slot in after.shown && after.shown[slot].Blob?
      ensures after.shown[slot].id in after.held <==> slot in answers.ids
    {}
    forall slot | Wants(parts, call, sys.signalled, slot) && slot !in answers.ids
      ensures slot in after.shown && after.shown[slot] == sys.shown[slot]
    {}
  }

  /** From the first HDR commit on, the display is told what it is being sent exactly when the
      infoframe's blob was created this time or was already in force. */
  lemma SignalledIsDescribedExactly(parts: Parts, sys: Sys, call: Call, answers: Answers)
    requires Covers(parts, sys.shown) && Possible(parts, sys, call, answers) && answers.Committed()
    requires parts.metadata && (sys.signalled || Hdr(parts, call))
    ensures Described(Step(parts, sys, call, answers)) <==> Metadata in answers.ids || Described(sys)
  {
    assert parts.Has(Metadata);
    assert GoalOf(parts, call, sys.signalled, Metadata).Hold?;
  }

  /** The failure is real: a display reported as driven in HDR that was never told so. */
  lemma HdrWithoutAnInfoframe() returns (parts: Parts, sys: Sys, call: Call, answers: Answers)
    ensures Covers(parts, sys.shown) && Possible(parts, sys, call, answers) && answers.Committed()
    ensures Hdr(parts, call) && Step(parts, sys, call, answers).signalled
    ensures !Described(Step(parts, sys, call, answers))
  {
    parts := Parts(None, true, None, false, Some(4096), true);
    sys := Sys({}, map[Gamma := NoBlob, Metadata := NoBlob], {}, false);
    call := Apply(Panel(true, None, None), Settings(true, 200, 0, None), NightLight(false, 4000), false);
    answers := Answers(map[Gamma := 1], true, true);
    assert forall slot :: parts.Has(slot) ==> slot == Gamma || slot == Metadata;
  }

  // ------------------------------------------------------------------ whole runs

  datatype Turn = Turn(call: Call, answers: Answers)

  ghost predicate ValidRun(parts: Parts, sys: Sys, run: seq<Turn>)
    requires Covers(parts, sys.shown)
    decreases |run|
  {
    run != [] ==>
      && Possible(parts, sys, run[0].call, run[0].answers)
      && ValidRun(parts, Step(parts, sys, run[0].call, run[0].answers), run[1..])
  }

  ghost function Run(parts: Parts, sys: Sys, run: seq<Turn>): (after: Sys)
    requires Covers(parts, sys.shown)
    ensures Covers(parts, after.shown)
    decreases |run|
  {
    if run == [] then sys else Run(parts, Step(parts, sys, run[0].call, run[0].answers), run[1..])
  }

  /** Whether the display has been told about HDR after `run`: a property of the history alone. */
  ghost predicate EverSignalled(parts: Parts, before: bool, run: seq<Turn>) {
    before || exists k :: 0 <= k < |run| && run[k].answers.Committed() && Hdr(parts, run[k].call)
  }

  /** Conservation over every run: what is created and not yet destroyed is exactly what is held. */
  lemma {:induction false} RunAccounts(parts: Parts, sys: Sys, run: seq<Turn>, foreign: set<nat>)
    requires Covers(parts, sys.shown) && ValidRun(parts, sys, run) && Accounted(sys, foreign)
    ensures Accounted(Run(parts, sys, run), foreign)
    decreases |run|
  {
    if run != [] {
      StepAccounts(parts, sys, run[0].call, run[0].answers, foreign);
      RunAccounts(parts, Step(parts, sys, run[0].call, run[0].answers), run[1..], foreign);
    }
  }

  lemma {:induction false} RunSignalled(parts: Parts, sys: Sys, run: seq<Turn>)
    requires Covers(parts, sys.shown)
    ensures Run(parts, sys, run).signalled <==> EverSignalled(parts, sys.signalled, run)
    decreases |run|
  {
    if run != [] {
      var next := Step(parts, sys, run[0].call, run[0].answers);
      RunSignalled(parts, next, run[1..]);
      if EverSignalled(parts, sys.signalled, run) && !next.signalled {
        var k :| 0 <= k < |run| && run[k].answers.Committed() && Hdr(parts, run[k].call);
        assert run[1..][k - 1] == run[k];
      }
      if EverSignalled(parts, next.signalled, run[1..]) && !sys.signalled {
        if next.signalled {
          assert run[0].answers.Committed() && Hdr(parts, run[0].call);
        } else {
          var k :| 0 <= k < |run[1..]| && run[1..][k].answers.Committed() && Hdr(parts, run[1..][k].call);
          assert run[k + 1] == run[1..][k];
        }
      }
    }
  }

  lemma {:induction false} RunSplits(parts: Parts, sys: Sys, first: seq<Turn>, second: seq<Turn>)
    requires Covers(parts, sys.shown)
    ensures Run(parts, sys, first + second) == Run(parts, Run(parts, sys, first), second)
    ensures ValidRun(parts, sys, first + second) <==>
            ValidRun(parts, sys, first) && ValidRun(parts, Run(parts, sys, first), second)
    decreases |first|
  {
    if first == [] {
      assert first + second == second;
    } else {
      assert (first + second)[1..] == first[1..] + second;
      RunSplits(parts, Step(parts, sys, first[0].call, first[0].answers), first[1..], second);
    }
  }

  lemma {:induction false} RejectedRunChangesNothing(parts: Parts, sys: Sys, run: seq<Turn>)
    requires Covers(parts, sys.shown)
    requires forall k :: 0 <= k < |run| ==> !run[k].answers.Committed()
    ensures Run(parts, sys, run) == sys
    decreases |run|
  {
    if run != [] {
      RejectedRunChangesNothing(parts, sys, run[1..]);
    }
  }

  /** A run ends where its last commit left it. */
  lemma {:induction false} LastCommitLeaves(parts: Parts, sys: Sys, run: seq<Turn>, k: nat)
    requires Covers(parts, sys.shown) && ValidRun(parts, sys, run)
    requires k < |run| && forall j :: k < j < |run| ==> !run[j].answers.Committed()
    ensures ValidRun(parts, sys, run[..k])
    ensures Possible(parts, Run(parts, sys, run[..k]), run[k].call, run[k].answers)
    ensures Run(parts, sys, run) == Step(parts, Run(parts, sys, run[..k]), run[k].call, run[k].answers)
  {
    var before := Run(parts, sys, run[..k]);
    var turn, rest := [run[k]], run[k + 1..];
    assert run == run[..k] + (turn + rest);
    RunSplits(parts, sys, run[..k], turn + rest);
    RunSplits(parts, before, turn, rest);
    assert Run(parts, before, turn) == Step(parts, before, run[k].call, run[k].answers) by {
      assert turn[1..] == [];
    }
    RejectedRunChangesNothing(parts, Run(parts, before, turn), rest);
  }

  /** Nothing is inherited. Over every run whose last commit, turn `k`, had its blobs created, the
      display shows exactly what that turn's arguments and the HDR history ask for, and every blob
      behind a property is one the pipeline still holds. */
  lemma {:induction false} LastCommitDecides(parts: Parts, sys: Sys, run: seq<Turn>, k: nat)
    requires Covers(parts, sys.shown) && ValidRun(parts, sys, run)
    requires k < |run| && run[k].answers.Committed()
    requires forall j :: k < j < |run| ==> !run[j].answers.Committed()
    requires Complete(parts, Run(parts, sys, run[..k]), run[k].call, run[k].answers)
    ensures var after := Run(parts, sys, run);
            && Anchored(after)
            && forall slot :: parts.Has(slot) ==>
                 && slot in after.shown
                 && Means(after.shown[slot],
                          GoalOf(parts, run[k].call, EverSignalled(parts, sys.signalled, run[..k]), slot))
  {
    LastCommitLeaves(parts, sys, run, k);
    CompleteStepInstalls(parts, Run(parts, sys, run[..k]), run[k].call, run[k].answers);
    RunSignalled(parts, sys, run[..k]);
  }

  /** Once told, always told: no later call, however it fails, takes the infoframe away. */
  lemma {:induction false} DescribedForGood(parts: Parts, sys: Sys, run: seq<Turn>)
    requires Covers(parts, sys.shown) && ValidRun(parts, sys, run)
    requires sys.signalled && Described(sys)
    ensures Run(parts, sys, run).signalled && Described(Run(parts, sys, run))
    decreases |run|
  {
    if run != [] {
      if run[0].answers.Committed() {
        SignalledIsDescribedExactly(parts, sys, run[0].call, run[0].answers);
      }
      DescribedForGood(parts, Step(parts, sys, run[0].call, run[0].answers), run[1..]);
    }
  }

  /** A connector put in HDR whole and then again without a blob for the infoframe shows one whose blob
      has been let go of: whatever the call, whatever else was refused, from any state that was in order. */
  lemma {:induction false} LackingTheInfoframeStrands(parts: Parts, sys: Sys, call: Call, whole: Answers,
      lacking: Answers)
    requires Covers(parts, sys.shown) && sys.held <= sys.live && Hdr(parts, call)
    requires Possible(parts, sys, call, whole) && whole.Committed() && Complete(parts, sys, call, whole)
    requires Possible(parts, Step(parts, sys, call, whole), call, lacking) && lacking.Committed()
    requires Metadata !in lacking.ids
    ensures !Anchored(Run(parts, sys, [Turn(call, whole), Turn(call, lacking)]))
  {
    var lit := Step(parts, sys, call, whole);
    CompleteStepInstalls(parts, sys, call, whole);
    assert parts.Has(Metadata) && Wants(parts, call, lit.signalled, Metadata) && lit.shown[Metadata].Blob?;
    CommitAnchorsExactly(parts, lit, call, lacking);
    TwoTurns(parts, sys, Turn(call, whole), Turn(call, lacking));
  }

  lemma TwoTurns(parts: Parts, sys: Sys, first: Turn, second: Turn)
    requires Covers(parts, sys.shown)
    ensures var after := Step(parts, sys, first.call, first.answers);
            && Run(parts, sys, [first, second]) == Step(parts, after, second.call, second.answers)
            && (ValidRun(parts, sys, [first, second]) <==>
                  && Possible(parts, sys, first.call, first.answers)
                  && Possible(parts, after, second.call, second.answers))
  {
    var after := Step(parts, sys, first.call, first.answers);
    var ended := Step(parts, after, second.call, second.answers);
    assert [first, second][1..] == [second] && [second][1..] == [];
    assert ValidRun(parts, ended, []) && Run(parts, ended, []) == ended;
    assert Run(parts, after, [second]) == ended;
  }

  /** And it happens from a clean connector in two calls. */
  lemma ACommitStrands() returns (parts: Parts, sys: Sys, run: seq<Turn>)
    ensures Covers(parts, sys.shown) && Anchored(sys) && Accounted(sys, {}) && ValidRun(parts, sys, run)
    ensures |run| == 2 && run[0].answers.Committed() && run[1].answers.Committed()
    ensures !Anchored(Run(parts, sys, run))
  {
    var call;
    parts, sys, call := CleanConnector();
    var whole, lacking := Answers(map[Gamma := 1, Metadata := 2], true, true), Answers(map[], true, true);
    TwoTurns(parts, sys, Turn(call, whole), Turn(call, lacking));
    LackingTheInfoframeStrands(parts, sys, call, whole, lacking);
    run := [Turn(call, whole), Turn(call, lacking)];
  }

  /** The least connector that can do HDR, with nothing set on it yet, and a call for HDR. */
  lemma CleanConnector() returns (parts: Parts, sys: Sys, call: Call)
    ensures Covers(parts, sys.shown) && Anchored(sys) && Accounted(sys, {}) && !Described(sys)
    ensures Hdr(parts, call) && !call.passthrough
    ensures Possible(parts, sys, call, Answers(map[Gamma := 1, Metadata := 2], true, true))
    ensures Complete(parts, sys, call, Answers(map[Gamma := 1, Metadata := 2], true, true))
  {
    parts := Parts(None, true, None, false, Some(4096), true);
    sys := Sys({}, map[Gamma := NoBlob, Metadata := NoBlob], {}, false);
    call := Apply(Panel(true, None, None), Settings(true, 200, 0, None), NightLight(false, 4000), false);
    assert forall slot :: parts.Has(slot) <==> slot == Gamma || slot == Metadata;
  }
}
