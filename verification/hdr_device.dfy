/** The pipeline as the program runs it: stage blob by blob into one request, test, commit, then let
    go of one generation or the other. Each method is proved against the one-call step of
    `HdrPipeline`, for whatever the kernel answers. */
module HdrDevice {
  import opened Wrappers
  import opened HdrPipeline

  type Request = map<Slot, Value>

  function Merged(shown: map<Slot, Value>, request: Request): map<Slot, Value> {
    map slot | slot in shown :: if slot in request then request[slot] else shown[slot]
  }

  /** One commit the driver was asked for, and what it said. */
  datatype Asked = Asked(request: Request, testOnly: bool, ok: bool)

  /** The DRM device, reduced to one connector and its CRTC: the blobs alive on it, the committed
      property values, and how often anybody freed a blob that was not there. */
  class Kernel {
    ghost var asked: seq<Asked>
    var live: set<nat>
    var shown: map<Slot, Value>
    var faults: nat

    constructor (shown: map<Slot, Value>)
      ensures this.shown == shown && live == {} && faults == 0 && asked == []
    {
      this.shown, asked := shown, [];
      live := {};
      faults := 0;
    }

    predicate Unused(id: nat)
      reads this
    {
      id != 0 && id !in live && !Referenced(shown, id)
    }

    lemma SomeUnusedId() returns (id: nat)
      ensures Unused(id)
    {
      var behind := set slot | slot in shown && shown[slot].Blob? :: shown[slot].id;
      id := AboveAll(live + behind);
      assert forall slot :: slot in shown && shown[slot].Blob? ==> shown[slot].id in behind;
    }

    /** The kernel may refuse; when it agrees, the id is one nobody is using. */
    method CreateBlob() returns (made: Option<nat>)
      modifies this`live
      ensures made.None? ==> live == old(live)
      ensures made.Some? ==> old(Unused(made.value)) && live == old(live) + {made.value}
    {
      made := None;
      if * {
        ghost var witnessId := SomeUnusedId();
        var id: nat :| Unused(id);
        live := live + {id};
        made := Some(id);
      }
    }

    method DestroyBlob(id: nat)
      modifies this`live, this`faults
      ensures live == old(live) - {id}
      ensures faults == old(faults) + if id in old(live) then 0 else 1
    {
      if id !in live {
        faults := faults + 1;
      }
      live := live - {id};
    }

    method AtomicCommit(request: Request, testOnly: bool) returns (ok: bool)
      modifies this`shown, this`asked
      ensures asked == old(asked) + [Asked(request, testOnly, ok)]
      ensures shown == if ok && !testOnly then Merged(old(shown), request) else old(shown)
    {
      ok := *;
      asked := asked + [Asked(request, testOnly, ok)];
      if ok && !testOnly {
        shown := Merged(shown, request);
      }
    }
  }

  lemma AboveAll(used: set<nat>) returns (id: nat)
    ensures id > 0 && forall u :: u in used ==> u < id
  {
    if used == {} {
      id := 1;
    } else {
      var one :| one in used;
      var rest := AboveAll(used - {one});
      id := if one < rest then rest else one + 1;
      assert forall u :: u in used ==> u == one || u in used - {one};
    }
  }

  /** Ask whether the driver would take it, and only then ask it to. */
  method Commit(kernel: Kernel, request: Request) returns (ok: bool, ghost tested: bool, ghost landed: bool)
    modifies kernel`shown, kernel`asked
    ensures ok <==> tested && landed
    ensures kernel.asked == old(kernel.asked) + [Asked(request, true, tested)]
                            + if tested then [Asked(request, false, landed)] else []
    ensures kernel.shown == if ok then Merged(old(kernel.shown), request) else old(kernel.shown)
  {
    ok := kernel.AtomicCommit(request, true);
    tested, landed := ok, false;
    if ok {
      ok := kernel.AtomicCommit(request, false);
      landed := ok;
    }
  }

  datatype Applied = Applied(enabled: bool, warming: bool, committed: bool)

  ghost predicate Distinct(blobs: seq<nat>) {
    forall i, j :: 0 <= i < j < |blobs| ==> blobs[i] != blobs[j]
  }

  ghost function Elements(blobs: seq<nat>): set<nat> {
    set i | 0 <= i < |blobs| :: blobs[i]
  }

  /** A request being put together, and the bookkeeping the proof follows it with: the blobs alive,
      the ids the kernel has given out, and the slots dealt with so far. */
  datatype Draft = Draft(live: set<nat>, request: Request, made: seq<nat>, ids: map<Slot, nat>, done: set<Slot>) {
    predicate AllDone() {
      Degamma in done && Ctm in done && Gamma in done && Colorspace in done && Metadata in done
    }
  }

  /** The request carries what the table wants of `slot`, or leaves it out for want of a blob. */
  ghost predicate Entered(parts: Parts, call: Call, signalled: bool, draft: Draft, slot: Slot)
    requires parts.Has(slot)
  {
    Carries(draft, slot, GoalOf(parts, call, signalled, slot))
  }

  ghost predicate Carries(draft: Draft, slot: Slot, goal: Goal) {
    match goal
    case Hold(content) =>
      if slot in draft.ids then slot in draft.request && draft.request[slot] == Blob(draft.ids[slot], content)
      else slot !in draft.request
    case Clear => slot in draft.request && draft.request[slot] == NoBlob
    case Put(number) => slot in draft.request && draft.request[slot] == Raw(number)
  }

  ghost predicate InTable(parts: Parts, call: Call, signalled: bool, draft: Draft) {
    && (forall slot :: slot in draft.request || slot in draft.ids ==> slot in draft.done && parts.Has(slot))
    && (forall slot :: slot in draft.done && parts.Has(slot) ==> Entered(parts, call, signalled, draft, slot))
  }

  ghost predicate InBooks(parts: Parts, call: Call, before: Sys, draft: Draft) {
    && Possible(parts, before, call, Answers(draft.ids, true, true))
    && Distinct(draft.made) && Elements(draft.made) == draft.ids.Values
    && draft.live == before.live + draft.ids.Values
  }

  ghost predicate Staged(parts: Parts, call: Call, before: Sys, draft: Draft) {
    InTable(parts, call, before.signalled, draft) && InBooks(parts, call, before, draft)
  }

  lemma Appended(made: seq<nat>, id: nat)
    requires Distinct(made) && id !in Elements(made)
    ensures Distinct(made + [id]) && Elements(made + [id]) == Elements(made) + {id}
  {
    var more := made + [id];
    forall i | 0 <= i < |made| ensures made[i] in Elements(made) {}
    forall one | one in Elements(made) ensures one in Elements(more) {
      var i :| 0 <= i < |made| && made[i] == one;
      assert more[i] == one;
    }
    assert more[|made|] == id;
  }

  lemma MoreValues(ids: map<Slot, nat>, slot: Slot, id: nat)
    requires slot !in ids
    ensures ids[slot := id].Values == ids.Values + {id}
  {
    var more := ids[slot := id];
    assert more[slot] == id;
    forall one | one in ids.Values ensures one in more.Values {
      var s :| s in ids && ids[s] == one;
      assert more[s] == one;
    }
  }

  lemma BlobBooked(parts: Parts, call: Call, before: Sys, draft: Draft, slot: Slot, id: nat)
    requires InBooks(parts, call, before, draft) && slot !in draft.ids
    requires Wants(parts, call, before.signalled, slot)
    requires id != 0 && id !in draft.live && !Referenced(before.shown, id)
    ensures InBooks(parts, call, before,
                    draft.(live := draft.live + {id}, made := draft.made + [id], ids := draft.ids[slot := id]))
  {
    MoreValues(draft.ids, slot, id);
    Appended(draft.made, id);
    forall s | s in draft.ids ensures draft.ids[s] != id {
      assert draft.ids[s] in draft.ids.Values;
    }
  }

  /** One slot dealt with: its blob staged under `id`, its blob refused, a plain value, or no such
      property. */
  ghost function Dealt(parts: Parts, call: Call, signalled: bool, draft: Draft, slot: Slot, id: Option<nat>): Draft {
    if !parts.Has(slot) then draft.(done := draft.done + {slot})
    else Filled(draft, slot, GoalOf(parts, call, signalled, slot), id)
  }

  ghost function Filled(draft: Draft, slot: Slot, goal: Goal, id: Option<nat>): Draft {
    var done := draft.done + {slot};
    match goal
    case Clear => draft.(request := draft.request[slot := NoBlob], done := done)
    case Put(number) => draft.(request := draft.request[slot := Raw(number)], done := done)
    case Hold(content) =>
      if id.None? then draft.(done := done)
      else
        Draft(draft.live + {id.value}, draft.request[slot := Blob(id.value, content)], draft.made + [id.value],
              draft.ids[slot := id.value], done)
  }

  lemma FilledCarries(draft: Draft, slot: Slot, goal: Goal, id: Option<nat>)
    requires slot !in draft.request && slot !in draft.ids
    ensures var next := Filled(draft, slot, goal, id);
            && Carries(next, slot, goal) && next.done == draft.done + {slot}
            && (forall s :: s in next.request || s in next.ids ==> s == slot || s in draft.request || s in draft.ids)
            && (forall s, g :: s != slot && Carries(draft, s, g) ==> Carries(next, s, g))
  {}

  lemma OneSlotInTable(parts: Parts, call: Call, signalled: bool, draft: Draft, slot: Slot, id: Option<nat>)
    requires InTable(parts, call, signalled, draft) && slot !in draft.done
    ensures InTable(parts, call, signalled, Dealt(parts, call, signalled, draft, slot, id))
  {
    if parts.Has(slot) {
      FilledCarries(draft, slot, GoalOf(parts, call, signalled, slot), id);
    }
    var next := Dealt(parts, call, signalled, draft, slot, id);
    forall s | s in next.done && parts.Has(s)
      ensures Entered(parts, call, signalled, next, s)
    {
      if s != slot {
        assert Entered(parts, call, signalled, draft, s);
      }
    }
  }

  lemma OneSlot(parts: Parts, call: Call, before: Sys, draft: Draft, slot: Slot, id: Option<nat>)
    requires Staged(parts, call, before, draft) && slot !in draft.done
    requires id.Some? ==> id.value != 0 && id.value !in draft.live && !Referenced(before.shown, id.value)
    ensures Staged(parts, call, before, Dealt(parts, call, before.signalled, draft, slot, id))
  {
    OneSlotInTable(parts, call, before.signalled, draft, slot, id);
    assert slot !in draft.ids;
    if id.Some? && Wants(parts, call, before.signalled, slot) {
      BlobBooked(parts, call, before, draft, slot, id.value);
    }
  }

  class Pipeline {
    const parts: Parts
    var blobs: seq<nat>
    var signalled: bool

    constructor (parts: Parts)
      ensures this.parts == parts && blobs == [] && !signalled
    {
      this.parts := parts;
      blobs := [];
      signalled := false;
    }

    /** What this pipeline and the device look like to the one-call step. */
    ghost function View(kernel: Kernel): Sys
      reads this, kernel
    {
      Sys(kernel.live, kernel.shown, Elements(blobs), signalled)
    }

    /** Every blob on the books is alive, and on the books once. */
    ghost predicate Valid(kernel: Kernel)
      reads this, kernel
    {
      Covers(parts, kernel.shown) && Distinct(blobs) && Elements(blobs) <= kernel.live
    }

    /** One blob asked of the kernel: staged and put on the new books, or left out if it is refused. */
    method StageBlob(kernel: Kernel, slot: Slot, content: Content, request: Request, made: seq<nat>)
      returns (request': Request, made': seq<nat>, ghost id: Option<nat>)
      modifies kernel`live
      ensures id.None? ==> request' == request && made' == made && kernel.live == old(kernel.live)
      ensures id.Some? ==>
                && old(kernel.Unused(id.value))
                && kernel.live == old(kernel.live) + {id.value}
                && request' == request[slot := Blob(id.value, content)]
                && made' == made + [id.value]
    {
      request', made' := request, made;
      var blob := kernel.CreateBlob();
      id := blob;
      if blob.Some? {
        made' := made + [blob.value];
        request' := request[slot := Blob(blob.value, content)];
      }
    }

    method FreeBlobs(kernel: Kernel)
      requires Distinct(blobs) && Elements(blobs) <= kernel.live
      modifies this`blobs, kernel`live, kernel`faults
      ensures blobs == []
      ensures kernel.live == old(kernel.live) - Elements(old(blobs)) && kernel.faults == old(kernel.faults)
    {
      DestroyAll(kernel, blobs);
      blobs := [];
    }

    /** One property put in the request, or nothing at all where the connector has no such property. */
    method Stage(kernel: Kernel, slot: Slot, goal: Goal, request: Request, made: seq<nat>,
                 ghost call: Call, ghost before: Sys, ghost draft: Draft)
      returns (request': Request, made': seq<nat>, ghost next: Draft)
      requires Staged(parts, call, before, draft) && Follows(kernel, before, draft, request, made)
      requires slot !in draft.done && (parts.Has(slot) ==> goal == GoalOf(parts, call, before.signalled, slot))
      modifies kernel`live
      ensures Staged(parts, call, before, next) && Follows(kernel, before, next, request', made')
      ensures next.done == draft.done + {slot}
    {
      request', made' := request, made;
      ghost var id: Option<nat> := None;
      if parts.Has(slot) {
        match goal
        case Hold(content) => request', made', id := StageBlob(kernel, slot, content, request, made);
        case Clear => request' := request[slot := NoBlob];
        case Put(number) => request' := request[slot := Raw(number)];
      }
      next := Dealt(parts, call, before.signalled, draft, slot, id);
      OneSlot(parts, call, before, draft, slot, id);
    }

    /** The proof's draft is the one in the code's hands, and nothing has been committed meanwhile. */
    ghost predicate Follows(kernel: Kernel, before: Sys, draft: Draft, request: Request, made: seq<nat>)
      reads kernel
    {
      draft.live == kernel.live && draft.request == request && draft.made == made && kernel.shown == before.shown
    }

    /** What says how the picture is encoded, put back. */
    method StagePlainSignal(kernel: Kernel, ghost call: Call, ghost before: Sys)
      returns (request: Request, made: seq<nat>, ghost draft: Draft)
      requires before == View(kernel) && Covers(parts, kernel.shown) && !Hdr(parts, call)
      modifies kernel`live
      ensures Staged(parts, call, before, draft) && Follows(kernel, before, draft, request, made)
      ensures draft.done == {Metadata, Colorspace}
    {
      request, made, draft := map[], [], Draft(kernel.live, map[], [], map[], {});
      var goal := if signalled then Hold(Infoframe(Sdr)) else Clear;
      request, made, draft := Stage(kernel, Metadata, goal, request, made, call, before, draft);
      goal := if parts.colorspace.Some? then Put(parts.colorspace.value.plain) else Clear;
      request, made, draft := Stage(kernel, Colorspace, goal, request, made, call, before, draft);
    }

    /** All five properties taken out of HDR, the gamma ramp keeping any warmth asked for. */
    method StageReset(kernel: Kernel, warmth: Option<nat>, ghost call: Call, ghost before: Sys)
      returns (request: Request, made: seq<nat>, ghost draft: Draft)
      requires before == View(kernel) && Covers(parts, kernel.shown)
      requires !Hdr(parts, call) && warmth == if Warm(parts, call) then Some(call.night.temperature) else None
      modifies kernel`live
      ensures Staged(parts, call, before, draft) && draft.AllDone() && Follows(kernel, before, draft, request, made)
    {
      request, made, draft := StagePlainSignal(kernel, call, before);
      var goal := if parts.gamma.Some? && warmth.Some? then Hold(Lut(parts.gamma.value, WarmSdr(warmth.value)))
          else Clear;
      request, made, draft := Stage(kernel, Gamma, goal, request, made, call, before, draft);
      request, made, draft := Stage(kernel, Ctm, Clear, request, made, call, before, draft);
      request, made, draft := Stage(kernel, Degamma, Clear, request, made, call, before, draft);
    }

    /** The first two stages of an HDR picture: out of the content's encoding, and into the wide gamut. */
    method StageLight(kernel: Kernel, intensity: nat, passes: bool, ghost call: Call, ghost before: Sys)
      returns (request: Request, made: seq<nat>, ghost draft: Draft)
      requires before == View(kernel) && Covers(parts, kernel.shown)
      requires call.Apply? && intensity == call.settings.srgbIntensity
      requires Hdr(parts, call) && passes == Passes(parts, call)
      modifies kernel`live
      ensures Staged(parts, call, before, draft) && Follows(kernel, before, draft, request, made)
      ensures draft.done == {Degamma, Ctm}
    {
      request, made, draft := map[], [], Draft(kernel.live, map[], [], map[], {});
      var goal := Clear;
      if parts.degamma.Some? {
        goal := Hold(Lut(parts.degamma.value, if passes then Straight else Decode));
      }
      request, made, draft := Stage(kernel, Degamma, goal, request, made, call, before, draft);
      // Set explicitly even where the content passes through: nothing is inherited.
      goal := if passes then Clear else Hold(Gamut(intensity));
      request, made, draft := Stage(kernel, Ctm, goal, request, made, call, before, draft);
    }

    /** The five stages of an HDR picture, in the order they are put in the request. */
    method StageHdr(
      kernel: Kernel, panel: Panel, settings: Settings, night: NightLight, passes: bool, warm: bool,
      ghost call: Call, ghost before: Sys)
      returns (request: Request, made: seq<nat>, ghost draft: Draft)
      requires before == View(kernel) && Covers(parts, kernel.shown)
      requires call.Apply? && call.panel == panel && call.settings == settings && call.night == night
      requires Hdr(parts, call) && passes == Passes(parts, call) && warm == Warm(parts, call)
      modifies kernel`live
      ensures Staged(parts, call, before, draft) && draft.AllDone() && Follows(kernel, before, draft, request, made)
    {
      var peak := Peak(settings, panel);
      var warmth := if warm then Some(night.temperature) else None;
      request, made, draft := StageLight(kernel, settings.srgbIntensity, passes, call, before);
      var decode := parts.degamma.None?;
      var goal := Hold(Lut(parts.gamma.value, if passes then Straight
          else EncodePq(decode, settings.sdrBrightness, warmth)));
      request, made, draft := Stage(kernel, Gamma, goal, request, made, call, before, draft);
      goal := Hold(Infoframe(Hdr10(settings.sdrBrightness, peak, BlackLevel(panel))));
      request, made, draft := StageHdrSignal(kernel, goal, request, made, call, before, draft);
    }

    /** The last two: what says how the picture is encoded. */
    method StageHdrSignal(kernel: Kernel, infoframe: Goal, staged: Request, blobs: seq<nat>,
                          ghost call: Call, ghost before: Sys, ghost so: Draft)
      returns (request: Request, made: seq<nat>, ghost draft: Draft)
      requires Staged(parts, call, before, so) && Follows(kernel, before, so, staged, blobs)
      requires so.done == {Degamma, Ctm, Gamma} && Hdr(parts, call) && call.Apply?
      requires infoframe == Hold(Infoframe(Hdr10(call.settings.sdrBrightness, Peak(call.settings, call.panel),
          BlackLevel(call.panel))))
      modifies kernel`live
      ensures Staged(parts, call, before, draft) && draft.AllDone() && Follows(kernel, before, draft, request, made)
    {
      var colorspace := if parts.colorspace.Some? then Put(parts.colorspace.value.bt2020) else Clear;
      request, made, draft := Stage(kernel, Colorspace, colorspace, staged, blobs, call, before, so);
      request, made, draft := Stage(kernel, Metadata, infoframe, request, made, call, before, draft);
    }

    /** Test, commit, and let go of one generation of blobs or the other. */
    method Finish(kernel: Kernel, request: Request, made: seq<nat>, ghost call: Call, ghost before: Sys,
                  ghost draft: Draft)
      returns (committed: bool, ghost answers: Answers)
      requires Staged(parts, call, before, draft) && draft.AllDone()
      requires Follows(kernel, before, draft, request, made) && Covers(parts, kernel.shown)
      requires before.held == Elements(blobs) && Distinct(blobs) && before.held <= before.live
      requires before.signalled == signalled
      modifies this`blobs, kernel
      ensures Distinct(blobs) && kernel.faults == old(kernel.faults)
      ensures Possible(parts, before, call, answers) && answers.Committed() == committed
      ensures var after := Step(parts, before, call, answers);
              && kernel.live == after.live && kernel.shown == after.shown && Elements(blobs) == after.held
    {
      ghost var tested, landed;
      committed, tested, landed := Commit(kernel, request);
      answers := Answers(draft.ids, tested, landed);
      if committed {
        FreeBlobs(kernel);
        blobs := made;
      } else {
        DestroyAll(kernel, made);
      }
      if committed {
        MergedIsLanded(parts, call, before, draft, answers);
      }
    }

    method Reset(kernel: Kernel, night: NightLight) returns (ghost answers: Answers)
      requires Valid(kernel)
      modifies this`blobs, kernel
      ensures Valid(kernel) && kernel.faults == old(kernel.faults)
      ensures var call := HdrPipeline.Reset(night);
              && Possible(parts, old(View(kernel)), call, answers)
              && View(kernel) == Step(parts, old(View(kernel)), call, answers)
    {
      ghost var call, before := HdrPipeline.Reset(night), View(kernel);
      var warmth := if night.Tints() && parts.Warms() then Some(night.temperature) else None;
      var request, made;
      ghost var draft;
      request, made, draft := StageReset(kernel, warmth, call, before);
      var committed;
      committed, answers := Finish(kernel, request, made, call, before, draft);
    }

    method Apply(kernel: Kernel, panel: Panel, settings: Settings, night: NightLight, passthrough: bool)
      returns (applied: Applied, ghost answers: Answers)
      requires Valid(kernel)
      modifies this, kernel
      ensures Valid(kernel) && kernel.faults == old(kernel.faults)
      ensures var call := HdrPipeline.Apply(panel, settings, night, passthrough);
              && Possible(parts, old(View(kernel)), call, answers)
              && View(kernel) == Step(parts, old(View(kernel)), call, answers)
              && applied == Applied(Hdr(parts, call) && answers.Committed(),
                                    Warm(parts, call) && answers.Committed(),
                                    answers.Committed())
      ensures var on := settings.enabled && panel.st2084 && parts.atomic && parts.metadata && parts.gamma.Some?;
              && (applied.enabled <==> on && answers.Committed())
              && (applied.warming <==>
                    && night.enabled && night.temperature < 6500 && parts.atomic && parts.gamma.Some?
                    && !(on && passthrough) && answers.Committed())
    {
      ghost var call, before := HdrPipeline.Apply(panel, settings, night, passthrough), View(kernel);
      var on := settings.enabled && parts.Supported() && panel.st2084;
      var passes := passthrough && on;
      var warm := night.Tints() && parts.Warms() && !passes;
      var request, made;
      ghost var draft;

      if on {
        request, made, draft := StageHdr(kernel, panel, settings, night, passes, warm, call, before);
      } else {
        var warmth := if warm then Some(night.temperature) else None;
        request, made, draft := StageReset(kernel, warmth, call, before);
      }

      var committed;
      committed, answers := Finish(kernel, request, made, call, before, draft);
      if committed {
        signalled := signalled || on;
      }
      applied := Applied(on && committed, warm && committed, committed);
    }
  }

  lemma MergedIsLanded(parts: Parts, call: Call, before: Sys, draft: Draft, answers: Answers)
    requires Staged(parts, call, before, draft) && draft.AllDone()
    requires Covers(parts, before.shown) && answers.ids == draft.ids && answers.Committed()
    ensures Merged(before.shown, draft.request) == Step(parts, before, call, answers).shown
  {
    forall slot | slot in before.shown
      ensures Merged(before.shown, draft.request)[slot] == Landed(parts, before, call, answers, slot)
    {
      assert slot in draft.done by {
        match slot case Degamma => case Ctm => case Gamma => case Colorspace => case Metadata =>
      }
      assert Entered(parts, call, before.signalled, draft, slot);
    }
  }

  /** Let go of a list of blobs, none of them twice and none of them already gone. */
  method DestroyAll(kernel: Kernel, blobs: seq<nat>)
    requires Distinct(blobs) && Elements(blobs) <= kernel.live
    modifies kernel`live, kernel`faults
    ensures kernel.live == old(kernel.live) - Elements(blobs) && kernel.faults == old(kernel.faults)
  {
    for i := 0 to |blobs|
      invariant kernel.live == old(kernel.live) - Elements(blobs[..i]) && kernel.faults == old(kernel.faults)
    {
      assert blobs[i] in Elements(blobs);
      assert blobs[..i + 1] == blobs[..i] + [blobs[i]];
      Appended(blobs[..i], blobs[i]);
      kernel.DestroyBlob(blobs[i]);
    }
    assert blobs[..|blobs|] == blobs;
  }
}
