/** One display from its first registration on: the manager's entry and the pipeline's commits,
    interleaved with everything that can happen to the connector between two frames. */
module HdrSession {
  import opened Wrappers
  import opened HdrPipeline
  import opened HdrManager
  import opened HdrPicture

  /** The last attempt the backend made for this display: the call, how the display had been
      addressed before it, whether every blob was created, and whether it was committed. */
  datatype Attempt = Attempt(call: Call, signalledBefore: bool, complete: bool, committed: bool)

  /** The connector as probed, the display's claims, and where the session has got to with it. */
  datatype Display = Display(
    parts: Parts, panel: Panel, entry: Option<Entry>, sys: Sys, connected: bool, attempt: Option<Attempt>)

  datatype Event =
    | Plug(parts: Parts, panel: Panel, settings: Settings, night: NightLight, status: Status, shown: map<Slot, Value>)
    | Unplug
    | Modeset(shown: map<Slot, Value>)
    | Want(ask: Ask)
    | Frame(answers: Answers)

  ghost predicate Sound(display: Display) {
    Covers(display.parts, display.sys.shown)
  }

  function CallFor(panel: Panel, entry: Entry): Call {
    HdrPipeline.Apply(panel, entry.settings, entry.night, entry.passthrough)
  }

  ghost predicate Owed(display: Display) {
    display.connected && display.entry.Some? && display.entry.value.pending
  }

  ghost predicate Allowed(display: Display, event: Event) {
    match event
    case Plug(parts, _, _, _, status, shown) => Covers(parts, shown) && !status.enabled && !status.warming
    case Unplug => true
    case Modeset(shown) => Covers(display.parts, shown)
    case Want(_) => true
    case Frame(answers) =>
      Owed(display) ==> Possible(display.parts, display.sys, CallFor(display.panel, display.entry.value), answers)
  }

  /** One event. A frame with something pending takes it, applies it and reports it in one turn. */
  ghost function Next(display: Display, event: Event): Display
    requires Sound(display)
  {
    match event
    case Plug(parts, panel, settings, night, status, shown) =>
      Display(parts, panel, Some(Registered(display.entry, "", settings, night, status)),
              Sys(display.sys.live, shown, {}, false), true, None)
    case Unplug =>
      display.(entry := Through(display.entry, Gone), connected := false)
    case Modeset(shown) =>
      display.(entry := Through(display.entry, Unsure), sys := display.sys.(shown := shown))
    case Want(ask) =>
      display.(entry := Through(display.entry, e => Asked(e, ask)))
    case Frame(answers) =>
      if !Owed(display) then display
      else
        var call := CallFor(display.panel, display.entry.value);
        var ok := answers.Committed();
        display.(
          sys := Step(display.parts, display.sys, call, answers),
          attempt := Some(Attempt(call, display.sys.signalled, Complete(display.parts, display.sys, call, answers),
              ok)),
          entry := Some(Tried(display.entry.value, Hdr(display.parts, call) && ok, Warm(display.parts, call) && ok)))
  }

  ghost predicate ValidRun(display: Display, events: seq<Event>)
    decreases |events|
  {
    Sound(display) &&
    (events != [] ==>
       Allowed(display, events[0]) && Sound(Next(display, events[0]))
           && ValidRun(Next(display, events[0]), events[1..]))
  }

  ghost function After(display: Display, events: seq<Event>): Display
    requires ValidRun(display, events)
    decreases |events|
  {
    if events == [] then display else After(Next(display, events[0]), events[1..])
  }

  /** Nothing is outstanding on this display. */
  ghost predicate Quiet(display: Display) {
    display.connected && display.entry.Some? && !display.entry.value.pending
  }

  ghost predicate ShowsHdr(sys: Sys) {
    Metadata in sys.shown && sys.shown[Metadata].Blob?
    && sys.shown[Metadata].content.Infoframe? && sys.shown[Metadata].content.frame.Hdr10?
  }

  /** A quiet display's last attempt was made with exactly what its entry asks for now; where it was
      committed whole, the connector shows that and nothing else; and the status reports it. */
  ghost predicate InForce(display: Display) {
    Quiet(display) ==>
      && display.attempt.Some?
      && var attempt := display.attempt.value;
      && var entry := display.entry.value;
      && attempt.call == CallFor(display.panel, entry)
      && entry.status.enabled == (attempt.committed && Hdr(display.parts, attempt.call))
      && entry.status.warming == (attempt.committed && Warm(display.parts, attempt.call))
      && (attempt.committed && attempt.complete ==>
            Installed(display.parts, attempt.call, attempt.signalledBefore, display.sys.shown))
  }

  /** A shell is never told of an HDR picture, or of a warm one, that the connector was reset out of. */
  ghost predicate NeverOverstated(display: Display) {
    display.connected && display.entry.Some? && display.entry.value.status.enabled ==>
      display.attempt.Some? && display.attempt.value.committed && Hdr(display.parts, display.attempt.value.call)
      && (display.attempt.value.complete ==> ShowsHdr(display.sys))
  }

  ghost predicate ShowsWarmth(sys: Sys) {
    Gamma in sys.shown && sys.shown[Gamma].Blob? && sys.shown[Gamma].content.Lut?
    && match sys.shown[Gamma].content.curve
       case WarmSdr(_) => true
       case EncodePq(_, _, warmth) => warmth.Some?
       case _ => false
  }

  ghost predicate NeverTooWarm(display: Display) {
    display.connected && display.entry.Some? && display.entry.value.status.warming ==>
      display.attempt.Some? && display.attempt.value.committed && Warm(display.parts, display.attempt.value.call)
      && (display.attempt.value.complete ==> ShowsWarmth(display.sys))
  }

  lemma OneEvent(display: Display, event: Event)
    requires Sound(display) && Allowed(display, event)
    requires InForce(display) && NeverOverstated(display) && NeverTooWarm(display)
    ensures Sound(Next(display, event)) && InForce(Next(display, event))
    ensures NeverOverstated(Next(display, event)) && NeverTooWarm(Next(display, event))
  {
    if event.Frame? && Owed(display) {
      var call := CallFor(display.panel, display.entry.value);
      if event.answers.Committed() && Complete(display.parts, display.sys, call, event.answers) {
        CompleteStepInstalls(display.parts, display.sys, call, event.answers);
        if Hdr(display.parts, call) {
          assert display.parts.Has(Metadata);
          assert GoalOf(display.parts, call, display.sys.signalled, Metadata).Hold?;
        }
        if Warm(display.parts, call) {
          assert display.parts.Has(Gamma);
          assert GoalOf(display.parts, call, display.sys.signalled, Gamma).Hold?;
        }
      }
    }
  }

  lemma {:induction false} EveryRun(display: Display, events: seq<Event>)
    requires ValidRun(display, events) && InForce(display) && NeverOverstated(display) && NeverTooWarm(display)
    ensures InForce(After(display, events))
    ensures NeverOverstated(After(display, events)) && NeverTooWarm(After(display, events))
    decreases |events|
  {
    if events != [] {
      OneEvent(display, events[0]);
      EveryRun(Next(display, events[0]), events[1..]);
    }
  }

  /** A display nothing is on record for, its properties at any values at all. */
  ghost predicate Unmet(display: Display) {
    Sound(display) && display.entry.None? && !display.connected
  }

  /** No request is lost and none is half-applied: whatever was asked, plugged, unplugged and reset in
      between, a display with nothing pending whose last attempt was committed whole shows its entry's
      settings, night light and passthrough on every property it has, and its shell is told so. */
  lemma QuietDisplaysShowTheirEntry(o: Optics, display: Display, events: seq<Event>)
    requires Sane(o) && Unmet(display) && ValidRun(display, events)
    requires Quiet(After(display, events))
    ensures var after := After(display, events);
            && after.attempt.Some?
            && (after.attempt.value.committed && after.attempt.value.complete ==>
                  ItsOwn(o, after.parts, after.panel, after.entry.value, after.attempt.value.signalledBefore,
                         after.sys.shown))
  {
    EveryRun(display, events);
    var after := After(display, events);
    if after.attempt.value.committed && after.attempt.value.complete {
      var entry := after.entry.value;
      InstalledIsAsItShould(o, after.parts, after.panel, entry.settings, entry.night, entry.passthrough,
                            after.attempt.value.signalledBefore, after.sys.shown);
    }
  }

  /** A display as its entry has it, and an entry that says so. */
  ghost predicate ItsOwn(o: Optics, parts: Parts, panel: Panel, entry: Entry, before: bool, shown: map<Slot, Value>)
    requires Sane(o)
  {
    var on := Drives(parts, panel, entry.settings);
    && Installed(parts, CallFor(panel, entry), before, shown)
    && AsItShould(o, parts, panel, entry.settings, entry.night, entry.passthrough, before, shown)
    && (entry.status.enabled <==> on)
    && (entry.status.warming <==>
          entry.night.enabled && entry.night.temperature < 6500 && parts.atomic && parts.gamma.Some?
          && !(on && entry.passthrough))
  }

  // ------------------------------------------------------------------ whose word it is

  /** The value last said, or what it was to begin with. */
  ghost predicate LastSaid<T(!new)>(events: seq<Event>, says: Event -> Option<T>, first: T, now: T) {
    || (now == first && forall k :: 0 <= k < |events| ==> says(events[k]).None?)
    || exists k :: 0 <= k < |events| && SaidLast(events, says, k, now)
  }

  ghost predicate SaidLast<T(!new)>(events: seq<Event>, says: Event -> Option<T>, k: nat, now: T)
    requires k < |events|
  {
    says(events[k]) == Some(now) && forall j :: k < j < |events| ==> says(events[j]).None?
  }

  lemma OneMoreSaid<T(!new)>(events: seq<Event>, says: Event -> Option<T>, first: T, now: T)
    requires events != [] && LastSaid(events[1..], says, says(events[0]).GetOr(first), now)
    ensures LastSaid(events, says, first, now)
  {
    var rest := events[1..];
    if k :| 0 <= k < |rest| && SaidLast(rest, says, k, now) {
      forall j | k + 1 < j < |events| ensures says(events[j]).None? {
        assert rest[j - 1] == events[j];
      }
      assert SaidLast(events, says, k + 1, now);
    } else {
      forall j | 0 < j < |events| ensures says(events[j]).None? {
        assert rest[j - 1] == events[j];
      }
      if says(events[0]).Some? {
        assert SaidLast(events, says, 0, now);
      }
    }
  }

  function ColourSaid(e: Event): Option<Settings> {
    if e.Want? && e.ask.Colour? then Some(e.ask.settings) else None
  }

  function WarmthSaid(e: Event): Option<NightLight> {
    if e.Want? && e.ask.Warmth? then Some(e.ask.night) else None
  }

  function ContentSaid(e: Event): Option<bool> {
    if e.Want? && e.ask.Content? then Some(e.ask.passthrough) else None
  }

  ghost predicate AsLastSaid(events: seq<Event>, first: Entry, now: Entry) {
    && LastSaid(events, ColourSaid, first.settings, now.settings)
    && LastSaid(events, WarmthSaid, first.night, now.night)
    && LastSaid(events, ContentSaid, first.passthrough, now.passthrough)
  }

  lemma {:induction false} OnceMet(display: Display, events: seq<Event>)
    requires ValidRun(display, events) && display.entry.Some?
    ensures After(display, events).entry.Some?
    ensures AsLastSaid(events, display.entry.value, After(display, events).entry.value)
    decreases |events|
  {
    if events != [] {
      var next, now := Next(display, events[0]), After(display, events).entry;
      OnceMet(next, events[1..]);
      var was := display.entry.value;
      assert next.entry.Some?
        && next.entry.value.settings == ColourSaid(events[0]).GetOr(was.settings)
        && next.entry.value.night == WarmthSaid(events[0]).GetOr(was.night)
        && next.entry.value.passthrough == ContentSaid(events[0]).GetOr(was.passthrough);
      OneMoreSaid(events, ColourSaid, was.settings, now.value.settings);
      OneMoreSaid(events, WarmthSaid, was.night, now.value.night);
      OneMoreSaid(events, ContentSaid, was.passthrough, now.value.passthrough);
    }
  }

  /** However often a display is unplugged, plugged in again, reset and refused, what it is to be is what was
      last asked of it since it was first met, each of the three by itself, and where nothing was asked what
      it was first met with. */
  lemma {:induction false} TheLastWordStands(display: Display, events: seq<Event>, k: nat)
    requires Unmet(display) && ValidRun(display, events)
    requires k < |events| && events[k].Plug? && forall j :: 0 <= j < k ==> !events[j].Plug?
    ensures After(display, events).entry.Some?
    ensures var now, plug := After(display, events).entry.value, events[k];
            && LastSaid(events[k + 1..], ColourSaid, plug.settings, now.settings)
            && LastSaid(events[k + 1..], WarmthSaid, plug.night, now.night)
            && LastSaid(events[k + 1..], ContentSaid, false, now.passthrough)
    decreases |events|
  {
    if k == 0 {
      OnceMet(Next(display, events[0]), events[1..]);
    } else {
      assert events[1..][k - 1] == events[k] && events[1..][k..] == events[k + 1..];
      TheLastWordStands(Next(display, events[0]), events[1..], k - 1);
    }
  }

  /** Whether the infoframe stage of a call got into its request, or had no need of a blob to. */
  ghost predicate Framed(display: Display, answers: Answers)
    requires display.entry.Some?
  {
    var call := CallFor(display.panel, display.entry.value);
    Metadata in answers.ids || !Wants(display.parts, call, display.sys.signalled, Metadata)
  }

  /** The status can understate, and it can overstate. After a frame it agrees with what the connector is
      doing exactly when: for one the driver refused, the connector was not in HDR; for one it took, the
      infoframe got into the request, or what was in force already says what this call would have said. */
  lemma StatusIsTruthfulExactly(display: Display, answers: Answers)
    requires Sound(display) && Owed(display) && Allowed(display, Frame(answers))
    ensures var after := Next(display, Frame(answers));
            var hdr := Hdr(display.parts, CallFor(display.panel, display.entry.value));
            (after.entry.value.status.enabled <==> ShowsHdr(after.sys)) <==>
            if answers.Committed() then Framed(display, answers) || (ShowsHdr(display.sys) <==> hdr)
            else !ShowsHdr(display.sys)
  {
    var call := CallFor(display.panel, display.entry.value);
    if answers.Committed() && display.parts.metadata {
      assert display.parts.Has(Metadata);
    }
  }

  /** Whenever a display not in HDR has an HDR call committed without a blob for its infoframe, it is said
      to be in HDR and has not been told so. */
  lemma ARefusedInfoframeOverstates(display: Display, answers: Answers)
    requires Sound(display) && Owed(display) && Allowed(display, Frame(answers)) && answers.Committed()
    requires Hdr(display.parts, CallFor(display.panel, display.entry.value))
    requires Metadata !in answers.ids && !ShowsHdr(display.sys)
    ensures var after := Next(display, Frame(answers));
            Quiet(after) && after.entry.value.status.enabled && !ShowsHdr(after.sys)
  {
    assert display.parts.Has(Metadata);
    StatusIsTruthfulExactly(display, answers);
  }

  /** And it happens on the first frame of a display plugged in. */
  lemma TheFirstFrameCanOverstate() returns (display: Display, events: seq<Event>)
    ensures Unmet(display) && ValidRun(display, events)
    ensures var after := After(display, events);
            Quiet(after) && after.entry.value.status.enabled && !ShowsHdr(after.sys)
  {
    var parts, sys, call := CleanConnector();
    var plug := Plug(parts, call.panel, call.settings, call.night, NOTHING, sys.shown);
    var frame := Frame(Answers(map[], true, true));
    display := Display(parts, call.panel, None, sys, false, None);
    events := [plug, frame];
    var plugged := Next(display, plug);
    assert CallFor(plugged.panel, plugged.entry.value) == call;
    ARefusedInfoframeOverstates(plugged, frame.answers);
    TwoEvents(display, plug, frame);
  }

  lemma TwoEvents(display: Display, first: Event, second: Event)
    requires Sound(display) && Allowed(display, first)
    requires Sound(Next(display, first)) && Allowed(Next(display, first), second)
    requires Sound(Next(Next(display, first), second))
    ensures ValidRun(display, [first, second])
    ensures After(display, [first, second]) == Next(Next(display, first), second)
  {
    var next, ended := Next(display, first), Next(Next(display, first), second);
    assert [first, second][1..] == [second] && [second][1..] == [];
    assert ValidRun(ended, []) && After(ended, []) == ended;
    assert ValidRun(next, [second]) && After(next, [second]) == ended;
  }

  /** And it is reached: from any quiet HDR display, one changed setting and one refusal later nothing is
      pending any more, the picture is still HDR, and the status says it is not. */
  lemma ARefusedChangeUnderstates(display: Display, settings: Settings) returns (events: seq<Event>)
    requires Sound(display) && Quiet(display) && ShowsHdr(display.sys)
    requires settings != display.entry.value.settings
    ensures ValidRun(display, events)
    ensures var after := After(display, events);
            Quiet(after) && ShowsHdr(after.sys) && !after.entry.value.status.enabled
            && after.entry.value.settings == settings
  {
    var refused := Answers(map[], false, false);
    events := [Want(Colour(settings)), Frame(refused)];
    TwoEvents(display, Want(Colour(settings)), Frame(refused));
  }
}
