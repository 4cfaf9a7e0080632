/** The sheets displays rest under: one per display, turned round at any instant.

    `Track` is everything asked of one display and the sheet over it; the class holds every display's
    at once. The results about whole runs are proved on a track, and the class is tied to it. */
module Blackout {
  import opened Wrappers
  import opened Fades

  const DOWN: nat := 1000 * MS
  const UP: nat := 250 * MS
  const DIM: real := 0.55

  datatype Power = On | Dim | Off {
    function Level(): real {
      match this case On => 0.0 case Dim => DIM case Off => 1.0
    }
  }

  datatype Sheet = Sheet(output: string, id: nat, started: nat, to: real, from: real, commits: nat)

  function Length(from: real, to: real): nat {
    if to > from then DOWN else UP
  }

  function Elapsed(sheet: Sheet, now: nat): nat {
    Since(sheet.started, now)
  }

  function CommitOf(sheet: Sheet, now: nat): nat {
    sheet.commits + Min(Elapsed(sheet, now), Length(sheet.from, sheet.to)) / MS
  }

  function LevelOf(sheet: Sheet, now: nat): real {
    Travelled(sheet.from, sheet.to, Elapsed(sheet, now), Length(sheet.from, sheet.to))
  }

  // ------------------------------------------------------------------ one display

  datatype Track = Track(rested: bool, power: Power, sheet: Option<Sheet>)

  const CLEAR := Track(false, On, None)

  function Target(track: Track): real {
    var rest := if track.rested then 1.0 else 0.0;
    var light := track.power.Level();
    if rest > light then rest else light
  }

  /** What is drawn over the display: the element, how black, and the commit; nothing when clear. */
  function Drawn(track: Track, now: nat): Option<(nat, real, nat)> {
    if track.sheet.None? || LevelOf(track.sheet.value, now) <= 0.0 then None
    else Some((track.sheet.value.id, LevelOf(track.sheet.value, now), CommitOf(track.sheet.value, now)))
  }

  function Blackness(track: Track, now: nat): real {
    if track.sheet.None? then 0.0 else LevelOf(track.sheet.value, now)
  }

  function Aimed(track: Track, name: string, now: nat, newId: nat): Track {
    var to := Target(track);
    match track.sheet
    case Some(sheet) =>
      if sheet.to == to then track
      else track.(sheet := Some(Sheet(name, sheet.id, now, to, Shown(track, now), CommitOf(sheet, now))))
    case None =>
      if to <= 0.0 then track
      else track.(sheet := Some(Sheet(name, newId, now, to, Shown(track, now), 0)))
  }

  /** Where a sheet is turned round from: what is on screen now. */
  function Shown(track: Track, now: nat): real {
    match Drawn(track, now) case Some(b) => b.1 case None => 0.0
  }

  datatype Event = Cover(covered: bool) | SetPower(power: Power) | Prune(live: bool)

  predicate Prunable(sheet: Sheet, now: nat) {
    !(sheet.to > 0.0 || LevelOf(sheet, now) > 0.0)
  }

  function Step(track: Track, event: Event, name: string, now: nat, newId: nat): Track {
    match event
    case Cover(covered) => Aimed(track.(rested := covered), name, now, newId)
    case SetPower(power) => Aimed(track.(power := power), name, now, newId)
    case Prune(live) =>
      if !live then CLEAR
      else if track.sheet.Some? && Prunable(track.sheet.value, now) then track.(sheet := None)
      else track
  }

  predicate SaysBlack(track: Track, now: nat) {
    track.sheet.Some? && track.sheet.value.to >= 1.0 && Elapsed(track.sheet.value, now) >= DOWN
  }

  predicate SaysOff(track: Track, now: nat) {
    track.power == Off && SaysBlack(track, now)
  }

  // ------------------------------------------------------------------ what every event keeps

  ghost predicate SoundSheet(sheet: Sheet) {
    0.0 <= sheet.from <= 1.0 && 0.0 <= sheet.to <= 1.0
  }

  /** The sheet is bound for the darkest thing anybody wants, and there is none over a clear display. */
  ghost predicate Good(track: Track) {
    match track.sheet
    case Some(sheet) => SoundSheet(sheet) && sheet.to == Target(track)
    case None => Target(track) == 0.0
  }

  lemma LevelInRange(sheet: Sheet, now: nat)
    requires SoundSheet(sheet)
    ensures 0.0 <= LevelOf(sheet, now) <= 1.0
  {
    TravelledEnds(sheet.from, sheet.to, Elapsed(sheet, now), Length(sheet.from, sheet.to));
  }

  lemma StepKeeps(track: Track, event: Event, name: string, now: nat, newId: nat)
    requires Good(track)
    ensures Good(Step(track, event, name, now, newId))
    ensures 0.0 <= Blackness(track, now) <= 1.0
  {
    if track.sheet.Some? {
      LevelInRange(track.sheet.value, now);
    }
  }

  /** No request jumps: the display is as black just after it as just before. */
  lemma RequestsAreContinuous(track: Track, event: Event, name: string, now: nat, newId: nat)
    requires Good(track) && !event.Prune?
    ensures Blackness(Step(track, event, name, now, newId), now) == Blackness(track, now)
  {
    StepKeeps(track, event, name, now, newId);
    var after := Step(track, event, name, now, newId);
    if after.sheet.Some? && after.sheet != track.sheet {
      var sheet := after.sheet.value;
      TravelledEnds(sheet.from, sheet.to, 0, Length(sheet.from, sheet.to));
    }
  }

  /** Dropping a finished sheet is invisible, then and for as long as nothing is asked. */
  lemma PruningIsInvisible(track: Track, name: string, now: nat, newId: nat, later: nat)
    requires Good(track) && now <= later
    requires track.sheet.Some? ==> track.sheet.value.started <= now
    ensures Blackness(Step(track, Prune(true), name, now, newId), later) == Blackness(track, later)
  {
    if track.sheet.Some? && Prunable(track.sheet.value, now) {
      var sheet := track.sheet.value;
      var length := Length(sheet.from, sheet.to);
      LevelInRange(sheet, now);
      TravelledEnds(sheet.from, sheet.to, Elapsed(sheet, now), length);
      TravelledEnds(sheet.from, sheet.to, Elapsed(sheet, later), length);
      if sheet.from != sheet.to {
        SamePlaceSameMoment(sheet.from, sheet.to, Elapsed(sheet, now), length, length);
      } else {
        TravelledConstant(sheet.from, Elapsed(sheet, later), length);
      }
    }
  }

  lemma TravelledConstant(level: real, since: nat, length: nat)
    requires length > 0 && 0.0 <= level <= 1.0
    ensures Travelled(level, level, since, length) == level
  {
    assert (level - level) * Smoothstep(since as real / length as real) == 0.0;
  }

  /** Left alone for `DOWN`, a sheet is exactly where it was bound. */
  lemma Arrives(track: Track, now: nat)
    requires Good(track) && (track.sheet.Some? ==> Elapsed(track.sheet.value, now) >= DOWN)
    ensures Blackness(track, now) == Target(track)
  {
    if track.sheet.Some? {
      var sheet := track.sheet.value;
      TravelledEnds(sheet.from, sheet.to, Elapsed(sheet, now), Length(sheet.from, sheet.to));
    }
  }

  lemma BlackIsBlack(track: Track, now: nat)
    requires Good(track) && SaysBlack(track, now)
    ensures Blackness(track, now) == 1.0 && Target(track) == 1.0
  {
    Arrives(track, now);
  }

  // ------------------------------------------------------------------ the commit counter

  datatype Stamped = Stamped(event: Event, at: nat, newId: nat)

  function Run(track: Track, name: string, events: seq<Stamped>): Track
    decreases |events|
  {
    if events == [] then track
    else Run(Step(track, events[0].event, name, events[0].at, events[0].newId), name, events[1..])
  }

  ghost predicate Ordered(start: nat, events: seq<Stamped>)
    decreases |events|
  {
    events != [] ==> start <= events[0].at && Ordered(events[0].at, events[1..])
  }

  /** Every id handed out is one that was never handed out before. */
  ghost predicate NewIds(low: nat, events: seq<Stamped>)
    decreases |events|
  {
    events != [] ==> low <= events[0].newId && NewIds(events[0].newId + 1, events[1..])
  }

  ghost function Last(start: nat, events: seq<Stamped>): nat {
    if events == [] then start else events[|events| - 1].at
  }

  ghost predicate Whole(at: nat) { at % MS == 0 }

  /** Every instant in the run falls on a millisecond. */
  ghost predicate WholeRun(events: seq<Stamped>) {
    forall e :: e in events ==> Whole(e.at)
  }

  ghost predicate Settled(track: Track, now: nat, low: nat) {
    && Good(track)
    && (track.sheet.Some? ==> track.sheet.value.started <= now && track.sheet.value.id < low)
  }

  lemma MinMonotone(sheet: Sheet, s: nat, t: nat)
    requires s <= t
    ensures CommitOf(sheet, s) <= CommitOf(sheet, t)
  {
    var length := Length(sheet.from, sheet.to);
    var a, b := Min(Elapsed(sheet, s), length), Min(Elapsed(sheet, t), length);
    assert a <= b;
    Divided(a, b);
  }

  lemma Divided(a: nat, b: nat)
    requires a <= b
    ensures a / MS <= b / MS
    ensures a % MS == 0 && b % MS == 0 && a / MS == b / MS ==> a == b
  {}

  /** Within one leg on whole milliseconds, an equal count is an equal picture. */
  lemma OneLeg(sheet: Sheet, s: nat, t: nat)
    requires SoundSheet(sheet) && sheet.started <= s <= t
    requires Whole(sheet.started) && Whole(s) && Whole(t) && CommitOf(sheet, s) == CommitOf(sheet, t)
    ensures LevelOf(sheet, s) == LevelOf(sheet, t)
  {
    var length := Length(sheet.from, sheet.to);
    var a, b := Min(Elapsed(sheet, s), length), Min(Elapsed(sheet, t), length);
    assert a % MS == 0 && b % MS == 0;
    Divided(a, b);
    TravelledStops(sheet.from, sheet.to, Elapsed(sheet, s), length);
    TravelledStops(sheet.from, sheet.to, Elapsed(sheet, t), length);
  }

  /** A sheet turned round carries its element, its blackness and its count across the turn. */
  lemma OneTurn(track: Track, event: Event, name: string, now: nat, newId: nat, low: nat)
    requires Settled(track, now, low) && low <= newId
    ensures var after := Step(track, event, name, now, newId);
            && Settled(after, now, newId + 1)
            && (track.sheet.Some? && after.sheet.Some? && after.sheet.value.id == track.sheet.value.id ==>
                  && CommitOf(after.sheet.value, now) == CommitOf(track.sheet.value, now)
                  && LevelOf(after.sheet.value, now) == LevelOf(track.sheet.value, now))
  {
    StepKeeps(track, event, name, now, newId);
    if !event.Prune? {
      RequestsAreContinuous(track, event, name, now, newId);
    }
  }

  lemma {:induction false} OldIdsStayGone(track: Track, name: string, now: nat, low: nat, events: seq<Stamped>, id: nat)
    requires Settled(track, now, low) && NewIds(low, events) && Ordered(now, events) && id < low
    requires track.sheet.Some? ==> track.sheet.value.id != id
    ensures var after := Run(track, name, events); after.sheet.Some? ==> after.sheet.value.id != id
    decreases |events|
  {
    if events != [] {
      var e := events[0];
      assert Settled(track, e.at, low);
      OneTurn(track, e.event, name, e.at, e.newId, low);
      OldIdsStayGone(Step(track, e.event, name, e.at, e.newId), name, e.at, e.newId + 1, events[1..], id);
    }
  }

  /** Sheets with one id, at two instants of a run: the count never falls, and on whole milliseconds an
      equal count is an equal blackness. */
  lemma {:induction false} OneElement(track: Track, name: string, s: nat, low: nat, events: seq<Stamped>, t: nat)
    requires Settled(track, s, low) && NewIds(low, events) && Ordered(s, events) && Last(s, events) <= t
    requires var after := Run(track, name, events);
             track.sheet.Some? && after.sheet.Some? && after.sheet.value.id == track.sheet.value.id
    ensures var after := Run(track, name, events);
            && CommitOf(track.sheet.value, s) <= CommitOf(after.sheet.value, t)
            && (Whole(track.sheet.value.started) && Whole(s) && Whole(t) && WholeRun(events)
                && CommitOf(track.sheet.value, s) == CommitOf(after.sheet.value, t) ==>
                  LevelOf(track.sheet.value, s) == LevelOf(after.sheet.value, t))
    decreases |events|
  {
    var sheet := track.sheet.value;
    if events == [] {
      MinMonotone(sheet, s, t);
      if Whole(sheet.started) && Whole(s) && Whole(t) && CommitOf(sheet, s) == CommitOf(sheet, t) {
        OneLeg(sheet, s, t);
      }
    } else {
      var e, rest := events[0], events[1..];
      var next := Step(track, e.event, name, e.at, e.newId);
      assert Settled(track, e.at, low);
      OneTurn(track, e.event, name, e.at, e.newId, low);
      if next.sheet.None? || next.sheet.value.id != sheet.id {
        OldIdsStayGone(next, name, e.at, e.newId + 1, rest, sheet.id);
        assert false;
      }
      assert Last(e.at, rest) <= t;
      MinMonotone(sheet, s, e.at);
      OneElement(next, name, e.at, e.newId + 1, rest, t);
      if Whole(sheet.started) && Whole(s) && Whole(t) && WholeRun(events) {
        assert e in events && forall r :: r in rest ==> r in events;
        if CommitOf(sheet, s) == CommitOf(sheet, e.at) {
          OneLeg(sheet, s, e.at);
        }
      }
    }
  }

  lemma {:induction false} RunSettles(
    track: Track, name: string, start: nat, low: nat, first: seq<Stamped>, second: seq<Stamped>, s: nat)
        returns (low': nat)
    requires Settled(track, start, low) && NewIds(low, first + second) && Ordered(start, first + second)
    requires Last(start, first) <= s && (second != [] ==> s <= second[0].at)
    ensures Settled(Run(track, name, first), s, low') && NewIds(low', second) && Ordered(s, second)
    ensures Run(track, name, first + second) == Run(Run(track, name, first), name, second)
    decreases |first|
  {
    if first == [] {
      assert first + second == second;
      low' := low;
    } else {
      var e, rest := first[0], first[1..];
      assert (first + second)[1..] == rest + second;
      assert Settled(track, e.at, low);
      OneTurn(track, e.event, name, e.at, e.newId, low);
      low' := RunSettles(Step(track, e.event, name, e.at, e.newId), name, e.at, e.newId + 1, rest, second, s);
    }
  }

  lemma {:induction false} StartsAreWhole(track: Track, name: string, events: seq<Stamped>)
    requires WholeRun(events) && (track.sheet.Some? ==> Whole(track.sheet.value.started))
    ensures var after := Run(track, name, events); after.sheet.Some? ==> Whole(after.sheet.value.started)
    decreases |events|
  {
    if events != [] {
      var e := events[0];
      assert e in events && forall r :: r in events[1..] ==> r in events;
      StartsAreWhole(Step(track, e.event, name, e.at, e.newId), name, events[1..]);
    }
  }

  /** Over every run of cover, power and prune at instants that never go back, and any two samples of it
      that report one element: the later count is at least the earlier, and on whole milliseconds equal
      counts are equal blackness, however often the sheet was turned round between them. */
  lemma EverySample(name: string, first: seq<Stamped>, s: nat, second: seq<Stamped>, t: nat)
    requires NewIds(0, first + second) && Ordered(0, first + second)
    requires Last(0, first) <= s && (second != [] ==> s <= second[0].at) && Last(s, second) <= t
    ensures var one, other := Drawn(Run(CLEAR, name, first), s), Drawn(Run(CLEAR, name, first + second), t);
            one.Some? && other.Some? && one.value.0 == other.value.0 ==>
              && one.value.2 <= other.value.2
              && (WholeRun(first) && WholeRun(second) && Whole(s) && Whole(t) && one.value.2 == other.value.2 ==>
                    one.value.1 == other.value.1)
  {
    var low := RunSettles(CLEAR, name, 0, 0, first, second, s);
    var before := Run(CLEAR, name, first);
    var after := Run(before, name, second);
    if before.sheet.Some? && after.sheet.Some? && before.sheet.value.id == after.sheet.value.id {
      OneElement(before, name, s, low, second, t);
      if WholeRun(first) {
        StartsAreWhole(CLEAR, name, first);
      }
    }
  }

  /** Inside a millisecond the count says less than the picture. On one leg that goes anywhere, two
      samples look alike exactly when the leg had run equally long... */
  lemma AlikeExactly(sheet: Sheet, s: nat, t: nat)
    requires SoundSheet(sheet) && sheet.from != sheet.to
    ensures LevelOf(sheet, s) == LevelOf(sheet, t) <==>
            Min(Elapsed(sheet, s), Length(sheet.from, sheet.to)) == Min(Elapsed(sheet, t), Length(sheet.from, sheet.to))
  {
    SamePlaceSameMoment(sheet.from, sheet.to, Elapsed(sheet, s), Elapsed(sheet, t), Length(sheet.from, sheet.to));
  }

  /** ...so two samples a fraction of a millisecond apart differ under one count. */
  lemma CountIsCoarse(sheet: Sheet) returns (s: nat, t: nat)
    requires SoundSheet(sheet) && sheet.from != sheet.to
    ensures CommitOf(sheet, s) == CommitOf(sheet, t) && LevelOf(sheet, s) != LevelOf(sheet, t)
  {
    s, t := sheet.started, sheet.started + 1;
    AlikeExactly(sheet, s, t);
  }

  lemma RunThree(track: Track, name: string, a: Stamped, b: Stamped, c: Stamped)
    ensures Run(track, name, [a, b, c]) ==
            Step(Step(Step(track, a.event, name, a.at, a.newId), b.event, name, b.at, b.newId), c.event, name, c.at,
                c.newId)
  {
    assert [a, b, c][1..] == [b, c] && [b, c][1..] == [c] && [c][1..] == [];
    assert forall x: Track :: Run(x, name, []) == x;
    assert forall x: Track :: Run(x, name, [c]) == Step(x, c.event, name, c.at, c.newId);
  }

  /** Bound for black, a sheet is all the way there exactly when a whole descent has passed or it was
      there when it was turned. */
  lemma FullyBlackExactly(sheet: Sheet, now: nat)
    requires SoundSheet(sheet)
    ensures sheet.to == 1.0 ==> (LevelOf(sheet, now) == 1.0 <==> sheet.from == 1.0 || Elapsed(sheet, now) >= DOWN)
    ensures sheet.to < 1.0 ==> (LevelOf(sheet, now) == 1.0 <==> sheet.from == 1.0 && Elapsed(sheet, now) == 0)
  {
    var since, length := Elapsed(sheet, now), Length(sheet.from, sheet.to);
    if sheet.from == sheet.to {
      TravelledConstant(sheet.from, since, length);
    } else if sheet.to == 1.0 {
      TravelledEnds(sheet.from, 1.0, length, length);
      SamePlaceSameMoment(sheet.from, 1.0, since, length, length);
    } else if sheet.from == 1.0 {
      TravelledEnds(1.0, sheet.to, 0, length);
      SamePlaceSameMoment(1.0, sheet.to, since, 0, length);
    } else {
      NeverBeyond(sheet.from, sheet.to, since, length);
    }
  }

  /** Black is said exactly when the display is fully black and was not just turned round there: not in
      the first descent of a sheet that was black when it was sent back down, nor at the instant one is
      sent up. */
  lemma BlackIsSaidExactly(track: Track, now: nat)
    requires Good(track) && Blackness(track, now) == 1.0
    ensures track.sheet.Some?
    ensures var sheet := track.sheet.value;
            !SaysBlack(track, now) <==>
              sheet.from == 1.0 && if sheet.to == 1.0 then Elapsed(sheet, now) < DOWN else Elapsed(sheet, now) == 0
  {
    LevelInRange(track.sheet.value, now);
    FullyBlackExactly(track.sheet.value, now);
  }

  /** A sheet that is going anywhere has got there exactly when a second has passed on its way down, or a
      quarter of one on its way up; and half way in time it is half way there. */
  lemma ALegTakesExactly(sheet: Sheet, now: nat)
    requires SoundSheet(sheet) && sheet.from != sheet.to && sheet.started <= now
    ensures var length := if sheet.to > sheet.from then 1_000_000_000 else 250_000_000;
            && (LevelOf(sheet, now) == sheet.to <==> now - sheet.started >= length)
            && (2 * (now - sheet.started) == length ==> LevelOf(sheet, now) == (sheet.from + sheet.to) / 2.0)
  {
    var since, length := Elapsed(sheet, now), Length(sheet.from, sheet.to);
    TravelledEnds(sheet.from, sheet.to, length, length);
    SamePlaceSameMoment(sheet.from, sheet.to, since, length, length);
    if 2 * since == length {
      assert since as real / length as real == 0.5;
      SmoothstepEases(0.5);
      PlaceIs(sheet.from, sheet.to, 0.5);
      HalfWay(sheet.from, sheet.to, Smoothstep(0.5));
    }
  }

  lemma HalfWay(from: real, to: real, half: real)
    requires half == 0.5
    ensures from + (to - from) * half == (from + to) / 2.0
  {}

  /** The count goes up by one for every whole millisecond of the leg, and by no more. */
  lemma TheCountIsMilliseconds(sheet: Sheet, k: nat, part: nat)
    requires part < 1_000_000
    ensures var length := if sheet.to > sheet.from then 1000 else 250;
            CommitOf(sheet, sheet.started + k * 1_000_000 + part) == sheet.commits + if k < length then k else length
  {
    assert (k * 1_000_000 + part) / 1_000_000 == k;
  }

  /** A sheet is dropped exactly when it is bound for clear and is there: a quarter of a second after it was
      sent, or at once if it was clear when it was. */
  lemma DroppedExactly(track: Track, name: string, now: nat, newId: nat)
    requires Good(track) && track.sheet.Some? && track.sheet.value.started <= now
    ensures var sheet := track.sheet.value;
            Step(track, Prune(true), name, now, newId).sheet.None? <==>
              sheet.to == 0.0 && (sheet.from == 0.0 || now - sheet.started >= 250_000_000)
  {
    var sheet := track.sheet.value;
    LevelInRange(sheet, now);
    if sheet.from != sheet.to {
      ALegTakesExactly(sheet, now);
    } else {
      TravelledConstant(sheet.from, Elapsed(sheet, now), Length(sheet.from, sheet.to));
    }
  }

  // ------------------------------------------------------------------ what was asked, and what comes of it

  predicate Forgets(e: Event) {
    e == Prune(false)
  }

  ghost predicate CoveredBy(events: seq<Stamped>, k: int) {
    && 0 <= k < |events| && events[k].event == Cover(true)
    && forall j :: k < j < |events| ==> !events[j].event.Cover? && !Forgets(events[j].event)
  }

  ghost predicate PoweredBy(events: seq<Stamped>, k: int, power: Power) {
    && 0 <= k < |events| && events[k].event == SetPower(power)
    && forall j :: k < j < |events| ==> !events[j].event.SetPower? && !Forgets(events[j].event)
  }

  /** The last thing said about covering the display, since it was last found gone, is that it is covered. */
  ghost predicate Covered(events: seq<Stamped>) {
    exists k :: CoveredBy(events, k)
  }

  /** And the last thing said about its light. */
  ghost predicate Powered(events: seq<Stamped>, power: Power) {
    exists k :: PoweredBy(events, k, power)
  }

  lemma {:induction false} RunLast(track: Track, name: string, events: seq<Stamped>)
    requires events != []
    ensures var n := |events| - 1;
            Run(track, name, events) ==
            Step(Run(track, name, events[..n]), events[n].event, name, events[n].at, events[n].newId)
    decreases |events|
  {
    var n := |events| - 1;
    if n > 0 {
      assert events[..n][0] == events[0] && events[..n][1..] == events[1..][..n - 1];
      RunLast(Step(track, events[0].event, name, events[0].at, events[0].newId), name, events[1..]);
    }
  }

  /** What is kept of one display is what was last said of it. */
  lemma {:induction false} KeptIsSaid(name: string, events: seq<Stamped>)
    ensures var track := Run(CLEAR, name, events);
            && Good(track)
            && (track.rested <==> Covered(events))
            && (forall power :: power != On ==> (track.power == power <==> Powered(events, power)))
    decreases |events|
  {
    if events != [] {
      var n := |events| - 1;
      var before, last := Run(CLEAR, name, events[..n]), events[n];
      KeptIsSaid(name, events[..n]);
      RunLast(CLEAR, name, events);
      StepKeeps(before, last.event, name, last.at, last.newId);
      assert events == events[..n] + [last];
      OneMoreCovered(events, n);
      forall power ensures Powered(events, power) <==>
          last.event == SetPower(power)
          || (!last.event.SetPower? && !Forgets(last.event) && Powered(events[..n], power)) {
        OneMorePowered(events, n, power);
      }
    }
  }

  lemma {:induction false} StartedBy(name: string, events: seq<Stamped>, at: nat)
    requires forall e :: e in events ==> e.at <= at
    ensures var track := Run(CLEAR, name, events); track.sheet.Some? ==> track.sheet.value.started <= at
    decreases |events|
  {
    if events != [] {
      var n := |events| - 1;
      assert events == events[..n] + [events[n]];
      StartedBy(name, events[..n], at);
      RunLast(CLEAR, name, events);
    }
  }

  lemma OneMoreCovered(events: seq<Stamped>, n: nat)
    requires |events| == n + 1
    ensures Covered(events) <==>
              events[n].event == Cover(true)
              || (!events[n].event.Cover? && !Forgets(events[n].event) && Covered(events[..n]))
  {
    if events[n].event == Cover(true) {
      assert CoveredBy(events, n);
    }
    if k :| CoveredBy(events[..n], k) && !events[n].event.Cover? && !Forgets(events[n].event) {
      assert CoveredBy(events, k);
    }
    if k :| CoveredBy(events, k) && k < n {
      assert CoveredBy(events[..n], k);
    }
  }

  lemma OneMorePowered(events: seq<Stamped>, n: nat, power: Power)
    requires |events| == n + 1
    ensures Powered(events, power) <==>
              events[n].event == SetPower(power)
              || (!events[n].event.SetPower? && !Forgets(events[n].event) && Powered(events[..n], power))
  {
    if events[n].event == SetPower(power) {
      assert PoweredBy(events, n, power);
    }
    if k :| PoweredBy(events[..n], k, power) && !events[n].event.SetPower? && !Forgets(events[n].event) {
      assert PoweredBy(events, k, power);
    }
    if k :| PoweredBy(events, k, power) && k < n {
      assert PoweredBy(events[..n], k, power);
    }
  }

  /** Over every run, and whatever the sheet was turned through on the way: a second after the last request the
      display is black exactly if it was last said to be covered or off, under the dim exactly if it was said
      to be dim and not covered, and clear otherwise; and it says that it is black, and that it is off,
      exactly then. */
  lemma {:induction false} ASecondLaterItIsAsAsked(name: string, events: seq<Stamped>, now: nat)
    requires forall e :: e in events ==> e.at + 1_000_000_000 <= now
    ensures var track := Run(CLEAR, name, events);
            var dark := Covered(events) || Powered(events, Off);
            && Blackness(track, now) == (if dark then 1.0 else if Powered(events, Dim) then 0.55 else 0.0)
            && (SaysBlack(track, now) <==> dark)
            && (SaysOff(track, now) <==> Powered(events, Off))
  {
    KeptIsSaid(name, events);
    var track := Run(CLEAR, name, events);
    if events != [] {
      assert events[0] in events;
      StartedBy(name, events, now - 1_000_000_000);
    }
    Arrives(track, now);
  }

  /** Saying so is stricter than being so: a black display uncovered and covered again in one instant is
      fully black, bound for black, and does not say it is black until `DOWN` has passed again. */
  lemma BlackCanGoUnsaid(name: string, now: nat) returns (down: Stamped, up: Stamped, again: Stamped)
    requires now >= DOWN
    ensures down.at <= up.at <= again.at && down.newId < up.newId < again.newId
    ensures var after := Run(CLEAR, name, [down, up, again]);
            after.sheet.Some? && Blackness(after, now) == 1.0 && Target(after) == 1.0 && !SaysBlack(after, now)
  {
    down, up, again := Stamped(Cover(true), 0, 1), Stamped(Cover(false), now, 2), Stamped(Cover(true), now, 3);
    RunThree(CLEAR, name, down, up, again);
    var t1 := Step(CLEAR, Cover(true), name, 0, 1);
    var t2 := Step(t1, Cover(false), name, now, 2);
    StepKeeps(CLEAR, Cover(true), name, 0, 1);
    StepKeeps(t1, Cover(false), name, now, 2);
    Arrives(t1, now);
    RequestsAreContinuous(t1, Cover(false), name, now, 2);
    RequestsAreContinuous(t2, Cover(true), name, now, 3);
  }

  // ------------------------------------------------------------------ every display

  predicate Unlike(a: Sheet, b: Sheet) {
    a.output != b.output && a.id != b.id
  }

  ghost predicate AllUnlike(sheets: seq<Sheet>) {
    forall i, j :: 0 <= i < j < |sheets| ==> Unlike(sheets[i], sheets[j])
  }

  class Blackouts {
    var sheets: seq<Sheet>
    var rested: set<string>
    var power: map<string, Power>
    var nextId: nat

    constructor ()
      ensures Valid() && forall name :: View(name) == CLEAR
    {
      sheets, rested, power, nextId := [], {}, map[], 0;
    }

    /** At most one sheet per display, no two one element, none an element still to come; and only displays
        that are not on are in the power list. */
    ghost predicate Valid()
      reads this
    {
      && AllUnlike(sheets) && (forall s :: s in sheets ==> s.id < nextId)
      && (forall name :: name in power ==> power[name] != On)
    }

    ghost function SheetOf(name: string): (sheet: Option<Sheet>)
      reads this
      ensures sheet.Some? ==> sheet.value in sheets && sheet.value.output == name
      ensures sheet.None? ==> forall s :: s in sheets ==> s.output != name
    {
      if s :| s in sheets && s.output == name then Some(s) else None
    }

    ghost function View(name: string): Track
      reads this
    {
      Track(name in rested, if name in power then power[name] else On, SheetOf(name))
    }

    lemma SheetIs(sheet: Sheet)
      requires Valid() && sheet in sheets
      ensures SheetOf(sheet.output) == Some(sheet)
    {}

    method Find(name: string) returns (found: Option<nat>)
      requires Valid()
      ensures found.None? ==> SheetOf(name).None?
      ensures found.Some? ==> found.value < |sheets| && SheetOf(name) == Some(sheets[found.value])
    {
      for i := 0 to |sheets|
        invariant forall j :: 0 <= j < i ==> sheets[j].output != name
      {
        if sheets[i].output == name {
          SheetIs(sheets[i]);
          return Some(i);
        }
      }
      return None;
    }

    method PowerOf(name: string) returns (level: Power)
      requires Valid()
      ensures level == View(name).power
    {
      level := if name in power then power[name] else On;
    }

    /** The black over one display: its element, depth and count, or none where there is no depth. */
    method Black(name: string, now: nat) returns (drawn: Option<(nat, real, nat)>)
      requires Valid()
      ensures drawn == Drawn(View(name), now)
    {
      var found := Find(name);
      if found.None? {
        return None;
      }
      var sheet := sheets[found.value];
      var level := LevelOf(sheet, now);
      drawn := if level <= 0.0 then None else Some((sheet.id, level, CommitOf(sheet, now)));
    }

    /** The darkest thing anybody wants of one display. */
    method Wanted(name: string) returns (to: real)
      requires Valid()
      ensures to == Target(View(name))
    {
      var light := PowerOf(name);
      var rest := if name in rested then 1.0 else 0.0;
      to := if rest > light.Level() then rest else light.Level();
    }

    /** Send the display's sheet where it is now wanted; one already bound there is left alone. */
    method Aim(name: string, now: nat)
      requires Valid()
      modifies this`sheets, this`nextId
      ensures Valid() && nextId == old(nextId) + Made(old(View(name)), View(name))
      ensures View(name) == Aimed(old(View(name)), name, now, old(nextId))
      ensures forall other :: other != name ==> View(other) == old(View(other))
    {
      var to := Wanted(name);
      var existing := Find(name);
      if existing.Some? && sheets[existing.value].to == to {
        return;
      }
      if existing.None? && to <= 0.0 {
        return;
      }
      var drawn := Black(name, now);
      var from := if drawn.Some? then drawn.value.1 else 0.0;
      if existing.Some? {
        // The element's id and its count go on; only the leg is new.
        var turned := sheets[existing.value];
        Turn(existing, Sheet(name, turned.id, now, to, from, CommitOf(turned, now)));
      } else {
        nextId := nextId + 1;
        Turn(None, Sheet(name, nextId - 1, now, to, from, 0));
      }
    }

    /** Take the old sheet out, the last one filling its place, and put the new one in at the end. */
    method Turn(existing: Option<nat>, sheet: Sheet)
      requires Valid()
      requires sheet.id < nextId && (existing.None? ==> forall s :: s in sheets ==> Unlike(s, sheet))
      requires existing.Some? ==>
                 && existing.value < |sheets| && sheets[existing.value].output == sheet.output
                 && sheets[existing.value].id == sheet.id
      modifies this`sheets
      ensures Valid() && SheetOf(sheet.output) == Some(sheet)
      ensures forall other :: other != sheet.output ==> SheetOf(other) == old(SheetOf(other))
    {
      if existing.Some? {
        SwapRemoved(sheets, existing.value, sheets[existing.value := sheets[|sheets| - 1]][..|sheets| - 1]);
        sheets := sheets[existing.value := sheets[|sheets| - 1]][..|sheets| - 1];
      }
      sheets := sheets + [sheet];
      SheetIs(sheet);
      forall other | other != sheet.output ensures SheetOf(other) == old(SheetOf(other)) {
        if old(SheetOf(other)).Some? {
          SheetIs(old(SheetOf(other)).value);
        }
      }
    }

    method Cover(name: string, covered: bool, now: nat)
      requires Valid()
      modifies this
      ensures Valid() && nextId == old(nextId) + Made(old(View(name)), View(name))
      ensures View(name) == Step(old(View(name)), Event.Cover(covered), name, now, old(nextId))
      ensures forall other :: other != name ==> View(other) == old(View(other))
    {
      rested := if covered then rested + {name} else rested - {name};
      Aim(name, now);
    }

    method SetPower(name: string, level: Power, now: nat)
      requires Valid()
      modifies this
      ensures Valid() && nextId == old(nextId) + Made(old(View(name)), View(name))
      ensures View(name) == Step(old(View(name)), Event.SetPower(level), name, now, old(nextId))
      ensures forall other :: other != name ==> View(other) == old(View(other))
    {
      power := if level == On then power - {name} else power[name := level];
      Aim(name, now);
    }

    method IsBlack(name: string, now: nat) returns (black: bool)
      requires Valid()
      ensures black == SaysBlack(View(name), now)
    {
      var found := Find(name);
      black := found.Some? && sheets[found.value].to >= 1.0 && Elapsed(sheets[found.value], now) >= DOWN;
    }

    method IsOff(name: string, now: nat) returns (off: bool)
      requires Valid()
      ensures off == SaysOff(View(name), now)
    {
      var light := PowerOf(name);
      var black := IsBlack(name, now);
      off := light == Power.Off && black;
    }

    /** Forget sheets that no longer draw anything, and all that was kept for displays no longer there. */
    method Prune(live: seq<string>, now: nat)
      requires Valid()
      modifies this
      ensures Valid() && nextId == old(nextId)
      ensures forall name :: View(name) == Step(old(View(name)), Event.Prune(name in live), name, now, nextId)
    {
      RetainSheets(live, now);
      rested := set name | name in rested && name in live;
      power := map name | name in power && name in live :: power[name];
    }

    method RetainSheets(live: seq<string>, now: nat)
      requires Valid()
      modifies this`sheets
      ensures Valid()
      ensures forall name :: SheetOf(name) ==
                if old(SheetOf(name)).Some? && name in live && !Prunable(old(SheetOf(name)).value, now)
                then old(SheetOf(name)) else None
    {
      Retains(sheets, live, now);
      sheets := Retained(sheets, live, now);
      forall name | SheetOf(name).Some? || old(SheetOf(name)).Some? ensures SheetOf(name) ==
                if old(SheetOf(name)).Some? && name in live && !Prunable(old(SheetOf(name)).value, now)
                then old(SheetOf(name)) else None
      {
        if old(SheetOf(name)).Some? && old(SheetOf(name)).value in sheets {
          SheetIs(old(SheetOf(name)).value);
        }
      }
    }
  }

  /** How many new elements there are. */
  function Made(was: Track, now: Track): nat {
    if was.sheet.None? && now.sheet.Some? then 1 else 0
  }

  function Retained(sheets: seq<Sheet>, live: seq<string>, now: nat): seq<Sheet> {
    if sheets == [] then []
    else (if sheets[0].output in live && !Prunable(sheets[0], now) then [sheets[0]] else [])
         + Retained(sheets[1..], live, now)
  }

  lemma {:induction false} Retains(sheets: seq<Sheet>, live: seq<string>, now: nat)
    requires AllUnlike(sheets)
    ensures var kept := Retained(sheets, live, now);
            && (forall s :: s in kept <==> s in sheets && s.output in live && !Prunable(s, now))
            && AllUnlike(kept)
  {
    if sheets != [] {
      var first, rest := sheets[0], sheets[1..];
      Retains(rest, live, now);
      assert forall s :: s in sheets <==> s == first || s in rest;
      assert forall s :: s in rest ==> Unlike(first, s);
      var kept := Retained(rest, live, now);
      assert forall a :: 0 <= a < |kept| ==> kept[a] in kept;
    }
  }

  lemma SwapRemoved(was: seq<Sheet>, i: nat, now: seq<Sheet>)
    requires i < |was| && AllUnlike(was)
    requires now == was[i := was[|was| - 1]][..|was| - 1]
    ensures forall s :: s in now <==> s in was && s.output != was[i].output
    ensures AllUnlike(now) && forall s :: s in now ==> Unlike(s, was[i])
  {
    forall s | s in was && s.output != was[i].output ensures s in now {
      var k :| 0 <= k < |was| && was[k] == s;
      assert now[if k == |was| - 1 then i else k] == s;
    }
  }
}
