/** The one sheet a session goes out behind: when it holds the input, and when it may say the screen is
    black. */
module Curtain {
  import opened Wrappers
  import opened Fades

  const FADE: nat := 500 * MS

  datatype Sheet = Sheet(id: nat, started: nat, down: bool, from: real, black: seq<string>, told: bool)

  datatype Event =
    | Cover(covered: bool, at: nat)
    | Drew(name: string, began: nat)
    | Ask(outputs: seq<string>)
    | Prune(at: nat)

  function Blackness(sheet: Sheet, now: nat): real {
    Travelled(sheet.from, if sheet.down then 1.0 else 0.0, Since(sheet.started, now), FADE)
  }

  function BlackNow(sheet: Option<Sheet>, now: nat): real {
    match sheet case None => 0.0 case Some(s) => Blackness(s, now)
  }

  function CommitOf(sheet: Sheet, now: nat): nat {
    Min(Since(sheet.started, now), FADE) / MS
  }

  /** The black drawn at an instant: none where it has no depth. */
  function Drawn(sheet: Option<Sheet>, now: nat): Option<(nat, real, nat)> {
    if sheet.Some? && Blackness(sheet.value, now) > 0.0
    then Some((sheet.value.id, Blackness(sheet.value, now), CommitOf(sheet.value, now))) else None
  }

  predicate TakesEffect(sheet: Option<Sheet>, covered: bool) {
    if sheet.Some? then sheet.value.down != covered else covered
  }

  predicate ShowsBlack(sheet: Sheet, began: nat) {
    sheet.down && Blackness(sheet, began) >= 1.0
  }

  function Noted(sheet: Sheet, name: string, began: nat): Sheet {
    if ShowsBlack(sheet, began) && name !in sheet.black then sheet.(black := sheet.black + [name]) else sheet
  }

  predicate Answers(sheet: Option<Sheet>, outputs: seq<string>) {
    sheet.Some? && sheet.value.down && !sheet.value.told && forall name :: name in outputs ==> name in sheet.value.black
  }

  predicate Drops(sheet: Option<Sheet>, now: nat) {
    sheet.Some? && !sheet.value.down && Blackness(sheet.value, now) <= 0.0
  }

  function Turned(sheet: Option<Sheet>, covered: bool, now: nat, fresher: nat): Sheet {
    Sheet(if sheet.Some? then sheet.value.id else fresher, now, covered, BlackNow(sheet, now), [], false)
  }

  function Step(sheet: Option<Sheet>, e: Event, fresher: nat): Option<Sheet> {
    match e
    case Cover(covered, at) => if TakesEffect(sheet, covered) then Some(Turned(sheet, covered, at, fresher)) else sheet
    case Drew(name, began) => if sheet.Some? then Some(Noted(sheet.value, name, began)) else None
    case Ask(outputs) => if Answers(sheet, outputs) then Some(sheet.value.(told := true)) else sheet
    case Prune(at) => if Drops(sheet, at) then None else sheet
  }

  class Curtain {
    var sheet: Option<Sheet>
    var nextId: nat

    constructor ()
      ensures sheet == None
    {
      sheet, nextId := None, 0;
    }

    method Black(now: nat) returns (drawn: Option<(nat, real, nat)>)
      ensures drawn == Drawn(sheet, now)
    {
      if sheet.None? {
        return None;
      }
      var elapsed := Since(sheet.value.started, now);
      var black := Travelled(sheet.value.from, if sheet.value.down then 1.0 else 0.0, elapsed, FADE);
      if black <= 0.0 {
        return None;
      }
      drawn := Some((sheet.value.id, black, Min(elapsed, FADE) / MS));
    }

    method CoverIt(covered: bool, now: nat)
      requires Good(sheet)
      modifies this
      ensures sheet == Step(old(sheet), Cover(covered, now), old(nextId)) && Good(sheet)
      ensures nextId == old(nextId) + if old(sheet).None? && sheet.Some? then 1 else 0
    {
      StepKeeps(sheet, Cover(covered, now), nextId);
      if sheet.Some? {
        if sheet.value.down == covered {
          return;
        }
      } else if !covered {
        return;
      }
      var drawn := Black(now);
      var from := if drawn.Some? then drawn.value.1 else 0.0;
      BlackInRange(sheet, now);
      if sheet.Some? {
        sheet := Some(Sheet(sheet.value.id, now, covered, from, [], false));
      } else {
        sheet := Some(Sheet(nextId, now, covered, from, [], false));
        nextId := nextId + 1;
      }
    }

    method PruneIt(now: nat)
      requires Good(sheet)
      modifies this`sheet
      ensures sheet == Step(old(sheet), Prune(now), nextId) && Good(sheet)
    {
      var drawn := Black(now);
      if sheet.Some? && !sheet.value.down && drawn.None? {
        sheet := None;
      }
    }

    method AFrameWasDrawn(name: string, began: nat)
      requires Good(sheet)
      modifies this`sheet
      ensures sheet == Step(old(sheet), Drew(name, began), nextId) && Good(sheet)
    {
      if sheet.None? || !sheet.value.down {
        return;
      }
      if Blackness(sheet.value, began) < 1.0 {
        return;
      }
      if name !in sheet.value.black {
        sheet := Some(sheet.value.(black := sheet.value.black + [name]));
      }
    }

    method EverythingIsBlack(outputs: seq<string>) returns (answer: bool)
      requires Good(sheet)
      modifies this`sheet
      ensures answer == Answers(old(sheet), outputs)
      ensures sheet == Step(old(sheet), Ask(outputs), nextId) && Good(sheet)
    {
      if sheet.None? || !sheet.value.down || sheet.value.told {
        return false;
      }
      for i := 0 to |outputs|
        invariant forall j :: 0 <= j < i ==> outputs[j] in sheet.value.black
      {
        if outputs[i] !in sheet.value.black {
          return false;
        }
      }
      sheet := Some(sheet.value.(told := true));
      answer := true;
    }

    method HoldsInput() returns (held: bool)
      ensures held == sheet.Some?
    {
      held := sheet.Some?;
    }
  }

  // ------------------------------------------------------------------ what every call keeps

  ghost predicate Good(sheet: Option<Sheet>) {
    sheet.Some? ==>
      && 0.0 <= sheet.value.from <= 1.0
      && (forall i, j :: 0 <= i < j < |sheet.value.black| ==> sheet.value.black[i] != sheet.value.black[j])
      && (!sheet.value.down ==> sheet.value.black == [] && !sheet.value.told)
  }

  lemma BlackInRange(sheet: Option<Sheet>, now: nat)
    requires Good(sheet)
    ensures 0.0 <= BlackNow(sheet, now) <= 1.0
  {
    if sheet.Some? {
      TravelledEnds(sheet.value.from, if sheet.value.down then 1.0 else 0.0, Since(sheet.value.started, now), FADE);
    }
  }

  /** No call makes the black jump, at the moment it is made or at any other but one that turns it. */
  lemma StepKeeps(sheet: Option<Sheet>, e: Event, fresher: nat)
    requires Good(sheet)
    ensures Good(Step(sheet, e, fresher))
    ensures e.Cover? || e.Prune? ==> BlackNow(Step(sheet, e, fresher), e.at) == BlackNow(sheet, e.at)
    ensures e.Drew? || e.Ask? ==> forall now :: BlackNow(Step(sheet, e, fresher), now) == BlackNow(sheet, now)
  {
    match e
    case Cover(covered, at) =>
      BlackInRange(sheet, at);
      if TakesEffect(sheet, covered) {
        var turned := Turned(sheet, covered, at, fresher);
        TravelledEnds(turned.from, if covered then 1.0 else 0.0, 0, FADE);
      }
    case Prune(at) => BlackInRange(sheet, at);
    case _ =>
  }

  // ------------------------------------------------------------------ whole histories

  /** A history: the sheet before each call, and after the last. */
  ghost predicate IsRun(sheets: seq<Option<Sheet>>, events: seq<Event>, ids: seq<nat>) {
    && |sheets| == |events| + 1 && |ids| == |events| && sheets[0] == None
    && forall i :: 0 <= i < |events| ==> sheets[i + 1] == Step(sheets[i], events[i], ids[i])
  }

  predicate Lowers(sheet: Option<Sheet>, e: Event) {
    e.Cover? && e.covered && TakesEffect(sheet, true)
  }

  predicate Turns(sheet: Option<Sheet>, e: Event) {
    (e.Cover? && TakesEffect(sheet, e.covered)) || (e.Prune? && Drops(sheet, e.at))
  }

  predicate Says(sheet: Option<Sheet>, e: Event) {
    e.Ask? && Answers(sheet, e.outputs)
  }

  /** Between two times of saying the screen is black there is a lowering: it is said once for each. */
  lemma {:induction false} SaidOncePerLowering(sheets: seq<Option<Sheet>>, events: seq<Event>, ids: seq<nat>, a: nat,
      b: nat)
    requires IsRun(sheets, events, ids) && a < b < |events|
    requires Says(sheets[a], events[a]) && Says(sheets[b], events[b])
    ensures exists c :: a < c < b && Lowers(sheets[c], events[c])
  {
    if forall c :: a < c < b ==> !Lowers(sheets[c], events[c]) {
      var i := a + 1;
      while i < b
        invariant a < i <= b
        invariant sheets[i].Some? ==> !sheets[i].value.down || sheets[i].value.told
      {
        assert sheets[i + 1] == Step(sheets[i], events[i], ids[i]);
        i := i + 1;
      }
      assert false;
    }
  }

  /** One display's frame, begun while the sheet was fully black, in this same lowering. */
  ghost predicate ShownBlackAt(sheets: seq<Option<Sheet>>, events: seq<Event>, k: int, i: int, name: string)
    requires |sheets| == |events| + 1
  {
    && 0 <= k < i <= |events|
    && events[k].Drew? && events[k].name == name
    && sheets[k].Some? && ShowsBlack(sheets[k].value, events[k].began)
    && forall j :: k < j < i ==> !Turns(sheets[j], events[j])
  }

  /** What a display is listed for, and nothing else. */
  lemma {:induction false} ListedExactly(sheets: seq<Option<Sheet>>, events: seq<Event>, ids: seq<nat>, i: nat,
      name: string)
    requires IsRun(sheets, events, ids) && i <= |events|
    ensures sheets[i].Some? && name in sheets[i].value.black <==> exists k :: ShownBlackAt(sheets, events, k, i, name)
  {
    if i > 0 {
      var n := i - 1;
      ListedExactly(sheets, events, ids, n, name);
      assert sheets[n + 1] == Step(sheets[n], events[n], ids[n]);
      if k :| ShownBlackAt(sheets, events, k, n, name) && !Turns(sheets[n], events[n]) {
        assert ShownBlackAt(sheets, events, k, i, name);
      }
      if events[n].Drew? && events[n].name == name && sheets[n].Some? && ShowsBlack(sheets[n].value, events[n].began) {
        assert ShownBlackAt(sheets, events, n, i, name);
      }
      forall k | ShownBlackAt(sheets, events, k, i, name) && k < n ensures ShownBlackAt(sheets, events, k, n, name) {}
    }
  }

  /** The screen is said to be black exactly when the sheet is down, it has not been said, and every
      display listed has drawn a frame begun behind a fully black sheet since it last turned. */
  lemma SaidExactlyWhenShown(sheets: seq<Option<Sheet>>, events: seq<Event>, ids: seq<nat>, i: nat)
    requires IsRun(sheets, events, ids) && i < |events| && events[i].Ask?
    ensures Says(sheets[i], events[i]) <==>
              && sheets[i].Some? && sheets[i].value.down && !sheets[i].value.told
              && forall name :: name in events[i].outputs ==> exists k :: ShownBlackAt(sheets, events, k, i, name)
  {
    forall name ensures sheets[i].Some? && name in sheets[i].value.black
        <==> exists k :: ShownBlackAt(sheets, events, k, i, name) {
      ListedExactly(sheets, events, ids, i, name);
    }
  }

  /** Input is held exactly from a lowering until a prune that finds the sheet fully up. */
  lemma {:induction false} HoldsInputExactly(sheets: seq<Option<Sheet>>, events: seq<Event>, ids: seq<nat>, i: nat)
    requires IsRun(sheets, events, ids) && i <= |events|
    ensures sheets[i].Some? <==> exists j :: HeldSince(sheets, events, j, i)
  {
    if i > 0 {
      var n := i - 1;
      HoldsInputExactly(sheets, events, ids, n);
      assert sheets[n + 1] == Step(sheets[n], events[n], ids[n]);
      if j :| HeldSince(sheets, events, j, n) && !(events[n].Prune? && Drops(sheets[n], events[n].at)) {
        assert HeldSince(sheets, events, j, i);
      }
      if Lowers(sheets[n], events[n]) {
        assert HeldSince(sheets, events, n, i);
      }
      forall j | HeldSince(sheets, events, j, i) && j < n ensures HeldSince(sheets, events, j, n) {}
    }
  }

  ghost predicate HeldSince(sheets: seq<Option<Sheet>>, events: seq<Event>, j: int, i: int)
    requires |sheets| == |events| + 1
  {
    && 0 <= j < i <= |events|
    && Lowers(sheets[j], events[j])
    && forall k :: j < k < i ==> !(events[k].Prune? && Drops(sheets[k], events[k].at))
  }

  /** A prune a whole fade after the raise gives the input back; none does while the sheet is down. */
  lemma AWholeFadeFrees(sheet: Sheet, now: nat)
    requires Good(Some(sheet))
    ensures !sheet.down && now >= sheet.started + 500_000_000 ==> Drops(Some(sheet), now)
    ensures sheet.down ==> !Drops(Some(sheet), now)
    ensures !sheet.down && sheet.from > 0.0 && now < sheet.started + 500_000_000 ==> !Drops(Some(sheet), now)
  {
    TravelledEnds(sheet.from, if sheet.down then 1.0 else 0.0, Since(sheet.started, now), FADE);
    if !sheet.down && sheet.from > 0.0 && now < sheet.started + FADE {
      NeverTwice(sheet.from, 0.0, Since(sheet.started, now), FADE, FADE);
      TravelledEnds(sheet.from, 0.0, FADE, FADE);
    }
  }

  /** A frame is begun fully black exactly on the way down, a whole fade after the lowering or behind a
      sheet that was fully black when it was lowered. */
  lemma FullyBlackExactly(sheet: Sheet, began: nat)
    requires Good(Some(sheet))
    ensures ShowsBlack(sheet, began) <==> sheet.down && (sheet.from == 1.0 || began >= sheet.started + 500_000_000)
  {
    if sheet.down {
      var since := Since(sheet.started, began);
      TravelledEnds(sheet.from, 1.0, since, FADE);
      TravelledEnds(sheet.from, 1.0, FADE, FADE);
      if sheet.from != 1.0 && since < FADE {
        NeverTwice(sheet.from, 1.0, since, FADE, FADE);
      }
    }
  }

  // ------------------------------------------------------------------ what was asked, and what comes of it

  /** The last time the curtain was asked for, one way or the other, before `i`. */
  ghost predicate LastAsked(events: seq<Event>, i: int, k: int) {
    0 <= k < i <= |events| && events[k].Cover? && forall j :: k < j < i ==> !events[j].Cover?
  }

  ghost predicate NeverAsked(events: seq<Event>, i: int) {
    i <= |events| && forall j :: 0 <= j < i ==> !events[j].Cover?
  }

  /** In every history the sheet is on its way down exactly when it was last asked to be, having set out no
      later than any instant that is past them all. */
  lemma {:induction false} GoesWhereItIsAsked(sheets: seq<Option<Sheet>>, events: seq<Event>, ids: seq<nat>, i: nat,
      late: nat)
    requires IsRun(sheets, events, ids) && i <= |events|
    requires forall j :: 0 <= j < i && events[j].Cover? ==> events[j].at <= late
    ensures Good(sheets[i]) && (sheets[i].Some? ==> sheets[i].value.started <= late)
    ensures forall k :: LastAsked(events, i, k) ==>
              (sheets[i].Some? && sheets[i].value.down <==> events[k].covered)
    ensures NeverAsked(events, i) ==> sheets[i] == None
  {
    if i > 0 {
      var n := i - 1;
      GoesWhereItIsAsked(sheets, events, ids, n, late);
      assert sheets[n + 1] == Step(sheets[n], events[n], ids[n]);
      StepKeeps(sheets[n], events[n], ids[n]);
      forall k | LastAsked(events, i, k) && k < n ensures LastAsked(events, n, k) {}
    }
  }

  /** Half a second after it was last asked for the screen is black, if that was to lower it, and otherwise
      clear: whatever was asked before, and however the sheet was turned round. */
  lemma HalfASecondLaterItIsAsAsked(sheets: seq<Option<Sheet>>, events: seq<Event>, ids: seq<nat>, i: nat, k: int,
      now: nat)
    requires IsRun(sheets, events, ids) && LastAsked(events, i, k)
    requires forall j :: 0 <= j < i && events[j].Cover? ==> events[j].at + 500_000_000 <= now
    ensures BlackNow(sheets[i], now) == if events[k].covered then 1.0 else 0.0
  {
    assert events[k].at + 500_000_000 <= now;
    GoesWhereItIsAsked(sheets, events, ids, i, now - 500_000_000);
    if sheets[i].Some? {
      var sheet := sheets[i].value;
      TravelledEnds(sheet.from, if sheet.down then 1.0 else 0.0, Since(sheet.started, now), FADE);
    }
  }

  /** Input is held from the moment the curtain is asked down; and once it has been asked up, it is given back
      by the first prune half a second later, and stays so. */
  lemma {:induction false} InputComesBack(sheets: seq<Option<Sheet>>, events: seq<Event>, ids: seq<nat>, i: nat, k: int,
      p: int)
    requires IsRun(sheets, events, ids) && LastAsked(events, i, k)
    ensures events[k].covered ==> sheets[i].Some?
    ensures !events[k].covered && k < p < i && PrunedAfter(events, k, p) ==> sheets[i].None?
    decreases i
  {
    var late := Latest(events, i);
    GoesWhereItIsAsked(sheets, events, ids, i, late);
    if !events[k].covered && k < p < i && PrunedAfter(events, k, p) {
      var n := i - 1;
      assert sheets[n + 1] == Step(sheets[n], events[n], ids[n]);
      if p == n {
        assert LastAsked(events, n, k);
        assert events[k].at + 500_000_000 <= events[p].at;
        GoesWhereItIsAsked(sheets, events, ids, n, events[p].at - 500_000_000);
        if sheets[n].Some? {
          AWholeFadeFrees(sheets[n].value, events[n].at);
        }
      } else {
        assert LastAsked(events, n, k);
        InputComesBack(sheets, events, ids, n, k, p);
      }
    }
  }

  /** A prune half a second after every request up to the last. */
  ghost predicate PrunedAfter(events: seq<Event>, k: int, p: int)
    requires 0 <= k < p < |events|
  {
    events[p].Prune? && forall j :: 0 <= j <= k && events[j].Cover? ==> events[j].at + 500_000_000 <= events[p].at
  }

  /** An instant that is past every request before `i`. */
  lemma Latest(events: seq<Event>, i: nat) returns (late: nat)
    requires i <= |events|
    ensures forall j :: 0 <= j < i && events[j].Cover? ==> events[j].at <= late
  {
    late := 0;
    for k := 0 to i
      invariant forall j :: 0 <= j < k && events[j].Cover? ==> events[j].at <= late
    {
      if events[k].Cover? && events[k].at > late {
        late := events[k].at;
      }
    }
  }

  /** It has been said exactly if it was said since the sheet last turned. */
  lemma {:induction false} ToldExactly(sheets: seq<Option<Sheet>>, events: seq<Event>, ids: seq<nat>, i: nat)
    requires IsRun(sheets, events, ids) && i <= |events|
    ensures sheets[i].Some? && sheets[i].value.told <==> exists k :: SaidSince(sheets, events, k, i)
  {
    if i > 0 {
      var n := i - 1;
      ToldExactly(sheets, events, ids, n);
      assert sheets[n + 1] == Step(sheets[n], events[n], ids[n]);
      if k :| SaidSince(sheets, events, k, n) && !Turns(sheets[n], events[n]) {
        assert SaidSince(sheets, events, k, i);
      }
      if Says(sheets[n], events[n]) {
        assert SaidSince(sheets, events, n, i);
      }
      forall k | SaidSince(sheets, events, k, i) && k < n ensures SaidSince(sheets, events, k, n) {}
    }
  }

  ghost predicate SaidSince(sheets: seq<Option<Sheet>>, events: seq<Event>, k: int, i: int)
    requires |sheets| == |events| + 1
  {
    0 <= k < i <= |events| && Says(sheets[k], events[k]) && forall j :: k < j < i ==> !Turns(sheets[j], events[j])
  }

  /** So it is said to the first who asks: once the curtain was asked down and every display has drawn a frame
      begun half a second later, if nobody has been told yet and it was not asked up meanwhile. */
  lemma TheFirstToAskIsTold(sheets: seq<Option<Sheet>>, events: seq<Event>, ids: seq<nat>, i: nat, k: int,
      draws: seq<int>)
    requires IsRun(sheets, events, ids) && i < |events| && events[i].Ask?
    requires LastAsked(events, i, k) && events[k].covered && !(sheets[k].Some? && sheets[k].value.down)
    requires forall j :: k < j < i ==> !events[j].Ask?
    requires |draws| == |events[i].outputs|
    requires forall o :: 0 <= o < |draws| ==>
               && k < draws[o] < i
               && DrewAfter(events, draws[o], events[i].outputs[o], events[k].at + 500_000_000)
    ensures Says(sheets[i], events[i])
  {
    Undisturbed(sheets, events, ids, i, k);
    ToldExactly(sheets, events, ids, i);
    forall name | name in events[i].outputs ensures exists d :: ShownBlackAt(sheets, events, d, i, name) {
      var o :| 0 <= o < |draws| && events[i].outputs[o] == name;
      assert DrewAfter(events, draws[o], name, events[k].at + 500_000_000);
      Undisturbed(sheets, events, ids, draws[o], k);
      FullyBlackExactly(sheets[draws[o]].value, events[draws[o]].began);
      assert ShownBlackAt(sheets, events, draws[o], i, name);
    }
    SaidExactlyWhenShown(sheets, events, ids, i);
  }

  predicate DrewAfter(events: seq<Event>, d: int, name: string, at: nat) {
    0 <= d < |events| && events[d].Drew? && events[d].name == name && events[d].began >= at
  }

  /** From a lowering that took effect on, with nothing asked, the sheet is the one that was sent down. */
  lemma {:induction false} Undisturbed(sheets: seq<Option<Sheet>>, events: seq<Event>, ids: seq<nat>, i: nat, k: int)
    requires IsRun(sheets, events, ids) && i <= |events|
    requires LastAsked(events, i, k) && events[k].covered && !(sheets[k].Some? && sheets[k].value.down)
    ensures Good(sheets[i]) && sheets[i].Some? && sheets[i].value.down && sheets[i].value.started == events[k].at
    ensures forall j :: k < j < i ==> !Turns(sheets[j], events[j])
    decreases i
  {
    var n := i - 1;
    assert sheets[n + 1] == Step(sheets[n], events[n], ids[n]);
    if k == n {
      var late := Latest(events, n);
      GoesWhereItIsAsked(sheets, events, ids, n, late);
    } else {
      assert LastAsked(events, n, k);
      Undisturbed(sheets, events, ids, n, k);
      AWholeFadeFrees(sheets[n].value, if events[n].Prune? then events[n].at else 0);
    }
    StepKeeps(sheets[n], events[n], ids[n]);
  }

  /** On one leg, what is drawn is the same exactly when the leg had run equally long. */
  lemma OneLegAlike(sheet: Sheet, a: nat, b: nat)
    requires Good(Some(sheet)) && sheet.from != (if sheet.down then 1.0 else 0.0)
    ensures Blackness(sheet, a) == Blackness(sheet, b)
        <==> Min(Since(sheet.started, a), FADE) == Min(Since(sheet.started, b), FADE)
    ensures Blackness(sheet, a) == Blackness(sheet, b) ==> CommitOf(sheet, a) == CommitOf(sheet, b)
  {
    SamePlaceSameMoment(sheet.from, if sheet.down then 1.0
        else 0.0, Since(sheet.started, a), Since(sheet.started, b), FADE);
  }

  /** An instant a whole number of milliseconds into the leg. */
  predicate WholeAge(sheet: Sheet, now: nat) {
    Since(sheet.started, now) % MS == 0
  }

  /** How far along its way a leg is when its count is `count`. */
  function Along(count: nat): real {
    Smoothstep((count * MS) as real / FADE as real)
  }

  lemma CountIsPlace(sheet: Sheet, now: nat)
    requires Good(Some(sheet)) && WholeAge(sheet, now)
    ensures CommitOf(sheet, now) <= 500 && 0.0 <= Along(CommitOf(sheet, now)) <= 1.0
    ensures Blackness(sheet, now) == Reached(sheet.from, sheet.down, Along(CommitOf(sheet, now)))
  {
    var to := if sheet.down then 1.0 else 0.0;
    TravelledStops(sheet.from, to, Since(sheet.started, now), FADE);
    WholeCount(Since(sheet.started, now));
    PlaceOfCount(sheet.from, sheet.down, CommitOf(sheet, now));
  }

  lemma PlaceOfCount(from: real, down: bool, count: nat)
    requires 0.0 <= from <= 1.0
    ensures 0.0 <= Along(count) <= 1.0
    ensures Travelled(from, if down then 1.0 else 0.0, count * MS, FADE) == Reached(from, down, Along(count))
  {
    PlaceIs(from, if down then 1.0 else 0.0, (count * MS) as real / FADE as real);
  }

  function Reached(from: real, down: bool, along: real): real {
    from + ((if down then 1.0 else 0.0) - from) * along
  }

  lemma WholeCount(since: nat)
    requires since % MS == 0
    ensures Min(since, FADE) == Min(since, FADE) / MS * MS && Min(since, FADE) / MS <= 500
  {}

  /** On one leg and on whole milliseconds, an equal count is an equal picture. */
  lemma OneLegCounts(sheet: Sheet, a: nat, b: nat)
    requires Good(Some(sheet)) && WholeAge(sheet, a) && WholeAge(sheet, b)
    requires CommitOf(sheet, a) == CommitOf(sheet, b)
    ensures Blackness(sheet, a) == Blackness(sheet, b)
  {
    CountIsPlace(sheet, a);
    CountIsPlace(sheet, b);
  }

  /** How far a sheet had gone its way when it was turned round. */
  function Gone(sheet: Sheet, turned: Sheet): real {
    if sheet.down then turned.from - sheet.from else sheet.from - turned.from
  }

  predicate AreOdds(gone: real, along: real) {
    gone * (1.0 - along) == along
  }

  /** Across a turn it need not be. On whole milliseconds and under one count, a sheet and what it was
      turned into show the same exactly when how far it had gone is the odds of how far along that count
      is: so never, once the count is past half way. */
  lemma AcrossATurnExactly(sheet: Sheet, turn: nat, fresher: nat, a: nat, b: nat)
    requires Good(Some(sheet))
    requires var turned := Turned(Some(sheet), !sheet.down, turn, fresher);
             WholeAge(sheet, a) && WholeAge(turned, b) && CommitOf(sheet, a) == CommitOf(turned, b)
    ensures var turned := Turned(Some(sheet), !sheet.down, turn, fresher);
            var along := Along(CommitOf(sheet, a));
            && turned.id == sheet.id
            && (Blackness(sheet, a) == Blackness(turned, b) <==> AreOdds(Gone(sheet, turned), along))
            && (CommitOf(sheet, a) > 250 ==> Blackness(sheet, a) != Blackness(turned, b))
  {
    StepKeeps(Some(sheet), Cover(!sheet.down, turn), fresher);
    EitherWay(sheet, Turned(Some(sheet), !sheet.down, turn, fresher), a, b);
  }

  lemma EitherWay(sheet: Sheet, turned: Sheet, a: nat, b: nat)
    requires Good(Some(sheet)) && Good(Some(turned)) && turned.down == !sheet.down
    requires WholeAge(sheet, a) && WholeAge(turned, b) && CommitOf(sheet, a) == CommitOf(turned, b)
    ensures var along := Along(CommitOf(sheet, a));
            && (Blackness(sheet, a) == Blackness(turned, b) <==> AreOdds(Gone(sheet, turned), along))
            && (CommitOf(sheet, a) > 250 ==> Blackness(sheet, a) != Blackness(turned, b))
  {
    CountIsPlace(sheet, a);
    CountIsPlace(turned, b);
    if CommitOf(sheet, a) > 250 {
      PastHalf(CommitOf(sheet, a));
    }
    Across(sheet.from, turned.from, Along(CommitOf(sheet, a)), sheet.down, Gone(sheet, turned),
           Blackness(sheet, a), Blackness(turned, b));
  }

  lemma Across(from: real, turned: real, along: real, down: bool, gone: real, x: real, y: real)
    requires 0.0 <= from <= 1.0 && 0.0 <= turned <= 1.0 && 0.0 <= along <= 1.0
    requires gone == if down then turned - from else from - turned
    requires x == Reached(from, down, along) && y == Reached(turned, !down, along)
    ensures x == y <==> AreOdds(gone, along)
    ensures along > 0.5 ==> x != y
  {
    if down {
      assert y - x == gone * (1.0 - along) - along;
    } else {
      assert x - y == gone * (1.0 - along) - along;
    }
    if along > 0.5 {
      Weaker(gone, 1.0 - along, gone * (1.0 - along));
    }
  }

  lemma PastHalf(count: nat)
    requires 250 < count <= 500
    ensures Along(count) > 0.5
  {
    var u := (count * MS) as real / FADE as real;
    assert u == count as real / 500.0;
    SmoothstepRises(0.5, u);
    assert Smoothstep(0.5) == 0.5;
  }

  lemma Weaker(gone: real, rest: real, share: real)
    requires gone <= 1.0 && 0.0 <= rest && share == gone * rest
    ensures share <= rest
  {
    Product(1.0 - gone, rest);
    assert (1.0 - gone) * rest == rest - share;
  }

  /** The count starts again with each leg, so a sheet turned round can be drawn twice under one id and
      one count at two different depths of black: a quarter second down, turned, a quarter second up. */
  lemma TheCountRestarts()
    ensures var lowered := Sheet(0, 0, true, 0.0, [], false);
            var turned := Turned(Some(lowered), false, 250 * MS, 1);
            && lowered.id == turned.id
            && CommitOf(lowered, 250 * MS) == CommitOf(turned, 500 * MS) == 250
            && Blackness(lowered, 250 * MS) == 0.5 && Blackness(turned, 500 * MS) == 0.25
  {
    var half := (250 * MS) as real / FADE as real;
    assert half == 0.5;
    assert Smoothstep(0.5) == 0.5;
  }
}
