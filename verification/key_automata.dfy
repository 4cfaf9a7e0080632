/** Three small watchers of the keyboard, each against what it says of a whole history of keys: the home
    button that is a key on its own, the walk that ends when its modifier comes up, and the volume key
    that repeats while it is held. */
module KeyAutomata {
  import opened Wrappers
  import opened KeyBindings

  // ------------------------------------------------------------------ the Windows key on its own

  datatype TapEvent = Key(logo: bool, pressed: bool) | TakeTap | Broken

  datatype Tap = Tap(armed: bool, fired: bool)

  const RESTING := Tap(false, false)

  function TapStep(t: Tap, e: TapEvent): Tap {
    match e
    case Key(true, true) => Tap(true, false)
    case Key(true, false) => Tap(false, t.armed)
    case Key(false, true) => Tap(false, false)
    case Key(false, false) => Tap(t.armed, false)
    case TakeTap => Tap(t.armed, false)
    case Broken => RESTING
  }

  function TapAfter(events: seq<TapEvent>): Tap {
    if events == [] then RESTING else TapStep(TapAfter(events[..|events| - 1]), events[|events| - 1])
  }

  class HomeTap {
    var armed: bool
    var fired: bool

    constructor ()
      ensures View() == RESTING
    {
      armed, fired := false, false;
    }

    ghost function View(): Tap
      reads this
    {
      Tap(armed, fired)
    }

    method Note(logo: bool, pressed: bool)
      modifies this
      ensures View() == TapStep(old(View()), Key(logo, pressed))
    {
      fired := false;
      if logo && pressed {
        armed := true;
      } else if logo {
        fired, armed := armed, false;
      } else if pressed {
        armed := false;
      }
    }

    method Take() returns (owed: bool)
      modifies this
      ensures View() == TapStep(old(View()), TakeTap) && owed == old(fired)
    {
      owed, fired := fired, false;
    }

    method Interrupt()
      modifies this
      ensures View() == TapStep(old(View()), Broken)
    {
      armed, fired := false, false;
    }
  }

  /** Whether a Windows key is down and has been pressed on its own: it went down, and since then there
      has been nothing but other keys coming up. */
  ghost predicate Alone(events: seq<TapEvent>, j: int) {
    && 0 <= j < |events| && events[j] == Key(true, true)
    && forall k :: j < k < |events| ==> events[k] == Key(false, false) || events[k] == TakeTap
  }

  lemma {:induction false} ArmedExactly(events: seq<TapEvent>)
    ensures TapAfter(events).armed <==> exists j :: Alone(events, j)
  {
    if events != [] {
      var n := |events| - 1;
      var before := events[..n];
      ArmedExactly(before);
      if j :| Alone(before, j) && (events[n] == Key(false, false) || events[n] == TakeTap) {
        assert Alone(events, j);
      }
      if events[n] == Key(true, true) {
        assert Alone(events, n);
      }
      forall j | Alone(events, j) && j < n ensures Alone(before, j) {
        assert forall k :: j < k < n ==> before[k] == events[k];
      }
    }
  }

  /** A tap is owed exactly where a lone press ends: the key comes up, and since it went down nothing else
      was pressed, no other edge of it was seen, and nothing was broken off. */
  lemma FiresExactly(events: seq<TapEvent>, last: TapEvent)
    ensures TapAfter(events + [last]).fired <==> last == Key(true, false) && exists j :: Alone(events, j)
  {
    assert (events + [last])[..|events|] == events;
    ArmedExactly(events);
  }

  // ------------------------------------------------------------------ the walk along the applications

  datatype WalkEvent = Begin | Modifiers(alt: bool) | TakeWalk | Abandoned

  datatype Walk = Walk(walking: bool, finished: bool)

  function WalkStep(w: Walk, e: WalkEvent): Walk {
    match e
    case Begin => w.(walking := true)
    case Modifiers(alt) => if w.walking && !alt then Walk(false, true) else Walk(w.walking, false)
    case TakeWalk => w.(finished := false)
    case Abandoned => Walk(false, false)
  }

  function WalkAfter(events: seq<WalkEvent>): Walk {
    if events == [] then Walk(false, false) else WalkStep(WalkAfter(events[..|events| - 1]), events[|events| - 1])
  }

  class WindowSwitch {
    var walking: bool
    var finished: bool

    constructor ()
      ensures View() == Walk(false, false)
    {
      walking, finished := false, false;
    }

    ghost function View(): Walk
      reads this
    {
      Walk(walking, finished)
    }

    method Note(alt: bool)
      modifies this
      ensures View() == WalkStep(old(View()), Modifiers(alt))
    {
      finished := false;
      if walking && !alt {
        walking, finished := false, true;
      }
    }

    method Start()
      modifies this
      ensures View() == WalkStep(old(View()), Begin)
    {
      walking := true;
    }

    method Take() returns (ended: bool)
      modifies this
      ensures View() == WalkStep(old(View()), TakeWalk) && ended == old(finished)
    {
      ended, finished := finished, false;
    }

    method Interrupt()
      modifies this
      ensures View() == WalkStep(old(View()), Abandoned)
    {
      walking, finished := false, false;
    }
  }

  /** A walk is under way: begun, and neither abandoned nor let go of since. */
  ghost predicate UnderWay(events: seq<WalkEvent>, j: int) {
    && 0 <= j < |events| && events[j] == Begin
    && forall k :: j < k < |events| ==> events[k] != Abandoned && events[k] != Modifiers(false)
  }

  lemma {:induction false} WalkingExactly(events: seq<WalkEvent>)
    ensures WalkAfter(events).walking <==> exists j :: UnderWay(events, j)
  {
    if events != [] {
      var n := |events| - 1;
      var before := events[..n];
      WalkingExactly(before);
      if j :| UnderWay(before, j) && events[n] != Abandoned && events[n] != Modifiers(false) {
        assert UnderWay(events, j);
      }
      if events[n] == Begin {
        assert UnderWay(events, n);
      }
      forall j | UnderWay(events, j) && j < n ensures UnderWay(before, j) {
        assert forall k :: j < k < n ==> before[k] == events[k];
      }
    }
  }

  /** A walk ends exactly at the first moment after it began that the modifier is up, unless it has been
      abandoned; */
  lemma EndsExactly(events: seq<WalkEvent>, last: WalkEvent)
    requires !last.Begin?
    ensures WalkAfter(events + [last]).finished <==> last == Modifiers(false) && exists j :: UnderWay(events, j)
  {
    assert (events + [last])[..|events|] == events;
    WalkingExactly(events);
  }

  /** and so only once: between two ends there is a beginning. */
  lemma OneEndToAWalk(events: seq<WalkEvent>, a: nat, b: nat)
    requires a < b < |events|
    requires events[a] == Modifiers(false) && exists j :: UnderWay(events[..a], j)
    requires events[b] == Modifiers(false) && exists j :: UnderWay(events[..b], j)
    ensures exists c :: a < c < b && events[c] == Begin
  {
    var j :| UnderWay(events[..b], j);
    assert events[..b][j] == events[j];
    assert events[..b][a] == events[a];
  }

  // ------------------------------------------------------------------ the volume key

  const COUNTS: nat := 0x1_0000_0000_0000_0000

  /** A key of the keyboard, the volume change its chord looks up to at that moment, if it does, and the
      rate keys repeat at: at none, they do not. */
  datatype VolumeEvent =
    | VolumeKeyEvent(code: nat, change: Option<VolumeChange>, pressed: bool, rate: int)
    | KeysLost

  datatype Holding = Holding(held: Option<(nat, nat)>, generation: nat)

  predicate Books(e: VolumeEvent) {
    e.VolumeKeyEvent? && e.pressed && e.change.Some? && e.change.value != Mute && e.rate > 0
  }

  predicate LetsGo(e: VolumeEvent, code: nat) {
    e.KeysLost? || (!e.pressed && e.change.Some? && e.code == code)
  }

  function HoldStep(h: Holding, e: VolumeEvent): Holding {
    if Books(e) then
      var generation := (h.generation + 1) % COUNTS;
      Holding(Some((e.code, generation)), generation)
    else if h.held.Some? && LetsGo(e, h.held.value.0) then h.(held := None)
    else h
  }

  function HoldAfter(events: seq<VolumeEvent>): Holding {
    if events == [] then Holding(None, 0) else HoldStep(HoldAfter(events[..|events| - 1]), events[|events| - 1])
  }

  predicate Wants(h: Holding, booked: nat) {
    h.held.Some? && h.held.value.1 == booked
  }

  class VolumeKey {
    var held: Option<(nat, nat)>
    var generation: nat

    constructor ()
      ensures View() == Holding(None, 0)
    {
      held, generation := None, 0;
    }

    ghost function View(): Holding
      reads this
    {
      Holding(held, generation)
    }

    method Pressed(code: nat) returns (booked: nat)
      modifies this
      ensures generation == (old(generation) + 1) % COUNTS == booked && held == Some((code, booked))
    {
      generation := (generation + 1) % COUNTS;
      held := Some((code, generation));
      booked := generation;
    }

    method Released(code: nat)
      modifies this`held
      ensures held == if old(held).Some? && old(held).value.0 == code then None else old(held)
    {
      if held.Some? && held.value.0 == code {
        held := None;
      }
    }

    method Interrupt()
      modifies this`held
      ensures View() == HoldStep(old(View()), KeysLost)
    {
      held := None;
    }

    /** One key, as far as it looks up to a change of volume. */
    method Note(code: nat, change: Option<VolumeChange>, pressed: bool, rate: int)
        returns (steps: bool, booked: Option<nat>)
      modifies this
      ensures View() == HoldStep(old(View()), VolumeKeyEvent(code, change, pressed, rate))
      ensures steps <==> change.Some? && pressed
      ensures booked == if Books(VolumeKeyEvent(code, change, pressed, rate)) then Some(generation) else None
      ensures booked.Some? <==> pressed && rate > 0 && (change == Some(Up) || change == Some(Down))
      ensures booked.Some? ==> held == Some((code, booked.value))
      ensures booked.None? && !(!pressed && change.Some? && old(held).Some? && old(held).value.0 == code) ==>
                View() == old(View())
    {
      steps, booked := false, None;
      if change.None? {
        return;
      }
      if !pressed {
        Released(code);
        return;
      }
      steps := true;
      if change.value != Mute {
        booked := Repeat(code, rate);
      }
    }

    method Repeat(code: nat, rate: int) returns (booked: Option<nat>)
      modifies this
      ensures rate <= 0 ==> booked == None && View() == old(View())
      ensures rate > 0 ==> generation == (old(generation) + 1) % COUNTS && booked == Some(generation)
      ensures rate > 0 ==> held == Some((code, generation))
    {
      if rate <= 0 {
        return None;
      }
      var number := Pressed(code);
      booked := Some(number);
    }
  }

  /** What takes the repeat: a press of a key that turns the volume up or down, where keys repeat at all. Muting
      is done once. */
  lemma BooksExactly(e: VolumeEvent)
    ensures Books(e) <==> exists code, rate ::
              (e == VolumeKeyEvent(code, Some(Up), true, rate) || e == VolumeKeyEvent(code, Some(Down), true, rate))
              && rate > 0
  {
    if Books(e) {
      assert e == VolumeKeyEvent(e.code, Some(Up), true, e.rate)
        || e == VolumeKeyEvent(e.code, Some(Down), true, e.rate);
    }
  }

  /** What ends it: its own key coming up while it still means some change of volume, muting too, or all keys
      being lost. */
  lemma LetsGoExactly(e: VolumeEvent, code: nat)
    ensures LetsGo(e, code) <==>
              e == KeysLost || exists change, rate :: e == VolumeKeyEvent(code, Some(change), false, rate)
  {
    if LetsGo(e, code) && e != KeysLost {
      assert e == VolumeKeyEvent(code, Some(e.change.value), false, e.rate);
    }
  }

  function Bookings(events: seq<VolumeEvent>): nat {
    if events == [] then 0
    else Bookings(events[..|events| - 1]) + if Books(events[|events| - 1]) then 1 else 0
  }

  /** The key of event `j` took the repeat and still has it: no other has taken it since, it has not been
      let go of, and the keys have not been lost. */
  ghost predicate StillHeld(events: seq<VolumeEvent>, j: int) {
    && 0 <= j < |events| && Books(events[j])
    && forall k :: j < k < |events| ==> !Books(events[k]) && !LetsGo(events[k], events[j].code)
  }

  lemma {:induction false} HeldExactly(events: seq<VolumeEvent>)
    ensures HoldAfter(events).generation == Bookings(events) % COUNTS
    ensures HoldAfter(events).held.Some? <==> exists j :: StillHeld(events, j)
    ensures forall j :: StillHeld(events, j) ==>
              HoldAfter(events).held == Some((events[j].code, Bookings(events) % COUNTS))
  {
    if events != [] {
      var n := |events| - 1;
      var before := events[..n];
      HeldExactly(before);
      Wraps(Bookings(before));
      if Books(events[n]) {
        assert StillHeld(events, n);
      }
      forall j | StillHeld(before, j) && !Books(events[n]) && !LetsGo(events[n], events[j].code)
        ensures StillHeld(events, j)
      {
        assert forall k :: j < k < n ==> before[k] == events[k];
      }
      forall j | StillHeld(events, j) && j < n ensures StillHeld(before, j) {
        assert forall k :: j < k < n ==> before[k] == events[k];
      }
    }
  }

  lemma Wraps(n: nat)
    ensures (n % COUNTS + 1) % COUNTS == (n + 1) % COUNTS
  {}

  /** The step booked by one press is wanted exactly while some key holds the repeat and the count of
      presses has the number it had then: itself, or a whole round of the counter later. */
  lemma {:induction false} WantedExactly(events: seq<VolumeEvent>, j: nat)
    requires j < |events| && Books(events[j])
    ensures Wants(HoldAfter(events), HoldAfter(events[..j + 1]).generation) <==>
              (exists k :: StillHeld(events, k)) && Bookings(events) % COUNTS == Bookings(events[..j + 1]) % COUNTS
  {
    HeldExactly(events);
    HeldExactly(events[..j + 1]);
    WantedByNumber(events, Bookings(events) % COUNTS, Bookings(events[..j + 1]) % COUNTS);
  }

  lemma WantedByNumber(events: seq<VolumeEvent>, now: nat, booked: nat)
    requires HoldAfter(events).held.Some? <==> exists k :: StillHeld(events, k)
    requires forall k :: StillHeld(events, k) ==> HoldAfter(events).held == Some((events[k].code, now))
    ensures Wants(HoldAfter(events), booked) <==> (exists k :: StillHeld(events, k)) && now == booked
  {}

  lemma {:induction false} BookingsGrow(events: seq<VolumeEvent>, n: nat)
    requires n <= |events|
    ensures Bookings(events[..n]) <= Bookings(events) <= Bookings(events[..n]) + (|events| - n)
    ensures Bookings(events[..n]) == Bookings(events) ==> forall k :: n <= k < |events| ==> !Books(events[k])
  {
    if n < |events| {
      var m := |events| - 1;
      BookingsGrow(events[..m], n);
      assert events[..m][..n] == events[..n];
      assert forall k :: n <= k < m ==> events[..m][k] == events[k];
    } else {
      assert events[..n] == events;
    }
  }

  /** Short of a whole round of the counter, that is while the press's own key is held and nothing has
      taken the repeat from it: so of all the timers ever booked, at most one is wanted. */
  lemma {:induction false} OnlyTheLastIsWanted(events: seq<VolumeEvent>, j: nat)
    requires |events| <= 18_446_744_073_709_551_616 && j < |events| && Books(events[j])
    ensures Wants(HoldAfter(events), HoldAfter(events[..j + 1]).generation) <==> StillHeld(events, j)
  {
    WantedExactly(events, j);
    BookingsGrow(events, j + 1);
    NotRound(Bookings(events), Bookings(events[..j + 1]));
    if StillHeld(events, j) {
      NoneSince(events, j);
    }
    if k :| StillHeld(events, k) && Bookings(events) == Bookings(events[..j + 1]) {
      OneHolder(events, j, k);
    }
  }

  lemma NotRound(a: nat, b: nat)
    requires b <= a < b + COUNTS
    ensures a % COUNTS == b % COUNTS <==> a == b
  {}

  lemma OneHolder(events: seq<VolumeEvent>, j: nat, k: int)
    requires j < |events| && Books(events[j]) && StillHeld(events, k)
    requires forall i :: j + 1 <= i < |events| ==> !Books(events[i])
    ensures k == j
  {}

  lemma NoneSince(events: seq<VolumeEvent>, j: nat)
    requires j < |events| && forall k :: j < k < |events| ==> !Books(events[k])
    ensures Bookings(events) == Bookings(events[..j + 1])
    decreases |events|
  {
    if j + 1 < |events| {
      var m := |events| - 1;
      NoneSince(events[..m], j);
      assert events[..m][..j + 1] == events[..j + 1];
    } else {
      assert events[..j + 1] == events;
    }
  }

  function LooksUpTo(table: KeyTable, mods: Mods, syms: seq<nat>): Option<VolumeChange> {
    match Lookup(table, mods, syms)
    case Some(Volume(change)) => Some(change)
    case _ => None
  }

  /** Letting the key go ends the repeat exactly when, under the modifiers held at that moment, it still
      looks up to a change of volume. */
  lemma LettingGoEndsItExactly(events: seq<VolumeEvent>, table: KeyTable, code: nat, pressed: Mods, released: Mods,
      syms: seq<nat>, rate: int)
    requires Books(VolumeKeyEvent(code, LooksUpTo(table, pressed, syms), true, rate))
    ensures var held := events + [VolumeKeyEvent(code, LooksUpTo(table, pressed, syms), true, rate)];
            var after := held + [VolumeKeyEvent(code, LooksUpTo(table, released, syms), false, rate)];
            Wants(HoldAfter(after), HoldAfter(held).generation) <==> LooksUpTo(table, released, syms).None?
  {
    var held := events + [VolumeKeyEvent(code, LooksUpTo(table, pressed, syms), true, rate)];
    var after := held + [VolumeKeyEvent(code, LooksUpTo(table, released, syms), false, rate)];
    assert after[..|held|] == held && held[..|events|] == events;
  }

  /** A chord with a modifier, let go of modifier first, goes on stepping the volume. */
  lemma AModifierLetGoOfFirst()
    ensures var logo := Mods(false, false, false, true);
            var none := Mods(false, false, false, false);
            var table := KeyTable([], [(Pattern(logo, false, 0xFF52), Volume(Up))]);
            LooksUpTo(table, logo, [0xFF52]) == Some(Up) && LooksUpTo(table, none, [0xFF52]) == None
  {
    var logo := Mods(false, false, false, true);
    var none := Mods(false, false, false, false);
    var bindings: seq<Binding> := [(Pattern(logo, false, 0xFF52), Volume(Up))];
    assert bindings[1..] == [] && [0xFF52][1..] == [];
    assert FirstMatch(bindings, logo, 0xFF52) == Some(Volume(Up));
    assert FirstMatch(bindings, none, 0xFF52) == None;
    assert FirstAction(bindings, none, [0xFF52]) == None;
  }
}
