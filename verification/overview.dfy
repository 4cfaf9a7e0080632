/** Every display's overview: flights that can be reversed at any instant, at most one of them open,
    and cards that glide to their slots on a spring that can be looked ahead along. */
module Overview {
  import opened Wrappers
  import opened Fades
  import opened Spring

  const FLIGHT: nat := 300 * MS
  const LOOKS_AHEAD_AT_MOST: real := 0.25

  // ------------------------------------------------------------------ flights

  datatype Anim = Anim(output: string, open: bool, changedAt: nat, from: real)

  function Share(since: nat): real {
    since as real / FLIGHT as real
  }

  function Linear(anim: Anim, now: nat): real {
    var travelled := Share(Since(anim.changedAt, now));
    if anim.open then AtMost(anim.from + travelled, 1.0) else AtLeast(anim.from - travelled, 0.0)
  }

  function AtMost(x: real, top: real): real { if x > top then top else x }

  function AtLeast(x: real, bottom: real): real { if x < bottom then bottom else x }

  function Turned(anim: Anim, open: bool, now: nat): Anim {
    anim.(open := open, from := Linear(anim, now), changedAt := now)
  }

  type Flights = map<string, Anim>

  predicate Retains(anim: Anim, now: nat) {
    anim.open || Linear(anim, now) > 0.0
  }

  /** What entering or leaving the overview on `output` does to one display's flight. */
  function SetOne(flight: Option<Anim>, name: string, output: string, enabled: bool, now: nat): Option<Anim> {
    match flight
    case Some(anim) =>
      if name == output then Some(if anim.open != enabled then Turned(anim, enabled, now) else anim)
      else Some(if enabled && anim.open then Turned(anim, false, now) else anim)
    case None =>
      if name == output && enabled then Some(Anim(output, true, now, 0.0)) else None
  }

  function Get(flights: Flights, name: string): Option<Anim> {
    if name in flights then Some(flights[name]) else None
  }

  /** One flight after the sweep that ends each call. */
  function Left(flight: Option<Anim>, now: nat): Option<Anim> {
    if flight.Some? && Retains(flight.value, now) then flight else None
  }

  /** A call as a whole, display by display: turned if it must be, then swept. */
  ghost predicate SetAll(before: Flights, after: Flights, output: string, enabled: bool, now: nat) {
    forall name :: Get(after, name) == Left(SetOne(Get(before, name), name, output, enabled, now), now)
  }

  /** Eased progress of one display: 0 is normal rendering, 1 is every window in its card. */
  function Progress(flights: Flights, name: string, now: nat): real {
    Eased(Get(flights, name), now)
  }

  function Eased(flight: Option<Anim>, now: nat): real {
    match flight
    case None => 0.0
    case Some(anim) => Ease(Linear(anim, now))
  }

  function Ease(p: real): real {
    p * p * (3.0 - 2.0 * p)
  }

  predicate Named(flight: Option<Anim>, name: string) {
    flight.Some? ==> flight.value.output == name && 0.0 <= flight.value.from <= 1.0
  }

  predicate Opened(flight: Option<Anim>) {
    flight.Some? && flight.value.open
  }

  ghost predicate Sound(flights: Flights) {
    && (forall name :: Named(Get(flights, name), name))
    && (forall a, b :: Opened(Get(flights, a)) && Opened(Get(flights, b)) ==> a == b)
  }

  lemma LinearInRange(anim: Anim, now: nat)
    requires 0.0 <= anim.from <= 1.0
    ensures 0.0 <= Linear(anim, now) <= 1.0
    ensures now <= anim.changedAt ==> Linear(anim, now) == anim.from
    ensures now >= anim.changedAt + 300_000_000 ==> Linear(anim, now) == if anim.open then 1.0 else 0.0
  {
    Fraction(Since(anim.changedAt, now), FLIGHT);
  }

  /** A flight goes at one speed, the whole way in three tenths of a second: turned round after a part of it,
      it is back in as long as it was away. */
  lemma GoesAtOneSpeed(anim: Anim, now: nat)
    requires 0.0 <= anim.from <= 1.0 && anim.changedAt <= now
    ensures var gone := (now - anim.changedAt) as real / 300_000_000.0;
            Linear(anim, now) ==
            if anim.open then (if anim.from + gone >= 1.0 then 1.0 else anim.from + gone)
            else if anim.from <= gone then 0.0 else anim.from - gone
  {}

  lemma OneKeeps(flight: Option<Anim>, name: string, output: string, enabled: bool, now: nat)
    requires Named(flight, name)
    ensures var after := Left(SetOne(flight, name, output, enabled, now), now);
            && Named(after, name)
            && Eased(after, now) == Eased(flight, now)
            && (Opened(after) ==> if enabled then name == output else Opened(flight))
            && (name == output ==> (Opened(after) <==> enabled))
  {
    var turned := SetOne(flight, name, output, enabled, now);
    if flight.Some? {
      LinearInRange(flight.value, now);
    }
    if turned.Some? {
      LinearInRange(turned.value, now);
      assert Linear(turned.value, now) == if flight.Some? then Linear(flight.value, now) else 0.0;
    }
  }

  /** At most one overview is open, whatever was entered or left: the one that was entered, if one was.
      Nothing jumps when it is. */
  lemma SetKeeps(before: Flights, after: Flights, output: string, enabled: bool, now: nat)
    requires Sound(before) && SetAll(before, after, output, enabled, now)
    ensures Sound(after)
    ensures forall name :: Progress(after, name, now) == Progress(before, name, now)
    ensures Opened(Get(after, output)) <==> enabled
    ensures forall name :: Opened(Get(after, name)) ==> if enabled then name == output else Opened(Get(before, name))
    ensures forall name :: name != output && Opened(Get(before, name)) && !enabled ==> Opened(Get(after, name))
    ensures forall name :: name in after ==> after[name].open || Linear(after[name], now) > 0.0
  {
    forall name | name in after ensures after[name].open || Linear(after[name], now) > 0.0 {
      assert Get(after, name) == Left(SetOne(Get(before, name), name, output, enabled, now), now);
    }
    forall name
      ensures Named(Get(after, name), name)
      ensures Progress(after, name, now) == Progress(before, name, now)
      ensures Opened(Get(after, name)) ==> if enabled then name == output else Opened(Get(before, name))
      ensures name == output ==> (Opened(Get(after, name)) <==> enabled)
    {
      OneKeeps(Get(before, name), name, output, enabled, now);
    }
    forall name | name != output && Opened(Get(before, name)) && !enabled ensures Opened(Get(after, name)) {
      assert Get(after, name) == Left(SetOne(Get(before, name), name, output, enabled, now), now);
    }
  }

  /** How far a display is into its overview, eased: at no speed when it leaves or arrives. */
  lemma ProgressIsEased(flights: Flights, name: string, now: nat)
    requires Sound(flights)
    ensures Progress(flights, name, now) == if name in flights then Smoothstep(Linear(flights[name], now)) else 0.0
  {
    assert Named(Get(flights, name), name);
    if name in flights {
      LinearInRange(flights[name], now);
    }
  }

  lemma ProgressInRange(flights: Flights, name: string, now: nat)
    requires Sound(flights)
    ensures 0.0 <= Progress(flights, name, now) <= 1.0
  {
    var flight := Get(flights, name);
    assert Named(flight, name);
    if flight.Some? {
      LinearInRange(flight.value, now);
      EaseInRange(Linear(flight.value, now));
    }
  }

  lemma EaseInRange(p: real)
    requires 0.0 <= p <= 1.0
    ensures 0.0 <= Ease(p) <= 1.0
  {
    Bounds(p);
  }

  datatype Request = Request(output: string, enabled: bool, at: nat)

  /** A run: the flights before each request, and after the last. */
  ghost predicate IsRun(states: seq<Flights>, requests: seq<Request>) {
    && |states| == |requests| + 1 && states[0] == map[]
    && forall i :: 0 <= i < |requests| ==>
         SetAll(states[i], states[i + 1], requests[i].output, requests[i].enabled, requests[i].at)
  }

  /** Over every sequence of requests on any displays at any instants: never two overviews open, and no
      request moves a window at the instant it is made. */
  lemma {:induction false} EveryRun(states: seq<Flights>, requests: seq<Request>)
    requires IsRun(states, requests)
    ensures forall i :: 0 <= i < |states| ==> Sound(states[i])
    ensures forall i, name :: 0 <= i < |requests| ==>
              Progress(states[i + 1], name, requests[i].at) == Progress(states[i], name, requests[i].at)
    decreases |requests|
  {
    if requests != [] {
      var n := |requests| - 1;
      var first, asked := states[..n + 1], requests[..n];
      assert forall i :: 0 <= i < n ==>
        SetAll(first[i], first[i + 1], asked[i].output, asked[i].enabled, asked[i].at);
      EveryRun(first, asked);
      assert states[n] == first[n];
      SetKeeps(states[n], states[n + 1], requests[n].output, requests[n].enabled, requests[n].at);
      forall i, name | 0 <= i < |requests|
        ensures Progress(states[i + 1], name, requests[i].at) == Progress(states[i], name, requests[i].at)
      {
        if i < n {
          assert Progress(first[i + 1], name, asked[i].at) == Progress(first[i], name, asked[i].at);
        }
      }
      forall i | 0 <= i < |states| ensures Sound(states[i]) {
        if i <= n { assert Sound(first[i]); }
      }
    }
  }

  /** The overview of `output` was last asked for at `k`, and has been left alone since: nobody has left it, and
      nobody has asked for another. */
  ghost predicate AskedFor(requests: seq<Request>, i: int, k: int, output: string) {
    && 0 <= k < i <= |requests| && requests[k].output == output && requests[k].enabled
    && forall j :: k < j < i ==> if requests[j].output == output then requests[j].enabled else !requests[j].enabled
  }

  /** Over every run, an overview is open exactly when it has been asked for; and no flight that is there set out
      later than any instant past all the requests. */
  lemma {:induction false} OpenExactly(states: seq<Flights>, requests: seq<Request>, i: nat, output: string, late: nat)
    requires IsRun(states, requests) && i <= |requests|
    requires forall j :: 0 <= j < i ==> requests[j].at <= late
    ensures Sound(states[i])
    ensures Opened(Get(states[i], output)) <==> exists k :: AskedFor(requests, i, k, output)
    ensures Get(states[i], output).Some? ==> Get(states[i], output).value.changedAt <= late
  {
    if i > 0 {
      var n := i - 1;
      OpenExactly(states, requests, n, output, late);
      var r := requests[n];
      SetKeeps(states[n], states[n + 1], r.output, r.enabled, r.at);
      assert Get(states[n + 1], output) ==
             Left(SetOne(Get(states[n], output), output, r.output, r.enabled, r.at), r.at);
      if r.output == output && r.enabled {
        assert AskedFor(requests, i, n, output);
      } else if k :| AskedFor(requests, n, k, output) && r.output != output && !r.enabled {
        assert AskedFor(requests, i, k, output);
      }
      forall k | AskedFor(requests, i, k, output) && k < n ensures AskedFor(requests, n, k, output) {}
    }
  }

  /** So three tenths of a second after the last request, every display is where it was asked to be: seated in
      the overview that was asked for, and nowhere else. */
  lemma ThreeTenthsLaterItIsAsAsked(states: seq<Flights>, requests: seq<Request>, output: string, now: nat)
    requires IsRun(states, requests) && forall j :: 0 <= j < |requests| ==> requests[j].at + 300_000_000 <= now
    ensures Progress(states[|requests|], output, now) ==
            if exists k :: AskedFor(requests, |requests|, k, output) then 1.0 else 0.0
  {
    var end := states[|requests|];
    if requests != [] {
      assert requests[0].at + 300_000_000 <= now;
      OpenExactly(states, requests, |requests|, output, now - 300_000_000);
      assert Named(Get(end, output), output);
      if output in end {
        LinearInRange(end[output], now);
      }
    }
  }

  // ------------------------------------------------------------------ cards

  datatype Rect = Rect(x: real, y: real, w: real, h: real)

  const STILL := Rect(0.0, 0.0, 0.0, 0.0)

  datatype Glide = Glide(at: Rect, velocity: Rect)

  /** Each edge on its own spring, all four at one stiffness. */
  function Advance(exp: real -> real, g: Glide, target: Rect, dt: real): Glide {
    Carried(exp, g, target, Spring.Between(0.0, dt, LONGEST_STEP))
  }

  function Edge(exp: real -> real, at: real, speed: real, target: real, t: real): Motion {
    Flow(exp, Motion(at, speed), target, CARD_SPRING, t)
  }

  /** Where a card is `t` seconds on, with nothing cutting the time short. */
  function Carried(exp: real -> real, g: Glide, target: Rect, t: real): Glide {
    var x := Edge(exp, g.at.x, g.velocity.x, target.x, t);
    var y := Edge(exp, g.at.y, g.velocity.y, target.y, t);
    var w := Edge(exp, g.at.w, g.velocity.w, target.w, t);
    var h := Edge(exp, g.at.h, g.velocity.h, target.h, t);
    Glide(Rect(x.at, y.at, w.at, h.at), Rect(x.speed, y.speed, w.speed, h.speed))
  }

  lemma CarriedTwice(exp: real -> real, g: Glide, target: Rect, s: real, t: real)
    requires IsExp(exp)
    ensures Carried(exp, Carried(exp, g, target, s), target, t) == Carried(exp, g, target, s + t)
  {
    FlowsTogether(exp, Motion(g.at.x, g.velocity.x), target.x, CARD_SPRING, s, t);
    FlowsTogether(exp, Motion(g.at.y, g.velocity.y), target.y, CARD_SPRING, s, t);
    FlowsTogether(exp, Motion(g.at.w, g.velocity.w), target.w, CARD_SPRING, s, t);
    FlowsTogether(exp, Motion(g.at.h, g.velocity.h), target.h, CARD_SPRING, s, t);
  }

  lemma CarriedNowhere(exp: real -> real, g: Glide, target: Rect)
    requires IsExp(exp)
    ensures Carried(exp, g, target, 0.0) == g
  {
    NoTimeNoMotion(exp, Motion(g.at.x, g.velocity.x), target.x, CARD_SPRING);
    NoTimeNoMotion(exp, Motion(g.at.y, g.velocity.y), target.y, CARD_SPRING);
    NoTimeNoMotion(exp, Motion(g.at.w, g.velocity.w), target.w, CARD_SPRING);
    NoTimeNoMotion(exp, Motion(g.at.h, g.velocity.h), target.h, CARD_SPRING);
  }

  function Seconds(ns: nat): real {
    ns as real / 1_000_000_000.0
  }

  /** A display drawing frames at the given instants, its card last stepped at `since`. */
  function Drawn(exp: real -> real, g: Glide, target: Rect, since: nat, frames: seq<nat>): Glide
    decreases |frames|
  {
    if frames == [] then g
    else Drawn(exp, Advance(exp, g, target, Seconds(Since(since, frames[0]))), target, frames[0], frames[1..])
  }

  /** Frames that never go back and never leave a gap longer than the longest step. */
  ghost predicate Smooth(since: nat, frames: seq<nat>)
    decreases |frames|
  {
    frames != [] ==>
      && since <= frames[0] && frames[0] - since <= 100_000_000
      && Smooth(frames[0], frames[1..])
  }

  function LastOf(since: nat, frames: seq<nat>): nat {
    if frames == [] then since else frames[|frames| - 1]
  }

  lemma FrameThenRest(exp: real -> real, g: Glide, target: Rect, since: nat, first: nat, last: nat)
    requires IsExp(exp) && since <= first <= last && first - since <= 100_000_000
    ensures Carried(exp, Advance(exp, g, target, Seconds(first - since)), target, Seconds(last - first))
            == Carried(exp, g, target, Seconds(last - since))
  {
    assert Advance(exp, g, target, Seconds(first - since)) == Carried(exp, g, target, Seconds(first - since));
    CarriedTwice(exp, g, target, Seconds(first - since), Seconds(last - first));
    assert Seconds(first - since) + Seconds(last - first) == Seconds(last - since);
  }

  lemma {:induction false} SmoothFramesFlow(exp: real -> real, g: Glide, target: Rect, since: nat, frames: seq<nat>)
    requires IsExp(exp) && Smooth(since, frames)
    ensures since <= LastOf(since, frames)
    ensures Drawn(exp, g, target, since, frames) == Carried(exp, g, target, Seconds(LastOf(since, frames) - since))
    decreases |frames|
  {
    if frames == [] {
      CarriedNowhere(exp, g, target);
    } else {
      var first, last := frames[0], LastOf(since, frames);
      assert LastOf(first, frames[1..]) == last;
      var next := Advance(exp, g, target, Seconds(first - since));
      SmoothFramesFlow(exp, next, target, first, frames[1..]);
      FrameThenRest(exp, g, target, since, first, last);
    }
  }

  /** How far ahead of the last frame a look goes. */
  function Ahead(since: nat, at: nat): real {
    AtMost(Seconds(Since(since, at)), LOOKS_AHEAD_AT_MOST)
  }

  /** Looking ahead to the instant of a frame says what drawing it will: for every way of dividing the
      time up to it into frames, as long as it is no further off than a look goes. */
  lemma LookingAheadIsDrawing(exp: real -> real, g: Glide, target: Rect, since: nat, frames: seq<nat>)
    requires IsExp(exp) && Smooth(since, frames)
    requires LastOf(since, frames) <= since + 250_000_000
    ensures Drawn(exp, g, target, since, frames) == Carried(exp, g, target, Ahead(since, LastOf(since, frames)))
  {
    SmoothFramesFlow(exp, g, target, since, frames);
  }

  /** Further off than a quarter of a second, a look sees what it would see at a quarter. */
  lemma NoLookGoesFurther(since: nat, at: nat)
    requires at >= since + 250_000_000
    ensures Ahead(since, at) == 0.25
  {}

  /** A frame longer in coming than a tenth of a second moves a card as far as one of a tenth. */
  lemma AStallIsNotReplayed(exp: real -> real, g: Glide, target: Rect, dt: real)
    requires dt >= 0.1
    ensures Advance(exp, g, target, dt) == Carried(exp, g, target, 0.1)
  {}

  predicate ClosesIn(from: real, at: real, target: real) {
    && (from > target ==> target < at < from)
    && (from < target ==> from < at < target)
    && (from == target ==> at == target)
  }

  /** No more is left of a way than four parts in nineteen times the seconds. */
  predicate NearlyThere(from: real, at: real, target: real, t: real) {
    && (from >= target ==> (at - target) * (19.0 * t) <= 4.0 * (from - target))
    && (from <= target ==> (target - at) * (19.0 * t) <= 4.0 * (target - from))
  }

  lemma AnEdgeClosesIn(exp: real -> real, from: real, target: real, t: real)
    requires IsExp(exp) && t > 0.0
    ensures var at := Edge(exp, from, 0.0, target, t).at; ClosesIn(from, at, target) && NearlyThere(from, at, target, t)
  {
    var left, x := (1.0 + 19.0 * t) * Decay(exp, 19.0, t), 19.0 * t;
    var o, at := from - target, Edge(exp, from, 0.0, target, t).at;
    NeverCrosses(exp, from, target, 19.0, t);
    Spring.Arrives(exp, 19.0, t);
    Spring.Share(o, 19.0, t, Decay(exp, 19.0, t));
    assert at - target == o * left;
    Shortened(o, left, x, o * left);
  }

  lemma Shortened(o: real, left: real, x: real, after: real)
    requires 0.0 < left < 1.0 && left * x <= 4.0 && after == o * left
    ensures o > 0.0 ==> after < o
    ensures o < 0.0 ==> after > o
    ensures o >= 0.0 ==> after * x <= 4.0 * o
    ensures o <= 0.0 ==> -after * x <= 4.0 * -o
  {
    assert after * x == o * (left * x);
    if o > 0.0 {
      Spring.Positive(1.0 - left, o);
      assert (1.0 - left) * o == o - after;
      Spring.Positive(4.0 - left * x, o);
      assert (4.0 - left * x) * o == 4.0 * o - o * (left * x);
    } else if o < 0.0 {
      Spring.Positive(1.0 - left, -o);
      assert (1.0 - left) * -o == after - o;
      Spring.Positive(4.0 - left * x, -o);
      assert (4.0 - left * x) * -o == o * (left * x) - 4.0 * o;
    }
  }

  /** A card that is still when its slot moves closes in on it with every one of its edges, each towards its own,
      crossing none, and after a second no more than four parts in nineteen of its way are left. */
  lemma ACardClosesIn(exp: real -> real, from: Rect, target: Rect, t: real)
    requires IsExp(exp) && t > 0.0
    ensures var at := Carried(exp, Glide(from, STILL), target, t).at;
            && ClosesIn(from.x, at.x, target.x) && NearlyThere(from.x, at.x, target.x, t)
            && ClosesIn(from.y, at.y, target.y) && NearlyThere(from.y, at.y, target.y, t)
            && ClosesIn(from.w, at.w, target.w) && NearlyThere(from.w, at.w, target.w, t)
            && ClosesIn(from.h, at.h, target.h) && NearlyThere(from.h, at.h, target.h, t)
  {
    AnEdgeClosesIn(exp, from.x, target.x, t);
    AnEdgeClosesIn(exp, from.y, target.y, t);
    AnEdgeClosesIn(exp, from.w, target.w, t);
    AnEdgeClosesIn(exp, from.h, target.h, t);
  }

  // ------------------------------------------------------------------ the state itself

  function Closed(anim: Anim, now: nat): Anim {
    if anim.open then Turned(anim, false, now) else anim
  }

  ghost predicate Unique(anims: seq<Anim>) {
    forall i, j :: 0 <= i < j < |anims| ==> anims[i].output != anims[j].output
  }

  ghost function Flown(anims: seq<Anim>): Flights
    requires Unique(anims)
  {
    map anim | anim in anims :: anim.output := anim
  }

  lemma FlownAt(anims: seq<Anim>, i: nat)
    requires Unique(anims) && i < |anims|
    ensures Get(Flown(anims), anims[i].output) == Some(anims[i])
  {
    assert anims[i] in anims;
  }

  /** The sweep: flights still going somewhere, in their order. */
  method Kept(anims: seq<Anim>, now: nat) returns (kept: seq<Anim>)
    requires Unique(anims)
    ensures Unique(kept)
    ensures forall name :: Get(Flown(kept), name) == Left(Get(Flown(anims), name), now)
  {
    kept := [];
    for i := 0 to |anims|
      invariant Unique(kept)
      invariant forall anim :: anim in kept <==> anim in anims[..i] && Retains(anim, now)
    {
      assert forall anim :: anim in anims[..i] ==> anim.output != anims[i].output;
      if Retains(anims[i], now) {
        kept := kept + [anims[i]];
      }
    }
    assert anims[..|anims|] == anims;
    forall name ensures Get(Flown(kept), name) == Left(Get(Flown(anims), name), now) {
      if i :| 0 <= i < |kept| && kept[i].output == name {
        FlownAt(kept, i);
        assert kept[i] in anims;
      }
    }
  }

  lemma Elsewhere(was: seq<Anim>, now: seq<Anim>, output: string)
    requires Unique(was) && Unique(now) && |was| <= |now|
    requires forall j :: 0 <= j < |was| ==> now[j] == was[j] || now[j].output == was[j].output == output
    requires forall j :: |was| <= j < |now| ==> now[j].output == output
    ensures forall name :: name != output ==> Get(Flown(now), name) == Get(Flown(was), name)
  {
    forall name | name != output ensures Get(Flown(now), name) == Get(Flown(was), name) {
      if j :| 0 <= j < |now| && now[j].output == name {
        FlownAt(now, j);
        FlownAt(was, j);
      } else {
        assert forall j :: 0 <= j < |was| && was[j] == now[j] ==> was[j].output != name;
      }
    }
  }

  lemma Together(before: Flights, left: Flights, turned: Flights, after: Flights, output: string, enabled: bool,
      now: nat)
    requires forall name :: Get(left, name) ==
               if enabled && name != output then SetOne(Get(before, name), name, output, true, now)
                   else Get(before, name)
    requires Get(turned, output) == SetOne(Get(left, output), output, output, enabled, now)
    requires forall name :: name != output ==> Get(turned, name) == Get(left, name)
    requires forall name :: Get(after, name) == Left(Get(turned, name), now)
    ensures SetAll(before, after, output, enabled, now)
  {
    forall name ensures Get(after, name) == Left(SetOne(Get(before, name), name, output, enabled, now), now) {
      assert Get(after, name) == Left(Get(turned, name), now);
      assert Get(turned, name) == SetOne(Get(before, name), name, output, enabled, now);
    }
  }

  class Overviews {
    var anims: seq<Anim>
    var eased: map<(string, nat), Glide>
    var ticked: map<string, nat>
    const exp: real -> real

    constructor (exp: real -> real)
      requires IsExp(exp)
      ensures Valid() && View() == map[] && eased == map[] && ticked == map[] && this.exp == exp
    {
      anims, eased, ticked := [], map[], map[];
      this.exp := exp;
    }

    /** One flight per display, and at most one of them towards open. */
    ghost predicate Valid()
      reads this
    {
      Unique(anims) && Sound(Flown(anims)) && IsExp(exp)
    }

    ghost function View(): Flights
      requires Unique(anims)
      reads this
    {
      Flown(anims)
    }

    /** Leave the overview on every display but one. */
    method LeaveOthers(output: string, now: nat)
      requires Unique(anims)
      modifies this`anims
      ensures Unique(anims)
      ensures forall name :: Get(View(), name) == if name == output then old(Get(View(), name))
                             else SetOne(old(Get(View(), name)), name, output, true, now)
    {
      for i := 0 to |anims|
        invariant |anims| == |old(anims)|
        invariant forall j :: 0 <= j < |anims| ==>
                    var was := old(anims)[j];
                    anims[j] == if j < i && was.output != output then Closed(was, now) else was
      {
        if anims[i].output != output && anims[i].open {
          anims := anims[i := Turned(anims[i], false, now)];
        }
      }
      assert forall j :: 0 <= j < |anims| ==> anims[j].output == old(anims)[j].output;
      forall name ensures Get(View(), name) == if name == output then old(Get(View(), name))
                             else SetOne(old(Get(View(), name)), name, output, true, now)
      {
        if j :| 0 <= j < |anims| && anims[j].output == name {
          FlownAt(anims, j);
          FlownAt(old(anims), j);
        }
      }
    }

    /** Start or turn the one flight asked about. */
    method TurnOne(output: string, enabled: bool, now: nat)
      requires Unique(anims)
      modifies this`anims
      ensures Unique(anims)
      ensures Get(View(), output) == SetOne(old(Get(View(), output)), output, output, enabled, now)
      ensures forall name :: name != output ==> Get(View(), name) == old(Get(View(), name))
    {
      ghost var was := anims;
      var i := 0;
      while i < |anims| && anims[i].output != output
        invariant 0 <= i <= |anims|
        invariant forall j :: 0 <= j < i ==> anims[j].output != output
      {
        i := i + 1;
      }
      if i < |anims| {
        FlownAt(was, i);
        if anims[i].open != enabled {
          anims := anims[i := Turned(anims[i], enabled, now)];
        }
        FlownAt(anims, i);
      } else if enabled {
        anims := anims + [Anim(output, true, now, 0.0)];
        FlownAt(anims, i);
      }
      Elsewhere(was, anims, output);
    }

    /** Enter or leave the overview on one display; entering it on one leaves it on every other. */
    method Set(output: string, enabled: bool, now: nat)
      requires Valid()
      modifies this`anims, this`eased
      ensures Valid() && SetAll(old(View()), View(), output, enabled, now)
      ensures eased == map key | key in old(eased) && key.0 in View() :: old(eased)[key]
    {
      ghost var before := View();
      if enabled {
        LeaveOthers(output, now);
      }
      ghost var left := View();
      TurnOne(output, enabled, now);
      ghost var turned := View();
      anims := Kept(anims, now);
      Together(before, left, turned, View(), output, enabled, now);
      SetKeeps(before, View(), output, enabled, now);
      var live := set anim | anim in anims :: anim.output;
      assert live == View().Keys;
      eased := map key | key in eased && key.0 in live :: eased[key];
    }

    method Leave(output: string, now: nat)
      requires Valid()
      modifies this`anims, this`eased
      ensures Valid() && SetAll(old(View()), View(), output, false, now)
      ensures eased == map key | key in old(eased) && key.0 in View() :: old(eased)[key]
      ensures forall name :: Opened(Get(View(), name)) ==> name != output && old(Opened(Get(View(), name)))
      ensures forall name :: Progress(View(), name, now) == old(Progress(View(), name, now))
    {
      ghost var was := View();
      Set(output, false, now);
      SetKeeps(was, View(), output, false, now);
    }

    method OpenOnes() returns (outputs: seq<string>)
      requires Valid()
      ensures forall name :: name in outputs <==> Opened(Get(View(), name))
      ensures |outputs| <= 1
    {
      outputs := [];
      for i := 0 to |anims|
        invariant forall name :: name in outputs <==> exists j :: 0 <= j < i && anims[j].open && anims[j].output == name
        invariant |outputs| <= 1
      {
        FlownAt(anims, i);
        if anims[i].open {
          if outputs != [] {
            assert outputs[0] in outputs;
            var j :| 0 <= j < i && anims[j].open && anims[j].output == outputs[0];
            FlownAt(anims, j);
            assert false;
          }
          outputs := outputs + [anims[i].output];
        }
      }
    }

    /** The shell has gone: the one display that is open is left, and if none is nothing is touched. */
    method CloseAll(now: nat)
      requires Valid()
      modifies this`anims, this`eased
      ensures Valid()
      ensures forall name :: !Opened(Get(View(), name))
      ensures forall name :: Progress(View(), name, now) == old(Progress(View(), name, now))
      ensures forall name :: Opened(old(Get(View(), name))) ==> SetAll(old(View()), View(), name, false, now)
      ensures if exists name :: Opened(old(Get(View(), name))) then
                eased == map key | key in old(eased) && key.0 in View() :: old(eased)[key]
              else View() == old(View()) && eased == old(eased)
    {
      var outputs := OpenOnes();
      for i := 0 to |outputs|
        invariant Valid()
        invariant i == 0 ==> View() == old(View()) && eased == old(eased)
        invariant i == 1 ==> SetAll(old(View()), View(), outputs[0], false, now)
        invariant i == 1 ==> eased == map key | key in old(eased) && key.0 in View() :: old(eased)[key]
        invariant i == 1 ==> forall name :: !Opened(Get(View(), name))
        invariant forall name :: Progress(View(), name, now) == old(Progress(View(), name, now))
      {
        assert outputs[i] in outputs;
        Leave(outputs[i], now);
      }
    }

    /** Seconds since this display's cards last advanced. */
    method Tick(output: string, now: nat) returns (dt: real)
      modifies this`ticked
      ensures ticked == old(ticked)[output := now]
      ensures dt == if output in old(ticked) then Seconds(Since(old(ticked)[output], now)) else 0.0
    {
      dt := if output in ticked then Seconds(Since(ticked[output], now)) else 0.0;
      ticked := ticked[output := now];
    }

    /** Step a card towards its slot; one seen for the first time starts there. */
    method GlideOn(output: string, window: nat, target: Rect, dt: real) returns (at: Rect)
      requires Valid()
      modifies this`eased
      ensures Valid()
      ensures var key := (output, window);
              && key in eased
              && eased == old(eased)[key := eased[key]]
              && at == eased[key].at
              && (key in old(eased) ==> eased[key] == Advance(exp, old(eased)[key], target, dt))
              && (key !in old(eased) ==> at == target)
    {
      var key := (output, window);
      var glide := if key in eased then eased[key] else Glide(target, STILL);
      eased := eased[key := Advance(exp, glide, target, dt)];
      Rests(exp, target, Spring.Between(0.0, dt, LONGEST_STEP));
      at := eased[key].at;
    }

    /** Where a card will be: the same spring solved forward on a copy. Moves nothing. */
    method GlideAt(output: string, window: nat, target: Rect, at: nat) returns (place: Rect)
      requires Valid()
      ensures place ==
              if (output, window) !in eased then target
              else if output !in ticked then eased[(output, window)].at
              else Carried(exp, eased[(output, window)], target, Ahead(ticked[output], at)).at
    {
      if (output, window) !in eased {
        return target;
      }
      var glide := eased[(output, window)];
      if output !in ticked {
        return glide.at;
      }
      var ahead := Ahead(ticked[output], at);
      ghost var there := Carried(exp, glide, target, ahead);
      while ahead > 0.0
        invariant ahead >= 0.0
        invariant Carried(exp, glide, target, ahead) == there
        decreases if ahead > 0.0 then (ahead * 10.0).Floor + 1 else 0
      {
        var step := AtMost(ahead, LONGEST_STEP);
        CarriedTwice(exp, glide, target, step, ahead - step);
        glide := Advance(exp, glide, target, step);
        ahead := ahead - step;
      }
      CarriedNowhere(exp, glide, target);
      place := glide.at;
    }
  }

  /** A card sitting still on its slot stays there. */
  lemma Rests(exp: real -> real, target: Rect, t: real)
    ensures Carried(exp, Glide(target, STILL), target, t).at == target
  {
  }
}
