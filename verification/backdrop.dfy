/** The wallpaper's two threads: the event loop that shows a frame, and the painter that draws the next.

    Each lock-protected stretch, each clock reading and each notification is one move; the moves of the
    two threads interleave in every order, and time passes between any two of them. */
module Backdrop {
  import opened Wrappers
  import opened Fades

  const FRAME_INTERVAL: nat := 33 * MS
  const FULL_RATE_FOR: nat := 10_000 * MS
  const EASED_INTERVAL: nat := 200 * MS
  const KEEP_PAINTING: nat := 100 * MS
  const TOO_OLD: nat := 250 * MS

  /** A frame: the scene time it is labelled with, and the scene time it is a picture of. */
  datatype Frame = Frame(at: nat, of: nat)

  /** How a call to catch up ended: whether the painter had been painting, and the clock it went by. */
  datatype Caught = Caught(was: bool, scene: nat)

  datatype Loop =
    | Idle(last: Option<Caught>)
    | Asked(was: bool)
    | Notified(was: bool)
    | Sampled(was: bool, scene: nat)
    | SelfDrawing(scene: nat)
    | Stopping
    | Dropped

  datatype Thread =
    | Checking(since: Option<nat>)
    | Asleep
    | Cleared(since: Option<nat>)
    | Reading(began: nat)
    | Timing(began: nat, scene: nat)
    | Drawing(began: nat, scene: nat, started: nat)
    | Publishing(began: nat, frame: Frame, started: nat, took: nat)
    | Pacing(began: nat, started: nat, took: nat)
    | Sleeping(began: nat, started: nat, took: nat, wake: nat)
    | Ended

  /** What the painter's finished rounds add up to: rounds, time drawing, time in all. */
  datatype Tally = Tally(rounds: nat, drawing: nat, running: nat)

  datatype State = State(now: nat, origin: nat, shown: Frame,
                         finished: Option<Frame>, until: Option<nat>, stopped: bool,
                         ui: Loop, thread: Thread, tally: Tally)

  datatype Move =
    | Passes(ns: nat)
    | Wants(gap: nat) | Notifies | Samples | Takes | Finishes | Stops | NotifiesStop
    | Checks | Stirs | Begins | ReadsScene | StartsTimer | Drew | Publishes | Paces | Wakes

  function Scene(s: State): nat {
    Since(s.origin, s.now)
  }

  predicate Stale(scene: nat, at: nat) {
    Since(at, scene) >= TOO_OLD
  }

  predicate Ahead(until: Option<nat>, now: nat) {
    until.Some? && until.value > now
  }

  function Larger(a: nat, b: nat): nat {
    if a < b then b else a
  }

  function Interval(since: nat, now: nat): nat {
    if Since(since, now) > FULL_RATE_FOR then EASED_INTERVAL else FRAME_INTERVAL
  }

  function Pause(since: nat, took: nat, now: nat): nat {
    Larger(Since(took, Interval(since, now)), took)
  }

  /** A notification reaches a thread that is waiting, and is lost on one that is not. */
  function Woken(thread: Thread): Thread {
    if thread == Asleep then Checking(None) else thread
  }

  /** Opening on a clock that should read `scene`. An instant is counted from the machine's start, and
      one before that cannot be had: then the clock starts from zero at a second reading. */
  function Opening(now: nat, later: nat, scene: nat, spawned: bool): State
    requires now <= later
  {
    State(later, if scene <= now then now - scene else later, Frame(scene, scene), None, None, false,
          Idle(None), if spawned then Checking(None) else Ended, Tally(0, 0, 0))
  }

  predicate Enabled(s: State, m: Move) {
    match m
    case Passes(_) => true
    case Wants(_) => s.ui.Idle?
    case Notifies => s.ui.Asked?
    case Samples => s.ui.Notified?
    case Takes => s.ui.Sampled?
    case Finishes => s.ui.SelfDrawing?
    case Stops => s.ui.Idle?
    case NotifiesStop => s.ui.Stopping?
    case Checks => s.thread.Checking?
    case Stirs => s.thread.Asleep?
    case Begins => s.thread.Cleared?
    case ReadsScene => s.thread.Reading?
    case StartsTimer => s.thread.Timing?
    case Drew => s.thread.Drawing? && s.thread.started <= s.now
    case Publishes => s.thread.Publishing?
    case Paces => s.thread.Pacing?
    case Wakes => s.thread.Sleeping? && s.thread.wake <= s.now
  }

  predicate Painters(m: Move) {
    m.Checks? || m.Stirs? || m.Begins? || m.ReadsScene? || m.StartsTimer? || m.Drew? || m.Publishes?
    || m.Paces? || m.Wakes?
  }

  /** The event loop's half, from asking for the wallpaper to having it on screen. */
  function LoopMoves(s: State, m: Move): State
    requires Enabled(s, m) && !Painters(m)
  {
    match m
    case Passes(ns) => s.(now := s.now + ns)
    case Wants(gap) =>
      s.(now := s.now + gap, until := Some(s.now + gap + KEEP_PAINTING), ui := Asked(Ahead(s.until, s.now)))
    case Notifies => s.(thread := Woken(s.thread), ui := Notified(s.ui.was))
    case Samples => s.(ui := Sampled(s.ui.was, Scene(s)))
    case Takes => Taken(s, s.ui.was, s.ui.scene)
    case Finishes => s.(shown := Frame(s.ui.scene, s.ui.scene), ui := Idle(Some(Caught(false, s.ui.scene))))
    case Stops => s.(stopped := true, ui := Stopping)
    case NotifiesStop => s.(thread := Woken(s.thread), ui := Dropped)
  }

  function Taken(s: State, was: bool, scene: nat): State {
    var back := Idle(Some(Caught(was, scene)));
    if s.finished.Some? && s.finished.value.at > s.shown.at && !Stale(scene, s.finished.value.at) then
      s.(finished := None, shown := s.finished.value, ui := back)
    else
      s.(finished := None, ui := if !was && Stale(scene, s.shown.at) then SelfDrawing(scene) else back)
  }

  /** The painter's half: one round from the check under the lock to the end of its pause. */
  function PainterMoves(s: State, m: Move): State
    requires Enabled(s, m) && Painters(m)
  {
    match m
    case Checks =>
      if s.stopped then s.(thread := Ended)
      else if Ahead(s.until, s.now) then s.(thread := Cleared(s.thread.since))
      else s.(thread := Asleep)
    case Stirs => s.(thread := Checking(None))
    case Begins => s.(thread := Reading(s.thread.since.GetOr(s.now)))
    case ReadsScene => s.(thread := Timing(s.thread.began, Scene(s)))
    case StartsTimer => s.(thread := Drawing(s.thread.began, s.thread.scene, s.now))
    case Drew =>
      var frame := Frame(s.thread.scene, s.thread.scene);
      s.(thread := Publishing(s.thread.began, frame, s.thread.started, s.now - s.thread.started))
    case Publishes =>
      if s.stopped then s.(thread := Ended)
      else s.(finished := Some(s.thread.frame), thread := Pacing(s.thread.began, s.thread.started, s.thread.took))
    case Paces =>
      var wake := s.now + Pause(s.thread.began, s.thread.took, s.now);
      s.(thread := Sleeping(s.thread.began, s.thread.started, s.thread.took, wake))
    case Wakes =>
      s.(thread := Checking(Some(s.thread.began)),
         tally := Tally(s.tally.rounds + 1, s.tally.drawing + s.thread.took,
                        s.tally.running + Since(s.thread.started, s.now)))
  }

  function Next(s: State, m: Move): State
    requires Enabled(s, m)
  {
    if Painters(m) then PainterMoves(s, m) else LoopMoves(s, m)
  }

  // ------------------------------------------------------------------ what every move keeps

  /** What is on screen is the opening picture, until the clock has passed it; after that it is never
      ahead of the clock. Every frame is a picture of the moment it is labelled with. */
  predicate Timely(s: State, opening: nat) {
    && s.origin <= s.now
    && (s.shown.at == opening || opening < s.shown.at <= Scene(s))
    && s.shown.of == s.shown.at
    && (s.finished.Some? ==> s.finished.value.at <= Scene(s) && s.finished.value.of == s.finished.value.at)
    && (s.ui.Sampled? || s.ui.SelfDrawing? ==> s.ui.scene <= Scene(s))
    && (s.ui.SelfDrawing? ==> Stale(s.ui.scene, s.shown.at))
    && (s.thread.Timing? || s.thread.Drawing? ==> s.thread.scene <= Scene(s))
    && (s.thread.Publishing? ==> s.thread.frame.at <= Scene(s) && s.thread.frame.of == s.thread.frame.at)
  }

  /** The painter is asleep with something to do only while the loop is about to notify it; and it is
      never told to draw for longer than it is kept for. */
  predicate Attended(s: State) {
    && (s.thread.Asleep? && (s.stopped || Ahead(s.until, s.now)) ==> s.ui.Asked? || s.ui.Stopping?)
    && (s.until.Some? ==> s.until.value <= s.now + KEEP_PAINTING)
    && (s.stopped <==> s.ui.Stopping? || s.ui.Dropped?)
  }

  /** A call that found the painter stopped came back with a frame that is not too old. */
  predicate Fresh(s: State) {
    s.ui.Idle? && s.ui.last.Some? && !s.ui.last.value.was ==> !Stale(s.ui.last.value.scene, s.shown.at)
  }

  /** Of the time its rounds took, the painter drew for at most half, and no more than one frame to the
      interval. */
  predicate Paced(s: State, born: nat) {
    var t := s.thread;
    && 2 * s.tally.drawing <= s.tally.running
    && s.tally.rounds * 33_000_000 <= s.tally.running
    && born <= s.now
    && s.tally.running <= s.now - born
    && (t.Drawing? || t.Publishing? || t.Pacing? || t.Sleeping? ==>
          born <= t.started <= s.now && s.tally.running <= t.started - born)
    && (t.Publishing? || t.Pacing? ==> t.started + t.took <= s.now)
    && (t.Sleeping? ==> t.wake >= t.started + 2 * t.took && t.wake >= t.started + 33_000_000)
  }

  predicate Good(s: State, opening: nat, born: nat) {
    Timely(s, opening) && Attended(s) && Fresh(s) && Paced(s, born)
  }

  lemma OpensGood(now: nat, later: nat, scene: nat, spawned: bool)
    requires now <= later
    ensures Good(Opening(now, later, scene, spawned), scene, later)
  {}

  lemma TakenIsTimely(s: State, opening: nat)
    requires s.ui.Sampled? && Timely(s, opening)
    ensures var after := Taken(s, s.ui.was, s.ui.scene);
            Timely(after, opening) && Scene(s) == Scene(after) && s.shown.at <= after.shown.at
  {}

  lemma LoopIsTimely(s: State, m: Move, opening: nat)
    requires Enabled(s, m) && !Painters(m) && Timely(s, opening)
    ensures Timely(LoopMoves(s, m), opening)
    ensures Scene(s) <= Scene(LoopMoves(s, m)) && s.shown.at <= LoopMoves(s, m).shown.at
  {
    if m.Takes? {
      TakenIsTimely(s, opening);
    }
  }

  lemma PainterIsTimely(s: State, m: Move, opening: nat)
    requires Enabled(s, m) && Painters(m) && Timely(s, opening)
    ensures Timely(PainterMoves(s, m), opening)
    ensures Scene(s) == Scene(PainterMoves(s, m)) && s.shown == PainterMoves(s, m).shown
  {}

  lemma MoveIsTimely(s: State, m: Move, opening: nat)
    requires Enabled(s, m) && Timely(s, opening)
    ensures Timely(Next(s, m), opening)
    ensures Scene(s) <= Scene(Next(s, m)) && s.shown.at <= Next(s, m).shown.at
  {
    if Painters(m) {
      PainterIsTimely(s, m, opening);
    } else {
      LoopIsTimely(s, m, opening);
    }
  }

  lemma MoveAttends(s: State, m: Move)
    requires Enabled(s, m) && Attended(s)
    ensures Attended(Next(s, m))
  {}

  lemma MoveIsFresh(s: State, m: Move)
    requires Enabled(s, m) && Fresh(s)
    ensures Fresh(Next(s, m))
  {}

  lemma Round(rounds: nat, running: nat, more: nat)
    requires rounds * 33_000_000 <= running && 33_000_000 <= more
    ensures (rounds + 1) * 33_000_000 <= running + more
  {}

  lemma MoveIsPaced(s: State, m: Move, born: nat)
    requires Enabled(s, m) && Paced(s, born)
    ensures Paced(Next(s, m), born)
  {
    if m.Wakes? {
      Round(s.tally.rounds, s.tally.running, Since(s.thread.started, s.now));
    }
  }

  /** A round takes the interval in force, eased off after ten seconds of painting, or twice its drawing
      where that is longer; and where publishing took no time, exactly that. */
  lemma ARoundTakes(s: State)
    requires s.thread.Pacing? && s.thread.started + s.thread.took <= s.now
    ensures var t, wake := s.thread, Next(s, Paces).thread.wake;
            var interval := if s.now > t.began + 10_000_000_000 then 200_000_000 else 33_000_000;
            && wake >= t.started + Larger(interval, 2 * t.took) && wake >= s.now + t.took
            && (s.now == t.started + t.took ==> wake == t.started + Larger(interval, 2 * t.took))
  {}

  // ------------------------------------------------------------------ whole runs

  predicate ValidRun(s: State, moves: seq<Move>)
    decreases |moves|
  {
    moves == [] || (Enabled(s, moves[0]) && ValidRun(Next(s, moves[0]), moves[1..]))
  }

  function After(s: State, moves: seq<Move>): State
    requires ValidRun(s, moves)
    decreases |moves|
  {
    if moves == [] then s else After(Next(s, moves[0]), moves[1..])
  }

  /** In every interleaving, everything above holds at every moment; and from any moment of it on, the
      clock and the frame on screen only ever go forward. */
  lemma {:induction false} EveryInterleaving(s: State, moves: seq<Move>, opening: nat, born: nat)
    requires Good(s, opening, born) && ValidRun(s, moves)
    ensures Good(After(s, moves), opening, born)
    ensures Scene(s) <= Scene(After(s, moves)) && s.shown.at <= After(s, moves).shown.at
    decreases |moves|
  {
    if moves != [] {
      MoveIsTimely(s, moves[0], opening);
      MoveAttends(s, moves[0]);
      MoveIsFresh(s, moves[0]);
      MoveIsPaced(s, moves[0], born);
      EveryInterleaving(Next(s, moves[0]), moves[1..], opening, born);
    }
  }

  /** Started on a clock that could be set back, what is on screen is never ahead of it: and only then. */
  lemma OnTimeExactly(now: nat, later: nat, scene: nat, spawned: bool, moves: seq<Move>)
    requires now <= later && ValidRun(Opening(now, later, scene, spawned), moves)
    ensures var start := Opening(now, later, scene, spawned);
            && (start.shown.at <= Scene(start) <==> scene <= now)
            && (scene <= now ==> After(start, moves).shown.at <= Scene(After(start, moves)))
  {
    OpensGood(now, later, scene, spawned);
    EveryInterleaving(Opening(now, later, scene, spawned), moves, scene, later);
  }

  /** Started on one that could not, the wallpaper does not move at all, in any interleaving, until the
      clock that began at zero has reached the moment of the opening picture. */
  lemma FrozenUntilTheClockArrives(now: nat, later: nat, scene: nat, spawned: bool, moves: seq<Move>)
    requires now <= later && now < scene && ValidRun(Opening(now, later, scene, spawned), moves)
    ensures var s := After(Opening(now, later, scene, spawned), moves);
            s.now - later <= scene ==> s.shown == Frame(scene, scene)
  {
    var start := Opening(now, later, scene, spawned);
    OpensGood(now, later, scene, spawned);
    EveryInterleaving(start, moves, scene, later);
    KeepsItsOrigin(start, moves);
  }

  lemma {:induction false} KeepsItsOrigin(s: State, moves: seq<Move>)
    requires ValidRun(s, moves)
    ensures After(s, moves).origin == s.origin && s.now <= After(s, moves).now
    decreases |moves|
  {
    if moves != [] {
      KeepsItsOrigin(Next(s, moves[0]), moves[1..]);
    }
  }

  /** Whether the painter has left a frame worth putting on screen. */
  predicate Given(s: State) {
    s.ui.Sampled? && s.finished.Some? && s.finished.value.at > s.shown.at && !Stale(s.ui.scene, s.finished.value.at)
  }

  /** A newer frame that is not too old goes on screen and an older one never does. What is there
      afterwards is fresh unless the painter was painting and had nothing better to give: the one case
      left to a frame that is still coming. */
  lemma ComesBackFreshExactly(s: State)
    requires s.ui.Sampled?
    ensures var after := Taken(s, s.ui.was, s.ui.scene);
            && after.finished.None?
            && after.shown == (if Given(s) then s.finished.value else s.shown)
            && (after.ui.SelfDrawing? <==> !Given(s) && !s.ui.was && Stale(s.ui.scene, s.shown.at))
            && (after.ui.Idle? ==>
                  (Stale(s.ui.scene, after.shown.at) <==> s.ui.was && !Given(s) && Stale(s.ui.scene, s.shown.at)))
  {}

  // ------------------------------------------------------------------ asking, and being painted for

  /** The last time the wallpaper was asked for was move `k`, and this is when. */
  ghost predicate LastAsked(s: State, moves: seq<Move>, k: int, at: nat)
    requires ValidRun(s, moves)
  {
    && 0 <= k < |moves| && moves[k].Wants? && (forall j :: k < j < |moves| ==> !moves[j].Wants?)
    && Prefix(s, moves, k + 1) && at == After(s, moves[..k + 1]).now
  }

  /** A run that is broken off is still a run. */
  ghost predicate Prefix(s: State, moves: seq<Move>, n: nat) {
    n <= |moves| && ValidRun(s, moves[..n])
  }

  lemma {:induction false} BrokenOff(s: State, moves: seq<Move>, n: nat)
    requires ValidRun(s, moves) && n <= |moves|
    ensures Prefix(s, moves, n) && ValidRun(After(s, moves[..n]), moves[n..])
    ensures After(s, moves) == After(After(s, moves[..n]), moves[n..])
    decreases |moves|
  {
    if n == 0 {
      assert moves[..0] == [] && moves[0..] == moves;
    } else {
      assert moves[..n][0] == moves[0] && moves[..n][1..] == moves[1..][..n - 1];
      assert moves[1..][n - 1..] == moves[n..];
      BrokenOff(Next(s, moves[0]), moves[1..], n - 1);
    }
  }

  lemma KeptSinceAsked(s: State, moves: seq<Move>, k: int, at: nat)
    requires ValidRun(s, moves) && LastAsked(s, moves, k, at)
    ensures After(s, moves).until == Some(at + 100_000_000)
  {
    BrokenOff(s, moves, k);
    BrokenOff(s, moves, k + 1);
    var before, rest := After(s, moves[..k]), moves[k..];
    assert moves[..k + 1][..k] == moves[..k] && moves[..k + 1][k..] == [moves[k]] && [moves[k]][1..] == [];
    BrokenOff(s, moves[..k + 1], k);
    assert After(Next(before, moves[k]), []) == Next(before, moves[k]);
    LeftAloneUntil(After(s, moves[..k + 1]), moves[k + 1..]);
  }

  /** Asking for the wallpaper keeps the painter at work for a tenth of a second, in every interleaving: looking
      before then it goes on to draw, and looking later it goes to sleep. */
  lemma AskedItPaintsExactly(s: State, moves: seq<Move>, k: int, at: nat)
    requires ValidRun(s, moves) && LastAsked(s, moves, k, at)
    requires After(s, moves).thread.Checking? && !After(s, moves).stopped
    ensures Next(After(s, moves), Checks).thread ==
            if After(s, moves).now < at + 100_000_000 then Cleared(After(s, moves).thread.since) else Asleep
  {
    KeptSinceAsked(s, moves, k, at);
  }

  /** And for as long it is not left asleep, once it has been told. */
  lemma AskedItIsAwake(s: State, moves: seq<Move>, k: int, at: nat)
    requires Attended(s) && ValidRun(s, moves) && LastAsked(s, moves, k, at)
    requires After(s, moves).now < at + 100_000_000 && !After(s, moves).ui.Asked? && !After(s, moves).ui.Stopping?
    ensures After(s, moves).thread != Asleep
  {
    KeptSinceAsked(s, moves, k, at);
    StaysAttended(s, moves);
  }

  lemma {:induction false} StaysAttended(s: State, moves: seq<Move>)
    requires Attended(s) && ValidRun(s, moves)
    ensures Attended(After(s, moves))
    decreases |moves|
  {
    if moves != [] {
      MoveAttends(s, moves[0]);
      StaysAttended(Next(s, moves[0]), moves[1..]);
    }
  }

  /** What asking answers, whether the wallpaper was being painted already: exactly if it had been asked for
      less than a tenth of a second before. */
  lemma WasPaintingExactly(s: State, moves: seq<Move>, k: int, at: nat, gap: nat)
    requires ValidRun(s, moves) && LastAsked(s, moves, k, at) && After(s, moves).ui.Idle?
    ensures Next(After(s, moves), Wants(gap)).ui == Asked(After(s, moves).now < at + 100_000_000)
  {
    KeptSinceAsked(s, moves, k, at);
  }

  /** A wallpaper that was never asked for was not. */
  lemma NobodyHadAsked(now: nat, later: nat, scene: nat, spawned: bool, moves: seq<Move>, gap: nat)
    requires now <= later && ValidRun(Opening(now, later, scene, spawned), moves) && Unwanted(moves)
    requires After(Opening(now, later, scene, spawned), moves).ui.Idle?
    ensures Next(After(Opening(now, later, scene, spawned), moves), Wants(gap)).ui == Asked(false)
  {
    LeftAloneUntil(Opening(now, later, scene, spawned), moves);
  }

  /** So asking brings a frame. In every interleaving in which the painter looks within a tenth of a second of
      being asked and then makes five moves more without being stopped, it has published a picture of a
      moment no earlier than its look. */
  lemma {:induction false} AskedItPublishes(s: State, first: seq<Move>, second: seq<Move>, k: int, at: nat,
      opening: nat, born: nat)
    requires Good(s, opening, born) && ValidRun(s, first) && LastAsked(s, first, k, at)
    requires var looking := After(s, first);
             && looking.thread.Checking? && looking.now < at + 100_000_000
             && ValidRun(looking, [Checks] + second) && !After(looking, [Checks] + second).stopped
    requires CountPainters(second) == 5 && Painters(second[|second| - 1])
    ensures var published := After(After(s, first), [Checks] + second).finished;
            published.Some? && published.value.of == published.value.at && Scene(After(s, first)) <= published.value.at
  {
    var looking := After(s, first);
    assert ([Checks] + second)[0] == Checks && ([Checks] + second)[1..] == second;
    EveryInterleaving(s, first, opening, born);
    if looking.stopped {
      StaysStopped(looking, [Checks] + second);
    }
    AskedItPaintsExactly(s, first, k, at);
    var cleared := Next(looking, Checks);
    assert After(looking, [Checks] + second) == After(cleared, second);
    EveryInterleaving(looking, [Checks], opening, born) by { assert ValidRun(cleared, []); }
    assert After(looking, [Checks]) == cleared by { assert [Checks][1..] == []; }
    EveryRoundPublishes(cleared, second, opening, born);
  }

  // ------------------------------------------------------------------ easing off

  /** When the stretch of painting a thread is in the middle of began. */
  function Began(thread: Thread): Option<nat> {
    match thread
    case Checking(since) => since
    case Cleared(since) => since
    case Reading(began) => Some(began)
    case Timing(began, _) => Some(began)
    case Drawing(began, _, _) => Some(began)
    case Publishing(began, _, _, _) => Some(began)
    case Pacing(began, _, _) => Some(began)
    case Sleeping(began, _, _, _) => Some(began)
    case _ => None
  }

  ghost predicate NeverSleeps(s: State, moves: seq<Move>)
    requires ValidRun(s, moves)
    decreases |moves|
  {
    !s.thread.Asleep? && !s.thread.Ended? && (moves != [] ==> NeverSleeps(Next(s, moves[0]), moves[1..]))
  }

  lemma {:induction false} AStretchKeepsItsBeginning(s: State, moves: seq<Move>, began: nat)
    requires ValidRun(s, moves) && NeverSleeps(s, moves) && Began(s.thread) == Some(began)
    ensures Began(After(s, moves).thread) == Some(began)
    decreases |moves|
  {
    if moves != [] {
      AStretchKeepsItsBeginning(Next(s, moves[0]), moves[1..], began);
    }
  }

  /** Of a stretch that begins now and is not broken by sleep, in every interleaving: a round that is paced in
      its first ten seconds is of a thirtieth of a second or so, one paced after them of a fifth. */
  lemma AStretchIsEasedOff(s: State, moves: seq<Move>)
    requires s.thread == Cleared(None) && ValidRun(Next(s, Begins), moves) && NeverSleeps(Next(s, Begins), moves)
    requires After(Next(s, Begins), moves).thread.Pacing?
    ensures var end := After(Next(s, Begins), moves);
            var interval := if end.now > s.now + 10_000_000_000 then 200_000_000 else 33_000_000;
            end.now == end.thread.started + end.thread.took ==>
              Next(end, Paces).thread.wake == end.thread.started + Larger(interval, 2 * end.thread.took)
  {
    AStretchKeepsItsBeginning(Next(s, Begins), moves, s.now);
    var end := After(Next(s, Begins), moves);
    if end.now == end.thread.started + end.thread.took {
      ARoundTakes(end);
    }
  }

  // ------------------------------------------------------------------ stopping, and being left alone

  /** How many moves a painter that has been told to stop has left in it. */
  function MovesLeft(thread: Thread): nat {
    match thread
    case Ended => 0
    case Checking(_) => 1
    case Asleep => 2
    case Sleeping(_, _, _, _) => 2
    case Pacing(_, _, _) => 3
    case Publishing(_, _, _, _) => 1
    case Drawing(_, _, _) => 2
    case Timing(_, _) => 3
    case Reading(_) => 4
    case Cleared(_) => 5
  }

  function CountPainters(moves: seq<Move>): nat {
    if moves == [] then 0 else (if Painters(moves[0]) then 1 else 0) + CountPainters(moves[1..])
  }

  /** Once stopped, in every interleaving: nothing is published any more, no second frame is begun, and
      the thread is gone within five moves of its own. */
  lemma {:induction false} StoppedWindsDown(s: State, moves: seq<Move>)
    requires s.stopped && ValidRun(s, moves)
    ensures var end := After(s, moves);
            && end.stopped
            && (end.finished == s.finished || end.finished.None?)
            && MovesLeft(end.thread) + CountPainters(moves) <= MovesLeft(s.thread) <= 5
            && (CountPainters(moves) == MovesLeft(s.thread) ==> end.thread.Ended?)
            && (s.thread.Checking? || s.thread.Asleep? || s.thread.Sleeping? || s.thread.Pacing? ==>
                  !end.thread.Cleared? && !end.thread.Drawing?)
    decreases |moves|
  {
    if moves != [] {
      StoppedWindsDown(Next(s, moves[0]), moves[1..]);
    }
  }

  // ------------------------------------------------------------------ a round, among everything else

  /** How far into a round the painter is, from being cleared to draw to having published. */
  function Stage(thread: Thread): nat {
    match thread
    case Cleared(_) => 0
    case Reading(_) => 1
    case Timing(_, _) => 2
    case Drawing(_, _, _) => 3
    case Publishing(_, _, _, _) => 4
    case Pacing(_, _, _) => 5
    case _ => 6
  }

  /** Whatever the painter has read since is no older than `low`. */
  predicate ReadSince(s: State, low: nat) {
    && s.origin <= s.now && low <= Scene(s)
    && (s.thread.Timing? || s.thread.Drawing? ==> low <= s.thread.scene)
    && (s.thread.Publishing? ==> low <= s.thread.frame.at)
  }

  lemma {:induction false} RoundGoesOn(s: State, moves: seq<Move>, low: nat)
    requires ValidRun(s, moves) && !After(s, moves).stopped && ReadSince(s, low)
    requires Stage(s.thread) + CountPainters(moves) <= 5
    ensures !s.stopped && ReadSince(After(s, moves), low)
    ensures Stage(After(s, moves).thread) == Stage(s.thread) + CountPainters(moves)
    ensures moves != [] && Painters(moves[|moves| - 1]) && After(s, moves).thread.Pacing? ==>
              After(s, moves).finished.Some? && low <= After(s, moves).finished.value.at
    decreases |moves|
  {
    if moves != [] {
      if s.stopped {
        StaysStopped(s, moves);
      }
      RoundGoesOn(Next(s, moves[0]), moves[1..], low);
    }
  }

  lemma {:induction false} StaysStopped(s: State, moves: seq<Move>)
    requires ValidRun(s, moves) && s.stopped
    ensures After(s, moves).stopped
    decreases |moves|
  {
    if moves != [] {
      StaysStopped(Next(s, moves[0]), moves[1..]);
    }
  }

  /** A painter cleared to draw publishes by its fifth move, in every interleaving that does not stop it:
      and a picture of a moment no earlier than when it was cleared. */
  lemma {:induction false} EveryRoundPublishes(s: State, moves: seq<Move>, opening: nat, born: nat)
    requires Good(s, opening, born) && s.thread.Cleared?
    requires ValidRun(s, moves) && !After(s, moves).stopped && CountPainters(moves) == 5
    requires moves != [] && Painters(moves[|moves| - 1])
    ensures var after := After(s, moves);
            && after.thread.Pacing? && after.finished.Some?
            && after.finished.value.of == after.finished.value.at
            && Scene(s) <= after.finished.value.at <= Scene(after)
  {
    RoundGoesOn(s, moves, Scene(s));
    EveryInterleaving(s, moves, opening, born);
  }

  predicate Unwanted(moves: seq<Move>) {
    forall m :: m in moves ==> !m.Wants?
  }

  /** Left alone for as long as it is kept for, in every interleaving, the painter draws no further
      frame: the next time it looks, it sleeps or ends. */
  lemma {:induction false} LeftAloneItSleeps(s: State, moves: seq<Move>)
    requires Attended(s) && ValidRun(s, moves) && Unwanted(moves)
    ensures After(s, moves).until == s.until
    ensures var end := After(s, moves);
            end.now >= s.now + 100_000_000 && end.thread.Checking? ==>
              Next(end, Checks).thread == Asleep || Next(end, Checks).thread == Ended
    decreases |moves|
  {
    LeftAloneUntil(s, moves);
  }

  lemma {:induction false} LeftAloneUntil(s: State, moves: seq<Move>)
    requires ValidRun(s, moves) && Unwanted(moves)
    ensures After(s, moves).until == s.until
    decreases |moves|
  {
    if moves != [] {
      assert moves[0] in moves;
      LeftAloneUntil(Next(s, moves[0]), moves[1..]);
    }
  }

  // ------------------------------------------------------------------ the event loop's own calls

  ghost predicate Ran(a: State, b: State) {
    exists moves :: ValidRun(a, moves) && After(a, moves) == b
  }

  lemma {:induction false} RunsJoin(a: State, first: seq<Move>, second: seq<Move>)
    requires ValidRun(a, first) && ValidRun(After(a, first), second)
    ensures ValidRun(a, first + second) && After(a, first + second) == After(After(a, first), second)
    decreases |first|
  {
    if first == [] {
      assert first + second == second;
    } else {
      var all := first + second;
      assert all[0] == first[0] && all[1..] == first[1..] + second;
      RunsJoin(Next(a, first[0]), first[1..], second);
    }
  }

  lemma StartsHere(s: State)
    ensures Ran(s, s)
  {
    assert After(s, []) == s;
  }

  lemma ThenMove(a: State, b: State, m: Move)
    requires Ran(a, b) && Enabled(b, m)
    ensures Ran(a, Next(b, m))
  {
    var first :| ValidRun(a, first) && After(a, first) == b;
    assert After(b, [m]) == Next(b, m) by { assert [m][1..] == []; }
    RunsJoin(a, first, [m]);
  }

  class Screen {
    const origin: nat
    var now: nat
    var shown: Frame
    var finished: Option<Frame>
    var until: Option<nat>
    var stopped: bool
    var thread: Thread
    var tally: Tally
    ghost var ui: Loop

    constructor (now: nat, later: nat, scene: nat, spawned: bool)
      requires now <= later
      ensures View() == Opening(now, later, scene, spawned)
    {
      origin := if scene <= now then now - scene else later;
      this.now, shown, tally := later, Frame(scene, scene), Tally(0, 0, 0);
      finished, until, stopped := None, None, false;
      thread := if spawned then Checking(None) else Ended;
      ui := Idle(None);
    }

    ghost function View(): State
      reads this
    {
      State(now, origin, shown, finished, until, stopped, ui, thread, tally)
    }

    /** Whatever the painter does, and however long it takes, between two of the loop's own moves:
        its caller is told only that the whole is still a run. */
    method Meanwhile(ghost start: State)
      requires Ran(start, View())
      modifies this`now, this`finished, this`thread, this`tally
      ensures Ran(start, View())
    {
    }

    /** Ask for the painter to go on, and say whether it was going already. */
    method Ask(gap: nat, ghost start: State) returns (was: bool)
      requires ui.Idle? && Ran(start, View())
      modifies this`now, this`until, this`ui
      ensures Ran(start, View()) && ui == Asked(was)
    {
      was := until.Some? && until.value > now;
      ThenMove(start, View(), Wants(gap));
      now := now + gap;
      until, ui := Some(now + KEEP_PAINTING), Asked(was);
    }

    method Notify(was: bool, ghost start: State)
      requires ui == Asked(was) && Ran(start, View())
      modifies this`thread, this`ui
      ensures Ran(start, View()) && ui == Notified(was)
    {
      ThenMove(start, View(), Notifies);
      thread, ui := Woken(thread), Notified(was);
    }

    method Sample(was: bool, ghost start: State) returns (scene: nat)
      requires ui == Notified(was) && Ran(start, View())
      modifies this`ui
      ensures Ran(start, View()) && ui == Sampled(was, scene)
    {
      scene := Since(origin, now);
      ThenMove(start, View(), Samples);
      ui := Sampled(was, scene);
    }

    /** Take the painter's frame, if it is worth having; otherwise say whether one must be drawn here. */
    method Take(was: bool, scene: nat, ghost start: State) returns (draw: bool)
      requires ui == Sampled(was, scene) && Ran(start, View())
      modifies this`shown, this`finished, this`ui
      ensures Ran(start, View())
      ensures if draw then ui == SelfDrawing(scene) && !was else ui == Idle(Some(Caught(was, scene)))
      ensures finished.None?
      ensures var better := old(finished).Some? && old(finished).value.at > old(shown).at
                            && scene < old(finished).value.at + 250_000_000;
              shown == if better then old(finished).value else old(shown)
      ensures draw <==> !was && scene >= shown.at + 250_000_000
    {
      ThenMove(start, View(), Takes);
      var taken := finished;
      finished := None;
      if taken.Some? && taken.value.at > shown.at && !Stale(scene, taken.value.at) {
        draw, shown := false, taken.value;
      } else {
        draw := !was && Stale(scene, shown.at);
      }
      ui := if draw then SelfDrawing(scene) else Idle(Some(Caught(was, scene)));
    }

    method Finish(scene: nat, ghost start: State)
      requires ui == SelfDrawing(scene) && Ran(start, View())
      modifies this`shown, this`ui
      ensures Ran(start, View()) && ui == Idle(Some(Caught(false, scene))) && shown == Frame(scene, scene)
    {
      ThenMove(start, View(), Finishes);
      shown, ui := Frame(scene, scene), Idle(Some(Caught(false, scene)));
    }

    /** One look at the wallpaper, from asking to showing: every run of this call, with the painter moving
        between any two of its steps, is a run of the two threads. */
    method CatchUp(gap: nat, ghost opening: nat, ghost born: nat) returns (was: bool, scene: nat)
      requires ui.Idle? && Good(View(), opening, born)
      modifies this
      ensures Ran(old(View()), View()) && Good(View(), opening, born)
      ensures ui == Idle(Some(Caught(was, scene)))
      ensures old(shown).at <= shown.at
      ensures !was || shown != old(shown) ==> scene < shown.at + 250_000_000
    {
      ghost var start := View();
      StartsHere(start);
      was := Ask(gap, start);
      Meanwhile(start);
      Notify(was, start);
      Meanwhile(start);
      scene := Sample(was, start);
      Meanwhile(start);
      var draw := Take(was, scene, start);
      if draw {
        Meanwhile(start);
        Finish(scene, start);
      }
      StaysGood(start, View(), opening, born);
    }

    method Stop()
      requires ui.Idle?
      modifies this
      ensures Ran(old(View()), View()) && stopped && ui == Dropped
    {
      ghost var start := View();
      StartsHere(start);
      ThenMove(start, View(), Stops);
      stopped, ui := true, Stopping;
      Meanwhile(start);
      ThenMove(start, View(), NotifiesStop);
      thread, ui := Woken(thread), Dropped;
    }
  }

  lemma StaysGood(a: State, b: State, opening: nat, born: nat)
    requires Ran(a, b) && Good(a, opening, born)
    ensures Good(b, opening, born) && a.shown.at <= b.shown.at
  {
    var moves :| ValidRun(a, moves) && After(a, moves) == b;
    EveryInterleaving(a, moves, opening, born);
  }
}
