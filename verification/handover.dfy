/** The child that keeps the picture up between two compositors: which displays it watches, which
    descriptors it keeps, which it lets go of, and how long it stays. */
module Handover {
  import opened Wrappers

  const WATCHED: nat := 32
  const CEILING: nat := 4096
  const U32_MAX: nat := 0xFFFF_FFFF
  const POLL: nat := 16
  const LONGEST: nat := 10_000

  /** A descriptor number as the system hands it about: signed, thirty-two bits. */
  type Fd = x: int | -0x8000_0000 <= x < 0x8000_0000

  datatype Held = Held(fd: Fd, crtc: nat, fb: nat)

  const NOTHING := Held(-1, 0, 0)

  function Least(a: nat, b: nat): nat {
    if a < b then a else b
  }

  /** The descriptor table a fork was given a copy of. `ranged` says whether this kernel can close a
      whole range in one call. */
  class Table {
    const ranged: bool
    ghost var closed: set<nat>

    constructor (ranged: bool)
      ensures closed == {} && this.ranged == ranged
    {
      this.ranged := ranged;
      closed := {};
    }

    /** Closing a descriptor twice could close somebody else's: nothing here ever does. */
    method Close(descriptor: nat)
      requires descriptor <= U32_MAX && descriptor !in closed
      modifies this`closed
      ensures closed == old(closed) + {descriptor}
    {
      closed := closed + {descriptor};
    }

    method CloseRange(first: nat, last: nat) returns (done: bool)
      requires first <= last <= U32_MAX
      requires forall d: nat :: first <= d <= last ==> d !in closed
      modifies this`closed
      ensures done == ranged
      ensures closed == old(closed) + if done then Span(first, last) else {}
    {
      done := ranged;
      closed := closed + if done then Span(first, last) else {};
    }

    /** What a CRTC is scanning out: whatever the kernel says, asked of a descriptor still open. */
    method ScanningOut(fd: Fd, crtc: nat, answer: Option<nat>) returns (fb: Option<nat>)
      requires fd < 0 || fd !in closed
      ensures fb == answer
    {
      fb := answer;
    }
  }

  predicate Within(d: nat, first: nat, last: nat) {
    first <= d <= last
  }

  ghost function Span(first: nat, last: nat): set<nat> {
    set d: nat | d <= last && Within(d, first, last)
  }

  // ------------------------------------------------------------------ which displays are watched

  predicate Lit(answer: Option<nat>) {
    answer.Some? && answer.value != 0
  }

  /** The displays with something on them, in their order. */
  function Watching(displays: seq<(Fd, nat)>, answers: seq<Option<nat>>): (held: seq<Held>)
    requires |displays| == |answers|
    ensures |held| <= |displays|
    ensures forall h :: h in held ==> h.fb != 0
    ensures forall h :: h in held <==> exists i :: Kept(displays, answers, i, h)
  {
    if displays == [] then []
    else
      var n := |displays| - 1;
      var before := Watching(displays[..n], answers[..n]);
      assert forall i, h :: 0 <= i < n ==> (Kept(displays, answers, i, h) <==> Kept(displays[..n], answers[..n], i, h));
      if Lit(answers[n]) then
        var last := Held(displays[n].0, displays[n].1, answers[n].value);
        assert Kept(displays, answers, n, last);
        before + [last]
      else before
  }

  predicate Kept(displays: seq<(Fd, nat)>, answers: seq<Option<nat>>, i: int, h: Held)
    requires |displays| == |answers|
  {
    0 <= i < |displays| && Lit(answers[i]) && h == Held(displays[i].0, displays[i].1, answers[i].value)
  }

  ghost predicate PicksLit(displays: seq<(Fd, nat)>, answers: seq<Option<nat>>, held: seq<Held>, picks: seq<nat>)
    requires |displays| == |answers|
  {
    && |picks| == |held|
    && (forall i, j :: 0 <= i < j < |picks| ==> picks[i] < picks[j])
    && (forall i :: 0 <= i < |picks| ==>
          picks[i] < |displays| && answers[picks[i]] == Some(held[i].fb)
          && displays[picks[i]] == (held[i].fd, held[i].crtc))
    && (forall j: nat :: j in picks <==> j < |displays| && answers[j].Some? && answers[j].value != 0)
  }

  /** Every display with something on it is watched, each once and in the order they were given. */
  lemma {:induction false} WatchingInOrder(displays: seq<(Fd, nat)>, answers: seq<Option<nat>>)
      returns (picks: seq<nat>)
    requires |displays| == |answers|
    ensures PicksLit(displays, answers, Watching(displays, answers), picks)
  {
    if displays == [] {
      picks := [];
    } else {
      var n := |displays| - 1;
      picks := WatchingInOrder(displays[..n], answers[..n]);
      picks := OneMoreLit(displays, answers, n, Watching(displays[..n], answers[..n]), picks);
    }
  }

  lemma OneMoreLit(displays: seq<(Fd, nat)>, answers: seq<Option<nat>>, n: nat, held: seq<Held>, before: seq<nat>)
      returns (picks: seq<nat>)
    requires |displays| == |answers| == n + 1 && PicksLit(displays[..n], answers[..n], held, before)
    ensures PicksLit(displays, answers, held + if Lit(answers[n])
        then [Held(displays[n].0, displays[n].1, answers[n].value)] else [], picks)
  {
    picks := before + if Lit(answers[n]) then [n] else [];
    forall i | 0 <= i < |before| ensures before[i] < n {
      assert before[i] < |displays[..n]|;
    }
  }

  /** Fill a fixed array with the lit ones among the first displays. */
  method Hold(displays: seq<(Fd, nat)>, answers: seq<Option<nat>>) returns (held: array<Held>, count: nat)
    requires |displays| == |answers|
    ensures count <= held.Length == 32
    ensures var first := if |displays| < 32 then |displays| else 32;
            held[..count] == Watching(displays[..first], answers[..first])
  {
    held := new Held[WATCHED](_ => NOTHING);
    count := 0;
    var first := Least(|displays|, WATCHED);
    for i := 0 to first
      invariant count <= i
      invariant held[..count] == Watching(displays[..i], answers[..i])
    {
      assert displays[..i + 1][..i] == displays[..i] && answers[..i + 1][..i] == answers[..i];
      if Lit(answers[i]) {
        held[count] := Held(displays[i].0, displays[i].1, answers[i].value);
        count := count + 1;
      }
    }
  }

  // ------------------------------------------------------------------ which descriptors are kept

  ghost predicate Ascending(s: seq<Fd>) {
    forall i, j :: 0 <= i < j < |s| ==> s[i] < s[j]
  }

  ghost function Descriptors(held: seq<Held>): set<Fd> {
    set h | h in held :: h.fd
  }

  /** Where a descriptor goes among those already kept, or that it is there already. */
  method Place(into: array<Fd>, kept: nat, fd: Fd) returns (at: nat, seen: bool)
    requires kept <= into.Length && Ascending(into[..kept])
    ensures at <= kept
    ensures seen <==> fd in into[..kept]
    ensures !seen ==> forall k :: 0 <= k < kept ==> if k < at then into[k] < fd else fd < into[k]
  {
    assert forall i, j :: 0 <= i < j < kept ==> into[..kept][i] < into[..kept][j];
    at, seen := kept, false;
    for index := 0 to kept
      invariant at == kept
      invariant forall k :: 0 <= k < index ==> into[k] < fd
    {
      if into[index] == fd {
        return kept, true;
      }
      if into[index] > fd {
        return index, false;
      }
    }
  }

  /** Shift the tail up by one and put the descriptor in the hole. */
  method Insert(into: array<Fd>, kept: nat, at: nat, fd: Fd)
    requires at <= kept < into.Length
    modifies into
    ensures into[..kept + 1] == old(into[..kept])[..at] + [fd] + old(into[..kept])[at..]
  {
    forall k | at < k <= kept { into[k] := into[k - 1]; }
    into[at] := fd;
  }

  /** The first thirty-two displays' descriptors, each once and in order, sorted into a fixed array. */
  method KeptDescriptors(held: seq<Held>, into: array<Fd>) returns (kept: nat)
    requires into.Length == WATCHED
    modifies into
    ensures kept <= 32 && kept <= |held|
    ensures Ascending(into[..kept])
    ensures forall fd :: fd in into[..kept] <==> exists i :: 0 <= i < |held| && i < 32 && held[i].fd == fd
  {
    kept := 0;
    for i := 0 to Least(|held|, WATCHED)
      invariant kept <= i
      invariant Ascending(into[..kept])
      invariant forall fd :: fd in into[..kept] <==> fd in Descriptors(held[..i])
    {
      var fd := held[i].fd;
      OneMore(held, i);
      ghost var was := into[..kept];
      var at, seen := Place(into, kept, fd);
      if !seen {
        Insert(into, kept, at, fd);
        kept := kept + 1;
        Inserted(was, at, fd);
      }
    }
    DescriptorsAre(held, Least(|held|, WATCHED));
  }

  lemma DescriptorsAre(held: seq<Held>, n: nat)
    requires n <= |held|
    ensures forall fd :: fd in Descriptors(held[..n]) <==> exists i :: 0 <= i < n && held[i].fd == fd
  {
    forall i | 0 <= i < n ensures held[i].fd in Descriptors(held[..n]) {
      assert held[..n][i] in held[..n];
    }
  }

  lemma OneMore(held: seq<Held>, i: nat)
    requires i < |held|
    ensures Descriptors(held[..i + 1]) == Descriptors(held[..i]) + {held[i].fd}
  {
    assert held[..i + 1] == held[..i] + [held[i]];
  }

  lemma Inserted(was: seq<Fd>, at: nat, fd: Fd)
    requires at <= |was| && Ascending(was)
    requires forall k :: 0 <= k < |was| ==> if k < at then was[k] < fd else fd < was[k]
    ensures Ascending(was[..at] + [fd] + was[at..])
    ensures forall d :: d in was[..at] + [fd] + was[at..] <==> d == fd || d in was
  {
    assert was == was[..at] + was[at..];
  }

  // ------------------------------------------------------------------ which are let go of

  /** Everything below `first` that is not among `keep`, as far as this kernel is walked. */
  ghost predicate GoneBelow(closed: set<nat>, first: nat, keep: seq<Fd>, reach: nat) {
    forall d: nat :: d in closed <==> d < first && d <= reach && d !in keep
  }

  ghost function Reach(ranged: bool): nat {
    if ranged then U32_MAX else CEILING
  }

  method CloseBetween(table: Table, first: nat, last: nat)
    requires first <= U32_MAX && last <= U32_MAX
    requires forall d: nat :: first <= d <= last ==> d !in table.closed
    modifies table`closed
    ensures forall d: nat :: d in table.closed <==>
              d in old(table.closed) || (first <= d <= last && d <= Reach(table.ranged))
  {
    if first > last {
      return;
    }
    var done := table.CloseRange(first, last);
    if done {
      return;
    }
    var descriptor := first;
    while descriptor <= Least(last, CEILING)
      invariant forall d: nat :: d in table.closed <==>
                  d in old(table.closed) || (first <= d < descriptor && d <= Least(last, CEILING))
      decreases Least(last, CEILING) + 1 - descriptor
    {
      table.Close(descriptor);
      descriptor := descriptor + 1;
    }
  }

  function CheckedAdd(descriptor: nat): Option<nat> {
    if descriptor < U32_MAX then Some(descriptor + 1) else None
  }

  /** Everything below, between and above the descriptors kept. */
  method CloseGaps(table: Table, into: array<Fd>, kept: nat)
    requires table.closed == {} && kept <= into.Length && Ascending(into[..kept])
    modifies table`closed
    ensures forall d: nat :: d in table.closed <==> d <= Reach(table.ranged) && d !in into[..kept]
  {
    ghost var keep := into[..kept];
    var first: nat := 0;
    for i := 0 to kept
      invariant into[..kept] == keep
      invariant first <= U32_MAX
      invariant forall k :: 0 <= k < kept ==> if k < i then keep[k] < first else first <= keep[k] || keep[k] < 0
      invariant first > 0 ==> first - 1 in keep
      invariant GoneBelow(table.closed, first, keep, Reach(table.ranged))
    {
      var descriptor: int := into[i];
      assert descriptor == keep[i];
      if descriptor >= 0 {
        if descriptor > first {
          CloseBetween(table, first, descriptor - 1);
        }
        var next := CheckedAdd(descriptor);
        if next.None? {
          assert false;
        } else {
          first := next.value;
        }
      }
    }
    CloseBetween(table, first, U32_MAX);
  }

  /** The held descriptors stay open and every other one is closed, each exactly once: to the last
      number there is, or to the ceiling on a kernel that must be walked by hand. */
  method LetGo(table: Table, held: seq<Held>)
    requires table.closed == {}
    modifies table`closed
    ensures forall d: nat :: d in table.closed <==>
              && d <= (if table.ranged then 4_294_967_295 else 4096)
              && forall i :: 0 <= i < |held| && i < 32 ==> held[i].fd != d
  {
    var into := new Fd[WATCHED](_ => 0);
    var kept := KeptDescriptors(held, into);
    CloseGaps(table, into, kept);
  }

  // ------------------------------------------------------------------ how long it stays

  predicate TakenOver(h: Held, answer: Option<nat>) {
    Lit(answer) && answer.value != h.fb
  }

  function CountTaken(held: seq<Held>, answers: seq<Option<nat>>): (taken: nat)
    requires |held| == |answers|
    ensures taken <= |held|
    ensures taken == |held| <==> AllTaken(held, answers)
  {
    if held == [] then 0
    else
      var n := |held| - 1;
      CountTaken(held[..n], answers[..n]) + if TakenOver(held[n], answers[n]) then 1 else 0
  }

  /** Every display shows a picture, and another than was on it when it was left. */
  ghost predicate AllTaken(held: seq<Held>, answers: seq<Option<nat>>) {
    |answers| == |held| && forall i :: 0 <= i < |held| ==>
      answers[i].Some? && answers[i].value != 0 && answers[i].value != held[i].fb
  }

  ghost predicate HeldOpen(table: Table, held: seq<Held>)
    reads table
  {
    forall h :: h in held ==> h.fd < 0 || h.fd !in table.closed
  }

  /** Ask every display once, each on a descriptor that is still open. */
  method Poll(table: Table, held: seq<Held>, answers: seq<Option<nat>>) returns (taken: nat)
    requires |answers| == |held| && HeldOpen(table, held)
    ensures taken == CountTaken(held, answers)
  {
    taken := 0;
    for i := 0 to |held|
      invariant taken == CountTaken(held[..i], answers[..i])
    {
      var fb := table.ScanningOut(held[i].fd, held[i].crtc, answers[i]);
      assert held[..i + 1][..i] == held[..i] && answers[..i + 1][..i] == answers[..i];
      if TakenOver(held[i], fb) {
        taken := taken + 1;
      }
    }
    assert answers[..|held|] == answers && held[..|held|] == held;
  }

  /** The keeper: let go of the rest, then ask every display once a nap, until all of them show somebody
      else's picture or it has waited as long as it may. `polls` is what the kernel will say. */
  method Keep(table: Table, held: seq<Held>, polls: nat -> seq<Option<nat>>) returns (naps: nat)
    requires table.closed == {} && |held| <= WATCHED
    requires forall n :: |polls(n)| == |held|
    modifies table`closed
    ensures forall d: nat :: d in table.closed <==>
              d <= (if table.ranged then 4_294_967_295 else 4096) && forall h :: h in held ==> h.fd != d
    ensures 1 <= naps <= 625
    ensures naps < 625 ==> AllTaken(held, polls(naps))
    ensures forall n :: 1 <= n < naps ==> !AllTaken(held, polls(n))
  {
    LetGo(table, held);
    ghost var gone := table.closed;
    var waited := 0;
    naps := 0;
    while true
      invariant table.closed == gone
      invariant waited == naps * POLL && naps < LONGEST / POLL
      invariant forall n :: 1 <= n <= naps ==> !AllTaken(held, polls(n))
      decreases LONGEST - waited
    {
      naps := naps + 1;
      waited := waited + POLL;
      var taken := Poll(table, held, polls(naps));
      if taken == |held| || waited >= LONGEST {
        return;
      }
    }
  }
}
