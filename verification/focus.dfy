/** Who has the keyboard: the policy that gives it away, the claim that overrides the policy, and the
    check that asks whether what it was given to may keep it. */
module Focus {
  import opened Wrappers

  /** A keyboard target: a surface, or an X11 window, which may not have its surface yet. */
  datatype Target = Wayland(s: nat) | X11(xid: nat, s11: Option<nat>)

  datatype Window = Window(target: Target, tree: set<nat>, accepts: bool, hidden: bool, floating: bool,
      stacksItself: bool)

  datatype Interactivity = Never | OnDemand | Exclusive

  /** Background, bottom, top and overlay. */
  type Level = n: nat | n <= 3

  datatype Layer = Layer(surface: nat, tree: set<nat>, level: Level, interactivity: Interactivity, fromShell: bool)

  /** A display: its layers in order, the newest last, and which windows are on it. */
  datatype Output = Output(layers: seq<Layer>, shows: set<Target>)

  /** The windows are listed from the bottom of the stack to the top. */
  datatype Desk = Desk(windows: seq<Window>, outputs: seq<Output>, driven: Option<nat>)

  function SurfaceOf(t: Target): Option<nat> {
    match t case Wayland(s) => Some(s) case X11(_, s) => s
  }

  predicate Takes(w: Window) {
    w.accepts && !w.hidden && !w.floating
  }

  // ------------------------------------------------------------------ the exclusive claim

  function Claims(outputs: seq<Output>): seq<Layer> {
    if outputs == [] then [] else outputs[0].layers + Claims(outputs[1..])
  }

  function FirstClaim(layers: seq<Layer>, shellOnly: bool): Option<nat> {
    if layers == [] then None
    else if layers[0].interactivity == Exclusive && (layers[0].fromShell || !shellOnly) then Some(layers[0].surface)
    else FirstClaim(layers[1..], shellOnly)
  }

  /** The first claim the shell makes, and if it makes none the first that anybody does. */
  function Claim(outputs: seq<Output>): Option<nat> {
    Or(FirstClaim(Claims(outputs), true), FirstClaim(Claims(outputs), false))
  }

  lemma {:induction false} FirstClaimTogether(a: seq<Layer>, b: seq<Layer>, shellOnly: bool)
    ensures FirstClaim(a + b, shellOnly) == Or(FirstClaim(a, shellOnly), FirstClaim(b, shellOnly))
  {
    if a == [] {
      assert a + b == b;
    } else {
      assert (a + b)[0] == a[0] && (a + b)[1..] == a[1..] + b;
      FirstClaimTogether(a[1..], b, shellOnly);
    }
  }

  // ------------------------------------------------------------------ the claim, without its walk

  /** A layer that wants the keyboard to itself: anybody's, or only one of the shell's. */
  predicate Grasps(l: Layer, shellOnly: bool) {
    l.interactivity == Exclusive && (shellOnly ==> l.fromShell)
  }

  ghost predicate FirstToGrasp(layers: seq<Layer>, shellOnly: bool, k: int) {
    && 0 <= k < |layers| && Grasps(layers[k], shellOnly)
    && forall j :: 0 <= j < k ==> !Grasps(layers[j], shellOnly)
  }

  ghost predicate NobodyGrasps(layers: seq<Layer>, shellOnly: bool) {
    forall l :: l in layers ==> !Grasps(l, shellOnly)
  }

  /** None stands before it on its own display, and there is none at all on an earlier one. */
  ghost predicate FirstToClaim(outputs: seq<Output>, shellOnly: bool, d: int, k: int) {
    && 0 <= d < |outputs| && FirstToGrasp(outputs[d].layers, shellOnly, k)
    && forall e :: 0 <= e < d ==> NobodyGrasps(outputs[e].layers, shellOnly)
  }

  ghost predicate NobodyClaims(outputs: seq<Output>, shellOnly: bool) {
    forall e :: 0 <= e < |outputs| ==> NobodyGrasps(outputs[e].layers, shellOnly)
  }

  lemma {:induction false} FirstOfLayers(layers: seq<Layer>, shellOnly: bool)
    ensures var claim := FirstClaim(layers, shellOnly);
            && (claim.None? <==> NobodyGrasps(layers, shellOnly))
            && (claim.Some? ==>
                  exists k :: FirstToGrasp(layers, shellOnly, k) && layers[k].surface == claim.value)
  {
    if layers != [] {
      FirstOfLayers(layers[1..], shellOnly);
      assert layers == [layers[0]] + layers[1..];
      if Grasps(layers[0], shellOnly) {
        assert FirstToGrasp(layers, shellOnly, 0);
      } else if FirstClaim(layers[1..], shellOnly).Some? {
        var k :| FirstToGrasp(layers[1..], shellOnly, k)
            && layers[1..][k].surface == FirstClaim(layers, shellOnly).value;
        assert FirstToGrasp(layers, shellOnly, k + 1);
      }
    }
  }

  lemma {:induction false} FirstClaimExactly(outputs: seq<Output>, shellOnly: bool)
    ensures var claim := FirstClaim(Claims(outputs), shellOnly);
            && (claim.None? <==> NobodyClaims(outputs, shellOnly))
            && (claim.Some? ==>
                  exists d, k ::
                    FirstToClaim(outputs, shellOnly, d, k) && outputs[d].layers[k].surface == claim.value)
  {
    if outputs != [] {
      var layers, rest := outputs[0].layers, outputs[1..];
      FirstOfLayers(layers, shellOnly);
      FirstClaimTogether(layers, Claims(rest), shellOnly);
      FirstClaimExactly(rest, shellOnly);
      if FirstClaim(layers, shellOnly).Some? {
        var k :| FirstToGrasp(layers, shellOnly, k) && layers[k].surface == FirstClaim(layers, shellOnly).value;
        assert FirstToClaim(outputs, shellOnly, 0, k);
        assert !NobodyGrasps(layers, shellOnly);
      } else if FirstClaim(Claims(rest), shellOnly).Some? {
        var d, k :| FirstToClaim(rest, shellOnly, d, k)
            && rest[d].layers[k].surface == FirstClaim(Claims(rest), shellOnly).value;
        LaterToClaim(outputs, shellOnly, d, k);
      } else {
        forall e | 0 <= e < |outputs| ensures NobodyGrasps(outputs[e].layers, shellOnly) {
          assert e > 0 ==> outputs[e] == rest[e - 1];
        }
      }
    }
  }

  lemma LaterToClaim(outputs: seq<Output>, shellOnly: bool, d: int, k: int)
    requires outputs != [] && NobodyGrasps(outputs[0].layers, shellOnly)
    requires FirstToClaim(outputs[1..], shellOnly, d, k)
    ensures FirstToClaim(outputs, shellOnly, d + 1, k) && !NobodyClaims(outputs, shellOnly)
  {
    forall e | 0 <= e < d + 1 ensures NobodyGrasps(outputs[e].layers, shellOnly) {
      assert e > 0 ==> outputs[e] == outputs[1..][e - 1];
    }
    assert outputs[d + 1].layers[k] in outputs[d + 1].layers;
    assert !NobodyGrasps(outputs[d + 1].layers, shellOnly);
  }

  /** Who claims the keyboard: where any display has a layer of the shell's that wants it to itself, the first
      of those, display by display and layer by layer; where none has, the first of anybody's; and nobody
      exactly where no layer does. */
  lemma ClaimExactly(outputs: seq<Output>)
    ensures var claim := Claim(outputs);
            && (claim.None? <==> NobodyClaims(outputs, false))
            && (claim.Some? ==>
                  exists d, k ::
                    FirstToClaim(outputs, !NobodyClaims(outputs, true), d, k)
                    && outputs[d].layers[k].surface == claim.value)
  {
    FirstClaimExactly(outputs, true);
    FirstClaimExactly(outputs, false);
    if NobodyClaims(outputs, false) {
      forall e | 0 <= e < |outputs| ensures NobodyGrasps(outputs[e].layers, true) {
        assert NobodyGrasps(outputs[e].layers, false);
      }
    }
  }

  lemma {:induction false} ClaimsUpTo(outputs: seq<Output>, i: nat)
    requires i < |outputs|
    ensures Claims(outputs[..i + 1]) == Claims(outputs[..i]) + outputs[i].layers
  {
    if i == 0 {
      assert outputs[..1][1..] == [];
    } else {
      assert outputs[..i + 1][0] == outputs[0] && outputs[..i + 1][1..] == outputs[1..][..i];
      assert outputs[..i][0] == outputs[0] && outputs[..i][1..] == outputs[1..][..i - 1];
      ClaimsUpTo(outputs[1..], i - 1);
    }
  }

  lemma {:induction false} ClaimsPrefix(outputs: seq<Output>, i: nat)
    requires i <= |outputs|
    ensures Claims(outputs) == Claims(outputs[..i]) + Claims(outputs[i..])
  {
    if i == 0 {
      assert outputs[..0] == [] && outputs[0..] == outputs;
    } else {
      assert outputs[..i][0] == outputs[0] && outputs[..i][1..] == outputs[1..][..i - 1];
      assert outputs[1..][i - 1..] == outputs[i..];
      ClaimsPrefix(outputs[1..], i - 1);
    }
  }

  /** One display's layers walked: the first shell claim ends the walk, others are noted once. */
  method WalkLayers(layers: seq<Layer>, found: Option<nat>) returns (exclusive: Option<nat>, shell: Option<nat>)
    ensures shell == FirstClaim(layers, true)
    ensures shell.None? ==> exclusive == Or(found, FirstClaim(layers, false))
  {
    exclusive, shell := found, None;
    for i := 0 to |layers|
      invariant FirstClaim(layers[..i], true).None?
      invariant exclusive == Or(found, FirstClaim(layers[..i], false))
    {
      assert layers[..i + 1] == layers[..i] + [layers[i]];
      assert [layers[i]][1..] == [];
      FirstClaimTogether(layers[..i], [layers[i]], true);
      FirstClaimTogether(layers[..i], [layers[i]], false);
      FirstClaimTogether(layers[..i + 1], layers[i + 1..], true);
      assert layers[..i + 1] + layers[i + 1..] == layers;
      if layers[i].interactivity == Exclusive {
        if layers[i].fromShell {
          shell := Some(layers[i].surface);
          return;
        }
        exclusive := Or(exclusive, Some(layers[i].surface));
      }
    }
    assert layers[..|layers|] == layers;
  }

  // ------------------------------------------------------------------ the policy

  predicate On(desk: Desk, output: nat, w: Window) {
    output < |desk.outputs| && w.target in desk.outputs[output].shows
  }

  function Topmost(windows: seq<Window>, desk: Desk, output: Option<nat>): Option<Window> {
    if windows == [] then None
    else
      var top := windows[|windows| - 1];
      if Takes(top) && (output.None? || On(desk, output.value, top)) then Some(top)
      else Topmost(windows[..|windows| - 1], desk, output)
  }

  /** The topmost window of the display being driven, and failing that of the session. */
  function Chosen(desk: Desk): Option<Window> {
    Or(if desk.driven.Some? then Topmost(desk.windows, desk, desk.driven) else None, Topmost(desk.windows, desk, None))
  }

  function LastInteractive(layers: seq<Layer>, level: nat): Option<nat> {
    if layers == [] then None
    else
      var top := layers[|layers| - 1];
      if top.level == level && top.interactivity != Never then Some(top.surface)
      else LastInteractive(layers[..|layers| - 1], level)
  }

  /** From the overlay level down, the newest layer first. */
  function InteractiveOn(layers: seq<Layer>): Option<nat> {
    Or(LastInteractive(layers, 3), Or(LastInteractive(layers, 2), Or(LastInteractive(layers, 1),
        LastInteractive(layers, 0))))
  }

  function Interactive(outputs: seq<Output>): Option<nat> {
    if outputs == [] then None else Or(InteractiveOn(outputs[0].layers), Interactive(outputs[1..]))
  }

  function Lifted(windows: seq<Window>, w: Window): seq<Window> {
    if w.stacksItself then windows else Without(windows, w) + [w]
  }

  function Without(windows: seq<Window>, w: Window): seq<Window> {
    if windows == [] then []
    else (if windows[0] == w then [] else [windows[0]]) + Without(windows[1..], w)
  }

  // ------------------------------------------------------------------ the check

  function WindowFor(windows: seq<Window>, surface: nat): Option<Window> {
    if windows == [] then None
    else if surface in windows[0].tree then Some(windows[0])
    else WindowFor(windows[1..], surface)
  }

  function X11For(windows: seq<Window>, xid: nat): Option<Window> {
    if windows == [] then None
    else if windows[0].target.X11? && windows[0].target.xid == xid then Some(windows[0])
    else X11For(windows[1..], xid)
  }

  function WindowOf(windows: seq<Window>, t: Target): Option<Window> {
    match t case Wayland(s) => WindowFor(windows, s) case X11(xid, _) => X11For(windows, xid)
  }

  function LayerFor(layers: seq<Layer>, surface: nat): Option<Layer> {
    if layers == [] then None
    else if surface in layers[0].tree then Some(layers[0])
    else LayerFor(layers[1..], surface)
  }

  function LayerAccepts(outputs: seq<Output>, surface: nat): Option<bool> {
    if outputs == [] then None
    else match LayerFor(outputs[0].layers, surface)
      case Some(layer) => Some(layer.interactivity != Never)
      case None => LayerAccepts(outputs[1..], surface)
  }

  predicate NeedsRefresh(desk: Desk, enabled: bool, exclusive: Option<nat>, focus: Option<Target>) {
    if !enabled then false
    else if focus.None? then true
    else if exclusive.Some? then SurfaceOf(focus.value) != exclusive
    else match WindowOf(desk.windows, focus.value)
      case Some(w) => w.hidden
      case None =>
        if SurfaceOf(focus.value).None? then true
        else match LayerAccepts(desk.outputs, SurfaceOf(focus.value).value)
          case Some(accepts) => !accepts
          case None => true
  }

  class Seat {
    var desk: Desk
    var enabled: bool
    var exclusive: Option<nat>
    var focus: Option<Target>

    constructor (desk: Desk, enabled: bool)
      ensures this.desk == desk && this.enabled == enabled && exclusive == None && focus == None
    {
      this.desk, this.enabled, exclusive, focus := desk, enabled, None, None;
    }

    method RefreshExclusiveFocus()
      modifies this`exclusive
      ensures exclusive == Claim(desk.outputs)
      ensures exclusive.None? <==> NobodyClaims(desk.outputs, false)
      ensures exclusive.Some? ==> exists d, k ::
                FirstToClaim(desk.outputs, !NobodyClaims(desk.outputs, true), d, k)
                && desk.outputs[d].layers[k].surface == exclusive.value
    {
      var noted: Option<nat>, shell: Option<nat> := None, None;
      var i := 0;
      while i < |desk.outputs| && shell.None?
        invariant 0 <= i <= |desk.outputs|
        invariant shell == FirstClaim(Claims(desk.outputs[..i]), true)
        invariant shell.None? ==> noted == FirstClaim(Claims(desk.outputs[..i]), false)
        decreases |desk.outputs| - i
      {
        ClaimsUpTo(desk.outputs, i);
        FirstClaimTogether(Claims(desk.outputs[..i]), desk.outputs[i].layers, true);
        FirstClaimTogether(Claims(desk.outputs[..i]), desk.outputs[i].layers, false);
        noted, shell := WalkLayers(desk.outputs[i].layers, noted);
        i := i + 1;
      }
      ClaimsPrefix(desk.outputs, i);
      FirstClaimTogether(Claims(desk.outputs[..i]), Claims(desk.outputs[i..]), true);
      if shell.None? {
        assert desk.outputs[..i] == desk.outputs;
      }
      exclusive := Or(shell, noted);
      ClaimExactly(desk.outputs);
    }

    /** Whatever is asked for, an exclusive claim has it, and nothing has it while the host has not. */
    method SetTarget(target: Option<Target>)
      modifies this`focus
      ensures focus == if !enabled then None else if exclusive.Some? then Some(Wayland(exclusive.value)) else target
    {
      var given := target;
      if !enabled {
        given := None;
      } else if exclusive.Some? {
        given := Some(Wayland(exclusive.value));
      }
      if focus != given {
        focus := given;
      }
    }

    method FocusTopmostWindow()
      modifies this`focus, this`desk
      ensures desk == Settled(old(desk), exclusive)
      ensures focus == if enabled then Wanted(old(desk), exclusive) else None
    {
      if exclusive.Some? {
        SetTarget(Some(Wayland(exclusive.value)));
        return;
      }
      var topmost := Chosen(desk);
      if topmost.Some? {
        desk := desk.(windows := Lifted(desk.windows, topmost.value));
        SetTarget(Some(topmost.value.target));
        return;
      }
      var fallback := Interactive(desk.outputs);
      SetTarget(if fallback.Some? then Some(Wayland(fallback.value)) else None);
    }
  }

  function Wanted(desk: Desk, exclusive: Option<nat>): Option<Target> {
    if exclusive.Some? then Some(Wayland(exclusive.value))
    else match Chosen(desk)
      case Some(w) => Some(w.target)
      case None => match Interactive(desk.outputs)
        case Some(s) => Some(Wayland(s))
        case None => None
  }

  function Settled(desk: Desk, exclusive: Option<nat>): Desk {
    match Chosen(desk)
    case Some(w) => if exclusive.None? then desk.(windows := Lifted(desk.windows, w)) else desk
    case None => desk
  }

  // ------------------------------------------------------------------ what is true of every desk

  /** No surface belongs to two things, and no X11 window is listed twice. */
  ghost predicate Tidy(desk: Desk) {
    && (forall w :: w in desk.windows ==> Rooted(w))
    && (forall a, b :: a in desk.windows && b in desk.windows && a != b ==> Strangers(a, b))
    && (forall l :: l in Claims(desk.outputs) ==> l.surface in l.tree)
    && (forall w, l :: w in desk.windows && l in Claims(desk.outputs) ==> w.tree !! l.tree)
    && (forall k, l :: k in Claims(desk.outputs) && l in Claims(desk.outputs) && k != l ==> k.tree !! l.tree)
  }

  predicate Rooted(w: Window) {
    SurfaceOf(w.target).Some? ==> SurfaceOf(w.target).value in w.tree
  }

  predicate Strangers(a: Window, b: Window) {
    a.tree !! b.tree && (a.target.X11? && b.target.X11? ==> a.target.xid != b.target.xid)
  }

  lemma {:induction false} WithoutKeeps(windows: seq<Window>, w: Window, x: Window)
    ensures x in Without(windows, w) <==> x in windows && x != w
  {
    if windows != [] {
      WithoutKeeps(windows[1..], w, x);
      assert windows == [windows[0]] + windows[1..];
    }
  }

  lemma LiftedHas(windows: seq<Window>, w: Window, x: Window)
    requires w in windows
    ensures x in Lifted(windows, w) <==> x in windows
  {
    WithoutKeeps(windows, w, x);
  }

  lemma {:induction false} TopmostIs(windows: seq<Window>, desk: Desk, output: Option<nat>)
    ensures var top := Topmost(windows, desk, output);
            if top.Some? then top.value in windows && Takes(top.value) && (output.None?
                || On(desk, output.value, top.value))
            else forall w :: w in windows ==> !(Takes(w) && (output.None? || On(desk, output.value, w)))
  {
    if windows != [] {
      var n := |windows| - 1;
      TopmostIs(windows[..n], desk, output);
      assert windows == windows[..n] + [windows[n]];
    }
  }

  lemma ChosenIs(desk: Desk)
    ensures Chosen(desk).Some? ==> Chosen(desk).value in desk.windows && Takes(Chosen(desk).value)
    ensures Chosen(desk).None? ==> forall w :: w in desk.windows ==> !Takes(w)
  {
    TopmostIs(desk.windows, desk, desk.driven);
    TopmostIs(desk.windows, desk, None);
  }

  /** In a tidy desk a window is found by its target, and it alone. */
  lemma {:induction false} FoundByTarget(windows: seq<Window>, w: Window)
    requires w in windows && Rooted(w)
    requires forall a, b :: a in windows && b in windows && a != b ==> Strangers(a, b)
    ensures WindowOf(windows, w.target) == Some(w)
  {
    if windows[0] != w {
      assert w in windows[1..];
      assert Strangers(windows[0], w);
      FoundByTarget(windows[1..], w);
    }
  }

  lemma {:induction false} NotFound(windows: seq<Window>, surface: nat)
    requires forall w :: w in windows ==> surface !in w.tree
    ensures WindowFor(windows, surface) == None
  {
    if windows != [] {
      assert windows[0] in windows;
      NotFound(windows[1..], surface);
    }
  }

  lemma {:induction false} FirstClaimIs(layers: seq<Layer>, shellOnly: bool)
    ensures var claim := FirstClaim(layers, shellOnly);
            claim.Some? ==> exists l :: l in layers && l.surface == claim.value && l.interactivity == Exclusive
  {
    if layers != [] {
      FirstClaimIs(layers[1..], shellOnly);
      assert layers == [layers[0]] + layers[1..];
    }
  }

  lemma {:induction false} LastInteractiveIs(layers: seq<Layer>, level: nat)
    ensures var found := LastInteractive(layers, level);
            if found.Some? then exists l :: l in layers && l.surface == found.value && l.interactivity != Never
            else forall l :: l in layers && l.level == level ==> l.interactivity == Never
  {
    if layers != [] {
      var n := |layers| - 1;
      LastInteractiveIs(layers[..n], level);
      assert layers == layers[..n] + [layers[n]];
      assert layers[n] in layers;
    }
  }

  lemma {:induction false} InteractiveIs(outputs: seq<Output>)
    ensures var found := Interactive(outputs);
            && (found.Some? ==> exists l ::
                    l in Claims(outputs) && l.surface == found.value && l.interactivity != Never)
            && (found.None? ==> forall l :: l in Claims(outputs) ==> l.interactivity == Never)
  {
    if outputs != [] {
      var layers := outputs[0].layers;
      LastInteractiveIs(layers, 0);
      LastInteractiveIs(layers, 1);
      LastInteractiveIs(layers, 2);
      LastInteractiveIs(layers, 3);
      InteractiveIs(outputs[1..]);
    }
  }

  lemma {:induction false} LayerForIs(layers: seq<Layer>, surface: nat)
    ensures var found := LayerFor(layers, surface);
            if found.Some? then found.value in layers && surface in found.value.tree
            else forall l :: l in layers ==> surface !in l.tree
  {
    if layers != [] {
      LayerForIs(layers[1..], surface);
      assert layers == [layers[0]] + layers[1..];
    }
  }

  lemma {:induction false} LayerAcceptsIs(outputs: seq<Output>, layer: Layer)
    requires layer in Claims(outputs) && layer.surface in layer.tree
    requires forall k, l :: k in Claims(outputs) && l in Claims(outputs) && k != l ==> k.tree !! l.tree
    ensures LayerAccepts(outputs, layer.surface) == Some(layer.interactivity != Never)
  {
    LayerForIs(outputs[0].layers, layer.surface);
    if LayerFor(outputs[0].layers, layer.surface).None? {
      LayerAcceptsIs(outputs[1..], layer);
    }
  }

  // ------------------------------------------------------------------ the policy satisfies the check

  ghost predicate Candidate(desk: Desk) {
    || (exists w :: w in desk.windows && Takes(w))
    || (exists l :: l in Claims(desk.outputs) && l.interactivity != Never)
  }

  /** Once the policy has been applied the check asks for nothing more, exactly unless there is nobody
      at all to give the keyboard to. */
  lemma RefreshedExactly(desk: Desk, enabled: bool)
    requires Tidy(desk)
    ensures var exclusive := Claim(desk.outputs);
            NeedsRefresh(Settled(desk, exclusive), enabled, exclusive, if enabled then Wanted(desk, exclusive)
                else None)
            <==> enabled && !Candidate(desk)
  {
    var exclusive := Claim(desk.outputs);
    FirstClaimIs(Claims(desk.outputs), true);
    FirstClaimIs(Claims(desk.outputs), false);
    ChosenIs(desk);
    InteractiveIs(desk.outputs);
    if exclusive.None? {
      if Chosen(desk).Some? {
        var w := Chosen(desk).value;
        LiftedIsTidy(desk.windows, w);
        FoundByTarget(Lifted(desk.windows, w), w);
      } else if Interactive(desk.outputs).Some? {
        var l :| l in Claims(desk.outputs) && l.surface == Interactive(desk.outputs).value && l.interactivity != Never;
        NotFound(desk.windows, l.surface);
        LayerAcceptsIs(desk.outputs, l);
      }
    }
  }

  lemma LiftedIsTidy(windows: seq<Window>, w: Window)
    requires w in windows
    requires forall a, b :: a in windows && b in windows && a != b ==> Strangers(a, b)
    ensures w in Lifted(windows, w)
    ensures forall a, b :: a in Lifted(windows, w) && b in Lifted(windows, w) && a != b ==> Strangers(a, b)
  {
    forall x ensures x in Lifted(windows, w) <==> x in windows {
      LiftedHas(windows, w, x);
    }
  }

  /** The check asks less of a window than the policy: one that has the keyboard is left with it, though it
      would never be given it, exactly when it is in sight and has floated or stopped taking input. */
  lemma AnUnwillingWindowKeepsItExactly(desk: Desk, w: Window)
    requires Tidy(desk) && w in desk.windows
    ensures !NeedsRefresh(desk, true, None, Some(w.target)) && !Takes(w) <==> !w.hidden && (w.floating || !w.accepts)
  {
    FoundByTarget(desk.windows, w);
  }

  // ------------------------------------------------------------------ the policy, without its search

  /** A window that takes input, can be seen and does not float, on the display that is asked about. */
  predicate Willing(desk: Desk, output: Option<nat>, w: Window) {
    && w.accepts && !w.hidden && !w.floating
    && (output.Some? ==> output.value < |desk.outputs| && w.target in desk.outputs[output.value].shows)
  }

  /** Nothing above it in the stack will take the keyboard. */
  ghost predicate TopWilling(windows: seq<Window>, desk: Desk, output: Option<nat>, i: int) {
    && 0 <= i < |windows| && Willing(desk, output, windows[i])
    && forall j :: i < j < |windows| ==> !Willing(desk, output, windows[j])
  }

  lemma {:induction false} TopmostExactly(windows: seq<Window>, desk: Desk, output: Option<nat>)
    ensures Topmost(windows, desk, output).Some? ==>
              exists i :: TopWilling(windows, desk, output, i) && windows[i] == Topmost(windows, desk, output).value
    ensures Topmost(windows, desk, output).None? ==> forall w :: w in windows ==> !Willing(desk, output, w)
  {
    if windows != [] {
      var n := |windows| - 1;
      TopmostExactly(windows[..n], desk, output);
      assert windows == windows[..n] + [windows[n]];
      if Willing(desk, output, windows[n]) {
        assert TopWilling(windows, desk, output, n);
      } else if Topmost(windows[..n], desk, output).Some? {
        var i :| TopWilling(windows[..n], desk, output, i) && windows[i] == Topmost(windows, desk, output).value;
        assert TopWilling(windows, desk, output, i);
      }
    }
  }

  /** The layer that is given the keyboard when no window will have it: none on an earlier display, none on
      a higher level of its own, and none newer on its level, would take it. */
  ghost predicate TopLayer(outputs: seq<Output>, d: int, k: int) {
    && 0 <= d < |outputs| && 0 <= k < |outputs[d].layers|
    && outputs[d].layers[k].interactivity != Never
    && (forall e, l :: 0 <= e < d && l in outputs[e].layers ==> l.interactivity == Never)
    && (forall j :: 0 <= j < |outputs[d].layers| && Outranks(outputs[d].layers, j, k) ==>
            outputs[d].layers[j].interactivity == Never)
  }

  predicate Outranks(layers: seq<Layer>, j: int, k: int)
    requires 0 <= j < |layers| && 0 <= k < |layers|
  {
    layers[j].level > layers[k].level || (layers[j].level == layers[k].level && j > k)
  }

  ghost predicate LastOf(layers: seq<Layer>, level: nat, k: int) {
    && 0 <= k < |layers| && layers[k].level == level && layers[k].interactivity != Never
    && forall j :: k < j < |layers| && layers[j].level == level ==> layers[j].interactivity == Never
  }

  ghost predicate NoneOf(layers: seq<Layer>, level: nat) {
    forall j :: 0 <= j < |layers| && layers[j].level == level ==> layers[j].interactivity == Never
  }

  lemma {:induction false} LastInteractiveExactly(layers: seq<Layer>, level: nat)
    ensures LastInteractive(layers, level).Some? ==>
              exists k :: LastOf(layers, level, k) && layers[k].surface == LastInteractive(layers, level).value
    ensures LastInteractive(layers, level).None? ==> NoneOf(layers, level)
  {
    if layers != [] {
      var n := |layers| - 1;
      LastInteractiveExactly(layers[..n], level);
      if layers[n].level == level && layers[n].interactivity != Never {
        assert LastOf(layers, level, n);
      } else if LastInteractive(layers[..n], level).Some? {
        var k :| LastOf(layers[..n], level, k) && layers[..n][k].surface == LastInteractive(layers, level).value;
        NextToLast(layers, level, k);
      } else {
        forall j | 0 <= j < |layers| && layers[j].level == level ensures layers[j].interactivity == Never {
          assert j < n ==> layers[j] == layers[..n][j];
        }
      }
    }
  }

  lemma NextToLast(layers: seq<Layer>, level: nat, k: int)
    requires layers != [] && LastOf(layers[..|layers| - 1], level, k)
    requires layers[|layers| - 1].level == level ==> layers[|layers| - 1].interactivity == Never
    ensures LastOf(layers, level, k)
  {
    forall j | k < j < |layers| && layers[j].level == level ensures layers[j].interactivity == Never {
      assert j < |layers| - 1 ==> layers[j] == layers[..|layers| - 1][j];
    }
  }

  lemma InteractiveOnExactly(outputs: seq<Output>)
    requires outputs != []
    ensures InteractiveOn(outputs[0].layers).Some? ==>
              exists k :: TopLayer(outputs, 0, k)
                  && outputs[0].layers[k].surface == InteractiveOn(outputs[0].layers).value
    ensures InteractiveOn(outputs[0].layers).None? ==>
              forall l :: l in outputs[0].layers ==> l.interactivity == Never
  {
    var layers := outputs[0].layers;
    LastInteractiveExactly(layers, 3);
    LastInteractiveExactly(layers, 2);
    LastInteractiveExactly(layers, 1);
    LastInteractiveExactly(layers, 0);
    if InteractiveOn(layers).Some? {
      var level := if LastInteractive(layers, 3).Some? then 3 else if LastInteractive(layers, 2).Some? then 2
                   else if LastInteractive(layers, 1).Some? then 1 else 0;
      var k :| LastOf(layers, level, k) && layers[k].surface == InteractiveOn(layers).value;
      assert TopLayer(outputs, 0, k);
    }
  }

  lemma {:induction false} InteractiveExactly(outputs: seq<Output>)
    ensures Interactive(outputs).Some? ==>
              exists d, k :: TopLayer(outputs, d, k) && outputs[d].layers[k].surface == Interactive(outputs).value
    ensures Interactive(outputs).None? ==> forall e, l :: 0 <= e < |outputs| && l in outputs[e].layers ==>
            l.interactivity == Never
  {
    if outputs != [] {
      InteractiveOnExactly(outputs);
      if InteractiveOn(outputs[0].layers).None? {
        InteractiveExactly(outputs[1..]);
        if Interactive(outputs[1..]).Some? {
          var d, k :| TopLayer(outputs[1..], d, k) && outputs[1..][d].layers[k].surface == Interactive(outputs).value;
          assert TopLayer(outputs, d + 1, k);
        }
      }
    }
  }

  /** Who is given the keyboard: the claim; failing one, the highest window that will have it of those on
      the driven display, or where there is none there of all; failing any, the topmost layer that will. */
  lemma GivenInOrder(desk: Desk, exclusive: Option<nat>)
    ensures var given := Wanted(desk, exclusive);
            var driven := desk.driven.Some? && exists w :: w in desk.windows && Willing(desk, desk.driven, w);
            var anywhere := exists w :: w in desk.windows && Willing(desk, None, w);
            if exclusive.Some? then given == Some(Wayland(exclusive.value))
            else if driven then exists i ::
                    TopWilling(desk.windows, desk, desk.driven, i) && given == Some(desk.windows[i].target)
            else if anywhere then exists i ::
                    TopWilling(desk.windows, desk, None, i) && given == Some(desk.windows[i].target)
            else if given.Some? then
              exists d, k :: TopLayer(desk.outputs, d, k) && given == Some(Wayland(desk.outputs[d].layers[k].surface))
            else forall e, l :: 0 <= e < |desk.outputs| && l in desk.outputs[e].layers ==> l.interactivity == Never
  {
    TopmostExactly(desk.windows, desk, desk.driven);
    TopmostExactly(desk.windows, desk, None);
    InteractiveExactly(desk.outputs);
  }

  lemma OneTopWilling(windows: seq<Window>, desk: Desk, output: Option<nat>, i: int, j: int)
    requires TopWilling(windows, desk, output, i) && TopWilling(windows, desk, output, j)
    ensures i == j
  {}

  lemma OneTopLayer(outputs: seq<Output>, d: int, k: int, e: int, l: int)
    requires TopLayer(outputs, d, k) && TopLayer(outputs, e, l)
    ensures d == e && k == l
  {
    assert outputs[d].layers[k] in outputs[d].layers && outputs[e].layers[l] in outputs[e].layers;
    assert d == e;
    assert k == l || Outranks(outputs[d].layers, k, l) || Outranks(outputs[d].layers, l, k);
  }

  /** The one the keyboard should go to: the claim; or the highest window that will have it, on the driven
      display if there is one there; or, no window willing, the topmost layer that will. */
  ghost predicate IsGiven(desk: Desk, exclusive: Option<nat>, t: Target) {
    if exclusive.Some? then t == Wayland(exclusive.value)
    else if desk.driven.Some? && exists w :: w in desk.windows && Willing(desk, desk.driven, w) then
      exists i :: TopWilling(desk.windows, desk, desk.driven, i) && desk.windows[i].target == t
    else if exists w :: w in desk.windows && Willing(desk, None, w) then
      exists i :: TopWilling(desk.windows, desk, None, i) && desk.windows[i].target == t
    else
      exists d, k :: TopLayer(desk.outputs, d, k) && t == Wayland(desk.outputs[d].layers[k].surface)
  }

  /** The search finds that one, and nobody else. */
  lemma GivenExactly(desk: Desk, exclusive: Option<nat>, t: Target)
    ensures Wanted(desk, exclusive) == Some(t) <==> IsGiven(desk, exclusive, t)
  {
    if exclusive.None? {
      TopmostExactly(desk.windows, desk, desk.driven);
      TopmostExactly(desk.windows, desk, None);
      if desk.driven.Some? && exists w :: w in desk.windows && Willing(desk, desk.driven, w) {
        GivenTheTopWindow(desk, desk.driven, t);
      } else if exists w :: w in desk.windows && Willing(desk, None, w) {
        GivenTheTopWindow(desk, None, t);
      } else {
        GivenTheTopLayer(desk, t);
      }
    }
  }

  lemma GivenTheTopWindow(desk: Desk, output: Option<nat>, t: Target)
    requires Topmost(desk.windows, desk, output).Some?
    ensures Topmost(desk.windows, desk, output).value.target == t <==>
            exists i :: TopWilling(desk.windows, desk, output, i) && desk.windows[i].target == t
  {
    TopmostExactly(desk.windows, desk, output);
    var i :| TopWilling(desk.windows, desk, output, i)
        && desk.windows[i] == Topmost(desk.windows, desk, output).value;
    forall j | TopWilling(desk.windows, desk, output, j) ensures j == i {
      OneTopWilling(desk.windows, desk, output, i, j);
    }
  }

  lemma GivenTheTopLayer(desk: Desk, t: Target)
    ensures var found := Interactive(desk.outputs);
            found.Some? && Wayland(found.value) == t <==>
            exists d, k :: TopLayer(desk.outputs, d, k) && t == Wayland(desk.outputs[d].layers[k].surface)
  {
    InteractiveExactly(desk.outputs);
    forall d, k | TopLayer(desk.outputs, d, k)
      ensures Interactive(desk.outputs) == Some(desk.outputs[d].layers[k].surface)
    {
      assert desk.outputs[d].layers[k] in desk.outputs[d].layers;
      var e, l :| TopLayer(desk.outputs, e, l)
          && desk.outputs[e].layers[l].surface == Interactive(desk.outputs).value;
      OneTopLayer(desk.outputs, d, k, e, l);
    }
  }

  // ------------------------------------------------------------------ the check, without its search

  /** Whether a target leads to a window: a surface by being in its tree, an X11 window by its number. */
  predicate Reaches(w: Window, t: Target) {
    match t case Wayland(s) => s in w.tree case X11(xid, _) => w.target.X11? && w.target.xid == xid
  }

  ghost predicate FirstReached(windows: seq<Window>, t: Target, i: int) {
    && 0 <= i < |windows| && Reaches(windows[i], t)
    && forall j :: 0 <= j < i ==> !Reaches(windows[j], t)
  }

  ghost predicate FirstHolding(layers: seq<Layer>, surface: nat, k: int) {
    && 0 <= k < |layers| && surface in layers[k].tree
    && forall j :: 0 <= j < k ==> surface !in layers[j].tree
  }

  ghost predicate LayerAt(outputs: seq<Output>, surface: nat, d: int, k: int) {
    && 0 <= d < |outputs| && FirstHolding(outputs[d].layers, surface, k)
    && forall e, l :: 0 <= e < d && l in outputs[e].layers ==> surface !in l.tree
  }

  lemma {:induction false} WindowOfExactly(windows: seq<Window>, t: Target)
    ensures WindowOf(windows, t).Some? ==>
              exists i :: FirstReached(windows, t, i) && windows[i] == WindowOf(windows, t).value
    ensures WindowOf(windows, t).None? ==> forall w :: w in windows ==> !Reaches(w, t)
  {
    if windows != [] {
      WindowOfExactly(windows[1..], t);
      assert windows == [windows[0]] + windows[1..];
      if Reaches(windows[0], t) {
        assert FirstReached(windows, t, 0);
      } else if WindowOf(windows[1..], t).Some? {
        var i :| FirstReached(windows[1..], t, i) && windows[1..][i] == WindowOf(windows, t).value;
        assert FirstReached(windows, t, i + 1);
      }
    }
  }

  lemma {:induction false} LayerForExactly(layers: seq<Layer>, surface: nat)
    ensures LayerFor(layers, surface).Some? ==>
              exists k :: FirstHolding(layers, surface, k) && layers[k] == LayerFor(layers, surface).value
    ensures LayerFor(layers, surface).None? ==> forall l :: l in layers ==> surface !in l.tree
  {
    if layers != [] {
      LayerForExactly(layers[1..], surface);
      assert layers == [layers[0]] + layers[1..];
      if surface in layers[0].tree {
        assert FirstHolding(layers, surface, 0);
      } else if LayerFor(layers[1..], surface).Some? {
        var k :| FirstHolding(layers[1..], surface, k) && layers[1..][k] == LayerFor(layers, surface).value;
        assert FirstHolding(layers, surface, k + 1);
      }
    }
  }

  lemma {:induction false} LayerAcceptsExactly(outputs: seq<Output>, surface: nat)
    ensures LayerAccepts(outputs, surface).Some? ==>
              exists d, k :: LayerAt(outputs, surface, d, k)
                  && LayerAccepts(outputs, surface).value == (outputs[d].layers[k].interactivity != Never)
    ensures LayerAccepts(outputs, surface).None? ==>
              forall d, l :: 0 <= d < |outputs| && l in outputs[d].layers ==> surface !in l.tree
  {
    if outputs != [] {
      var layers := outputs[0].layers;
      LayerForExactly(layers, surface);
      if LayerFor(layers, surface).Some? {
        var k :| FirstHolding(layers, surface, k) && layers[k] == LayerFor(layers, surface).value;
        assert LayerAt(outputs, surface, 0, k);
      } else {
        LayerAcceptsExactly(outputs[1..], surface);
        if LayerAccepts(outputs[1..], surface).Some? {
          var d, k :| LayerAt(outputs[1..], surface, d, k)
              && LayerAccepts(outputs, surface).value == (outputs[1..][d].layers[k].interactivity != Never);
          assert LayerAt(outputs, surface, d + 1, k);
        }
      }
    }
  }

  /** Who may keep the keyboard: what stands on the claim's surface; or, unclaimed, what leads to a window
      in sight, or to no window at all but to a layer that takes the keyboard. */
  ghost predicate MayKeep(desk: Desk, exclusive: Option<nat>, t: Target) {
    if exclusive.Some? then SurfaceOf(t) == exclusive
    else
      || (exists i :: FirstReached(desk.windows, t, i) && !desk.windows[i].hidden)
      || ((forall w :: w in desk.windows ==> !Reaches(w, t)) && LeadsToALayer(desk.outputs, SurfaceOf(t)))
  }

  ghost predicate LeadsToALayer(outputs: seq<Output>, surface: Option<nat>) {
    && surface.Some?
    && exists d, k :: LayerAt(outputs, surface.value, d, k) && outputs[d].layers[k].interactivity != Never
  }

  lemma LeadsToALayerExactly(outputs: seq<Output>, surface: nat)
    ensures LayerAccepts(outputs, surface) == Some(true) <==> LeadsToALayer(outputs, Some(surface))
  {
    LayerAcceptsExactly(outputs, surface);
    forall d, k | LayerAt(outputs, surface, d, k)
      ensures LayerAccepts(outputs, surface) == Some(outputs[d].layers[k].interactivity != Never)
    {
      assert outputs[d].layers[k] in outputs[d].layers;
      var e, l :| LayerAt(outputs, surface, e, l)
          && LayerAccepts(outputs, surface).value == (outputs[e].layers[l].interactivity != Never);
      assert outputs[e].layers[l] in outputs[e].layers;
      assert d == e && k == l;
    }
  }

  /** The check is satisfied by those who may keep it, and by nobody else. */
  lemma KeptExactly(desk: Desk, exclusive: Option<nat>, t: Target)
    ensures !NeedsRefresh(desk, true, exclusive, Some(t)) <==> MayKeep(desk, exclusive, t)
  {
    if exclusive.None? {
      WindowOfExactly(desk.windows, t);
      if WindowOf(desk.windows, t).Some? {
        var i :| FirstReached(desk.windows, t, i) && desk.windows[i] == WindowOf(desk.windows, t).value;
        assert forall j :: FirstReached(desk.windows, t, j) ==> j == i;
        assert desk.windows[i] in desk.windows;
      } else if SurfaceOf(t).Some? {
        LeadsToALayerExactly(desk.outputs, SurfaceOf(t).value);
      }
    }
  }

  /** The check is not the policy. What has the keyboard is left with it though the policy would give it to
      another, exactly when it is one of those who may keep it and is not the one it should go to. */
  lemma ComesApartExactly(desk: Desk, exclusive: Option<nat>, t: Target)
    ensures !NeedsRefresh(desk, true, exclusive, Some(t)) && Wanted(desk, exclusive) != Some(t)
            <==> MayKeep(desk, exclusive, t) && !IsGiven(desk, exclusive, t)
  {
    KeptExactly(desk, exclusive, t);
    GivenExactly(desk, exclusive, t);
  }

  /** So a layer that was clicked keeps the keyboard while a window that the policy would rather have
      stands open, which is what the check is written for. */
  lemma AClickedLayerKeepsIt(desk: Desk, layer: Layer, w: Window)
    requires Tidy(desk) && layer in Claims(desk.outputs) && layer.interactivity != Never
    requires w in desk.windows && Takes(w)
    ensures var t := Wayland(layer.surface);
            !NeedsRefresh(desk, true, None, Some(t)) && Wanted(desk, None) != Some(t)
  {
    NotFound(desk.windows, layer.surface);
    LayerAcceptsIs(desk.outputs, layer);
    ChosenIs(desk);
    assert Rooted(Chosen(desk).value);
  }

  /** And so does a window that is not the topmost. */
  lemma ALowerWindowKeepsIt(lower: Window, upper: Window)
    requires Takes(lower) && Takes(upper) && lower.target != upper.target
    requires Reaches(lower, lower.target)
    ensures var desk := Desk([lower, upper], [], None);
            !NeedsRefresh(desk, true, None, Some(lower.target)) && Wanted(desk, None) == Some(upper.target)
  {
    var desk := Desk([lower, upper], [], None);
    assert FirstReached(desk.windows, lower.target, 0);
    KeptExactly(desk, None, lower.target);
    assert TopWilling(desk.windows, desk, None, 1);
    assert desk.windows[1] in desk.windows;
    GivenExactly(desk, None, upper.target);
  }

  /** A window that is raised goes to the top, and the others keep their order below it. */
  lemma {:induction false} RaisedIsLast(windows: seq<Window>, w: Window, i: nat)
    requires i < |windows| && windows[i] == w && !w.stacksItself
    requires forall j :: 0 <= j < |windows| && j != i ==> windows[j] != w
    ensures Lifted(windows, w) == windows[..i] + windows[i + 1..] + [w]
  {
    WithoutIs(windows, w, i);
  }

  lemma {:induction false} WithoutIs(windows: seq<Window>, w: Window, i: nat)
    requires i < |windows| && windows[i] == w && forall j :: 0 <= j < |windows| && j != i ==> windows[j] != w
    ensures Without(windows, w) == windows[..i] + windows[i + 1..]
  {
    if i == 0 {
      WithoutNobody(windows[1..], w);
    } else {
      WithoutIs(windows[1..], w, i - 1);
      assert windows[..i] + windows[i + 1..] == [windows[0]] + (windows[1..][..i - 1] + windows[1..][i..]);
    }
  }

  lemma {:induction false} WithoutNobody(windows: seq<Window>, w: Window)
    requires w !in windows
    ensures Without(windows, w) == windows
  {
    if windows != [] {
      WithoutNobody(windows[1..], w);
      assert windows[0] in windows;
    }
  }

  // ------------------------------------------------------------------ asking twice

  lemma {:induction false} TopmostOfLifted(windows: seq<Window>, desk: Desk, output: Option<nat>, w: Window)
    requires Takes(w) && (output.None? || On(desk, output.value, w))
    ensures Topmost(windows + [w], desk, output) == Some(w)
  {
    assert (windows + [w])[|windows|] == w;
  }

  lemma SameOn(a: Desk, b: Desk, windows: seq<Window>, output: Option<nat>)
    requires a.outputs == b.outputs
    ensures Topmost(windows, a, output) == Topmost(windows, b, output)
  {
    if windows != [] {
      SameOn(a, b, windows[..|windows| - 1], output);
    }
  }

  /** Applied a second time the policy gives the keyboard to the same one. */
  lemma AskedTwice(desk: Desk, exclusive: Option<nat>)
    ensures Wanted(Settled(desk, exclusive), exclusive) == Wanted(desk, exclusive)
  {
    var again := Settled(desk, exclusive);
    if exclusive.None? && Chosen(desk).Some? {
      var w := Chosen(desk).value;
      TopmostIs(desk.windows, desk, desk.driven);
      TopmostIs(desk.windows, desk, None);
      if !w.stacksItself {
        var rest := Without(desk.windows, w);
        TopmostOfLifted(rest, again, None, w);
        if desk.driven.Some? {
          if Topmost(desk.windows, desk, desk.driven).Some? {
            TopmostOfLifted(rest, again, desk.driven, w);
          } else {
            TopmostIs(again.windows, again, desk.driven);
            forall x | x in again.windows ensures x in desk.windows {
              LiftedHas(desk.windows, w, x);
            }
          }
        }
      } else {
        SameOn(desk, again, desk.windows, desk.driven);
        SameOn(desk, again, desk.windows, None);
      }
    }
  }
}
