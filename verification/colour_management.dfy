/** The colour-management objects: a creator that is used once, descriptions that mean the same thing
    every time, and the lists that decide who hears of a change. */
module ColourManagement {
  import opened Wrappers

  type U32 = n: nat | n < 0x1_0000_0000

  /** Entries of the protocol's own enumerations, by number. */
  const TF_SRGB: U32 := 9
  const TF_PQ: U32 := 11
  const TF_LAST: U32 := 13
  const PRIMARIES_SRGB: U32 := 1
  const PRIMARIES_BT2020: U32 := 6
  const PRIMARIES_LAST: U32 := 10

  datatype Chromaticity = Chromaticity(red: (int, int), green: (int, int), blue: (int, int), white: (int, int))

  datatype Luminances = Luminances(min: U32, max: U32, reference: U32)

  datatype Target = Target(primaries: Option<Chromaticity>, luminance: Option<(U32, U32)>, maxCll: Option<U32>,
      maxFall: Option<U32>)

  datatype Description = Description(transfer: U32, primaries: U32, luminances: Option<Luminances>, target: Target)

  datatype Params = Params(transfer: Option<U32>, primaries: Option<U32>, luminances: Option<Luminances>,
      target: Target, used: bool)

  const UNSET := Params(None, None, None, Target(None, None, None, None), false)

  datatype Request =
    | SetTf(tf: U32) | SetPrimaries(primaries: U32) | SetLuminances(l: Luminances)
    | SetMasteringPrimaries(c: Chromaticity) | SetMasteringLuminance(min: U32, max: U32)
    | SetMaxCll(cll: U32) | SetMaxFall(fall: U32) | Create | Unadvertised

  datatype Error = AlreadySet | InvalidTf | InvalidPrimaries | InvalidLuminance | IncompleteSet | UnsupportedFeature

  datatype Reply = Refused(error: Error) | Taken | Ready(description: Description)

  predicate Known(code: U32, last: U32) {
    1 <= code <= last
  }

  /** The protocol's bound: both tops above the floor, in one scale. */
  predicate AboveTheFloor(l: Luminances) {
    l.max * 10_000 > l.min && l.reference * 10_000 > l.min
  }

  /** The range a description ends up with: under PQ the top asked for is replaced by one set off the floor. */
  function Fixed(l: Luminances, transfer: U32): Luminances {
    if transfer == TF_PQ then Luminances(l.min, l.min / 10_000 + 10_000, l.reference) else l
  }

  function Described(p: Params): Description
    requires p.transfer.Some? && p.primaries.Some?
  {
    Description(p.transfer.value, p.primaries.value,
                if p.luminances.Some? then Some(Fixed(p.luminances.value, p.transfer.value)) else None, p.target)
  }

  function Answer(p: Params, r: Request): Reply {
    if p.used then Refused(AlreadySet)
    else match r
      case SetTf(tf) =>
        if p.transfer.Some? then Refused(AlreadySet)
        else if !Known(tf, TF_LAST) || (tf != TF_SRGB && tf != TF_PQ) then Refused(InvalidTf) else Taken
      case SetPrimaries(code) =>
        if p.primaries.Some? then Refused(AlreadySet)
        else if !Known(code, PRIMARIES_LAST) || (code != PRIMARIES_SRGB
            && code != PRIMARIES_BT2020) then Refused(InvalidPrimaries)
        else Taken
      case SetLuminances(l) =>
        if p.luminances.Some? then Refused(AlreadySet) else if !AboveTheFloor(l) then Refused(InvalidLuminance)
            else Taken
      case SetMasteringPrimaries(_) => if p.target.primaries.Some? then Refused(AlreadySet) else Taken
      case SetMasteringLuminance(_, _) => if p.target.luminance.Some? then Refused(AlreadySet) else Taken
      case SetMaxCll(_) => if p.target.maxCll.Some? then Refused(AlreadySet) else Taken
      case SetMaxFall(_) => if p.target.maxFall.Some? then Refused(AlreadySet) else Taken
      case Create => if p.transfer.Some? && p.primaries.Some? then Ready(Described(p)) else Refused(IncompleteSet)
      case Unadvertised => Refused(UnsupportedFeature)
  }

  function Next(p: Params, r: Request): Params {
    if Answer(p, r).Refused? then p
    else match r
      case SetTf(tf) => p.(transfer := Some(tf))
      case SetPrimaries(code) => p.(primaries := Some(code))
      case SetLuminances(l) => p.(luminances := Some(l))
      case SetMasteringPrimaries(c) => p.(target := p.target.(primaries := Some(c)))
      case SetMasteringLuminance(min, max) => p.(target := p.target.(luminance := Some((min, max))))
      case SetMaxCll(cll) => p.(target := p.target.(maxCll := Some(cll)))
      case SetMaxFall(fall) => p.(target := p.target.(maxFall := Some(fall)))
      case Create => p.(used := true)
      case Unadvertised => p
  }

  function After(requests: seq<Request>): Params {
    if requests == [] then UNSET else Next(After(requests[..|requests| - 1]), requests[|requests| - 1])
  }

  class Creator {
    var params: Params

    constructor ()
      ensures params == UNSET
    {
      params := UNSET;
    }

    method SetTransfer(tf: U32) returns (reply: Reply)
      requires !params.used
      modifies this
      ensures reply == Answer(old(params), SetTf(tf)) && params == Next(old(params), SetTf(tf))
    {
      if params.transfer.Some? {
        return Refused(AlreadySet);
      }
      if !Known(tf, TF_LAST) {
        return Refused(InvalidTf);
      }
      if tf != TF_SRGB && tf != TF_PQ {
        return Refused(InvalidTf);
      }
      params := params.(transfer := Some(tf));
      reply := Taken;
    }

    method SetNamedPrimaries(code: U32) returns (reply: Reply)
      requires !params.used
      modifies this
      ensures reply == Answer(old(params), SetPrimaries(code)) && params == Next(old(params), SetPrimaries(code))
    {
      if params.primaries.Some? {
        return Refused(AlreadySet);
      }
      if !Known(code, PRIMARIES_LAST) {
        return Refused(InvalidPrimaries);
      }
      if code != PRIMARIES_SRGB && code != PRIMARIES_BT2020 {
        return Refused(InvalidPrimaries);
      }
      params := params.(primaries := Some(code));
      reply := Taken;
    }

    method SetRange(l: Luminances) returns (reply: Reply)
      requires !params.used
      modifies this
      ensures reply == Answer(old(params), SetLuminances(l)) && params == Next(old(params), SetLuminances(l))
    {
      if params.luminances.Some? {
        return Refused(AlreadySet);
      }
      if l.max * 10_000 <= l.min || l.reference * 10_000 <= l.min {
        return Refused(InvalidLuminance);
      }
      params := params.(luminances := Some(l));
      reply := Taken;
    }

    method Finish() returns (reply: Reply)
      requires !params.used
      modifies this
      ensures reply == Answer(old(params), Create) && params == Next(old(params), Create)
    {
      if params.transfer.None? || params.primaries.None? {
        return Refused(IncompleteSet);
      }
      params := params.(used := true);
      var luminances := params.luminances;
      if luminances.Some? && params.transfer.value == TF_PQ {
        var l := luminances.value;
        luminances := Some(Luminances(l.min, l.min / 10_000 + 10_000, l.reference));
      }
      reply := Ready(Description(params.transfer.value, params.primaries.value, luminances, params.target));
    }

    method Request(r: Request) returns (reply: Reply)
      modifies this
      ensures reply == Answer(old(params), r) && params == Next(old(params), r)
    {
      if params.used {
        return Refused(AlreadySet);
      }
      match r
      case SetTf(tf) => reply := SetTransfer(tf);
      case SetPrimaries(code) => reply := SetNamedPrimaries(code);
      case SetLuminances(l) => reply := SetRange(l);
      case SetMasteringPrimaries(c) =>
        if params.target.primaries.Some? {
          return Refused(AlreadySet);
        }
        params := params.(target := params.target.(primaries := Some(c)));
        reply := Taken;
      case SetMasteringLuminance(min, max) =>
        if params.target.luminance.Some? {
          return Refused(AlreadySet);
        }
        params := params.(target := params.target.(luminance := Some((min, max))));
        reply := Taken;
      case SetMaxCll(cll) =>
        if params.target.maxCll.Some? {
          return Refused(AlreadySet);
        }
        params := params.(target := params.target.(maxCll := Some(cll)));
        reply := Taken;
      case SetMaxFall(fall) =>
        if params.target.maxFall.Some? {
          return Refused(AlreadySet);
        }
        params := params.(target := params.target.(maxFall := Some(fall)));
        reply := Taken;
      case Create => reply := Finish();
      case Unadvertised => reply := Refused(UnsupportedFeature);
    }
  }

  // ------------------------------------------------------------------ every run of a creator

  datatype Kind = TfKind | PrimariesKind | LuminancesKind | MasteringPrimariesKind | MasteringLuminanceKind | CllKind
      | FallKind

  function KindOf(r: Request): Option<Kind> {
    match r
    case SetTf(_) => Some(TfKind)
    case SetPrimaries(_) => Some(PrimariesKind)
    case SetLuminances(_) => Some(LuminancesKind)
    case SetMasteringPrimaries(_) => Some(MasteringPrimariesKind)
    case SetMasteringLuminance(_, _) => Some(MasteringLuminanceKind)
    case SetMaxCll(_) => Some(CllKind)
    case SetMaxFall(_) => Some(FallKind)
    case Create => None
    case Unadvertised => None
  }

  /** The request that would have set a field to what it holds. */
  function Held(p: Params, kind: Kind): Option<Request> {
    match kind
    case TfKind => if p.transfer.Some? then Some(SetTf(p.transfer.value)) else None
    case PrimariesKind => if p.primaries.Some? then Some(SetPrimaries(p.primaries.value)) else None
    case LuminancesKind => if p.luminances.Some? then Some(SetLuminances(p.luminances.value)) else None
    case MasteringPrimariesKind =>
      if p.target.primaries.Some? then Some(SetMasteringPrimaries(p.target.primaries.value)) else None
    case MasteringLuminanceKind =>
      if p.target.luminance.Some? then Some(SetMasteringLuminance(p.target.luminance.value.0,
          p.target.luminance.value.1)) else None
    case CllKind => if p.target.maxCll.Some? then Some(SetMaxCll(p.target.maxCll.value)) else None
    case FallKind => if p.target.maxFall.Some? then Some(SetMaxFall(p.target.maxFall.value)) else None
  }

  predicate Accepted(requests: seq<Request>, i: int) {
    0 <= i < |requests| && !Answer(After(requests[..i]), requests[i]).Refused?
  }

  lemma OneStep(p: Params, r: Request, kind: Kind)
    ensures Held(Next(p, r), kind) == if KindOf(r) == Some(kind) && !Answer(p, r).Refused? then Some(r)
        else Held(p, kind)
    ensures KindOf(r) == Some(kind) && !Answer(p, r).Refused? ==> Held(p, kind).None?
    ensures Next(p, r).used <==> p.used || Answer(p, r).Ready?
  {}

  predicate ReadyAt(requests: seq<Request>, i: int) {
    0 <= i < |requests| && Answer(After(requests[..i]), requests[i]).Ready?
  }

  lemma SameBefore(requests: seq<Request>, n: nat, i: int)
    requires n <= |requests| && i < n
    ensures Accepted(requests[..n], i) <==> Accepted(requests, i)
    ensures ReadyAt(requests[..n], i) <==> ReadyAt(requests, i)
  {
    if 0 <= i {
      assert requests[..n][..i] == requests[..i];
    }
  }

  lemma LastStep(requests: seq<Request>, n: nat)
    requires |requests| == n + 1
    ensures After(requests) == Next(After(requests[..n]), requests[n])
    ensures Accepted(requests, n) <==> !Answer(After(requests[..n]), requests[n]).Refused?
    ensures ReadyAt(requests, n) <==> Answer(After(requests[..n]), requests[n]).Ready?
  {}

  /** A request that is the one accepted for its field. */
  predicate Fills(requests: seq<Request>, i: int, kind: Kind) {
    Accepted(requests, i) && KindOf(requests[i]) == Some(kind)
  }

  ghost function Filling(requests: seq<Request>, kind: Kind): set<int> {
    set i | 0 <= i < |requests| && Fills(requests, i, kind)
  }

  /** A field holds what the one request that was accepted for it said. */
  ghost predicate HoldsOne(requests: seq<Request>, filling: set<int>, held: Option<Request>) {
    && (forall i :: i in filling ==> 0 <= i < |requests| && held == Some(requests[i]))
    && (held.Some? ==> exists i :: i in filling && 0 <= i < |requests| && held == Some(requests[i]))
    && (forall i, j :: i in filling && j in filling ==> i == j)
  }

  /** None is accepted twice. */
  lemma {:induction false} HeldExactly(requests: seq<Request>, kind: Kind)
    ensures HoldsOne(requests, Filling(requests, kind), Held(After(requests), kind))
  {
    if requests != [] {
      var n := |requests| - 1;
      var was, fills := Filling(requests[..n], kind), Fills(requests, n, kind);
      HeldExactly(requests[..n], kind);
      LastStep(requests, n);
      OneStep(After(requests[..n]), requests[n], kind);
      forall i | 0 <= i < n ensures Fills(requests[..n], i, kind) <==> Fills(requests, i, kind) {
        SameBefore(requests, n, i);
      }
      assert Filling(requests, kind) == was + if fills then {n} else {};
      OneMore(requests, n, was, fills, Held(After(requests[..n]), kind), Held(After(requests), kind));
    }
  }

  lemma OneMore(requests: seq<Request>, n: nat, was: set<int>, fills: bool, held: Option<Request>, now: Option<Request>)
    requires |requests| == n + 1 && HoldsOne(requests[..n], was, held)
    requires now == if fills then Some(requests[n]) else held
    requires fills ==> held.None?
    ensures HoldsOne(requests, was + if fills then {n} else {}, now)
  {
    if fills {
      assert forall i :: i !in was;
      assert n in was + {n};
    } else if now.Some? {
      var i :| i in was && 0 <= i < n && held == Some(requests[..n][i]);
      assert i in was + {} && requests[i] == requests[..n][i];
    }
  }

  lemma {:induction false} UsedExactly(requests: seq<Request>)
    ensures After(requests).used <==> exists i :: ReadyAt(requests, i)
  {
    if requests != [] {
      var n := |requests| - 1;
      UsedExactly(requests[..n]);
      LastStep(requests, n);
      OneStep(After(requests[..n]), requests[n], TfKind);
      forall i | i < n ensures ReadyAt(requests[..n], i) <==> ReadyAt(requests, i) {
        SameBefore(requests, n, i);
      }
    }
  }

  /** Whatever is asked of one creator, at most one description comes of it, and after it nothing. */
  lemma OneDescription(requests: seq<Request>, i: nat, j: nat)
    requires i < j < |requests| && ReadyAt(requests, i)
    ensures Answer(After(requests[..j]), requests[j]) == Refused(AlreadySet)
  {
    UsedExactly(requests[..j]);
    SameBefore(requests, j, i);
    assert ReadyAt(requests[..j], i);
  }

  ghost predicate SaidOnce(requests: seq<Request>, k: nat, kind: Kind, held: Option<Request>)
    requires k <= |requests|
  {
    && (held.Some? ==> exists i :: i < k && Fills(requests, i, kind) && requests[i] == held.value)
    && (forall i :: i < k && Fills(requests, i, kind) ==> held == Some(requests[i]))
  }

  lemma SaidBefore(requests: seq<Request>, k: nat, kind: Kind)
    requires k <= |requests|
    ensures SaidOnce(requests, k, kind, Held(After(requests[..k]), kind))
  {
    var before := requests[..k];
    HeldExactly(before, kind);
    forall i | i < k ensures Fills(requests, i, kind) <==> i in Filling(before, kind) {
      SameBefore(requests, k, i);
    }
    if Held(After(before), kind).Some? {
      var i :| i in Filling(before, kind) && Held(After(before), kind) == Some(before[i]);
      assert Fills(requests, i, kind) && requests[i] == Held(After(before), kind).value;
    }
  }

  function Undone(d: Description): Params {
    Params(Some(d.transfer), Some(d.primaries), d.luminances, d.target, false)
  }

  /** The range is the one set, as the curve makes it, and there is none when none was set. */
  ghost predicate RangeSaid(requests: seq<Request>, k: nat, range: Option<Luminances>, transfer: U32)
    requires k <= |requests|
  {
    && (range.Some? ==> exists i :: i < k && Accepted(requests, i) && SaysRange(requests[i], range.value, transfer))
    && (forall i :: i < k && Accepted(requests, i) && requests[i].SetLuminances? ==>
          range.Some? && SaysRange(requests[i], range.value, transfer))
  }

  predicate SaysRange(r: Request, range: Luminances, transfer: U32) {
    r.SetLuminances? && range == Fixed(r.l, transfer)
  }

  lemma RangeBefore(requests: seq<Request>, k: nat, transfer: U32)
    requires k <= |requests|
    ensures var said := After(requests[..k]).luminances;
            && RangeSaid(requests, k, if said.Some? then Some(Fixed(said.value, transfer)) else None, transfer)
            && (said.Some? ==> AboveTheFloor(said.value))
  {
    SaidBefore(requests, k, LuminancesKind);
    var said := After(requests[..k]).luminances;
    forall i | i < k && Accepted(requests, i) && requests[i].SetLuminances? ensures said == Some(requests[i].l) {
      assert Fills(requests, i, LuminancesKind);
    }
    if said.Some? {
      var i :| i < k && Fills(requests, i, LuminancesKind) && requests[i] == SetLuminances(said.value);
      assert SaysRange(requests[i], Fixed(said.value, transfer), transfer);
    }
  }

  lemma ReportsARange(requests: seq<Request>, k: nat)
    requires k < |requests| && ReadyAt(requests, k)
    ensures AboveTheFloor(Reported(Answer(After(requests[..k]), requests[k]).description))
  {
    var p := After(requests[..k]);
    RangeBefore(requests, k, p.transfer.value);
    if p.luminances.Some? {
      FixedStaysAbove(p.luminances.value, p.transfer.value);
    }
  }

  /** Every field of a description is the one thing said of it, but for the top of a PQ range; and what it
      reports always has its tops above its floor. */
  lemma DescriptionSays(requests: seq<Request>, k: nat, kind: Kind)
    requires k < |requests| && ReadyAt(requests, k)
    ensures var d := Answer(After(requests[..k]), requests[k]).description;
            && (kind != LuminancesKind ==> SaidOnce(requests, k, kind, Held(Undone(d), kind)))
            && RangeSaid(requests, k, d.luminances, d.transfer)
            && AboveTheFloor(Reported(d))
  {
    var p := After(requests[..k]);
    SaidBefore(requests, k, kind);
    RangeBefore(requests, k, p.transfer.value);
    ReportsARange(requests, k);
    assert kind != LuminancesKind ==> Held(Undone(Described(p)), kind) == Held(p, kind);
  }

  lemma FixedStaysAbove(l: Luminances, transfer: U32)
    requires AboveTheFloor(l)
    ensures AboveTheFloor(Fixed(l, transfer))
  {
    assert l.min == l.min / 10_000 * 10_000 + l.min % 10_000;
  }

  /** A PQ range tops out exactly ten thousand candelas above its floor when the floor is a whole number
      of candelas, and otherwise short of it by the part that is not. */
  lemma TheTopOfPqExactly(l: Luminances)
    ensures Fixed(l, TF_PQ).max * 10_000 == l.min + 100_000_000 - l.min % 10_000
    ensures Fixed(l, TF_PQ).max * 10_000 == l.min + 100_000_000 <==> l.min % 10_000 == 0
  {
    assert l.min == l.min / 10_000 * 10_000 + l.min % 10_000;
  }

  /** What a fresh creator takes, in the protocol's own numbers: sRGB and PQ of the curves, sRGB's and BT.2020's
      of the primaries, any range whose tops are above its floor, and anything at all about mastering. */
  lemma AFreshCreatorTakesExactly(r: Request)
    ensures Answer(UNSET, r).Taken? <==>
            match r
            case SetTf(tf) => tf == 9 || tf == 11
            case SetPrimaries(code) => code == 1 || code == 6
            case SetLuminances(l) => l.max * 10_000 > l.min && l.reference * 10_000 > l.min
            case Create => false
            case Unadvertised => false
            case _ => true
    ensures Answer(UNSET, r).Refused? <==> !Answer(UNSET, r).Taken?
  {}

  /** A curve, primaries and nothing else: a description of just those comes of them exactly when both are
      advertised. */
  lemma TheLeastDescriptionExactly(tf: U32, primaries: U32)
    ensures var requests := [SetTf(tf), SetPrimaries(primaries), Create];
            var answer := Answer(After(requests[..2]), requests[2]);
            if (tf == 9 || tf == 11) && (primaries == 1 || primaries == 6)
            then answer == Ready(Description(tf, primaries, None, Target(None, None, None, None)))
            else answer == Refused(IncompleteSet)
  {
    var requests := [SetTf(tf), SetPrimaries(primaries), Create];
    assert requests[..2][..1] == requests[..1] && requests[..1][..0] == [];
    assert After(requests[..1]) == Next(UNSET, requests[0]);
    assert After(requests[..2]) == Next(After(requests[..1]), requests[1]);
  }

  // ------------------------------------------------------------------ what a description reports

  function ForDisplay(hdr: bool): Description {
    Description(if hdr then TF_PQ else TF_SRGB, if hdr then PRIMARIES_BT2020
        else PRIMARIES_SRGB, None, Target(None, None, None, None))
  }

  function Reported(d: Description): Luminances {
    d.luminances.GetOr(if d.transfer == TF_PQ then Luminances(50, 10_000, 203) else Luminances(2_000, 80, 80))
  }

  function ReportedTarget(d: Description): (U32, U32) {
    d.target.luminance.GetOr((Reported(d).min, Reported(d).max))
  }

  predicate IsRange(min: U32, max: U32) {
    max * 10_000 > min
  }

  /** The range content was graded for is never checked. What a description reports of it is a range exactly
      when every one that was accepted on the way to it was. */
  lemma TheTargetIsARangeExactly(requests: seq<Request>, k: nat)
    requires k < |requests| && ReadyAt(requests, k)
    ensures var (min, max) := ReportedTarget(Answer(After(requests[..k]), requests[k]).description);
            IsRange(min, max) <==> forall i :: i < k && Accepted(requests, i) && requests[i].SetMasteringLuminance? ==>
                IsRange(requests[i].min, requests[i].max)
  {
    ReportsARange(requests, k);
    SaidBefore(requests, k, MasteringLuminanceKind);
    var p := After(requests[..k]);
    forall i | i < k && Accepted(requests, i) && requests[i].SetMasteringLuminance?
      ensures p.target.luminance == Some((requests[i].min, requests[i].max))
    {
      assert Fills(requests, i, MasteringLuminanceKind);
    }
  }

  /** And one that is not is carried all the way to a description. */
  lemma AnInvertedTargetIsReady(min: U32, max: U32)
    requires !IsRange(min, max)
    ensures var requests := [SetTf(TF_PQ), SetPrimaries(PRIMARIES_BT2020), SetMasteringLuminance(min, max), Create];
            && ReadyAt(requests, 3)
            && ReportedTarget(Answer(After(requests[..3]), requests[3]).description) == (min, max)
  {
    var requests := [SetTf(TF_PQ), SetPrimaries(PRIMARIES_BT2020), SetMasteringLuminance(min, max), Create];
    assert requests[..3][..2] == requests[..2] && requests[..2][..1] == requests[..1] && requests[..1][..0] == [];
    assert After(requests[..1]) == Next(UNSET, requests[0]);
    assert After(requests[..2]) == Next(After(requests[..1]), requests[1]);
    assert After(requests[..3]) == Next(After(requests[..2]), requests[2]);
  }

  function Identity(d: Description): nat {
    d.primaries * 256 + d.transfer
  }

  /** The number names the encoding and nothing else: it is never zero, and two descriptions share one
      exactly when they name the same curve and the same primaries, whatever ranges they report. */
  lemma IdentityExactly(a: Description, b: Description)
    requires Known(a.transfer, TF_LAST) && Known(a.primaries, PRIMARIES_LAST)
    requires Known(b.transfer, TF_LAST) && Known(b.primaries, PRIMARIES_LAST)
    ensures 0 < Identity(a) < 0x1_0000_0000
    ensures Identity(a) == Identity(b) <==> a.transfer == b.transfer && a.primaries == b.primaries
  {}

  // ------------------------------------------------------------------ who hears of a change

  /** What an object speaks for: a display, which may be gone, or a surface, which may be on any or none. */
  datatype Subject = OfDisplay(display: Option<nat>) | OfSurface(surface: nat)

  /** One object that is told, and what it was last told. */
  datatype Listener = Listener(id: nat, subject: Subject, last: Option<Description>)

  /** A moment: which displays are driven in HDR, and which display each surface is on. */
  datatype World = World(hdr: set<nat>, on: map<nat, nat>)

  function DisplayOf(subject: Subject, w: World): Option<nat> {
    match subject
    case OfDisplay(display) => display
    case OfSurface(surface) => if surface in w.on then Some(w.on[surface]) else None
  }

  predicate InHdr(subject: Subject, w: World) {
    DisplayOf(subject, w).Some? && DisplayOf(subject, w).value in w.hdr
  }

  function Now(l: Listener, w: World): Description {
    ForDisplay(InHdr(l.subject, w))
  }

  /** What anybody is told: of a display driven in HDR, PQ with BT.2020's primaries and white at 203 of ten
      thousand; of any other, and of no display, sRGB with its own and white at its top of 80. */
  lemma ToldInNumbers(l: Listener, w: World)
    ensures var driven := match l.subject
                          case OfDisplay(display) => display.Some? && display.value in w.hdr
                          case OfSurface(surface) => surface in w.on && w.on[surface] in w.hdr;
            && Now(l, w).transfer == (if driven then 11 else 9) && Now(l, w).primaries == (if driven then 6 else 1)
            && Reported(Now(l, w)) == (if driven then Luminances(50, 10_000, 203) else Luminances(2_000, 80, 80))
            && ReportedTarget(Now(l, w)) == (if driven then (50, 10_000) else (2_000, 80))
            && Identity(Now(l, w)) == (if driven then 0x60B else 0x109)
  {}

  /** An object whose display is gone hears nothing; a surface on no display is told sRGB. */
  predicate Hears(l: Listener, w: World) {
    l.subject != OfDisplay(None) && l.last != Some(Now(l, w))
  }

  function Updated(l: Listener, w: World): Listener {
    if Hears(l, w) then l.(last := Some(Now(l, w))) else l
  }

  ghost predicate AllUpdated(before: seq<Listener>, after: seq<Listener>, w: World) {
    |after| == |before| && forall i :: 0 <= i < |before| ==> after[i] == Updated(before[i], w)
  }

  datatype SurfaceObject = SurfaceObject(id: nat, surface: nat)

  /** The objects whose client is still there, in their order. */
  function Living<T>(objects: seq<T>, id: T -> nat, alive: set<nat>): seq<T> {
    if objects == [] then []
    else
      var n := |objects| - 1;
      Living(objects[..n], id, alive) + if id(objects[n]) in alive then [objects[n]] else []
  }

  function IdOf(l: Listener): nat { l.id }

  function SurfaceIdOf(s: SurfaceObject): nat { s.id }

  lemma {:induction false} LivingHas<T>(objects: seq<T>, id: T -> nat, alive: set<nat>, x: T)
    ensures x in Living(objects, id, alive) <==> x in objects && id(x) in alive
  {
    if objects != [] {
      var n := |objects| - 1;
      LivingHas(objects[..n], id, alive, x);
      assert objects == objects[..n] + [objects[n]];
    }
  }

  ghost predicate OneEach(surfaces: seq<SurfaceObject>) {
    forall i, j :: 0 <= i < j < |surfaces| ==> surfaces[i].surface != surfaces[j].surface
  }

  lemma {:induction false} LivingOneEach(surfaces: seq<SurfaceObject>, alive: set<nat>)
    requires OneEach(surfaces)
    ensures OneEach(Living(surfaces, SurfaceIdOf, alive))
  {
    if surfaces != [] {
      var n := |surfaces| - 1;
      LivingOneEach(surfaces[..n], alive);
      forall s | s in Living(surfaces[..n], SurfaceIdOf, alive) ensures s.surface != surfaces[n].surface {
        LivingHas(surfaces[..n], SurfaceIdOf, alive, s);
      }
    }
  }

  /** Whether anybody of this number has something to hear. */
  ghost predicate SomeHear(listeners: seq<Listener>, id: nat, w: World) {
    exists l :: l in listeners && l.id == id && Hears(l, w)
  }

  lemma OneMoreHears(listeners: seq<Listener>, l: Listener, w: World)
    ensures forall id :: SomeHear(listeners + [l], id, w) <==> SomeHear(listeners, id, w) || (l.id == id && Hears(l, w))
  {
    assert forall m :: m in listeners + [l] <==> m in listeners || m == l;
  }

  lemma LivingHear(listeners: seq<Listener>, alive: set<nat>, w: World)
    ensures forall id :: SomeHear(Living(listeners, IdOf, alive), id, w) <==> id in alive && SomeHear(listeners, id, w)
  {
    forall l ensures l in Living(listeners, IdOf, alive) <==> l in listeners && l.id in alive {
      LivingHas(listeners, IdOf, alive, l);
    }
  }

  class Registry {
    var outputs: seq<Listener>
    var feedbacks: seq<Listener>
    var surfaces: seq<SurfaceObject>
    var unfinished: seq<nat>

    constructor ()
      ensures Valid() && outputs == [] && feedbacks == [] && surfaces == [] && unfinished == []
    {
      outputs, feedbacks, surfaces, unfinished := [], [], [], [];
    }

    /** At most one object for each surface. */
    ghost predicate Valid()
      reads this
    {
      OneEach(surfaces)
    }

    method Retain<T>(objects: seq<T>, id: T -> nat, alive: set<nat>) returns (kept: seq<T>)
      ensures kept == Living(objects, id, alive)
    {
      kept := [];
      for i := 0 to |objects|
        invariant kept == Living(objects[..i], id, alive)
      {
        assert objects[..i + 1][..i] == objects[..i];
        if id(objects[i]) in alive {
          kept := kept + [objects[i]];
        }
      }
      assert objects[..|objects|] == objects;
    }

    /** Those whose client has gone are dropped from all three lists, and nobody else is. */
    method Prune(alive: set<nat>)
      requires Valid()
      modifies this`outputs, this`feedbacks, this`surfaces
      ensures Valid()
      ensures outputs == Living(old(outputs), IdOf, alive) && feedbacks == Living(old(feedbacks), IdOf, alive)
      ensures surfaces == Living(old(surfaces), SurfaceIdOf, alive)
    {
      LivingOneEach(surfaces, alive);
      outputs := Retain(outputs, IdOf, alive);
      feedbacks := Retain(feedbacks, IdOf, alive);
      surfaces := Retain(surfaces, SurfaceIdOf, alive);
    }

    /** A second object for a surface is refused exactly while a first one lives. */
    method GetSurface(id: nat, surface: nat, alive: set<nat>) returns (refused: bool)
      requires Valid()
      modifies this`outputs, this`feedbacks, this`surfaces
      ensures Valid()
      ensures refused <==> exists s :: s in old(surfaces) && s.id in alive && s.surface == surface
      ensures surfaces == Living(old(surfaces), SurfaceIdOf, alive)
          + if refused then [] else [SurfaceObject(id, surface)]
      ensures outputs == Living(old(outputs), IdOf, alive) && feedbacks == Living(old(feedbacks), IdOf, alive)
    {
      Prune(alive);
      forall s ensures s in surfaces <==> s in old(surfaces) && s.id in alive {
        LivingHas(old(surfaces), SurfaceIdOf, alive, s);
      }
      for i := 0 to |surfaces|
        invariant forall j :: 0 <= j < i ==> surfaces[j].surface != surface
      {
        if surfaces[i].surface == surface {
          assert surfaces[i] in surfaces;
          return true;
        }
      }
      surfaces := surfaces + [SurfaceObject(id, surface)];
      refused := false;
    }

    /** A new object for a surface is taken to have been told what the surface should be right away. */
    method GetSurfaceFeedback(id: nat, surface: nat, w: World, alive: set<nat>)
      requires Valid()
      modifies this`outputs, this`feedbacks, this`surfaces
      ensures Valid() && outputs == Living(old(outputs), IdOf, alive)
      ensures surfaces == Living(old(surfaces), SurfaceIdOf, alive)
      ensures feedbacks == Living(old(feedbacks), IdOf, alive)
          + [AfterOne(Listener(id, OfSurface(surface), None), Asked(w))]
    {
      var hdr := surface in w.on && w.on[surface] in w.hdr;
      Prune(alive);
      feedbacks := feedbacks + [Listener(id, OfSurface(surface), Some(ForDisplay(hdr)))];
    }

    /** A client that asks is answered, and what it was answered counts as told. */
    method AskOutput(i: nat, w: World) returns (answer: Description)
      requires i < |outputs|
      modifies this`outputs
      ensures answer == Now(old(outputs)[i], w)
      ensures outputs == old(outputs)[i := AfterOne(old(outputs)[i], Asked(w))]
    {
      var display := DisplayOf(outputs[i].subject, w);
      answer := ForDisplay(display.Some? && display.value in w.hdr);
      outputs := outputs[i := outputs[i].(last := Some(answer))];
    }

    method Tell(listeners: seq<Listener>, w: World) returns (after: seq<Listener>, told: seq<nat>)
      ensures AllUpdated(listeners, after, w)
      ensures forall id :: id in told <==> SomeHear(listeners, id, w)
    {
      after, told := listeners, [];
      for i := 0 to |listeners|
        invariant |after| == |listeners|
        invariant forall j :: 0 <= j < |listeners| ==>
                    after[j] == if j < i then Updated(listeners[j], w) else listeners[j]
        invariant forall id :: id in told <==> SomeHear(listeners[..i], id, w)
      {
        assert listeners[..i + 1] == listeners[..i] + [listeners[i]];
        OneMoreHears(listeners[..i], listeners[i], w);
        if listeners[i].subject != OfDisplay(None) {
          var now := Now(listeners[i], w);
          if listeners[i].last != Some(now) {
            after := after[i := listeners[i].(last := Some(now))];
            told := told + [listeners[i].id];
          }
        }
      }
      assert listeners[..|listeners|] == listeners;
    }

    /** Told once, and truthfully: of those still there, everyone whose answer has moved since they were
        last told hears it, and nobody else. */
    method DisplaysChanged(w: World, alive: set<nat>) returns (changed: seq<nat>, preferred: seq<nat>)
      requires Valid()
      modifies this`outputs, this`feedbacks, this`surfaces
      ensures Valid() && surfaces == Living(old(surfaces), SurfaceIdOf, alive)
      ensures AllUpdated(Living(old(outputs), IdOf, alive), outputs, w)
      ensures AllUpdated(Living(old(feedbacks), IdOf, alive), feedbacks, w)
      ensures forall id :: id in changed <==> id in alive && SomeHear(old(outputs), id, w)
      ensures forall id :: id in preferred <==> id in alive && SomeHear(old(feedbacks), id, w)
    {
      Prune(alive);
      LivingHear(old(outputs), alive, w);
      LivingHear(old(feedbacks), alive, w);
      outputs, changed := Tell(outputs, w);
      feedbacks, preferred := Tell(feedbacks, w);
    }

    /** Each pending answer that is still alive is ended, once, and none is left to end again. */
    method FinishInformation(alive: set<nat>) returns (done: seq<nat>)
      modifies this`unfinished
      ensures unfinished == [] && forall id :: id in done <==> id in old(unfinished) && id in alive
    {
      var pending := unfinished;
      unfinished := [];
      done := [];
      for i := 0 to |pending|
        invariant forall id :: id in done <==> id in pending[..i] && id in alive
      {
        if pending[i] in alive {
          done := done + [pending[i]];
        }
      }
      assert pending[..|pending|] == pending;
    }
  }

  // ------------------------------------------------------------------ everything one object hears

  /** What happens around one object: a walk over everybody, or a question from its own client. */
  datatype Event = Walk(w: World) | Asked(w: World)

  function AfterOne(l: Listener, e: Event): Listener {
    match e case Walk(w) => Updated(l, w) case Asked(w) => l.(last := Some(Now(l, w)))
  }

  function AfterAll(l: Listener, events: seq<Event>): Listener {
    if events == [] then l else AfterOne(AfterAll(l, events[..|events| - 1]), events[|events| - 1])
  }

  predicate ToldAt(l: Listener, events: seq<Event>, k: nat)
    requires k < |events|
  {
    events[k].Walk? && Hears(AfterAll(l, events[..k]), events[k].w)
  }

  lemma {:induction false} SameSubject(l: Listener, events: seq<Event>)
    ensures AfterAll(l, events).subject == l.subject
  {
    if events != [] {
      SameSubject(l, events[..|events| - 1]);
    }
  }

  /** Over any run an object is told exactly when its own answer has moved since the event before, whether
      by its display changing or by its surface moving to another; and never of what its client has just
      asked. */
  lemma HeardExactlyWhenChanged(l: Listener, events: seq<Event>, k: nat)
    requires 0 < k < |events|
    ensures ToldAt(l, events, k) <==>
              events[k].Walk? && (InHdr(l.subject, events[k - 1].w) <==> !InHdr(l.subject, events[k].w))
  {
    assert ForDisplay(true) != ForDisplay(false);
    assert events[..k][..k - 1] == events[..k - 1];
    SameSubject(l, events[..k - 1]);
    SameSubject(l, events[..k]);
  }
}
