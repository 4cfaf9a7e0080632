/** When the order of a configuration's entries, which nobody chose, can be told from the keyboard. */
module KeyOrder {
  import opened Wrappers
  import opened KeyBindings

  type Spelling = (string, string)

  ghost predicate Distinctly(entries: seq<Spelling>) {
    forall i, j :: 0 <= i < j < |entries| ==> entries[i].0 != entries[j].0
  }

  /** One order in which a configuration's entries may come: each once, and nothing else. */
  ghost predicate Lists(entries: seq<Spelling>, config: map<string, string>) {
    && Distinctly(entries)
    && (forall e :: e in entries <==> e.0 in config && config[e.0] == e.1)
  }

  function ReadOne(names: Names, e: Spelling): Option<Binding> {
    var chord, action := names.chord(e.0), names.action(e.1);
    if chord.Some? && action.Some? then Some((chord.value, action.value)) else None
  }

  /** What a configuration says, in no order. */
  ghost function Said(names: Names, config: map<string, string>): set<Binding> {
    set j | j in config && ReadOne(names, (j, config[j])).Some? :: ReadOne(names, (j, config[j])).value
  }

  // ------------------------------------------------------------------ one press

  /** Some modifiers held, and one spelling of the key. */
  datatype Press = Press(mods: Mods, sym: nat)

  predicate Exact(p: Pattern, at: Press) {
    p == Pattern(at.mods, false, FoldCase(at.sym))
  }

  predicate Whole(p: Pattern, at: Press) {
    p.loose && p.key == FoldCase(at.sym)
  }

  predicate Beside(p: Pattern, at: Press) {
    !p.loose && p.key == FoldCase(at.sym) && p.mods != at.mods
  }

  predicate SaysExact(e: Binding, at: Press) {
    e.1 != Guide && Exact(e.0, at)
  }

  predicate SaysWhole(e: Binding, at: Press) {
    e.1 != Guide && Whole(e.0, at)
  }

  /** Another chord on the key, and not one the guide has to begin with. */
  predicate SaysBeside(e: Binding, at: Press, guide: seq<Pattern>) {
    e.1 != Guide && Beside(e.0, at) && e.0 !in guide
  }

  // ------------------------------------------------------------------ which presses waver

  /** Nothing of the guide's answers it. */
  ghost predicate Quiet(table: KeyTable, said: set<Binding>, at: Press) {
    && (forall p :: p in table.guide ==> !Matches(p, at.mods, at.sym))
    && (forall e :: e in said && e.1 == Guide ==> !Matches(e.0, at.mods, at.sym))
  }

  /** Two entries want this very chord for different things. */
  ghost predicate Contested(said: set<Binding>, at: Press) {
    exists a, b :: a in said && b in said && SaysExact(a, at) && SaysExact(b, at) && a.1 != b.1
  }

  /** Nobody wants this very chord. */
  ghost predicate Unclaimed(table: KeyTable, said: set<Binding>, at: Press) {
    && (forall b :: b in table.bindings ==> !Exact(b.0, at))
    && (forall e :: e in said ==> !SaysExact(e, at))
  }

  /** An entry wants the whole key, and another wants it for something else or wants another chord on it. */
  ghost predicate WholeContested(table: KeyTable, said: set<Binding>, at: Press) {
    exists a, b :: a in said && b in said && SaysWhole(a, at) && RivalsForWhole(a, b, at, table.guide)
  }

  predicate RivalsForWhole(a: Binding, b: Binding, at: Press, guide: seq<Pattern>) {
    (SaysWhole(b, at) && a.1 != b.1) || SaysBeside(b, at, guide)
  }

  predicate SomeBeside(table: KeyTable, said: set<Binding>, at: Press) {
    exists o :: o in said && SaysBeside(o, at, table.guide)
  }

  /** No entry wants the whole key, but the built-in table has a binding for it; and all the other chords
      that are wanted on it are the guide's in the end. */
  ghost predicate Exposed(table: KeyTable, said: set<Binding>, at: Press) {
    && (exists b :: b in table.bindings && Whole(b.0, at))
    && (forall e :: e in said ==> !SaysWhole(e, at))
    && SomeBeside(table, said, at)
    && (forall o :: o in said && SaysBeside(o, at, table.guide) ==> (o.0, Guide) in said)
  }

  ghost predicate Wavers(table: KeyTable, said: set<Binding>, at: Press) {
    && Quiet(table, said, at)
    && (Contested(said, at) || (Unclaimed(table, said, at)
        && (WholeContested(table, said, at) || Exposed(table, said, at))))
  }

  // ------------------------------------------------------------------ what a table has for one press

  function ExactOf(bindings: seq<Binding>, at: Press): Option<Action> {
    if bindings == [] then None
    else if Exact(bindings[0].0, at) then Some(bindings[0].1)
    else ExactOf(bindings[1..], at)
  }

  function WholeOf(bindings: seq<Binding>, at: Press): Option<Action> {
    if bindings == [] then None
    else if Whole(bindings[0].0, at) then Some(bindings[0].1)
    else WholeOf(bindings[1..], at)
  }

  /** No binding for the whole key stands before the one for the chord. */
  predicate InFront(bindings: seq<Binding>, at: Press) {
    bindings == []
    || ((Whole(bindings[0].0, at) ==> ExactOf(bindings[1..], at).None?) && InFront(bindings[1..], at))
  }

  datatype Stand = Stand(exact: Option<Action>, whole: Option<Action>)

  function StandOf(bindings: seq<Binding>, at: Press): Stand {
    Stand(ExactOf(bindings, at), WholeOf(bindings, at))
  }

  /** What one entry does to it. */
  function Step(s: Stand, guide: seq<Pattern>, e: Binding, at: Press): Stand {
    if e.1 == Guide || e.0 in guide || e.0.key != FoldCase(at.sym) then s
    else if e.0.loose then s.(whole := Some(e.1))
    else if e.0.mods == at.mods then Stand(Some(e.1), None)
    else s.(whole := None)
  }

  lemma {:induction false} FirstMatchIs(bindings: seq<Binding>, at: Press)
    requires InFront(bindings, at)
    ensures FirstMatch(bindings, at.mods, at.sym) == Or(ExactOf(bindings, at), WholeOf(bindings, at))
  {
    if bindings != [] {
      FirstMatchIs(bindings[1..], at);
    }
  }

  lemma {:induction false} StandsIn(bindings: seq<Binding>, at: Press)
    ensures ExactOf(bindings, at).Some? <==> exists b :: b in bindings && Exact(b.0, at)
    ensures WholeOf(bindings, at).Some? <==> exists b :: b in bindings && Whole(b.0, at)
  {
    if bindings != [] {
      StandsIn(bindings[1..], at);
      assert bindings == [bindings[0]] + bindings[1..];
    }
  }

  lemma {:induction false} WithoutStands(bindings: seq<Binding>, e: Binding, at: Press)
    requires e.1 == Guide ==> !Matches(e.0, at.mods, at.sym)
    ensures ExactOf(Without(bindings, e), at) == if Exact(e.0, at) then None else ExactOf(bindings, at)
    ensures WholeOf(Without(bindings, e), at) ==
            if e.1 != Guide && e.0.key == FoldCase(at.sym) then None else WholeOf(bindings, at)
    ensures InFront(bindings, at) ==> InFront(Without(bindings, e), at)
  {
    if bindings != [] {
      var rest := Without(bindings[1..], e);
      WithoutStands(bindings[1..], e, at);
      if PutsOut(e, bindings[0].0) {
        assert [] + rest == rest;
      } else {
        assert ([bindings[0]] + rest)[1..] == rest;
      }
    }
  }

  lemma {:induction false} AndOneStands(bindings: seq<Binding>, e: Binding, at: Press)
    ensures ExactOf(bindings + [e], at) == Or(ExactOf(bindings, at), if Exact(e.0, at) then Some(e.1) else None)
    ensures WholeOf(bindings + [e], at) == Or(WholeOf(bindings, at), if Whole(e.0, at) then Some(e.1) else None)
    ensures InFront(bindings, at) && (Exact(e.0, at) ==> WholeOf(bindings, at).None?) ==> InFront(bindings + [e], at)
  {
    if bindings == [] {
      assert (bindings + [e])[1..] == [];
    } else {
      assert (bindings + [e])[0] == bindings[0] && (bindings + [e])[1..] == bindings[1..] + [e];
      AndOneStands(bindings[1..], e, at);
    }
  }

  lemma StepStands(table: KeyTable, e: Binding, at: Press)
    requires forall p :: p in table.guide ==> !Matches(p, at.mods, at.sym)
    requires e.1 == Guide ==> !Matches(e.0, at.mods, at.sym)
    requires InFront(table.bindings, at)
    ensures InFront(Entered(table, e).bindings, at)
    ensures StandOf(Entered(table, e).bindings, at) == Step(StandOf(table.bindings, at), table.guide, e, at)
  {
    WithoutStands(table.bindings, e, at);
    AndOneStands(Without(table.bindings, e), e, at);
  }

  // ------------------------------------------------------------------ what an order leaves for it

  ghost predicate Among(entries: seq<Binding>, said: set<Binding>) {
    forall e :: e in entries ==> e in said
  }

  function After(table: KeyTable, entries: seq<Binding>, at: Press): Stand {
    StandOf(AllEntered(table, entries).bindings, at)
  }

  lemma GuideStaysQuiet(table: KeyTable, said: set<Binding>, entries: seq<Binding>, at: Press)
    requires Quiet(table, said, at) && Among(entries, said)
    ensures forall p :: p in AllEntered(table, entries).guide ==> !Matches(p, at.mods, at.sym)
  {
    forall p | p in AllEntered(table, entries).guide ensures !Matches(p, at.mods, at.sym) {
      GuideIs(table, entries, p);
    }
  }

  lemma {:induction false} StaysInFront(table: KeyTable, said: set<Binding>, entries: seq<Binding>, at: Press)
    requires Quiet(table, said, at) && Among(entries, said) && InFront(table.bindings, at)
    ensures InFront(AllEntered(table, entries).bindings, at)
  {
    if entries != [] {
      var n := |entries| - 1;
      StaysInFront(table, said, entries[..n], at);
      LastStands(table, said, entries, at);
    }
  }

  lemma LastStands(table: KeyTable, said: set<Binding>, entries: seq<Binding>, at: Press)
    requires Quiet(table, said, at) && Among(entries, said) && entries != []
    requires InFront(AllEntered(table, entries[..|entries| - 1]).bindings, at)
    ensures InFront(AllEntered(table, entries).bindings, at)
    ensures var n := |entries| - 1;
            After(table, entries, at) ==
            Step(After(table, entries[..n], at), AllEntered(table, entries[..n]).guide, entries[n], at)
  {
    var n := |entries| - 1;
    assert entries == entries[..n] + [entries[n]];
    LastEntered(table, entries[..n], entries[n]);
    GuideStaysQuiet(table, said, entries[..n], at);
    StepStands(AllEntered(table, entries[..n]), entries[n], at);
  }

  /** The last entry's doing, with what the guide has by then said out. */
  lemma LastDoes(table: KeyTable, said: set<Binding>, entries: seq<Binding>, at: Press)
    requires Quiet(table, said, at) && Among(entries, said) && entries != [] && InFront(table.bindings, at)
    ensures var (n, e) := (|entries| - 1, entries[|entries| - 1]);
            var (was, now) := (After(table, entries[..n], at), After(table, entries, at));
            && (SaysExact(e, at) ==> now == Stand(Some(e.1), None))
            && (SaysWhole(e, at) ==> now == was.(whole := Some(e.1)))
            && (SaysBeside(e, at, table.guide) && (e.0, Guide) !in entries[..n] ==> now == was.(whole := None))
            && (SaysBeside(e, at, table.guide) && (e.0, Guide) in entries[..n] ==> now == was)
            && (!SaysExact(e, at) && !SaysWhole(e, at) && !SaysBeside(e, at, table.guide) ==> now == was)
  {
    var n := |entries| - 1;
    StaysInFront(table, said, entries[..n], at);
    LastStands(table, said, entries, at);
    GuideIs(table, entries[..n], entries[n].0);
    GuideStaysQuiet(table, said, entries[..n], at);
  }

  ghost predicate SomeExact(entries: seq<Binding>, at: Press) {
    exists e :: e in entries && SaysExact(e, at)
  }

  ghost predicate SomeWhole(entries: seq<Binding>, at: Press) {
    exists e :: e in entries && SaysWhole(e, at)
  }

  /** Whoever came last with this chord has it, and failing that the built-in table. */
  lemma {:induction false} TheExactOne(table: KeyTable, said: set<Binding>, entries: seq<Binding>, at: Press)
    requires Quiet(table, said, at) && Among(entries, said) && InFront(table.bindings, at)
    ensures var exact := After(table, entries, at).exact;
            if SomeExact(entries, at) then exists e :: e in entries && SaysExact(e, at) && exact == Some(e.1)
            else exact == ExactOf(table.bindings, at)
  {
    if entries != [] {
      var n := |entries| - 1;
      TheExactOne(table, said, entries[..n], at);
      LastDoes(table, said, entries, at);
      assert entries == entries[..n] + [entries[n]];
    }
  }

  /** With no other chord on the key, whoever came last with the whole of it has it, and so on. */
  lemma {:induction false} TheWholeOne(table: KeyTable, said: set<Binding>, entries: seq<Binding>, at: Press)
    requires Quiet(table, said, at) && Among(entries, said) && InFront(table.bindings, at)
    requires forall e :: e in said ==> !SaysExact(e, at) && !SaysBeside(e, at, table.guide)
    ensures var whole := After(table, entries, at).whole;
            if SomeWhole(entries, at) then exists e :: e in entries && SaysWhole(e, at) && whole == Some(e.1)
            else whole == WholeOf(table.bindings, at)
  {
    if entries != [] {
      var n := |entries| - 1;
      TheWholeOne(table, said, entries[..n], at);
      LastDoes(table, said, entries, at);
      assert entries == entries[..n] + [entries[n]];
    }
  }

  /** An entry that puts out a binding for the whole key: the guide has not taken its chord yet. */
  predicate Strikes(table: KeyTable, entries: seq<Binding>, i: int, at: Press) {
    0 <= i < |entries| && SaysBeside(entries[i], at, table.guide) && (entries[i].0, Guide) !in entries[..i]
  }

  /** With nobody else after the key, the built-in binding for the whole of it stays exactly if no entry
      strikes it. */
  lemma {:induction false} TheBuiltInOne(table: KeyTable, said: set<Binding>, entries: seq<Binding>, at: Press)
    requires Quiet(table, said, at) && Among(entries, said) && InFront(table.bindings, at)
    requires forall e :: e in said ==> !SaysExact(e, at) && !SaysWhole(e, at)
    ensures After(table, entries, at).whole ==
            if exists i :: Strikes(table, entries, i, at) then None else WholeOf(table.bindings, at)
  {
    if entries != [] {
      var n := |entries| - 1;
      TheBuiltInOne(table, said, entries[..n], at);
      LastDoes(table, said, entries, at);
      forall i | 0 <= i < n ensures Strikes(table, entries[..n], i, at) <==> Strikes(table, entries, i, at) {
        assert entries[..n][..i] == entries[..i];
      }
      if i :| Strikes(table, entries[..n], i, at) {
        assert Strikes(table, entries, i, at);
      }
      assert Strikes(table, entries, n, at) <==>
        SaysBeside(entries[n], at, table.guide) && (entries[n].0, Guide) !in entries[..n];
    }
  }

  // ------------------------------------------------------------------ a steady press, in every order

  ghost predicate Same(entries: seq<Binding>, said: set<Binding>) {
    forall e :: e in entries <==> e in said
  }

  /** What a press that does not waver is answered with, whatever the order. */
  lemma Steady(table: KeyTable, said: set<Binding>, one: seq<Binding>, other: seq<Binding>, at: Press)
    requires Quiet(table, said, at) && !Wavers(table, said, at)
    requires Same(one, said) && Same(other, said) && InFront(table.bindings, at)
    ensures var (a, b) := (After(table, one, at), After(table, other, at));
            Or(a.exact, a.whole) == Or(b.exact, b.whole)
  {
    TheExactOne(table, said, one, at);
    TheExactOne(table, said, other, at);
    StandsIn(table.bindings, at);
    assert SomeExact(one, at) <==> SomeExact(other, at) by {
      assert forall e :: e in one <==> e in other;
    }
    if !SomeExact(one, at) && ExactOf(table.bindings, at).None? {
      assert Unclaimed(table, said, at);
      SteadyWhole(table, said, one, other, at);
    }
  }

  lemma SteadyWhole(table: KeyTable, said: set<Binding>, one: seq<Binding>, other: seq<Binding>, at: Press)
    requires Quiet(table, said, at) && Unclaimed(table, said, at)
    requires !WholeContested(table, said, at) && !Exposed(table, said, at)
    requires Same(one, said) && Same(other, said) && InFront(table.bindings, at)
    ensures After(table, one, at).whole == After(table, other, at).whole
  {
    if a :| a in said && SaysWhole(a, at) {
      OneWantsTheWhole(table, said, one, a, at);
      OneWantsTheWhole(table, said, other, a, at);
    } else {
      NobodyWantsTheWhole(table, said, one, at);
      NobodyWantsTheWhole(table, said, other, at);
    }
  }

  lemma OneWantsTheWhole(table: KeyTable, said: set<Binding>, entries: seq<Binding>, a: Binding, at: Press)
    requires Quiet(table, said, at) && Unclaimed(table, said, at) && !WholeContested(table, said, at)
    requires Same(entries, said) && InFront(table.bindings, at) && a in said && SaysWhole(a, at)
    ensures After(table, entries, at).whole == Some(a.1)
  {
    assert forall b :: b in said ==> !RivalsForWhole(a, b, at, table.guide);
    TheWholeOne(table, said, entries, at);
    assert a in entries;
  }

  lemma NobodyWantsTheWhole(table: KeyTable, said: set<Binding>, entries: seq<Binding>, at: Press)
    requires Quiet(table, said, at) && Unclaimed(table, said, at) && !Exposed(table, said, at)
    requires Same(entries, said) && InFront(table.bindings, at) && forall e :: e in said ==> !SaysWhole(e, at)
    ensures After(table, entries, at).whole == if SomeBeside(table, said, at) then None else WholeOf(table.bindings, at)
  {
    TheBuiltInOne(table, said, entries, at);
    StandsIn(table.bindings, at);
    if SomeBeside(table, said, at) {
      if WholeOf(table.bindings, at).Some? {
        var o :| o in said && SaysBeside(o, at, table.guide) && (o.0, Guide) !in said;
        var i :| 0 <= i < |entries| && entries[i] == o;
        assert Strikes(table, entries, i, at);
      }
    } else {
      forall i ensures !Strikes(table, entries, i, at) {
        assert 0 <= i < |entries| ==> entries[i] in entries;
      }
    }
  }

  // ------------------------------------------------------------------ making orders

  function ClassOf(names: Names, c: Binding -> nat, e: Spelling): nat {
    match ReadOne(names, e) case Some(b) => c(b) case None => 0
  }

  function Those(names: Names, entries: seq<Spelling>, c: Binding -> nat, group: nat): seq<Spelling> {
    if entries == [] then []
    else (if ClassOf(names, c, entries[0]) == group then [entries[0]] else []) + Those(names, entries[1..], c, group)
  }

  lemma {:induction false} ThoseHas(names: Names, entries: seq<Spelling>, c: Binding -> nat, group: nat, e: Spelling)
    ensures e in Those(names, entries, c, group) <==> e in entries && ClassOf(names, c, e) == group
  {
    if entries != [] {
      ThoseHas(names, entries[1..], c, group, e);
      assert entries == [entries[0]] + entries[1..];
    }
  }

  lemma {:induction false} ThoseAreDistinct(names: Names, entries: seq<Spelling>, c: Binding -> nat, group: nat)
    requires Distinctly(entries)
    ensures Distinctly(Those(names, entries, c, group))
  {
    if entries != [] {
      ThoseAreDistinct(names, entries[1..], c, group);
      forall e | e in Those(names, entries[1..], c, group) ensures e.0 != entries[0].0 {
        ThoseHas(names, entries[1..], c, group, e);
      }
    }
  }

  lemma DistinctTogether(a: seq<Spelling>, b: seq<Spelling>)
    requires Distinctly(a) && Distinctly(b) && forall x, y :: x in a && y in b ==> x.0 != y.0
    ensures Distinctly(a + b)
  {
    forall i, j | 0 <= i < j < |a + b| ensures (a + b)[i].0 != (a + b)[j].0 {
      if i < |a| <= j {
        assert a[i] in a && b[j - |a|] in b;
      }
    }
  }

  lemma {:induction false} ReadTogether(names: Names, a: seq<Spelling>, b: seq<Spelling>)
    ensures ReadEntries(names, a + b) == ReadEntries(names, a) + ReadEntries(names, b)
  {
    if a == [] {
      assert a + b == b;
    } else {
      assert (a + b)[0] == a[0] && (a + b)[1..] == a[1..] + b;
      ReadTogether(names, a[1..], b);
    }
  }

  lemma {:induction false} ReadEntriesHas(names: Names, entries: seq<Spelling>, b: Binding)
    ensures b in ReadEntries(names, entries) <==> exists e :: e in entries && ReadOne(names, e) == Some(b)
  {
    if entries != [] {
      ReadEntriesHas(names, entries[1..], b);
      if e :| e in entries && ReadOne(names, e) == Some(b) {
        assert e == entries[0] || e in entries[1..];
      }
      if ReadOne(names, entries[0]) == Some(b) {
        assert entries[0] in entries;
      }
    }
  }

  lemma SaidIs(names: Names, config: map<string, string>, entries: seq<Spelling>)
    requires Lists(entries, config)
    ensures Same(ReadEntries(names, entries), Said(names, config))
  {
    forall b ensures b in ReadEntries(names, entries) <==> b in Said(names, config) {
      ReadEntriesHas(names, entries, b);
      if j :| j in config && ReadOne(names, (j, config[j])) == Some(b) {
        assert (j, config[j]) in entries;
      }
    }
  }

  ghost predicate Part(part: seq<Binding>, said: set<Binding>, c: Binding -> nat, group: nat) {
    forall b :: b in part <==> b in said && c(b) == group
  }

  lemma PartIs(names: Names, config: map<string, string>, entries: seq<Spelling>, c: Binding -> nat, group: nat)
    requires Lists(entries, config)
    ensures Part(ReadEntries(names, Those(names, entries, c, group)), Said(names, config), c, group)
  {
    var those := Those(names, entries, c, group);
    SaidIs(names, config, entries);
    forall b ensures b in ReadEntries(names, those) <==> b in Said(names, config) && c(b) == group {
      ReadEntriesHas(names, those, b);
      ReadEntriesHas(names, entries, b);
      forall e ensures e in those <==> e in entries && ClassOf(names, c, e) == group {
        ThoseHas(names, entries, c, group, e);
      }
    }
  }

  /** The entries of a configuration can be sorted into any three classes. */
  lemma Arranged(names: Names, config: map<string, string>, entries: seq<Spelling>, c: Binding -> nat)
      returns (other: seq<Spelling>, first: seq<Binding>, second: seq<Binding>, third: seq<Binding>)
    requires Lists(entries, config) && forall b :: c(b) <= 2
    ensures Lists(other, config) && ReadEntries(names, other) == first + second + third
    ensures var said := Said(names, config);
            Part(first, said, c, 0) && Part(second, said, c, 1) && Part(third, said, c, 2)
  {
    var x, y, z := Those(names, entries, c, 0), Those(names, entries, c, 1), Those(names, entries, c, 2);
    other := x + y + z;
    first, second, third := ReadEntries(names, x), ReadEntries(names, y), ReadEntries(names, z);
    ReadTogether(names, x, y);
    ReadTogether(names, x + y, z);
    PartIs(names, config, entries, c, 0);
    PartIs(names, config, entries, c, 1);
    PartIs(names, config, entries, c, 2);
    Rearranged(names, config, entries, c);
  }

  lemma {:induction false} Rearranged(names: Names, config: map<string, string>, entries: seq<Spelling>,
      c: Binding -> nat)
    requires Lists(entries, config) && forall b :: c(b) <= 2
    ensures Lists(Those(names, entries, c, 0) + Those(names, entries, c, 1) + Those(names, entries, c, 2), config)
  {
    var x, y, z := Those(names, entries, c, 0), Those(names, entries, c, 1), Those(names, entries, c, 2);
    ThoseAreDistinct(names, entries, c, 0);
    ThoseAreDistinct(names, entries, c, 1);
    ThoseAreDistinct(names, entries, c, 2);
    forall e
      ensures e in x <==> e in entries && ClassOf(names, c, e) == 0
      ensures e in y <==> e in entries && ClassOf(names, c, e) == 1
      ensures e in z <==> e in entries && ClassOf(names, c, e) == 2
    {
      ThoseHas(names, entries, c, 0, e);
      ThoseHas(names, entries, c, 1, e);
      ThoseHas(names, entries, c, 2, e);
    }
    DistinctTogether(x, y);
    DistinctTogether(x + y, z);
  }

  /** An order with one of the things said last of all. */
  lemma EndingIn(names: Names, config: map<string, string>, entries: seq<Spelling>, e: Binding)
      returns (other: seq<Spelling>)
    requires Lists(entries, config) && e in Said(names, config)
    ensures Lists(other, config)
    ensures var r := ReadEntries(names, other); r != [] && r[|r| - 1] == e
  {
    var first, second, third;
    other, first, second, third := Arranged(names, config, entries,
                                             (b: Binding) => if b == e then 2 else 0);
    assert e in third;
    assert third[|third| - 1] in third;
  }

  /** An order with one of them last of all but the guide's taking of its chord. */
  lemma BeforeItsGuide(names: Names, config: map<string, string>, entries: seq<Spelling>, o: Binding)
      returns (other: seq<Spelling>, before: seq<Binding>, guides: seq<Binding>)
    requires Lists(entries, config) && o in Said(names, config) && o.1 != Guide
    ensures Lists(other, config) && ReadEntries(names, other) == before + guides
    ensures before != [] && before[|before| - 1] == o && (o.0, Guide) !in before
    ensures forall g :: g in guides ==> g.1 == Guide
  {
    var first, second;
    other, first, second, guides := Arranged(names, config, entries,
                                             (b: Binding) => if b == o then 1 else if b == (o.0, Guide) then 2 else 0);
    before := first + second;
    assert o in second;
    assert second[|second| - 1] in second;
  }

  /** An order in which the guide takes everything it is given first. */
  lemma GuidesFirst(names: Names, config: map<string, string>, entries: seq<Spelling>)
      returns (other: seq<Spelling>, guides: seq<Binding>, rest: seq<Binding>)
    requires Lists(entries, config)
    ensures Lists(other, config) && ReadEntries(names, other) == guides + rest
    ensures forall b :: b in guides <==> b in Said(names, config) && b.1 == Guide
  {
    var second, third;
    other, guides, second, third := Arranged(names, config, entries,
                                             (b: Binding) => if b.1 == Guide then 0 else 1);
    rest := second + third;
    assert guides + second + third == guides + rest;
  }

  // ------------------------------------------------------------------ a wavering press, in two orders

  lemma {:induction false} GuidesLeaveItBe(table: KeyTable, said: set<Binding>, before: seq<Binding>,
      guides: seq<Binding>, at: Press)
    requires Quiet(table, said, at) && Among(before + guides, said) && InFront(table.bindings, at)
    requires forall g :: g in guides ==> g.1 == Guide
    ensures After(table, before + guides, at) == After(table, before, at)
  {
    if guides == [] {
      assert before + guides == before;
    } else {
      var n := |guides| - 1;
      assert (before + guides)[..|before| + n] == before + guides[..n];
      LastDoes(table, said, before + guides, at);
      GuidesLeaveItBe(table, said, before, guides[..n], at);
    }
  }

  function Answer(s: Stand): Option<Action> {
    Or(s.exact, s.whole)
  }

  lemma NoExact(table: KeyTable, said: set<Binding>, entries: seq<Binding>, at: Press)
    requires Quiet(table, said, at) && Among(entries, said) && InFront(table.bindings, at)
    requires Unclaimed(table, said, at)
    ensures After(table, entries, at).exact == None
  {
    TheExactOne(table, said, entries, at);
    StandsIn(table.bindings, at);
  }

  lemma LastHas(table: KeyTable, said: set<Binding>, entries: seq<Binding>, e: Binding, at: Press)
    requires Quiet(table, said, at) && Among(entries, said) && InFront(table.bindings, at)
    requires entries != [] && entries[|entries| - 1] == e
    requires SaysExact(e, at) || (SaysWhole(e, at) && Unclaimed(table, said, at))
    ensures Answer(After(table, entries, at)) == Some(e.1)
  {
    LastDoes(table, said, entries, at);
    if SaysWhole(e, at) {
      NoExact(table, said, entries, at);
    }
  }

  /** An order that ends in an entry which wants this chord, or the whole key, gives the press to it. */
  lemma LastHasIt(names: Names, config: map<string, string>, table: KeyTable, entries: seq<Spelling>, e: Binding,
      at: Press)
      returns (other: seq<Spelling>)
    requires Lists(entries, config) && e in Said(names, config)
    requires Quiet(table, Said(names, config), at) && InFront(table.bindings, at)
    requires SaysExact(e, at) || (SaysWhole(e, at) && Unclaimed(table, Said(names, config), at))
    ensures Lists(other, config)
    ensures Answer(After(table, ReadEntries(names, other), at)) == Some(e.1)
  {
    other := EndingIn(names, config, entries, e);
    SaidIs(names, config, other);
    LastHas(table, Said(names, config), ReadEntries(names, other), e, at);
  }

  /** One that ends in another chord on the key, but for the guide's taking of it, gives it to nobody. */
  lemma NobodyHasIt(names: Names, config: map<string, string>, table: KeyTable, entries: seq<Spelling>, o: Binding,
      at: Press)
      returns (other: seq<Spelling>)
    requires Lists(entries, config) && o in Said(names, config) && SaysBeside(o, at, table.guide)
    requires Quiet(table, Said(names, config), at) && InFront(table.bindings, at)
    requires Unclaimed(table, Said(names, config), at)
    ensures Lists(other, config)
    ensures Answer(After(table, ReadEntries(names, other), at)) == None
  {
    var before, guides;
    other, before, guides := BeforeItsGuide(names, config, entries, o);
    var said := Said(names, config);
    SaidIs(names, config, other);
    assert Among(before, said) by {
      assert forall b :: b in before ==> b in before + guides;
    }
    LastDoes(table, said, before, at);
    GuidesLeaveItBe(table, said, before, guides, at);
    NoExact(table, said, before, at);
  }

  /** One in which the guide comes first leaves it with the built-in binding for the whole key, when
      every other chord on it is the guide's. */
  lemma TheBuiltInHasIt(names: Names, config: map<string, string>, table: KeyTable, entries: seq<Spelling>, at: Press)
      returns (other: seq<Spelling>)
    requires Lists(entries, config)
    requires Quiet(table, Said(names, config), at) && InFront(table.bindings, at)
    requires Unclaimed(table, Said(names, config), at) && Exposed(table, Said(names, config), at)
    ensures Lists(other, config)
    ensures Answer(After(table, ReadEntries(names, other), at)).Some?
  {
    var guides, rest;
    other, guides, rest := GuidesFirst(names, config, entries);
    SaidIs(names, config, other);
    NobodyStrikes(table, Said(names, config), guides, rest, at);
    TheBuiltInOne(table, Said(names, config), guides + rest, at);
    StandsIn(table.bindings, at);
  }

  lemma NobodyStrikes(table: KeyTable, said: set<Binding>, guides: seq<Binding>, rest: seq<Binding>, at: Press)
    requires Among(guides + rest, said) && Exposed(table, said, at)
    requires forall b :: b in guides <==> b in said && b.1 == Guide
    ensures forall i :: !Strikes(table, guides + rest, i, at)
  {
    var r := guides + rest;
    forall j | 0 <= j < |guides| ensures r[j].1 == Guide {
      assert guides[j] in guides;
    }
    forall i | 0 <= i < |r| && SaysBeside(r[i], at, table.guide) ensures (r[i].0, Guide) in r[..i] {
      assert r[i] in r;
      var g :| 0 <= g < |guides| && guides[g] == (r[i].0, Guide);
      assert r[..i][g] == (r[i].0, Guide);
    }
  }

  lemma TwoAnswers(names: Names, config: map<string, string>, table: KeyTable, entries: seq<Spelling>, at: Press)
      returns (one: seq<Spelling>, other: seq<Spelling>)
    requires Lists(entries, config) && InFront(table.bindings, at)
    requires Wavers(table, Said(names, config), at)
    ensures Lists(one, config) && Lists(other, config)
    ensures Answer(After(table, ReadEntries(names, one), at)) != Answer(After(table, ReadEntries(names, other), at))
  {
    var said := Said(names, config);
    if Contested(said, at) {
      var a, b :| a in said && b in said && SaysExact(a, at) && SaysExact(b, at) && a.1 != b.1;
      one := LastHasIt(names, config, table, entries, a, at);
      other := LastHasIt(names, config, table, entries, b, at);
    } else if WholeContested(table, said, at) {
      var a, b :| a in said && b in said && SaysWhole(a, at) && RivalsForWhole(a, b, at, table.guide);
      one := LastHasIt(names, config, table, entries, a, at);
      if SaysWhole(b, at) {
        other := LastHasIt(names, config, table, entries, b, at);
      } else {
        other := NobodyHasIt(names, config, table, entries, b, at);
      }
    } else {
      var o :| o in said && SaysBeside(o, at, table.guide);
      one := TheBuiltInHasIt(names, config, table, entries, at);
      other := NobodyHasIt(names, config, table, entries, o, at);
    }
  }

  // ------------------------------------------------------------------ exactly when it shows

  /** At most one of them answers any press. */
  ghost predicate Unambiguous(bindings: seq<Binding>) {
    forall a, b :: a in bindings && b in bindings && a.0.key == b.0.key && (a.0.loose || b.0.loose
        || a.0.mods == b.0.mods)
      ==> a == b
  }

  lemma {:induction false} UnambiguousIsInFront(bindings: seq<Binding>, at: Press)
    requires Unambiguous(bindings)
    ensures InFront(bindings, at)
  {
    if bindings != [] {
      var first, rest := bindings[0], bindings[1..];
      assert bindings == [first] + rest;
      UnambiguousIsInFront(rest, at);
      StandsIn(rest, at);
      assert forall b :: b in rest && Whole(first.0, at) ==> !Exact(b.0, at);
    }
  }

  /** What an order of the configuration makes of a table. */
  function Finished(table: KeyTable, names: Names, entries: seq<Spelling>): KeyTable {
    AllEntered(table, ReadEntries(names, entries))
  }

  /** Two orders that a press tells apart. */
  ghost predicate Differ(table: KeyTable, names: Names, one: seq<Spelling>, other: seq<Spelling>, mods: Mods,
      syms: seq<nat>)
  {
    Lookup(Finished(table, names, one), mods, syms) != Lookup(Finished(table, names, other), mods, syms)
  }

  lemma TheAnswerIs(table: KeyTable, names: Names, config: map<string, string>, entries: seq<Spelling>, at: Press)
    requires Lists(entries, config) && Quiet(table, Said(names, config), at) && InFront(table.bindings, at)
    ensures FirstMatch(Finished(table, names, entries).bindings, at.mods, at.sym) ==
            Answer(After(table, ReadEntries(names, entries), at))
  {
    SaidIs(names, config, entries);
    StaysInFront(table, Said(names, config), ReadEntries(names, entries), at);
    FirstMatchIs(Finished(table, names, entries).bindings, at);
  }

  lemma QuietExactly(table: KeyTable, names: Names, config: map<string, string>, entries: seq<Spelling>, mods: Mods,
      syms: seq<nat>)
    requires Lists(entries, config)
    ensures SummonsGuide(Finished(table, names, entries), mods, syms) <==>
            exists sym :: sym in syms && !Quiet(table, Said(names, config), Press(mods, sym))
  {
    var guide, said := Finished(table, names, entries).guide, Said(names, config);
    SaidIs(names, config, entries);
    forall p ensures p in guide <==> p in table.guide || (p, Guide) in said {
      GuideIs(table, ReadEntries(names, entries), p);
    }
    forall sym ensures Quiet(table, said, Press(mods, sym)) <==> forall p :: p in guide ==> !Matches(p, mods, sym) {
      if e :| e in said && e.1 == Guide && Matches(e.0, mods, sym) {
        assert e == (e.0, Guide);
      }
    }
  }

  /** What one spelling of a key does depends on the order exactly when the press wavers. */
  lemma APressWaversExactly(table: KeyTable, names: Names, config: map<string, string>, at: Press)
    requires Unambiguous(table.bindings)
    ensures (exists one, other ::
              Lists(one, config) && Lists(other, config) && Differ(table, names, one, other, at.mods, [at.sym]))
            <==> Wavers(table, Said(names, config), at)
  {
    if Wavers(table, Said(names, config), at) {
      var entries := AnyOrder(config);
      UnambiguousIsInFront(table.bindings, at);
      var one, other := TwoAnswers(names, config, table, entries, at);
      AloneDiffer(table, names, config, one, other, at);
    } else {
      forall one, other | Lists(one, config) && Lists(other, config)
        ensures !Differ(table, names, one, other, at.mods, [at.sym])
      {
        AlikeUnlessOneWavers(table, names, config, one, other, at.mods, [at.sym]);
      }
    }
  }

  lemma {:induction false} AnyOrder(config: map<string, string>) returns (entries: seq<Spelling>)
    ensures Lists(entries, config)
    decreases |config|
  {
    if config == map[] {
      entries := [];
    } else {
      var j :| j in config;
      var rest := AnyOrder(config - {j});
      entries := rest + [(j, config[j])];
      assert Distinctly(rest) && Distinctly([(j, config[j])]);
      DistinctTogether(rest, [(j, config[j])]);
    }
  }

  lemma AloneDiffer(table: KeyTable, names: Names, config: map<string, string>, one: seq<Spelling>,
      other: seq<Spelling>, at: Press)
    requires Lists(one, config) && Lists(other, config)
    requires Quiet(table, Said(names, config), at) && InFront(table.bindings, at)
    requires Answer(After(table, ReadEntries(names, one), at)) != Answer(After(table, ReadEntries(names, other), at))
    ensures Differ(table, names, one, other, at.mods, [at.sym])
  {
    TheAnswerIs(table, names, config, one, at);
    TheAnswerIs(table, names, config, other, at);
    QuietExactly(table, names, config, one, at.mods, [at.sym]);
    QuietExactly(table, names, config, other, at.mods, [at.sym]);
    assert forall sym :: sym in [at.sym] ==> Press(at.mods, sym) == at;
    OneSpelling(Finished(table, names, one).bindings, at);
    OneSpelling(Finished(table, names, other).bindings, at);
  }

  lemma OneSpelling(bindings: seq<Binding>, at: Press)
    ensures FirstAction(bindings, at.mods, [at.sym]) == FirstMatch(bindings, at.mods, at.sym)
  {
    assert [at.sym][1..] == [];
  }

  lemma {:induction false} SameAction(a: seq<Binding>, b: seq<Binding>, mods: Mods, syms: seq<nat>)
    requires forall sym :: sym in syms ==> FirstMatch(a, mods, sym) == FirstMatch(b, mods, sym)
    ensures FirstAction(a, mods, syms) == FirstAction(b, mods, syms)
  {
    if syms != [] {
      assert syms[0] in syms;
      SameAction(a, b, mods, syms[1..]);
    }
  }

  /** However many spellings a key has, if none of them wavers every order does the same with it. */
  lemma AlikeUnlessOneWavers(table: KeyTable, names: Names, config: map<string, string>, one: seq<Spelling>,
      other: seq<Spelling>, mods: Mods, syms: seq<nat>)
    requires Lists(one, config) && Lists(other, config) && Unambiguous(table.bindings)
    requires forall sym :: sym in syms ==> !Wavers(table, Said(names, config), Press(mods, sym))
    ensures !Differ(table, names, one, other, mods, syms)
  {
    QuietExactly(table, names, config, one, mods, syms);
    QuietExactly(table, names, config, other, mods, syms);
    if !SummonsGuide(Finished(table, names, one), mods, syms) {
      SaidIs(names, config, one);
      SaidIs(names, config, other);
      forall sym | sym in syms
        ensures FirstMatch(Finished(table, names, one).bindings, mods, sym) ==
                FirstMatch(Finished(table, names, other).bindings, mods, sym)
      {
        var at := Press(mods, sym);
        UnambiguousIsInFront(table.bindings, at);
        TheAnswerIs(table, names, config, one, at);
        TheAnswerIs(table, names, config, other, at);
        Steady(table, Said(names, config), ReadEntries(names, one), ReadEntries(names, other), at);
      }
      SameAction(Finished(table, names, one).bindings, Finished(table, names, other).bindings, mods, syms);
    }
  }

  /** Whatever the built-in table, the order in which a configuration's entries come can be told from the
      keyboard exactly when some press wavers. */
  lemma OrderMattersExactly(table: KeyTable, names: Names, config: map<string, string>)
    requires Unambiguous(table.bindings)
    ensures (exists one, other, mods, syms ::
              Lists(one, config) && Lists(other, config) && Differ(table, names, one, other, mods, syms))
            <==> exists at :: Wavers(table, Said(names, config), at)
  {
    if at :| Wavers(table, Said(names, config), at) {
      APressWaversExactly(table, names, config, at);
    } else {
      forall one, other, mods, syms | Lists(one, config) && Lists(other, config)
        ensures !Differ(table, names, one, other, mods, syms)
      {
        AlikeUnlessOneWavers(table, names, config, one, other, mods, syms);
      }
    }
  }

  /** The table every order starts from is the same one, so that is what a session's own table shows. */
  lemma EveryOrderStartsAlike(names: Names, config: map<string, string>, entries: seq<Spelling>)
    requires Lists(entries, config)
    ensures FromConfig(names, entries) == Finished(BuiltIn(names, config.Keys), names, entries)
  {
    forall j ensures j in Keys(entries) <==> j in config.Keys {
      if j in config {
        assert (j, config[j]) in entries;
      }
    }
    assert Keys(entries) == config.Keys;
  }

  /** Two things said that have nothing to say about one another. */
  predicate Clear(a: Binding, b: Binding) {
    && (a.0 == b.0 ==> a.1 == b.1)
    && (a.0 != b.0 && a.1 != Guide && b.1 != Guide && a.0.key == b.0.key ==> !a.0.loose && !b.0.loose)
  }

  lemma ClearIsSteady(table: KeyTable, said: set<Binding>, at: Press)
    requires forall a, b :: a in said && b in said ==> Clear(a, b)
    ensures !Wavers(table, said, at)
  {}

  /** In particular, when no chord is spelled for two different things and no key has both a chord for the
      whole of it and another, every press does the same whatever order the entries come in. */
  lemma OrderNeverMatters(names: Names, config: map<string, string>, one: seq<Spelling>, other: seq<Spelling>,
      mods: Mods, syms: seq<nat>)
    requires Lists(one, config) && Lists(other, config) && Unambiguous(BuiltIn(names, config.Keys).bindings)
    requires forall a, b :: a in Said(names, config) && b in Said(names, config) ==> Clear(a, b)
    ensures Lookup(FromConfig(names, one), mods, syms) == Lookup(FromConfig(names, other), mods, syms)
  {
    var table := BuiltIn(names, config.Keys);
    EveryOrderStartsAlike(names, config, one);
    EveryOrderStartsAlike(names, config, other);
    forall sym ensures !Wavers(table, Said(names, config), Press(mods, sym)) {
      ClearIsSteady(table, Said(names, config), Press(mods, sym));
    }
    AlikeUnlessOneWavers(table, names, config, one, other, mods, syms);
  }
}
