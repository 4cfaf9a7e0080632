/** The keybinding table: the chords for the guide, which nothing can take away, and the rest, built from
    defaults and from a configuration whose entries arrive in no particular order. */
module KeyBindings {
  import opened Wrappers

  datatype Mods = Mods(ctrl: bool, alt: bool, shift: bool, logo: bool)

  datatype Pattern = Pattern(mods: Mods, loose: bool, key: nat)

  datatype VolumeChange = Up | Down | Mute

  datatype Action =
    | Quit | CloseWindow | Spawn(command: string) | SwitchVt(vt: int)
    | FocusNextOutput | FocusPrevOutput | MoveWindowToNextOutput | CycleWindow
    | SwitchWindow(back: bool) | Guide | Keyboard | Screenshot | Volume(change: VolumeChange)

  /** How a chord and an action are read: the names of keys are the keyboard library's own. */
  datatype Names = Names(chord: string -> Option<Pattern>, action: string -> Option<Action>)

  type Binding = (Pattern, Action)

  datatype KeyTable = KeyTable(guide: seq<Pattern>, bindings: seq<Binding>)

  const GUIDE_BINDINGS: seq<string> := ["Super+Home", "XF86HomePage"]

  const DEFAULTS: seq<(string, Action)> := [
    ("Ctrl+Alt+BackSpace", Quit),
    ("Super+Q", CloseWindow),
    ("Super+K", Keyboard),
    ("XF86Keyboard", Keyboard),
    ("Any+Print", Screenshot),
    ("Ctrl+Shift+3", Screenshot),
    ("Alt+Shift+3", Screenshot),
    ("Any+XF86AudioRaiseVolume", Volume(Up)),
    ("Any+XF86AudioLowerVolume", Volume(Down)),
    ("Any+XF86AudioMute", Volume(Mute)),
    ("Super+Tab", CycleWindow),
    ("Alt+Tab", SwitchWindow(false)),
    ("Alt+Shift+Tab", SwitchWindow(true)),
    ("Super+Right", FocusNextOutput),
    ("Super+Left", FocusPrevOutput),
    ("Super+Shift+Right", MoveWindowToNextOutput)
  ]

  const TERMINALS: seq<(string, Action)> := [
    ("Ctrl+Alt+F1", SwitchVt(1)), ("Ctrl+Alt+F2", SwitchVt(2)), ("Ctrl+Alt+F3", SwitchVt(3)),
    ("Ctrl+Alt+F4", SwitchVt(4)), ("Ctrl+Alt+F5", SwitchVt(5)), ("Ctrl+Alt+F6", SwitchVt(6)),
    ("Ctrl+Alt+F7", SwitchVt(7)), ("Ctrl+Alt+F8", SwitchVt(8)), ("Ctrl+Alt+F9", SwitchVt(9)),
    ("Ctrl+Alt+F10", SwitchVt(10)), ("Ctrl+Alt+F11", SwitchVt(11)), ("Ctrl+Alt+F12", SwitchVt(12))
  ]

  // ------------------------------------------------------------------ one keypress

  /** A capital letter's symbol is its small one's: shift is told apart by the modifier. */
  function FoldCase(sym: nat): nat {
    if 0x41 <= sym <= 0x5A then sym + 0x20 else sym
  }

  predicate Matches(p: Pattern, mods: Mods, sym: nat) {
    p.key == FoldCase(sym) && (p.loose || p.mods == mods)
  }

  predicate SummonsGuide(table: KeyTable, mods: Mods, syms: seq<nat>) {
    exists sym, p :: sym in syms && p in table.guide && Matches(p, mods, sym)
  }

  function FirstMatch(bindings: seq<Binding>, mods: Mods, sym: nat): Option<Action> {
    if bindings == [] then None
    else if Matches(bindings[0].0, mods, sym) then Some(bindings[0].1)
    else FirstMatch(bindings[1..], mods, sym)
  }

  function FirstAction(bindings: seq<Binding>, mods: Mods, syms: seq<nat>): Option<Action> {
    if syms == [] then None
    else Or(FirstMatch(bindings, mods, syms[0]), FirstAction(bindings, mods, syms[1..]))
  }

  /** The guide is asked about all the spellings first, and the other bindings only after it. */
  function Lookup(table: KeyTable, mods: Mods, syms: seq<nat>): Option<Action> {
    if SummonsGuide(table, mods, syms) then Some(Guide) else FirstAction(table.bindings, mods, syms)
  }

  /** The same keys spelled twice, capitals counting as the small letters they are. */
  predicate SameLetters(one: seq<nat>, other: seq<nat>) {
    |one| == |other| && forall i :: 0 <= i < |one| ==>
      one[i] == other[i] || (0x41 <= one[i] <= 0x5A && other[i] == one[i] + 0x20)
  }

  lemma {:induction false} SameActionForLetters(bindings: seq<Binding>, mods: Mods, one: seq<nat>, other: seq<nat>)
    requires SameLetters(one, other)
    ensures FirstAction(bindings, mods, one) == FirstAction(bindings, mods, other)
  {
    if one != [] {
      SameMatchForLetter(bindings, mods, one[0], other[0]);
      SameActionForLetters(bindings, mods, one[1..], other[1..]);
    }
  }

  lemma {:induction false} SameMatchForLetter(bindings: seq<Binding>, mods: Mods, one: nat, other: nat)
    requires one == other || (0x41 <= one <= 0x5A && other == one + 0x20)
    ensures FirstMatch(bindings, mods, one) == FirstMatch(bindings, mods, other)
  {
    if bindings != [] {
      SameMatchForLetter(bindings[1..], mods, one, other);
    }
  }

  /** Some binding of the table is of this press. */
  predicate Taken(bindings: seq<Binding>, mods: Mods, sym: nat) {
    exists b :: b in bindings && Matches(b.0, mods, sym)
  }

  ghost predicate FirstTaking(bindings: seq<Binding>, mods: Mods, sym: nat, i: int) {
    && 0 <= i < |bindings| && Matches(bindings[i].0, mods, sym)
    && forall j :: 0 <= j < i ==> !Matches(bindings[j].0, mods, sym)
  }

  lemma {:induction false} FirstMatchIsFirst(bindings: seq<Binding>, mods: Mods, sym: nat)
    ensures forall i :: FirstTaking(bindings, mods, sym, i) ==> FirstMatch(bindings, mods, sym) == Some(bindings[i].1)
    ensures FirstMatch(bindings, mods, sym).None? <==> !Taken(bindings, mods, sym)
  {
    if bindings != [] {
      FirstMatchIsFirst(bindings[1..], mods, sym);
      assert bindings == [bindings[0]] + bindings[1..];
      forall i | FirstTaking(bindings, mods, sym, i) && i > 0
        ensures FirstMatch(bindings, mods, sym) == Some(bindings[i].1)
      {
        assert FirstTaking(bindings[1..], mods, sym, i - 1);
      }
    }
  }

  /** Of a key with several spellings the guide is asked about all first; then the first spelling that any
      binding takes decides, by the first binding that takes it; and with none the press is the client's. */
  lemma {:induction false} TheFirstSpellingDecides(table: KeyTable, mods: Mods, syms: seq<nat>, k: nat)
    requires !SummonsGuide(table, mods, syms)
    requires k <= |syms| && forall j :: 0 <= j < k ==> !Taken(table.bindings, mods, syms[j])
    ensures k == |syms| ==> Lookup(table, mods, syms) == None
    ensures k < |syms| ==> forall i :: FirstTaking(table.bindings, mods, syms[k], i) ==>
              Lookup(table, mods, syms) == Some(table.bindings[i].1)
  {
    if syms != [] {
      FirstMatchIsFirst(table.bindings, mods, syms[0]);
      if k > 0 {
        assert forall sym :: sym in syms[1..] ==> sym in syms;
        TheFirstSpellingDecides(table, mods, syms[1..], k - 1);
      }
    }
  }

  /** A letter is looked up alike whether shift has made a capital of it or not. */
  lemma CapitalsLookUpAlike(table: KeyTable, mods: Mods, one: seq<nat>, other: seq<nat>)
    requires SameLetters(one, other)
    ensures Lookup(table, mods, one) == Lookup(table, mods, other)
  {
    SameActionForLetters(table.bindings, mods, one, other);
    if i, p :| 0 <= i < |one| && p in table.guide && Matches(p, mods, one[i]) {
      assert other[i] in other && Matches(p, mods, other[i]);
    }
    if i, p :| 0 <= i < |other| && p in table.guide && Matches(p, mods, other[i]) {
      assert one[i] in one && Matches(p, mods, one[i]);
    }
  }

  /** And a press is answered by a chord exactly if it is of its key, and of its modifiers or none in
      particular. */
  lemma AloneItAnswersExactly(p: Pattern, action: Action, mods: Mods, sym: nat)
    ensures var key := if 0x41 <= sym <= 0x5A then sym + 32 else sym;
            Lookup(KeyTable([], [(p, action)]), mods, [sym]) ==
            if p.key == key && (p.loose || (p.mods.ctrl == mods.ctrl && p.mods.alt == mods.alt
                && p.mods.shift == mods.shift && p.mods.logo == mods.logo))
            then Some(action) else None
  {
    var bindings: seq<Binding> := [(p, action)];
    assert bindings[1..] == [] && [sym][1..] == [];
    assert FirstMatch(bindings[1..], mods, sym) == None && FirstAction(bindings, mods, []) == None;
    assert FirstAction(bindings, mods, [sym]) == FirstMatch(bindings, mods, sym);
    assert FirstMatch(bindings, mods, sym) == if Matches(p, mods, sym) then Some(action) else None;
  }

  // ------------------------------------------------------------------ building the table

  function ReadAll(names: Names, spelled: seq<(string, Action)>, overridden: set<string>): seq<Binding> {
    if spelled == [] then []
    else
      var n := |spelled| - 1;
      ReadAll(names, spelled[..n], overridden) + ReadDefault(names, spelled[n], overridden)
  }

  /** A default is left out when the configuration spells it the same way. */
  function ReadDefault(names: Names, d: (string, Action), overridden: set<string>): seq<Binding> {
    if d.0 !in overridden && names.chord(d.0).Some? then [(names.chord(d.0).value, d.1)] else []
  }

  function ReadGuide(names: Names, spelled: seq<string>): seq<Pattern> {
    if spelled == [] then []
    else (if names.chord(spelled[0]).Some? then [names.chord(spelled[0]).value] else [])
         + ReadGuide(names, spelled[1..])
  }

  /** The entries of a configuration that say something, in whatever order they came. */
  function ReadEntries(names: Names, entries: seq<(string, string)>): seq<Binding> {
    if entries == [] then []
    else
      var chord, action := names.chord(entries[0].0), names.action(entries[0].1);
      (if chord.Some? && action.Some? then [(chord.value, action.value)] else []) + ReadEntries(names, entries[1..])
  }

  function Keys(entries: seq<(string, string)>): set<string> {
    set e | e in entries :: e.0
  }

  function BuiltIn(names: Names, overridden: set<string>): KeyTable {
    KeyTable(ReadGuide(names, GUIDE_BINDINGS),
          ReadAll(names, DEFAULTS, overridden) + ReadAll(names, TERMINALS, {}))
  }

  /** Whether an entry, when it takes effect, puts a binding out. */
  predicate PutsOut(entry: Binding, q: Pattern) {
    q == entry.0 || (entry.1 != Guide && q.loose && q.key == entry.0.key)
  }

  function Without(bindings: seq<Binding>, entry: Binding): seq<Binding> {
    if bindings == [] then []
    else (if PutsOut(entry, bindings[0].0) then [] else [bindings[0]]) + Without(bindings[1..], entry)
  }

  function Entered(table: KeyTable, entry: Binding): KeyTable {
    if entry.1 == Guide then
      KeyTable(if entry.0 in table.guide then table.guide else table.guide + [entry.0], Without(table.bindings, entry))
    else if entry.0 in table.guide then table
    else KeyTable(table.guide, Without(table.bindings, entry) + [entry])
  }

  function AllEntered(table: KeyTable, entries: seq<Binding>): KeyTable
    decreases |entries|
  {
    if entries == [] then table else AllEntered(Entered(table, entries[0]), entries[1..])
  }

  function FromConfig(names: Names, entries: seq<(string, string)>): KeyTable {
    AllEntered(BuiltIn(names, Keys(entries)), ReadEntries(names, entries))
  }

  lemma {:induction false} WithoutKeeps(bindings: seq<Binding>, entry: Binding, b: Binding)
    ensures b in Without(bindings, entry) <==> b in bindings && !PutsOut(entry, b.0)
  {
    if bindings != [] {
      WithoutKeeps(bindings[1..], entry, b);
      assert bindings == [bindings[0]] + bindings[1..];
    }
  }

  lemma {:induction false} WithoutTogether(a: seq<Binding>, b: seq<Binding>, entry: Binding)
    ensures Without(a + b, entry) == Without(a, entry) + Without(b, entry)
  {
    if a == [] {
      assert a + b == b;
    } else {
      assert (a + b)[0] == a[0] && (a + b)[1..] == a[1..] + b;
      WithoutTogether(a[1..], b, entry);
    }
  }

  lemma WithoutOne(b: Binding, entry: Binding)
    ensures Without([b], entry) == if PutsOut(entry, b.0) then [] else [b]
  {
    assert [b][1..] == [];
  }

  method Retain(bindings: seq<Binding>, entry: Binding) returns (kept: seq<Binding>)
    ensures kept == Without(bindings, entry)
  {
    kept := [];
    for i := 0 to |bindings|
      invariant kept == Without(bindings[..i], entry)
    {
      assert bindings[..i + 1] == bindings[..i] + [bindings[i]];
      WithoutTogether(bindings[..i], [bindings[i]], entry);
      WithoutOne(bindings[i], entry);
      if !PutsOut(entry, bindings[i].0) {
        kept := kept + [bindings[i]];
      }
    }
    assert bindings[..|bindings|] == bindings;
  }

  method Defaults(names: Names, spelled: seq<(string, Action)>, overridden: set<string>) returns (read: seq<Binding>)
    ensures read == ReadAll(names, spelled, overridden)
  {
    read := [];
    for i := 0 to |spelled|
      invariant read == ReadAll(names, spelled[..i], overridden)
    {
      assert spelled[..i + 1][..i] == spelled[..i];
      var chord := names.chord(spelled[i].0);
      if spelled[i].0 !in overridden && chord.Some? {
        read := read + [(chord.value, spelled[i].1)];
      }
    }
    assert spelled[..|spelled|] == spelled;
  }

  /** One entry at work: the guide keeps what it is given, an attempt on a chord of the guide's is passed over,
      and any other entry puts out what it is at odds with. */
  method Enter(table: KeyTable, pattern: Pattern, action: Action) returns (after: KeyTable)
    ensures after == Entered(table, (pattern, action))
  {
    if action == Guide {
      var bindings := Retain(table.bindings, (pattern, action));
      var guide := table.guide;
      if pattern !in guide {
        guide := guide + [pattern];
      }
      after := KeyTable(guide, bindings);
    } else if pattern in table.guide {
      after := table;
    } else {
      var bindings := Retain(table.bindings, (pattern, action));
      after := KeyTable(table.guide, bindings + [(pattern, action)]);
    }
  }

  lemma OneEntered(table: KeyTable, entry: Binding, rest: seq<Binding>)
    ensures AllEntered(table, [entry] + rest) == AllEntered(Entered(table, entry), rest)
  {
    assert ([entry] + rest)[1..] == rest;
  }

  method Build(names: Names, entries: seq<(string, string)>) returns (table: KeyTable)
    ensures table == FromConfig(names, entries)
  {
    var defaults := Defaults(names, DEFAULTS, Keys(entries));
    var terminals := Defaults(names, TERMINALS, {});
    table := KeyTable(ReadGuide(names, GUIDE_BINDINGS), defaults + terminals);
    for i := 0 to |entries|
      invariant AllEntered(table, ReadEntries(names, entries[i..])) == FromConfig(names, entries)
    {
      assert entries[i..][0] == entries[i] && entries[i..][1..] == entries[i + 1..];
      var chord, action := names.chord(entries[i].0), names.action(entries[i].1);
      ghost var rest := ReadEntries(names, entries[i + 1..]);
      if chord.Some? && action.Some? {
        OneEntered(table, (chord.value, action.value), rest);
        table := Enter(table, chord.value, action.value);
      } else {
        assert [] + rest == rest;
      }
    }
  }

  // ------------------------------------------------------------------ what every table keeps

  /** The built-in spellings name different chords, whatever the names of the keys are. */
  ghost predicate Distinct(names: Names) {
    Sound(BuiltIn(names, {}))
  }

  /** No two of them share a chord. */
  ghost predicate Apart(bindings: seq<Binding>) {
    forall i, j :: 0 <= i < j < |bindings| ==> bindings[i].0 != bindings[j].0
  }

  ghost predicate Sound(table: KeyTable) {
    && (forall i, j :: 0 <= i < j < |table.guide| ==> table.guide[i] != table.guide[j])
    && Apart(table.bindings)
    && (forall b :: b in table.bindings ==> b.0 !in table.guide && b.1 != Guide)
  }

  ghost predicate Strangers(a: seq<Binding>, b: seq<Binding>) {
    forall x, y :: x in a && y in b ==> x.0 != y.0
  }

  lemma ApartTogether(a: seq<Binding>, b: seq<Binding>)
    ensures Apart(a + b) <==> Apart(a) && Apart(b) && Strangers(a, b)
  {
    var all := a + b;
    assert forall i :: 0 <= i < |a| ==> all[i] == a[i];
    assert forall i :: 0 <= i < |b| ==> all[|a| + i] == b[i];
    if Apart(all) {
      forall x, y | x in a && y in b ensures x.0 != y.0 {
        var i :| 0 <= i < |a| && a[i] == x;
        var j :| 0 <= j < |b| && b[j] == y;
        assert all[i].0 != all[|a| + j].0;
      }
    }
    if Strangers(a, b) {
      forall i, j | 0 <= i < |a| && 0 <= j < |b| ensures a[i].0 != b[j].0 {
        assert a[i] in a && b[j] in b;
      }
    }
  }

  lemma {:induction false} WithoutApart(bindings: seq<Binding>, entry: Binding)
    requires Apart(bindings)
    ensures Apart(Without(bindings, entry))
  {
    if bindings != [] {
      var first, rest := [bindings[0]], bindings[1..];
      assert bindings == first + rest;
      ApartTogether(first, rest);
      WithoutApart(rest, entry);
      forall b | b in Without(rest, entry) ensures b in rest {
        WithoutKeeps(rest, entry, b);
      }
      ApartTogether(first, Without(rest, entry));
      assert [] + Without(rest, entry) == Without(rest, entry);
    }
  }

  lemma EnteredIsSound(table: KeyTable, entry: Binding)
    requires Sound(table)
    ensures Sound(Entered(table, entry))
  {
    var kept := Without(table.bindings, entry);
    WithoutApart(table.bindings, entry);
    forall b | b in kept ensures b in table.bindings && b.0 != entry.0 {
      WithoutKeeps(table.bindings, entry, b);
    }
    ApartTogether(kept, [entry]);
  }

  predicate InGuide(table: KeyTable, entries: seq<Binding>, p: Pattern) {
    p in table.guide || (p, Guide) in entries
  }

  /** Whatever is entered and in whatever order: the guide's chords are the ones it had and the ones it
      was given, no chord is in two places, and no other binding summons it. */
  lemma {:induction false} EveryTable(table: KeyTable, entries: seq<Binding>)
    requires Sound(table)
    ensures Sound(AllEntered(table, entries))
    ensures forall p :: p in AllEntered(table, entries).guide <==> InGuide(table, entries, p)
    decreases |entries|
  {
    if entries != [] {
      EnteredIsSound(table, entries[0]);
      EveryTable(Entered(table, entries[0]), entries[1..]);
    }
    forall p ensures p in AllEntered(table, entries).guide <==> InGuide(table, entries, p) {
      GuideIs(table, entries, p);
    }
  }

  lemma {:induction false} FewerRead(names: Names, spelled: seq<(string, Action)>, overridden: set<string>, b: Binding)
    requires b in ReadAll(names, spelled, overridden)
    ensures b in ReadAll(names, spelled, {})
  {
    var n := |spelled| - 1;
    if b !in ReadDefault(names, spelled[n], overridden) {
      FewerRead(names, spelled[..n], overridden, b);
    }
  }

  lemma {:induction false} FewerReadApart(names: Names, spelled: seq<(string, Action)>, overridden: set<string>)
    requires Apart(ReadAll(names, spelled, {}))
    ensures Apart(ReadAll(names, spelled, overridden))
  {
    if spelled != [] {
      var n := |spelled| - 1;
      var all, fewer := ReadAll(names, spelled[..n], {}), ReadAll(names, spelled[..n], overridden);
      ApartTogether(all, ReadDefault(names, spelled[n], {}));
      FewerReadApart(names, spelled[..n], overridden);
      forall b | b in fewer ensures b in all {
        FewerRead(names, spelled[..n], overridden, b);
      }
      ApartTogether(fewer, ReadDefault(names, spelled[n], overridden));
    }
  }

  lemma BuiltInIsSound(names: Names, overridden: set<string>)
    requires Distinct(names)
    ensures Sound(BuiltIn(names, overridden))
  {
    BuiltInIs(names, {});
    BuiltInIs(names, overridden);
    BuiltInApart(names, overridden, ReadAll(names, DEFAULTS, {}), ReadAll(names, DEFAULTS, overridden), ReadAll(names,
        TERMINALS, {}));
  }

  lemma BuiltInIs(names: Names, overridden: set<string>)
    ensures BuiltIn(names, overridden).bindings == ReadAll(names, DEFAULTS, overridden) + ReadAll(names, TERMINALS, {})
  {}

  lemma BuiltInApart(names: Names, overridden: set<string>, all: seq<Binding>, read: seq<Binding>,
      terminals: seq<Binding>)
    requires Apart(all + terminals)
    requires all == ReadAll(names, DEFAULTS, {}) && read == ReadAll(names, DEFAULTS, overridden)
    ensures Apart(read + terminals)
    ensures forall b :: b in read + terminals ==> b in all + terminals
  {
    ApartTogether(all, terminals);
    FewerReadApart(names, DEFAULTS, overridden);
    forall b | b in read ensures b in all {
      FewerRead(names, DEFAULTS, overridden, b);
    }
    ApartTogether(read, terminals);
  }

  /** For every configuration, in every order its entries may come: the guide has its own two chords and
      the ones the file gives it; no binding shares a chord with it or with another; and any spelling of
      a key that matches one of its chords opens it, as nothing else does. */
  lemma TheGuideIsKept(names: Names, entries: seq<(string, string)>, mods: Mods, syms: seq<nat>)
    requires Distinct(names)
    ensures var table := FromConfig(names, entries);
            && Sound(table)
            && (forall p :: p in table.guide <==>
                  p in ReadGuide(names, GUIDE_BINDINGS) || (p, Guide) in ReadEntries(names, entries))
            && (Lookup(table, mods, syms) == Some(Guide) <==> SummonsGuide(table, mods, syms))
  {
    var start := BuiltIn(names, Keys(entries));
    BuiltInIsSound(names, Keys(entries));
    EveryTable(start, ReadEntries(names, entries));
    NoOtherGuide(FromConfig(names, entries).bindings, mods, syms);
  }

  lemma {:induction false} NoOtherGuide(bindings: seq<Binding>, mods: Mods, syms: seq<nat>)
    requires forall b :: b in bindings ==> b.1 != Guide
    ensures FirstAction(bindings, mods, syms) != Some(Guide)
  {
    if syms != [] {
      NotGuide(bindings, mods, syms[0]);
      NoOtherGuide(bindings, mods, syms[1..]);
    }
  }

  lemma {:induction false} NotGuide(bindings: seq<Binding>, mods: Mods, sym: nat)
    requires forall b :: b in bindings ==> b.1 != Guide
    ensures FirstMatch(bindings, mods, sym) != Some(Guide)
  {
    if bindings != [] {
      assert bindings[0] in bindings;
      NotGuide(bindings[1..], mods, sym);
    }
  }

  // ------------------------------------------------------------------ where a binding can come from

  /** One of these spellings, read as a chord. */
  ghost predicate SpelledAmong(names: Names, spelled: seq<(string, Action)>, d: (string, Action), b: Binding) {
    d in spelled && names.chord(d.0) == Some(b.0) && d.1 == b.1
  }

  ghost predicate FileSpells(entries: seq<(string, string)>, chord: string) {
    exists e :: e in entries && e.0 == chord
  }

  ghost predicate SpelledOnlyHere(names: Names, spelled: seq<(string, Action)>, overridden: set<string>, b: Binding) {
    exists d :: SpelledAmong(names, spelled, d, b) && d.0 !in overridden
  }

  lemma KeysAre(entries: seq<(string, string)>, chord: string)
    ensures chord in Keys(entries) <==> FileSpells(entries, chord)
  {}

  lemma {:induction false} ReadAllHas(names: Names, spelled: seq<(string, Action)>, overridden: set<string>, b: Binding)
    ensures b in ReadAll(names, spelled, overridden) <==> SpelledOnlyHere(names, spelled, overridden, b)
  {
    if spelled != [] {
      var n := |spelled| - 1;
      ReadAllHas(names, spelled[..n], overridden, b);
      assert spelled == spelled[..n] + [spelled[n]];
      if SpelledAmong(names, spelled, spelled[n], b) && spelled[n].0 !in overridden {
        assert b in ReadDefault(names, spelled[n], overridden);
      }
      if d :| SpelledAmong(names, spelled[..n], d, b) && d.0 !in overridden {
        assert SpelledAmong(names, spelled, d, b);
      }
      if d :| SpelledAmong(names, spelled, d, b) && d.0 !in overridden && d != spelled[n] {
        assert SpelledAmong(names, spelled[..n], d, b);
      }
    }
  }

  lemma {:induction false} OldOrEntered(table: KeyTable, entries: seq<Binding>, b: Binding)
    requires b in AllEntered(table, entries).bindings
    ensures b in table.bindings || (b in entries && b.1 != Guide)
    decreases |entries|
  {
    if entries != [] {
      OldOrEntered(Entered(table, entries[0]), entries[1..], b);
      EnteredHas(table, entries[0], b);
    }
  }

  /** Whatever is bound in the end was said by the file, or is a default whose very spelling the file leaves
      alone, even with an action nobody knows, or is the key of a virtual terminal. */
  lemma WhereABindingComesFrom(names: Names, entries: seq<(string, string)>, b: Binding)
    requires b in FromConfig(names, entries).bindings
    ensures || (b in ReadEntries(names, entries) && b.1 != Guide)
            || (exists d :: SpelledAmong(names, DEFAULTS, d, b) && !FileSpells(entries, d.0))
            || (exists d :: SpelledAmong(names, TERMINALS, d, b))
  {
    OldOrEntered(BuiltIn(names, Keys(entries)), ReadEntries(names, entries), b);
    ReadAllHas(names, DEFAULTS, Keys(entries), b);
    ReadAllHas(names, TERMINALS, {}, b);
    if d :| SpelledAmong(names, DEFAULTS, d, b) && d.0 !in Keys(entries) {
      KeysAre(entries, d.0);
    }
  }

  /** And with nothing in the file about any key or chord of it, a default is there. */
  lemma AnUntouchedDefaultStays(names: Names, entries: seq<(string, string)>, d: (string, Action), b: Binding)
    requires SpelledAmong(names, DEFAULTS, d, b) && !FileSpells(entries, d.0)
    requires forall e :: e in ReadEntries(names, entries) ==> e.0.key != b.0.key
    ensures b in FromConfig(names, entries).bindings
  {
    KeysAre(entries, d.0);
    assert SpelledAmong(names, DEFAULTS, d, b) && d.0 !in Keys(entries);
    ReadAllHas(names, DEFAULTS, Keys(entries), b);
    StaysAlone(BuiltIn(names, Keys(entries)), ReadEntries(names, entries), b);
  }

  lemma {:induction false} StaysAlone(table: KeyTable, entries: seq<Binding>, b: Binding)
    requires b in table.bindings && forall e :: e in entries ==> e.0.key != b.0.key
    ensures b in AllEntered(table, entries).bindings
    decreases |entries|
  {
    if entries != [] {
      assert entries[0] in entries;
      EnteredHas(table, entries[0], b);
      StaysAlone(Entered(table, entries[0]), entries[1..], b);
    }
  }

  // ------------------------------------------------------------------ which bindings are left

  /** Whether entry `j` takes effect on bindings: any chord but one that is the guide's by then. */
  predicate Counts(table: KeyTable, entries: seq<Binding>, j: int)
    requires 0 <= j < |entries|
  {
    entries[j].1 == Guide || !InGuide(table, entries[..j], entries[j].0)
  }

  predicate PutOutAfter(table: KeyTable, entries: seq<Binding>, from: nat, q: Pattern) {
    exists j :: from <= j < |entries| && Counts(table, entries, j) && PutsOut(entries[j], q)
  }

  predicate BoundAt(table: KeyTable, entries: seq<Binding>, i: int, b: Binding) {
    && 0 <= i < |entries| && entries[i] == b && b.1 != Guide
    && Counts(table, entries, i)
    && !PutOutAfter(table, entries, i + 1, b.0)
  }

  lemma {:induction false} LastEntered(table: KeyTable, entries: seq<Binding>, last: Binding)
    ensures AllEntered(table, entries + [last]) == Entered(AllEntered(table, entries), last)
    decreases |entries|
  {
    var all := entries + [last];
    if entries == [] {
      assert all[1..] == [];
    } else {
      assert all[0] == entries[0] && all[1..] == entries[1..] + [last];
      LastEntered(Entered(table, entries[0]), entries[1..], last);
    }
  }

  lemma {:induction false} GuideIs(table: KeyTable, entries: seq<Binding>, p: Pattern)
    ensures p in AllEntered(table, entries).guide <==> InGuide(table, entries, p)
    decreases |entries|
  {
    if entries != [] {
      GuideIs(Entered(table, entries[0]), entries[1..], p);
      assert entries == [entries[0]] + entries[1..];
      GuideAfterOne(table, entries[0], entries[1..], p);
    }
  }

  lemma GuideAfterOne(table: KeyTable, entry: Binding, rest: seq<Binding>, p: Pattern)
    ensures InGuide(Entered(table, entry), rest, p) <==> InGuide(table, [entry] + rest, p)
  {
    assert (p, Guide) in [entry] + rest <==> (p, Guide) == entry || (p, Guide) in rest;
  }

  lemma OneMore(table: KeyTable, entries: seq<Binding>, n: nat, q: Pattern)
    requires |entries| == n + 1
    ensures forall j :: 0 <= j < n ==> (Counts(table, entries[..n], j) <==> Counts(table, entries, j))
    ensures forall from: nat :: PutOutAfter(table, entries, from, q) <==>
              PutOutAfter(table, entries[..n], from, q)
              || (from <= n && Counts(table, entries, n) && PutsOut(entries[n], q))
  {
    var some := entries[..n];
    forall j | 0 <= j < n ensures Counts(table, some, j) <==> Counts(table, entries, j) {
      assert some[..j] == entries[..j];
    }
    forall from: nat ensures PutOutAfter(table, entries, from, q) <==>
              PutOutAfter(table, some, from, q) || (from <= n && Counts(table, entries, n) && PutsOut(entries[n], q))
    {
      if j :| from <= j < n && Counts(table, some, j) && PutsOut(some[j], q) {
        assert Counts(table, entries, j) && PutsOut(entries[j], q);
      }
      if j :| from <= j < n && Counts(table, entries, j) && PutsOut(entries[j], q) {
        assert Counts(table, some, j) && PutsOut(some[j], q);
      }
    }
  }

  lemma OneMoreBound(table: KeyTable, entries: seq<Binding>, n: nat, b: Binding)
    requires |entries| == n + 1
    ensures forall i :: 0 <= i < n ==>
              (BoundAt(table, entries, i, b) <==>
                BoundAt(table, entries[..n], i, b) && !(Counts(table, entries, n) && PutsOut(entries[n], b.0)))
    ensures BoundAt(table, entries, n, b) <==> entries[n] == b && b.1 != Guide && Counts(table, entries, n)
  {
    OneMore(table, entries, n, b.0);
  }

  lemma EnteredHas(table: KeyTable, entry: Binding, b: Binding)
    ensures var counts := entry.1 == Guide || entry.0 !in table.guide;
            b in Entered(table, entry).bindings <==>
              || (b in table.bindings && !(counts && PutsOut(entry, b.0)))
              || (counts && entry == b && b.1 != Guide)
  {
    WithoutKeeps(table.bindings, entry, b);
  }

  lemma OneMoreBoundAnywhere(table: KeyTable, entries: seq<Binding>, n: nat, b: Binding)
    requires |entries| == n + 1
    ensures Bound(table, entries, b) <==>
              || (Bound(table, entries[..n], b) && !(Counts(table, entries, n) && PutsOut(entries[n], b.0)))
              || (entries[n] == b && b.1 != Guide && Counts(table, entries, n))
  {
    OneMoreBound(table, entries, n, b);
    if i :| BoundAt(table, entries, i, b) && i < n {
      assert BoundAt(table, entries[..n], i, b);
    }
    if i :| BoundAt(table, entries[..n], i, b) && !(Counts(table, entries, n) && PutsOut(entries[n], b.0)) {
      assert BoundAt(table, entries, i, b);
    }
    if entries[n] == b && b.1 != Guide && Counts(table, entries, n) {
      assert BoundAt(table, entries, n, b);
    }
  }

  ghost predicate Bound(table: KeyTable, entries: seq<Binding>, b: Binding) {
    exists i :: BoundAt(table, entries, i, b)
  }

  ghost predicate Left(table: KeyTable, entries: seq<Binding>, b: Binding) {
    b in table.bindings && !PutOutAfter(table, entries, 0, b.0)
  }

  /** The finished bindings: what is left of those built in, and after them what was entered and kept. */
  ghost predicate Divides(table: KeyTable, entries: seq<Binding>, stayed: seq<Binding>, joined: seq<Binding>) {
    && AllEntered(table, entries).bindings == stayed + joined
    && (forall b :: b in stayed <==> Left(table, entries, b))
    && (forall b :: b in joined <==> Bound(table, entries, b))
  }

  /** A binding is in the finished table exactly when it was built in or entered, and nothing entered
      after it took its chord, or took its key from a chord that answered for the whole of it; and what
      was built in comes before what was entered. */
  lemma {:induction false} BoundExactly(table: KeyTable, entries: seq<Binding>)
      returns (stayed: seq<Binding>, joined: seq<Binding>)
    ensures Divides(table, entries, stayed, joined)
    decreases |entries|
  {
    if entries == [] {
      stayed, joined := table.bindings, [];
    } else {
      var n := |entries| - 1;
      var was, added := BoundExactly(table, entries[..n]);
      LastEntered(table, entries[..n], entries[n]);
      assert entries == entries[..n] + [entries[n]];
      GuideIs(table, entries[..n], entries[n].0);
      stayed, joined := OneMoreDivides(table, entries, n, was, added);
    }
  }

  lemma OneMoreDivides(table: KeyTable, entries: seq<Binding>, n: nat, was: seq<Binding>, added: seq<Binding>)
      returns (stayed: seq<Binding>, joined: seq<Binding>)
    requires |entries| == n + 1 && Divides(table, entries[..n], was, added)
    requires AllEntered(table, entries) == Entered(AllEntered(table, entries[..n]), entries[n])
    requires entries[n].0 in AllEntered(table, entries[..n]).guide <==> InGuide(table, entries[..n], entries[n].0)
    ensures Divides(table, entries, stayed, joined)
  {
    var last := entries[n];
    if Counts(table, entries, n) {
      stayed := Without(was, last);
      joined := Without(added, last) + if last.1 == Guide then [] else [last];
      WithoutTogether(was, added, last);
      assert AllEntered(table, entries).bindings == stayed + joined;
    } else {
      stayed, joined := was, added;
    }
    forall b ensures (b in stayed <==> Left(table, entries, b)) && (b in joined <==> Bound(table, entries, b)) {
      OneMore(table, entries, n, b.0);
      OneMoreBoundAnywhere(table, entries, n, b);
      WithoutKeeps(was, last, b);
      WithoutKeeps(added, last, b);
    }
  }

  // ------------------------------------------------------------------ where the order shows

  /** One chord spelled twice: whichever entry comes last has it. */
  lemma {:induction false} TheLastSpellingWins(table: KeyTable, p: Pattern, a: Action, b: Action)
    requires p !in table.guide && a != b && a != Guide && b != Guide
    ensures (p, b) in AllEntered(table, [(p, a), (p, b)]).bindings
        && (p, a) !in AllEntered(table, [(p, a), (p, b)]).bindings
    ensures (p, a) in AllEntered(table, [(p, b), (p, a)]).bindings
        && (p, b) !in AllEntered(table, [(p, b), (p, a)]).bindings
  {
    TwoEntered(table, (p, a), (p, b));
    TwoEntered(table, (p, b), (p, a));
    EnteredHas(Entered(table, (p, a)), (p, b), (p, a));
    EnteredHas(Entered(table, (p, b)), (p, a), (p, b));
  }

  lemma TwoEntered(table: KeyTable, a: Binding, b: Binding)
    ensures AllEntered(table, [a, b]) == Entered(Entered(table, a), b)
  {
    OneEntered(table, a, [b]);
    OneEntered(Entered(table, a), b, []);
    assert [a] + [b] == [a, b] && [b] + [] == [b];
  }

  /** A chord the user wrote for a whole key is lost, like a built-in one, to any chord on that key that
      happens to come after it, and kept beside one that comes before. */
  lemma {:induction false} AWholeKeyIsLostByOrder(table: KeyTable, whole: Binding, chord: Binding)
    requires whole.0.loose && !chord.0.loose && whole.0.key == chord.0.key
    requires whole.0 !in table.guide && chord.0 !in table.guide && whole.1 != Guide && chord.1 != Guide
    ensures whole !in AllEntered(table, [whole, chord]).bindings
    ensures whole in AllEntered(table, [chord, whole]).bindings && chord in AllEntered(table, [chord, whole]).bindings
  {
    TwoEntered(table, whole, chord);
    TwoEntered(table, chord, whole);
    EnteredHas(Entered(table, whole), chord, whole);
    EnteredHas(Entered(table, chord), whole, chord);
    EnteredHas(table, chord, chord);
    EnteredHas(Entered(table, chord), whole, chord);
    EnteredHas(Entered(table, chord), whole, whole);
  }

  /** A chord given to the guide and to something else is the guide's in either order. But the other entry,
      coming first, has by then put out a chord for the whole of that key, which is not given back. */
  lemma AShadowedEntryTakesAWholeKeyByOrder(table: KeyTable, whole: Binding, p: Pattern, a: Action)
    requires whole in table.bindings && whole.0.loose && whole.0 != p && whole.0.key == p.key
    requires p !in table.guide && a != Guide
    ensures whole in AllEntered(table, [(p, Guide), (p, a)]).bindings
    ensures whole !in AllEntered(table, [(p, a), (p, Guide)]).bindings
  {
    TwoEntered(table, (p, Guide), (p, a));
    TwoEntered(table, (p, a), (p, Guide));
    EnteredHas(table, (p, Guide), whole);
    EnteredHas(Entered(table, (p, Guide)), (p, a), whole);
    EnteredHas(table, (p, a), whole);
    EnteredHas(Entered(table, (p, a)), (p, Guide), whole);
  }
}
