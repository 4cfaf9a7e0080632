/** How a display is set at login: the file a person wrote, with what the machine remembered folded in
    underneath it, key by key. */
module Displays {
  import opened Wrappers

  datatype Key =
    | ModeKey | PositionKey | ScaleKey | TransformKey | EnabledKey | AdaptiveSyncKey
    | HdrKey | SdrBrightnessKey | SrgbIntensityKey | PeakBrightnessKey | NightLightKey | TemperatureKey

  datatype Setting = Setting(text: string)

  type Keys = map<Key, Setting>

  datatype Entry = Entry(name: string, keys: Keys)

  const WILDCARD := "*"

  /** The first entry of a name. */
  function First(outputs: seq<Entry>, name: string): (found: Option<Entry>)
    ensures found.Some? ==> found.value.name == name && found.value in outputs
  {
    if outputs == [] then None
    else if outputs[0].name == name then Some(outputs[0])
    else First(outputs[1..], name)
  }

  function OutputFor(outputs: seq<Entry>, name: string): Option<Entry> {
    Or(First(outputs, name), First(outputs, WILDCARD))
  }

  function Stated(entry: Option<Entry>, key: Key): Option<Setting> {
    if entry.Some? && key in entry.value.keys then Some(entry.value.keys[key]) else None
  }

  /** What a display comes up with for one key. */
  function ComesUpWith(outputs: seq<Entry>, name: string, key: Key): Option<Setting> {
    Stated(OutputFor(outputs, name), key)
  }

  /** What is said about a display, the earliest saying of each key counting. */
  function Said(outputs: seq<Entry>, name: string, key: Key): Option<Setting> {
    if outputs == [] then None
    else Or(if outputs[0].name == name then Stated(Some(outputs[0]), key) else None, Said(outputs[1..], name, key))
  }

  /** One entry over another: its own keys, and the other's for the rest. */
  function Filled(entry: Entry, other: Entry): (r: Entry)
    ensures r.name == entry.name
    ensures forall key :: Stated(Some(r), key) == Or(Stated(Some(entry), key), Stated(Some(other), key))
  {
    Entry(entry.name, other.keys + entry.keys)
  }

  function FoldedIn(outputs: seq<Entry>, entry: Entry): seq<Entry> {
    if outputs == [] then [entry]
    else if outputs[0].name == entry.name then [Filled(outputs[0], entry)] + outputs[1..]
    else [outputs[0]] + FoldedIn(outputs[1..], entry)
  }

  function Merged(outputs: seq<Entry>, remembered: seq<Entry>): seq<Entry>
    decreases |remembered|
  {
    if remembered == [] then outputs else Merged(FoldedIn(outputs, remembered[0]), remembered[1..])
  }

  predicate States(outputs: seq<Entry>, name: string, key: Key) {
    exists e :: e in outputs && e.name == name && key in e.keys
  }

  /** The file has an answer of its own to whether a display is on: by its name, or for all of them. */
  predicate Pinned(file: seq<Entry>, name: string) {
    States(file, name, EnabledKey) || States(file, WILDCARD, EnabledKey)
  }

  class Config {
    var outputs: seq<Entry>
    var enabledPinned: set<string>

    /** The file as it stood when its answers were noted. */
    ghost var file: seq<Entry>

    ghost predicate Valid()
      reads this
    {
      forall name :: name in enabledPinned <==> States(file, name, EnabledKey)
    }

    constructor (outputs: seq<Entry>)
      ensures Valid() && this.outputs == outputs && file == []
    {
      this.outputs, enabledPinned, file := outputs, {}, [];
    }

    /** What the person wrote is noted while it can still be told from what the machine remembered; only
        then does the rest go in underneath. */
    method RememberDisplays(remembered: seq<Entry>)
      modifies this
      ensures Valid() && file == old(outputs)
      ensures outputs == Merged(old(outputs), remembered)
    {
      enabledPinned, file := set e | e in outputs && EnabledKey in e.keys :: e.name, outputs;
      for i := 0 to |remembered|
        invariant Valid() && file == old(outputs)
        invariant Merged(outputs, remembered[i..]) == Merged(old(outputs), remembered)
      {
        FoldIn(remembered[i]);
        assert remembered[i..][1..] == remembered[i + 1..];
      }
    }

    method FoldIn(entry: Entry)
      modifies this`outputs
      ensures outputs == FoldedIn(old(outputs), entry)
    {
      var i := 0;
      while i < |outputs| && outputs[i].name != entry.name
        invariant 0 <= i <= |outputs|
        invariant FoldedIn(outputs, entry) == outputs[..i] + FoldedIn(outputs[i..], entry)
      {
        i := i + 1;
      }
      if i < |outputs| {
        outputs := outputs[i := Filled(outputs[i], entry)];
      } else {
        outputs := outputs + [entry];
      }
    }

    /** However much has been merged since, the answer is about the file alone. */
    method EnabledIsPinned(name: string) returns (pinned: bool)
      requires Valid()
      ensures pinned <==> Pinned(file, name)
    {
      pinned := name in enabledPinned || WILDCARD in enabledPinned;
    }
  }

  // ------------------------------------------------------------------ what merging does

  lemma {:induction false} FoldedInSays(outputs: seq<Entry>, entry: Entry, name: string)
    ensures First(FoldedIn(outputs, entry), name) ==
            if entry.name != name then First(outputs, name)
            else Some(match First(outputs, name) case Some(e) => Filled(e, entry) case None => entry)
  {
    if outputs != [] {
      FoldedInSays(outputs[1..], entry, name);
      assert FoldedIn(outputs, entry)[1..] ==
             if outputs[0].name == entry.name then outputs[1..] else FoldedIn(outputs[1..], entry);
    }
  }

  lemma FoldedInStates(outputs: seq<Entry>, entry: Entry, name: string, key: Key)
    ensures Stated(First(FoldedIn(outputs, entry), name), key) ==
              Or(Stated(First(outputs, name), key), if entry.name == name then Stated(Some(entry), key) else None)
    ensures First(FoldedIn(outputs, entry), name).Some? <==> First(outputs, name).Some? || entry.name == name
  {
    FoldedInSays(outputs, entry, name);
  }

  lemma {:induction false} MergedKnows(outputs: seq<Entry>, remembered: seq<Entry>, name: string)
    ensures First(Merged(outputs, remembered), name).Some? <==>
              First(outputs, name).Some? || First(remembered, name).Some?
    decreases |remembered|
  {
    if remembered != [] {
      FoldedInSays(outputs, remembered[0], name);
      MergedKnows(FoldedIn(outputs, remembered[0]), remembered[1..], name);
    }
  }

  lemma OrOr<T>(a: Option<T>, b: Option<T>, c: Option<T>)
    ensures Or(Or(a, b), c) == Or(a, Or(b, c))
  {}

  ghost predicate FirstAt(outputs: seq<Entry>, name: string, i: int) {
    0 <= i < |outputs| && outputs[i].name == name && forall j :: 0 <= j < i ==> outputs[j].name != name
  }

  ghost predicate FirstSaying(outputs: seq<Entry>, name: string, key: Key, i: int) {
    && 0 <= i < |outputs| && outputs[i].name == name && key in outputs[i].keys
    && forall j :: 0 <= j < i ==> !(outputs[j].name == name && key in outputs[j].keys)
  }

  /** Of several entries of a name the first is the display's own. */
  lemma {:induction false} FirstExactly(outputs: seq<Entry>, name: string)
    ensures forall i :: FirstAt(outputs, name, i) ==> First(outputs, name) == Some(outputs[i])
    ensures First(outputs, name).None? <==> forall i :: 0 <= i < |outputs| ==> outputs[i].name != name
  {
    if outputs != [] {
      FirstExactly(outputs[1..], name);
      forall i | FirstAt(outputs, name, i) && i > 0 ensures First(outputs, name) == Some(outputs[i]) {
        assert FirstAt(outputs[1..], name, i - 1);
      }
    }
  }

  /** And of several sayings of a key, the first. */
  lemma {:induction false} SaidExactly(outputs: seq<Entry>, name: string, key: Key)
    ensures forall i :: FirstSaying(outputs, name, key, i) ==> Said(outputs, name, key) == Some(outputs[i].keys[key])
    ensures Said(outputs, name, key).None? <==> !States(outputs, name, key)
  {
    if outputs != [] {
      SaidExactly(outputs[1..], name, key);
      assert outputs == [outputs[0]] + outputs[1..];
      forall i | FirstSaying(outputs, name, key, i) && i > 0
        ensures Said(outputs, name, key) == Some(outputs[i].keys[key])
      {
        assert FirstSaying(outputs[1..], name, key, i - 1);
      }
    }
  }

  /** What a display comes up with, in full: its own entry of the merged list decides alone if it has one, even
      by saying nothing, and the wildcard's if it has none. */
  lemma ComesUpExactly(outputs: seq<Entry>, name: string, key: Key)
    ensures ComesUpWith(outputs, name, key) ==
            if exists i :: 0 <= i < |outputs| && outputs[i].name == name then Stated(First(outputs, name), key)
            else Stated(First(outputs, "*"), key)
  {
    FirstExactly(outputs, name);
  }

  /** Merging: for each key the file's own entry comes first, then the earliest thing remembered. */
  lemma {:induction false} MergedStates(outputs: seq<Entry>, remembered: seq<Entry>, name: string, key: Key)
    ensures Stated(First(Merged(outputs, remembered), name), key) ==
              Or(Stated(First(outputs, name), key), Said(remembered, name, key))
    decreases |remembered|
  {
    if remembered != [] {
      var entry, rest := remembered[0], remembered[1..];
      FoldedInStates(outputs, entry, name, key);
      MergedStates(FoldedIn(outputs, entry), rest, name, key);
      OrOr(Stated(First(outputs, name), key), if entry.name == name then Stated(Some(entry), key) else None,
           Said(rest, name, key));
    }
  }

  lemma {:induction false} MergedSays(outputs: seq<Entry>, remembered: seq<Entry>, name: string, key: Key)
    ensures First(Merged(outputs, remembered), name).Some? <==>
              First(outputs, name).Some? || First(remembered, name).Some?
    ensures Stated(First(Merged(outputs, remembered), name), key) ==
              Or(Stated(First(outputs, name), key), Said(remembered, name, key))
  {
    MergedKnows(outputs, remembered, name);
    MergedStates(outputs, remembered, name, key);
  }

  lemma {:induction false} NobodySaid(outputs: seq<Entry>, name: string, key: Key)
    requires First(outputs, name).None?
    ensures Said(outputs, name, key).None?
  {
    if outputs != [] {
      NobodySaid(outputs[1..], name, key);
    }
  }

  /** A key the file answers for a display comes up as the file says, whatever was remembered, exactly
      when the answer is in the display's own entry, or nothing about the display was remembered, or what
      was remembered says the same: an answer on the wildcard is lost behind a remembered entry. */
  lemma {:induction false} TheFileWinsExactly(outputs: seq<Entry>, remembered: seq<Entry>, name: string, key: Key)
    requires ComesUpWith(outputs, name, key).Some?
    ensures ComesUpWith(Merged(outputs, remembered), name, key) == ComesUpWith(outputs, name, key)
            <==> || First(outputs, name).Some?
                 || First(remembered, name).None?
                 || Said(remembered, name, key) == ComesUpWith(outputs, name, key)
  {
    MergedSays(outputs, remembered, name, key);
    MergedSays(outputs, remembered, WILDCARD, key);
    if First(remembered, name).None? {
      NobodySaid(remembered, name, key);
    }
  }

  /** The wildcard alone, shadowed: a file that turns every display off, and one that was last on. */
  lemma AWildcardIsShadowed()
    ensures var file := [Entry(WILDCARD, map[EnabledKey := Setting("false")])];
            var remembered := [Entry("DP-1", map[HdrKey := Setting("true")])];
            && ComesUpWith(file, "DP-1", EnabledKey) == Some(Setting("false"))
            && ComesUpWith(Merged(file, remembered), "DP-1", EnabledKey) == None
  {
    var file := [Entry(WILDCARD, map[EnabledKey := Setting("false")])];
    var remembered := [Entry("DP-1", map[HdrKey := Setting("true")])];
    assert "DP-1"[0] != WILDCARD[0];
    MergedSays(file, remembered, "DP-1", EnabledKey);
    MergedSays(file, remembered, WILDCARD, EnabledKey);
    assert First(file[1..], "DP-1") == None && First(remembered[1..], "DP-1") == None;
    assert Said(remembered[1..], "DP-1", EnabledKey) == None;
  }

  /** A display whose switch the file is said to answer comes up as the file says, whatever was
      remembered, when the answer is in the first entry of its own name. */
  lemma AnOwnPinHolds(outputs: seq<Entry>, remembered: seq<Entry>, name: string)
    requires Stated(First(outputs, name), EnabledKey).Some?
    ensures States(outputs, name, EnabledKey)
    ensures ComesUpWith(Merged(outputs, remembered), name, EnabledKey) == Stated(First(outputs, name), EnabledKey)
  {
    MergedSays(outputs, remembered, name, EnabledKey);
  }
}
