/** Writing down what one display was set to: read, change one entry, write beside, rename over; with
    every call free to fail and the program free to be killed at any of them. */
module Remembered {
  import opened Wrappers
  import opened Displays

  /** What is stored under a name: a list that reads back, or one that only another version can read. */
  datatype Stored = Whole(outputs: seq<Entry>) | Unreadable(meant: seq<Entry>)

  type Change = Keys -> Keys

  /** How each step of one call goes. A write that does not finish leaves part of the text behind. */
  datatype Writing = Written | Refused(left: Option<Stored>) | KilledWriting(left: Option<Stored>)

  datatype Renaming = Renamed | NotRenamed(removed: bool) | KilledBefore | KilledAfter

  datatype Luck = Luck(serialises: bool, makesDirectory: bool, writing: Writing, renaming: Renaming)

  function Updated(outputs: seq<Entry>, name: string, change: Change): seq<Entry> {
    if outputs == [] then [Entry(name, change(map[]))]
    else if outputs[0].name == name then [Entry(name, change(outputs[0].keys))] + outputs[1..]
    else [outputs[0]] + Updated(outputs[1..], name, change)
  }

  /** What the next session would read. */
  function ReadBack(file: Option<Stored>): seq<Entry> {
    match file
    case Some(Whole(outputs)) => outputs
    case _ => []
  }

  predicate Lands(luck: Luck) {
    luck.serialises && luck.makesDirectory && luck.writing.Written? && (luck.renaming.Renamed?
        || luck.renaming.KilledAfter?)
  }

  /** Change the display's entry where it stands, or add one at the end. */
  method Edit(outputs: seq<Entry>, name: string, change: Change) returns (edited: seq<Entry>)
    ensures edited == Updated(outputs, name, change)
  {
    var i := 0;
    while i < |outputs| && outputs[i].name != name
      invariant 0 <= i <= |outputs|
      invariant forall j :: 0 <= j < i ==> outputs[j].name != name
    {
      i := i + 1;
    }
    UpdatedIs(outputs, name, change, i);
    if i < |outputs| {
      edited := outputs[i := Entry(name, change(outputs[i].keys))];
    } else {
      edited := outputs + [Entry(name, change(map[]))];
    }
  }

  lemma {:induction false} UpdatedIs(outputs: seq<Entry>, name: string, change: Change, i: nat)
    requires i <= |outputs| && forall j :: 0 <= j < i ==> outputs[j].name != name
    requires i < |outputs| ==> outputs[i].name == name
    ensures Updated(outputs, name, change) ==
            if i < |outputs| then outputs[i := Entry(name, change(outputs[i].keys))]
                else outputs + [Entry(name, change(map[]))]
  {
    if i > 0 {
      var first, rest := outputs[0], outputs[1..];
      assert first.name != name && outputs == [first] + rest;
      UpdatedIs(rest, name, change, i - 1);
    }
  }

  class Disk {
    var file: Option<Stored>
    var scratch: Option<Stored>

    constructor (file: Option<Stored>)
      ensures this.file == file && scratch == None
    {
      this.file, scratch := file, None;
    }

    method WriteScratch(body: seq<Entry>, how: Writing) returns (goesOn: bool)
      modifies this`scratch
      ensures goesOn <==> how.Written?
      ensures how.Written? ==> scratch == Some(Whole(body))
    {
      scratch := match how
        case Written => Some(Whole(body))
        case Refused(left) => left
        case KilledWriting(left) => left;
      goesOn := how.Written?;
    }

    /** Atomic within a directory: the whole of it happens or none of it does. */
    method Rename(how: Renaming)
      requires scratch.Some?
      modifies this
      ensures file == if how.Renamed? || how.KilledAfter? then old(scratch) else old(file)
    {
      if how.Renamed? || how.KilledAfter? {
        file, scratch := scratch, None;
      } else if how.NotRenamed? && how.removed {
        scratch := None;
      }
    }

    /** What is on disk is the old answer or the new one, never a part of either. */
    method Remember(name: string, change: Change, luck: Luck)
      modifies this
      ensures file == Stores(old(file), Call(name, change, luck))
      ensures file == old(file) || file == Some(Whole(Updated(ReadBack(old(file)), name, change)))
      ensures luck == Luck(true, true, Written, Renamed) || luck == Luck(true, true, Written, KilledAfter) ==>
                file == Some(Whole(Updated(ReadBack(old(file)), name, change)))
      ensures file != old(file) ==>
                luck == Luck(true, true, Written, Renamed) || luck == Luck(true, true, Written, KilledAfter)
    {
      var outputs := Edit(if file.Some? && file.value.Whole? then file.value.outputs else [], name, change);
      if !luck.serialises || !luck.makesDirectory {
        return;
      }
      var goesOn := WriteScratch(outputs, luck.writing);
      if goesOn {
        Rename(luck.renaming);
      }
    }
  }

  // ------------------------------------------------------------------ what a change leaves alone

  /** One display's entry is changed, and every other display's is exactly what it was. */
  lemma {:induction false} UpdatedSays(outputs: seq<Entry>, name: string, change: Change, other: string)
    ensures First(Updated(outputs, name, change), other) ==
            if other != name then First(outputs, other)
            else Some(Entry(name, change(match First(outputs, name) case Some(e) => e.keys case None => map[])))
  {
    if outputs != [] {
      UpdatedSays(outputs[1..], name, change, other);
      assert Updated(outputs, name, change)[1..] ==
             if outputs[0].name == name then outputs[1..] else Updated(outputs[1..], name, change);
    }
  }

  // ------------------------------------------------------------------ whole histories

  datatype Call = Call(name: string, change: Change, luck: Luck)

  function Stores(file: Option<Stored>, call: Call): Option<Stored> {
    if Lands(call.luck) then Some(Whole(Updated(ReadBack(file), call.name, call.change))) else file
  }

  function History(file: Option<Stored>, calls: seq<Call>): Option<Stored>
    decreases |calls|
  {
    if calls == [] then file else History(Stores(file, calls[0]), calls[1..])
  }

  /** The calls that landed, and only those. */
  function LandedOf(calls: seq<Call>): seq<Call> {
    if calls == [] then []
    else (if Lands(calls[0].luck) then [calls[0]] else []) + LandedOf(calls[1..])
  }

  function Applied(outputs: seq<Entry>, calls: seq<Call>): seq<Entry>
    decreases |calls|
  {
    if calls == [] then outputs else Applied(Updated(outputs, calls[0].name, calls[0].change), calls[1..])
  }

  /** However many calls are refused or killed at whatever point, the next session reads exactly what
      the ones that landed add up to. */
  lemma {:induction false} WhatIsReadBack(file: Option<Stored>, calls: seq<Call>)
    ensures ReadBack(History(file, calls)) == Applied(ReadBack(file), LandedOf(calls))
    ensures LandedOf(calls) == [] ==> History(file, calls) == file
    decreases |calls|
  {
    if calls != [] {
      WhatIsReadBack(Stores(file, calls[0]), calls[1..]);
      var landed := LandedOf(calls[1..]);
      if Lands(calls[0].luck) {
        assert ([calls[0]] + landed)[1..] == landed;
      } else {
        assert [] + landed == landed;
      }
    }
  }

  /** Every entry in the file, whoever can read it. */
  function Meant(file: Option<Stored>): seq<Entry> {
    match file
    case None => []
    case Some(Whole(outputs)) => outputs
    case Some(Unreadable(meant)) => meant
  }

  /** A change that lands leaves every other display's entry as it was exactly when the file could be
      read or spoke of no other display: what could not be read is replaced, not kept. */
  lemma OthersSurviveExactly(file: Option<Stored>, call: Call)
    requires Lands(call.luck)
    ensures (forall other :: other != call.name ==>
            First(Meant(Stores(file, call)), other) == First(Meant(file), other))
            <==> || !(file.Some? && file.value.Unreadable?)
                 || (forall other :: other != call.name ==> First(Meant(file), other).None?)
  {
    forall other | other != call.name
      ensures First(Meant(Stores(file, call)), other) == First(ReadBack(file), other)
    {
      UpdatedSays(ReadBack(file), call.name, call.change, other);
    }
  }

  function Putting(key: Key, value: Setting): Change {
    (keys: Keys) => keys[key := value]
  }

  lemma {:induction false} TheFirstSays(outputs: seq<Entry>, name: string, key: Key)
    requires Stated(First(outputs, name), key).Some?
    ensures Said(outputs, name, key) == Stated(First(outputs, name), key)
  {
    if outputs[0].name != name {
      TheFirstSays(outputs[1..], name, key);
    }
  }

  /** What a display comes up with for a key at the login after it was set. */
  function NextLogin(config: seq<Entry>, file: Option<Stored>, name: string, key: Key, value: Setting, luck: Luck)
    : Option<Setting>
  {
    ComesUpWith(Merged(config, ReadBack(Stores(file, Call(name, Putting(key, value), luck)))), name, key)
  }

  /** A setting written down comes up at the next login, exactly unless the file's own entry for that
      display states the key: a wildcard never overrules it. */
  lemma TheNextLogin(config: seq<Entry>, file: Option<Stored>, name: string, key: Key, value: Setting, luck: Luck)
    requires Lands(luck)
    ensures NextLogin(config, file, name, key, value, luck) == Or(Stated(First(config, name), key), Some(value))
  {
    var before := ReadBack(file);
    var after := Updated(before, name, Putting(key, value));
    UpdatedSays(before, name, Putting(key, value), name);
    TheFirstSays(after, name, key);
    MergedSays(config, after, name, key);
  }

  // ------------------------------------------------------------------ a switch, and the pin on it

  /** Whatever is set, the next login comes up the same. */
  ghost predicate Overruled(config: seq<Entry>, file: Option<Stored>, name: string, key: Key, luck: Luck) {
    forall v, w :: NextLogin(config, file, name, key, v, luck) == NextLogin(config, file, name, key, w, luck)
  }

  lemma {:induction false} OverruledExactly(config: seq<Entry>, file: Option<Stored>, name: string, key: Key,
      luck: Luck)
    requires Lands(luck)
    ensures Overruled(config, file, name, key, luck) <==> Stated(First(config, name), key).Some?
  {
    if Stated(First(config, name), key).Some? {
      forall v, w ensures NextLogin(config, file, name, key, v, luck) == NextLogin(config, file, name, key, w, luck) {
        TheNextLogin(config, file, name, key, v, luck);
        TheNextLogin(config, file, name, key, w, luck);
      }
    } else {
      var on, off := Setting("true"), Setting("false");
      assert on.text[0] != off.text[0];
      TheNextLogin(config, file, name, key, on, luck);
      TheNextLogin(config, file, name, key, off, luck);
    }
  }

  /** A switch is taken away from a display to spare a person a press that the file would undo at the next
      login. A switch that is left does hold. One that is taken away would have been undone exactly when
      it is the first entry of the display's own name that answers: where only the wildcard does, or a
      later entry of the name, the press would have held. */
  lemma {:induction false} APinTellsTheTruthExactly(config: seq<Entry>, file: Option<Stored>, name: string,
      luck: Luck, press: Setting)
    requires Lands(luck)
    ensures !Pinned(config, name) ==> NextLogin(config, file, name, EnabledKey, press, luck) == Some(press)
    ensures (Pinned(config, name) <==> Overruled(config, file, name, EnabledKey, luck))
            <==> Pinned(config, name) ==> First(config, name).Some? && EnabledKey in First(config, name).value.keys
  {
    OverruledExactly(config, file, name, EnabledKey, luck);
    TheNextLogin(config, file, name, EnabledKey, press, luck);
  }

  /** A wildcard that turns every display off takes the switch from each of them, and undoes none. */
  lemma AWildcardPinIsNotKept(file: Option<Stored>, luck: Luck)
    requires Lands(luck)
    ensures var config, on := [Entry(WILDCARD, map[EnabledKey := Setting("false")])], Setting("true");
            Pinned(config, "DP-1") && NextLogin(config, file, "DP-1", EnabledKey, on, luck) == Some(on)
  {
    var config := [Entry(WILDCARD, map[EnabledKey := Setting("false")])];
    assert config[0].name == WILDCARD && EnabledKey in config[0].keys;
    assert "DP-1"[0] != WILDCARD[0];
    TheNextLogin(config, file, "DP-1", EnabledKey, Setting("true"), luck);
  }
}
