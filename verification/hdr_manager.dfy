/** The session's record of what every display was asked for, and what it is telling the shell.

    The class keeps one entry per connector name. Its methods are tied to functions on a single
    entry, and those to the pipeline's steps: a display nothing is pending on shows what its entry
    says, and the status a shell reads is what the connector is doing. */
module HdrManager {
  import opened Wrappers
  import opened HdrPipeline

  datatype Status = Status(
    supported: bool, enabled: bool, maxLuminance: nat, gamut: bool, gamutExact: bool, nightLight: bool, warming: bool)

  const NOTHING := Status(false, false, 0, false, false, false, false)

  datatype Entry = Entry(
    connector: string, settings: Settings, night: NightLight, status: Status, passthrough: bool, pending: bool)

  // ------------------------------------------------------------------ one entry

  function Registered(entry: Option<Entry>, name: string, settings: Settings, night: NightLight, status: Status)
    : Entry
  {
    match entry
    case Some(e) => e.(status := status, pending := true)
    case None => Entry(name, settings, night, status, false, true)
  }

  function Unsure(entry: Entry): Entry {
    entry.(pending := true, status := entry.status.(enabled := false, warming := false))
  }

  function Gone(entry: Entry): Entry {
    entry.(status := NOTHING, pending := false)
  }

  datatype Ask = Colour(settings: Settings) | Warmth(night: NightLight) | Content(passthrough: bool)

  function With(entry: Entry, ask: Ask): Entry {
    match ask
    case Colour(settings) => entry.(settings := settings)
    case Warmth(night) => entry.(night := night)
    case Content(passthrough) => entry.(passthrough := passthrough)
  }

  function Asked(entry: Entry, ask: Ask): Entry {
    if With(entry, ask) == entry then entry else With(entry, ask).(pending := true)
  }

  function Tried(entry: Entry, enabled: bool, warming: bool): Entry {
    entry.(pending := false, status := entry.status.(enabled := enabled, warming := warming))
  }

  // ------------------------------------------------------------------ the record

  class Manager {
    var displays: seq<Entry>

    ghost predicate Valid()
      reads this
    {
      forall i, j :: 0 <= i < j < |displays| ==> displays[i].connector != displays[j].connector
    }

    constructor ()
      ensures Valid() && displays == []
    {
      displays := [];
    }

    /** What is on record for one connector name. */
    ghost function Of(name: string): (entry: Option<Entry>)
      reads this
      ensures entry.None? <==> forall i :: 0 <= i < |displays| ==> displays[i].connector != name
      ensures entry.Some? ==> entry.value in displays && entry.value.connector == name
    {
      if i: nat :| i < |displays| && displays[i].connector == name then Some(displays[i]) else None
    }

    lemma OfIs(i: nat, name: string)
      requires Valid() && i < |displays| && displays[i].connector == name
      ensures Of(name) == Some(displays[i])
    {}

    method Find(name: string) returns (found: Option<nat>)
      ensures found.Some? ==> found.value < |displays| && displays[found.value].connector == name
      ensures found.None? ==> Of(name).None?
    {
      for i := 0 to |displays|
        invariant forall j :: 0 <= j < i ==> displays[j].connector != name
      {
        if displays[i].connector == name {
          return Some(i);
        }
      }
      return None;
    }

    /** Put one entry back in its place; every other display's stays as it was. */
    method Replace(i: nat, entry: Entry)
      requires Valid() && i < |displays| && entry.connector == displays[i].connector
      modifies this
      ensures Valid() && Of(entry.connector) == Some(entry)
      ensures forall name :: name != entry.connector ==> Of(name) == old(Of(name))
    {
      var was := displays;
      displays := displays[i := entry];
      OfIs(i, entry.connector);
      forall name | name != entry.connector ensures Of(name) == old(Of(name)) {
        if old(Of(name)).Some? {
          var j: nat :| j < |was| && was[j] == old(Of(name)).value;
          OfIs(j, name);
        }
      }
    }

    method Register(name: string, settings: Settings, night: NightLight, status: Status)
      requires Valid()
      modifies this
      ensures Valid() && Of(name) == Some(Registered(old(Of(name)), name, settings, night, status))
      ensures var now, was := Of(name).value, old(Of(name));
              && now.pending && now.status == status
              && (was.Some? ==> (now.settings, now.night, now.passthrough)
                                == (was.value.settings, was.value.night, was.value.passthrough))
              && (was.None? ==> (now.settings, now.night, now.passthrough) == (settings, night, false))
      ensures forall other :: other != name ==> Of(other) == old(Of(other))
    {
      var found := Find(name);
      match found
      case Some(i) =>
        OfIs(i, name);
        Replace(i, displays[i].(status := status, pending := true));
      case None =>
        var was := displays;
        displays := displays + [Entry(name, settings, night, status, false, true)];
        OfIs(|was|, name);
        forall other | other != name ensures Of(other) == old(Of(other)) {
          if old(Of(other)).Some? {
            var j: nat :| j < |was| && was[j] == old(Of(other)).value;
            OfIs(j, other);
          }
        }
    }

    method Reapply(name: string)
      requires Valid()
      modifies this
      ensures Valid() && Of(name) == Through(old(Of(name)), Unsure)
      ensures forall other :: other != name ==> Of(other) == old(Of(other))
    {
      var found := Find(name);
      if found.Some? {
        OfIs(found.value, name);
        Replace(found.value, Unsure(displays[found.value]));
      }
    }

    /** Every display at once, for a session coming back from another virtual terminal. */
    method ReapplyAll()
      requires Valid()
      modifies this
      ensures Valid() && forall name :: Of(name) == Through(old(Of(name)), Unsure)
      ensures forall name :: Of(name).Some? ==>
                && old(Of(name)).Some?
                && var now, was := Of(name).value, old(Of(name)).value;
                && now.pending && !now.status.enabled && !now.status.warming
                && (now.settings, now.night, now.passthrough) == (was.settings, was.night, was.passthrough)
    {
      var was := displays;
      var i := 0;
      while i < |displays|
        invariant i <= |displays| == |was|
        invariant forall j :: 0 <= j < i ==> displays[j] == Unsure(was[j])
        invariant forall j :: i <= j < |was| ==> displays[j] == was[j]
      {
        displays := displays[i := Unsure(displays[i])];
        i := i + 1;
      }
      forall name ensures Of(name) == Through(old(Of(name)), Unsure) {
        if old(Of(name)).Some? {
          var j: nat :| j < |was| && was[j] == old(Of(name)).value;
          OfIs(j, name);
        }
      }
    }

    method Disconnected(name: string)
      requires Valid()
      modifies this
      ensures Valid() && Of(name) == Through(old(Of(name)), Gone)
      ensures Of(name).Some? ==>
                var now, was := Of(name).value, old(Of(name)).value;
                && !now.pending && !now.status.supported && !now.status.enabled && !now.status.warming
                && (now.settings, now.night, now.passthrough) == (was.settings, was.night, was.passthrough)
      ensures forall other :: other != name ==> Of(other) == old(Of(other))
    {
      var found := Find(name);
      if found.Some? {
        OfIs(found.value, name);
        Replace(found.value, Gone(displays[found.value]));
      }
    }

    /** The three requests share one shape; `true` when a redraw is owed. */
    method Request(name: string, ask: Ask) returns (changed: bool)
      requires Valid()
      modifies this
      ensures Valid() && Of(name) == Through(old(Of(name)), e => Asked(e, ask))
      ensures changed <==>
              || Of(name) != old(Of(name))
              || (old(Of(name)).Some? && With(old(Of(name)).value, ask) != old(Of(name)).value)
      ensures Of(name).Some? ==>
                var now, was := Of(name).value, old(Of(name)).value;
                && now.settings == (if ask.Colour? then ask.settings else was.settings)
                && now.night == (if ask.Warmth? then ask.night else was.night)
                && now.passthrough == (if ask.Content? then ask.passthrough else was.passthrough)
                && (changed <==> (now.settings, now.night, now.passthrough)
                                 != (was.settings, was.night, was.passthrough))
                && now.pending == (was.pending || changed) && now.status == was.status
      ensures forall other :: other != name ==> Of(other) == old(Of(other))
    {
      var found := Find(name);
      if found.None? {
        return false;
      }
      OfIs(found.value, name);
      var entry := displays[found.value];
      if With(entry, ask) == entry {
        return false;
      }
      Replace(found.value, With(entry, ask).(pending := true));
      return true;
    }

    method TakePending(name: string) returns (taken: Option<(Settings, NightLight, bool)>)
      requires Valid()
      ensures taken.Some? <==> Of(name).Some? && Of(name).value.pending
      ensures taken.Some? ==> var e := Of(name).value; taken.value == (e.settings, e.night, e.passthrough)
    {
      var found := Find(name);
      if found.None? {
        return None;
      }
      var entry := displays[found.value];
      OfIs(found.value, name);
      taken := if entry.pending then Some((entry.settings, entry.night, entry.passthrough)) else None;
    }

    /** Answers whether what shells were told is no longer so. */
    method Applied(name: string, enabled: bool, warming: bool) returns (news: bool)
      requires Valid()
      modifies this
      ensures Valid() && Of(name) == Through(old(Of(name)), e => Tried(e, enabled, warming))
      ensures news <==> old(Of(name)).Some? && old(Of(name)).value.status != Of(name).value.status
      ensures Of(name).Some? ==>
                var now, was := Of(name).value, old(Of(name)).value;
                && !now.pending && now.status.enabled == enabled && now.status.warming == warming
                && (now.settings, now.night, now.passthrough) == (was.settings, was.night, was.passthrough)
      ensures forall other :: other != name ==> Of(other) == old(Of(other))
    {
      var found := Find(name);
      if found.None? {
        return false;
      }
      OfIs(found.value, name);
      var entry := displays[found.value];
      news := entry.status.enabled != enabled || entry.status.warming != warming;
      Replace(found.value, entry.(pending := false, status := entry.status.(enabled := enabled, warming := warming)));
    }
  }

  ghost function Through(entry: Option<Entry>, change: Entry -> Entry): Option<Entry> {
    match entry
    case Some(e) => Some(change(e))
    case None => None
  }
}
