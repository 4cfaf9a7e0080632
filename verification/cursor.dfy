/** The drawn cursor: which pictures of a file are used, which of them is shown when, and a cache that
    never says anything the theme would not. */
module Cursor {
  import opened Wrappers

  const U32_MAX: nat := 0xFFFF_FFFF

  type U32 = n: nat | n <= 0xFFFF_FFFF witness 0

  datatype Image = Image(size: U32, delay: U32, picture: nat)

  datatype Animation = Animation(frames: seq<Image>, total: U32)

  // ------------------------------------------------------------------ one file, one size

  function Apart(a: nat, b: nat): nat {
    if a < b then b - a else a - b
  }

  /** The nominal size times the scale, stopping at the widest number there is. */
  function Desired(nominal: U32, scale: int): U32 {
    var product := nominal * if scale < 1 then 1 else scale;
    if product > U32_MAX then U32_MAX else product
  }

  /** Nearer than every picture before it, and no farther than any after. */
  predicate FirstNearest(images: seq<Image>, desired: U32, i: int) {
    && 0 <= i < |images|
    && (forall j :: 0 <= j < i ==> Apart(images[i].size, desired) < Apart(images[j].size, desired))
    && (forall j :: i < j < |images| ==> Apart(images[i].size, desired) <= Apart(images[j].size, desired))
  }

  /** The first of the sizes nearest to the one desired. */
  function Nearest(images: seq<Image>, desired: U32): (best: U32)
    requires images != []
    ensures exists i :: FirstNearest(images, desired, i) && images[i].size == best
    ensures forall image :: image in images ==> Apart(best, desired) <= Apart(image.size, desired)
  {
    var n := |images| - 1;
    if n == 0 then
      assert FirstNearest(images, desired, 0);
      images[0].size
    else
      var before := Nearest(images[..n], desired);
      var i :| FirstNearest(images[..n], desired, i) && images[..n][i].size == before;
      assert images == images[..n] + [images[n]];
      assert FirstNearest(images, desired, if Apart(images[n].size, desired) < Apart(before, desired) then n else i);
      if Apart(images[n].size, desired) < Apart(before, desired) then images[n].size else before
  }

  function OfSize(images: seq<Image>, size: U32): (kept: seq<Image>)
    ensures forall image :: image in kept <==> image in images && image.size == size
  {
    if images == [] then []
    else OfSize(images[..|images| - 1], size) + if images[|images| - 1].size == size then [images[|images| - 1]] else []
  }

  ghost predicate PicksOut(images: seq<Image>, size: U32, frames: seq<Image>, picks: seq<nat>) {
    && |picks| == |frames|
    && (forall i, j :: 0 <= i < j < |picks| ==> picks[i] < picks[j])
    && (forall i :: 0 <= i < |picks| ==> picks[i] < |images| && frames[i] == images[picks[i]])
    && (forall j: nat :: j in picks <==> j < |images| && images[j].size == size)
  }

  /** The frames of one animation are every picture of its size, each once and in the file's order. */
  lemma {:induction false} InPlaybackOrder(images: seq<Image>, size: U32) returns (picks: seq<nat>)
    ensures PicksOut(images, size, OfSize(images, size), picks)
  {
    if images == [] {
      picks := [];
    } else {
      var n := |images| - 1;
      picks := InPlaybackOrder(images[..n], size);
      picks := OneMorePick(images, n, size, OfSize(images[..n], size), picks);
    }
  }

  lemma OneMorePick(images: seq<Image>, n: nat, size: U32, frames: seq<Image>, before: seq<nat>)
      returns (picks: seq<nat>)
    requires |images| == n + 1 && PicksOut(images[..n], size, frames, before)
    ensures PicksOut(images, size, frames + if images[n].size == size then [images[n]] else [], picks)
  {
    picks := before + if images[n].size == size then [n] else [];
    forall i | 0 <= i < |before| ensures before[i] < n {
      assert before[i] in before;
    }
  }

  function TotalDelay(frames: seq<Image>): nat {
    if frames == [] then 0 else TotalDelay(frames[..|frames| - 1]) + frames[|frames| - 1].delay
  }

  /** The delays are added in thirty-two bits, going round. */
  function Build(images: seq<Image>, nominal: U32, scale: int): Option<Animation> {
    if images == [] then None
    else
      var frames := OfSize(images, Nearest(images, Desired(nominal, scale)));
      Some(Animation(frames, TotalDelay(frames) % (U32_MAX + 1)))
  }

  /** A file with any picture in it gives a cursor, and one made of the pictures nearest the size asked
      for and of no others. */
  lemma BuildsExactly(images: seq<Image>, nominal: U32, scale: int)
    ensures Build(images, nominal, scale).Some? <==> images != []
    ensures Build(images, nominal, scale).Some? ==>
              var frames := Build(images, nominal, scale).value.frames;
              && frames != []
              && (forall image :: image in frames ==> image in images)
              && (forall a, b :: a in frames && b in images ==>
                    Apart(a.size, Desired(nominal, scale)) <= Apart(b.size, Desired(nominal, scale)))
              && (forall a, b :: a in frames && b in images && b.size == a.size ==> b in frames)
  {
    if images != [] {
      var best := Nearest(images, Desired(nominal, scale));
      var i :| 0 <= i < |images| && images[i].size == best;
      assert images[i] in OfSize(images, best);
    }
  }

  /** Strictly nearer to the size wanted, on either side of it. */
  predicate Nearer(a: nat, b: nat, wanted: nat) {
    if b <= wanted then b < a < 2 * wanted - b else 2 * wanted - b < a < b
  }

  /** The picture the choice falls on: nearer than all before it, with none nearer after it. */
  ghost predicate FallsOn(images: seq<Image>, wanted: nat, i: int) {
    && 0 <= i < |images|
    && (forall j :: 0 <= j < i ==> Nearer(images[i].size, images[j].size, wanted))
    && (forall j :: i < j < |images| ==> !Nearer(images[j].size, images[i].size, wanted))
  }

  ghost predicate TheSize(images: seq<Image>, size: nat, frames: seq<Image>) {
    forall image :: image in frames <==> image in images && image.size == size
  }

  /** In numbers: the nominal size times a scale of at least one, and no more than thirty-two bits hold, is what
      is wanted; the frames are the pictures of the size of the first one nearest to that; and one turn takes
      their delays together, in thirty-two bits. */
  lemma BuildsInNumbers(images: seq<Image>, nominal: U32, scale: int, wanted: nat)
    requires images != []
    requires wanted == if scale <= 1 then nominal as nat
                       else if nominal * scale >= 4_294_967_295 then 4_294_967_295 else nominal * scale
    ensures exists i :: FallsOn(images, wanted, i) && TheSize(images, images[i].size,
        Build(images, nominal, scale).value.frames)
    ensures Build(images, nominal, scale).value.total ==
            TotalDelay(Build(images, nominal, scale).value.frames) % 4_294_967_296
  {
    assert Desired(nominal, scale) == wanted;
    var i := TheFirstNearest(images, wanted);
    assert TheSize(images, images[i].size, OfSize(images, images[i].size));
  }

  lemma TheFirstNearest(images: seq<Image>, wanted: U32) returns (i: nat)
    requires images != []
    ensures FallsOn(images, wanted, i) && images[i].size == Nearest(images, wanted)
  {
    var best := Nearest(images, wanted);
    i :| FirstNearest(images, wanted, i) && images[i].size == best;
  }

  // ------------------------------------------------------------------ which frame, when

  /** The frame whose stretch of the cycle the moment falls in. */
  ghost predicate ShownAt(c: Animation, moment: nat, k: int) {
    && 0 <= k < |c.frames|
    && TotalDelay(c.frames[..k]) <= moment < TotalDelay(c.frames[..k]) + c.frames[k].delay
  }

  method FrameAt(c: Animation, time: nat) returns (frame: Option<Image>)
    requires c.total == TotalDelay(c.frames) % (U32_MAX + 1)
    ensures c.frames == [] <==> frame.None?
    ensures |c.frames| <= 1 || c.total == 0 ==> frame == if c.frames == [] then None else Some(c.frames[0])
    ensures |c.frames| > 1 && c.total > 0 ==> exists k :: ShownAt(c, time % c.total, k) && frame == Some(c.frames[k])
  {
    if |c.frames| <= 1 || c.total == 0 {
      return if c.frames == [] then None else Some(c.frames[0]);
    }
    var moment := time % c.total;
    var remainder: nat := moment;
    assert c.frames[..|c.frames|] == c.frames && moment < TotalDelay(c.frames);
    for i := 0 to |c.frames|
      invariant moment == TotalDelay(c.frames[..i]) + remainder
    {
      assert c.frames[..i + 1][..i] == c.frames[..i];
      if remainder < c.frames[i].delay {
        assert ShownAt(c, moment, i);
        return Some(c.frames[i]);
      }
      remainder := remainder - c.frames[i].delay;
    }
    assert false;
    frame := None;
  }

  lemma {:induction false} DelaysGrow(frames: seq<Image>, j: nat, k: nat)
    requires j <= k <= |frames|
    ensures TotalDelay(frames[..j]) <= TotalDelay(frames[..k])
  {
    if j < k {
      DelaysGrow(frames, j, k - 1);
      assert frames[..k][..k - 1] == frames[..k - 1];
    }
  }

  lemma EndsBefore(frames: seq<Image>, j: nat, k: nat)
    requires j < k <= |frames|
    ensures TotalDelay(frames[..j]) + frames[j].delay <= TotalDelay(frames[..k])
  {
    DelaysGrow(frames, j + 1, k);
    assert frames[..j + 1][..j] == frames[..j];
  }

  /** One frame is shown at each moment of the cycle. */
  lemma OneFrameAtATime(c: Animation, moment: nat, j: nat, k: nat)
    requires ShownAt(c, moment, j) && ShownAt(c, moment, k)
    ensures j == k
  {
    if j < k {
      EndsBefore(c.frames, j, k);
    } else if k < j {
      EndsBefore(c.frames, k, j);
    }
  }

  // ------------------------------------------------------------------ the theme and the cache

  const ARROW := "default"

  /** What there is to draw from: the pictures under each name of the theme, the other names a shape goes
      by, and the arrow carried in the program. */
  datatype Source = Source(theme: string -> Option<seq<Image>>, aliases: string -> seq<string>,
      embedded: Option<seq<Image>>)

  function FirstBuilt(s: Source, names: seq<string>, size: U32, scale: int): Option<Animation> {
    if names == [] then None
    else
      var images := s.theme(names[0]);
      Or(if images.Some? then Build(images.value, size, scale) else None, FirstBuilt(s, names[1..], size, scale))
  }

  function Embedded(s: Source, size: U32, scale: int): Option<Animation> {
    if s.embedded.Some? then Build(s.embedded.value, size, scale) else None
  }

  function NamesOf(s: Source, shape: string): seq<string> {
    [shape] + s.aliases(shape)
  }

  /** A shape as it would be decoded with nothing cached: its own pictures, or else the theme's arrow, or
      else the one carried along. */
  function Uncached(s: Source, shape: string, size: U32, scale: int): Option<Animation> {
    Or(FirstBuilt(s, NamesOf(s, shape), size, scale),
       Or(FirstBuilt(s, NamesOf(s, ARROW), size, scale), Embedded(s, size, scale)))
  }

  class CursorState {
    const source: Source
    var size: U32
    var cache: map<(string, int), Option<Animation>>

    constructor (source: Source, size: U32)
      ensures Valid() && this.source == source && this.size == size && cache == map[]
    {
      this.source, this.size, cache := source, size, map[];
    }

    /** Everything cached, misses too, is what would be decoded now. */
    ghost predicate Valid()
      reads this
    {
      forall key :: key in cache ==> cache[key] == Uncached(source, key.0, size, key.1)
    }

    method SetSize(wanted: U32)
      requires Valid()
      modifies this
      ensures Valid() && size == if wanted == 0 then old(size) else wanted
      ensures size == old(size) ==> cache == old(cache)
    {
      if wanted == 0 || wanted == size {
        return;
      }
      size := wanted;
      cache := map[];
    }

    /** One look-up: whatever was asked before and at whatever size, the answer is the theme's. */
    method Themed(shape: string, scale: int) returns (cursor: Option<Animation>)
      requires Valid()
      modifies this`cache
      ensures Valid() && cursor == Uncached(source, shape, size, scale)
      ensures (shape, scale) in cache && forall key :: key in old(cache) ==>
              key in cache && cache[key] == old(cache)[key]
      decreases if shape == ARROW then 0 else 1, 1
    {
      if (shape, scale) in cache {
        return cache[(shape, scale)];
      }
      cursor := Decode(shape, scale);
      cache := cache[(shape, scale) := cursor];
    }

    method Decode(shape: string, scale: int) returns (cursor: Option<Animation>)
      requires Valid()
      modifies this`cache
      ensures Valid() && cursor == Uncached(source, shape, size, scale)
      ensures forall key :: key in old(cache) ==> key in cache && cache[key] == old(cache)[key]
      decreases if shape == ARROW then 0 else 1, 0
    {
      var names := NamesOf(source, shape);
      for i := 0 to |names|
        invariant cache == old(cache)
        invariant FirstBuilt(source, names, size, scale) == FirstBuilt(source, names[i..], size, scale)
      {
        assert names[i..][0] == names[i] && names[i..][1..] == names[i + 1..];
        var images := source.theme(names[i]);
        if images.Some? {
          var built := Build(images.value, size, scale);
          if built.Some? {
            return built;
          }
        }
      }
      if shape != ARROW {
        cursor := Themed(ARROW, scale);
        return;
      }
      cursor := Embedded(source, size, scale);
    }
  }

  lemma {:induction false} FirstBuiltExactly(s: Source, names: seq<string>, size: U32, scale: int)
    ensures FirstBuilt(s, names, size, scale).None? <==>
              forall name :: name in names ==> s.theme(name).None? || s.theme(name).value == []
  {
    if names != [] {
      FirstBuiltExactly(s, names[1..], size, scale);
      assert names == [names[0]] + names[1..];
    }
  }

  /** A name the theme has a picture under. */
  predicate Drawn(s: Source, name: string) {
    s.theme(name).Some? && s.theme(name).value != []
  }

  lemma {:induction false} FirstBuiltIs(s: Source, names: seq<string>, size: U32, scale: int, i: nat)
    requires i < |names| && Drawn(s, names[i]) && forall j :: 0 <= j < i ==> !Drawn(s, names[j])
    ensures FirstBuilt(s, names, size, scale) == Build(s.theme(names[i]).value, size, scale)
    ensures FirstBuilt(s, names, size, scale).Some?
  {
    if i > 0 {
      assert !Drawn(s, names[0]);
      FirstBuiltIs(s, names[1..], size, scale, i - 1);
    }
  }

  /** Of the shape, its other names, the arrow and the arrow's other names, in that order, the first the theme
      has a picture under is the one drawn; and where there is no such name, the one carried along. */
  lemma DrawsTheFirstExactly(s: Source, shape: string, size: U32, scale: int, names: seq<string>, i: nat)
    requires names == [shape] + s.aliases(shape) + ["default"] + s.aliases("default")
    requires i <= |names| && (i < |names| ==> Drawn(s, names[i])) && forall j :: 0 <= j < i ==> !Drawn(s, names[j])
    ensures Uncached(s, shape, size, scale) ==
            if i < |names| then Build(s.theme(names[i]).value, size, scale)
            else if s.embedded.Some? then Build(s.embedded.value, size, scale) else None
  {
    OneAfterTheOther(s, NamesOf(s, shape), NamesOf(s, ARROW), size, scale);
    assert names == NamesOf(s, shape) + NamesOf(s, ARROW);
    if i < |names| {
      FirstBuiltIs(s, names, size, scale, i);
    } else {
      NoneDrawn(s, names);
      FirstBuiltExactly(s, names, size, scale);
    }
  }

  lemma {:induction false} OneAfterTheOther(s: Source, first: seq<string>, after: seq<string>, size: U32, scale: int)
    ensures FirstBuilt(s, first + after, size, scale) ==
            Or(FirstBuilt(s, first, size, scale), FirstBuilt(s, after, size, scale))
  {
    if first == [] {
      assert first + after == after;
    } else {
      OneAfterTheOther(s, first[1..], after, size, scale);
      assert (first + after)[1..] == first[1..] + after;
    }
  }

  lemma NoneDrawn(s: Source, names: seq<string>)
    requires forall j :: 0 <= j < |names| ==> !Drawn(s, names[j])
    ensures forall name :: name in names ==> s.theme(name).None? || s.theme(name).value == []
  {
    forall name | name in names ensures !Drawn(s, name) {}
  }

  /** There is no pointer at all exactly when neither the shape nor the arrow has a picture in the theme
      and the one carried along has none either: and that whatever the size and the scale. */
  lemma NoPointerExactly(s: Source, shape: string, size: U32, scale: int)
    ensures Uncached(s, shape, size, scale).None? <==>
              && (s.embedded.None? || s.embedded.value == [])
              && forall name :: name in NamesOf(s, shape) + NamesOf(s, ARROW) ==>
                      s.theme(name).None? || s.theme(name).value == []
  {
    FirstBuiltExactly(s, NamesOf(s, shape), size, scale);
    FirstBuiltExactly(s, NamesOf(s, ARROW), size, scale);
  }
}
