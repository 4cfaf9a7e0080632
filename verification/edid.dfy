/** Reading a display's HDR claims out of its EDID (CTA-861-G, section 7.5).

    `FromEdid` walks bytes; what it must answer is stated about the list of data blocks the bytes
    spell, and that list is what encoding them gives back. */
module Edid {
  import opened Wrappers

  type Byte = b: int | 0 <= b < 256

  const BLOCK := 128
  const EXTENSIONS_AT := 126
  const CTA_EXTENSION_TAG := 0x02
  const COLLECTION_START := 4
  const TAG_EXTENDED := 7
  const EXTENDED_COLORIMETRY := 5
  const EXTENDED_HDR_STATIC := 6

  datatype Luminance = Peak | Black

  /** One data block: a three-bit tag and up to thirty-one bytes. */
  datatype DataBlock = DataBlock(tag: nat, payload: seq<Byte>) {
    ghost predicate WellFormed() { tag < 8 && |payload| < 32 }

    predicate Colorimetry() { tag == TAG_EXTENDED && payload != [] && payload[0] == EXTENDED_COLORIMETRY }

    predicate HdrStatic() { tag == TAG_EXTENDED && payload != [] && payload[0] == EXTENDED_HDR_STATIC }

    /** The luminances are optional bytes: the peak is the fourth of the payload, the black level the sixth. */
    predicate States(luminance: Luminance) {
      HdrStatic() && |payload| > if luminance.Peak? then 3 else 5
    }
  }

  function Tag(header: Byte): nat { header / 32 }

  function Length(header: Byte): nat { header % 32 }

  predicate BitSeven(byte: Byte) { byte / 128 == 1 }

  predicate BitTwo(byte: Byte) { byte / 4 % 2 == 1 }

  /** Black is stated relative to the peak stated beside it, so the two are kept together. */
  datatype Claims = Claims(st2084: bool, bt2020: bool, peak: Option<Byte>, black: Option<(Byte, Byte)>)

  const NO_CLAIMS := Claims(false, false, None, None)

  // ------------------------------------------------------------------ the list the bytes spell

  /** The whole blocks from `at` on. The walk stops at the detailed timings, or at a block that runs off
      the end of the extension; one that runs over the timings but stays inside is read all the same. */
  ghost function Blocks(bytes: seq<Byte>, at: nat, end: nat): seq<DataBlock>
    requires end <= |bytes|
    decreases end - at
  {
    if at >= end then []
    else
      var next := at + 1 + Length(bytes[at]);
      if next > |bytes| then []
      else [DataBlock(Tag(bytes[at]), bytes[at + 1..next])] + Blocks(bytes, next, end)
  }

  ghost function Collection(extension: seq<Byte>): seq<DataBlock>
    requires |extension| == BLOCK
  {
    if extension[0] != CTA_EXTENSION_TAG || extension[2] > BLOCK then []
    else Blocks(extension, COLLECTION_START, extension[2])
  }

  /** The extension block numbered `index`, when the bytes reach to the end of it. */
  function ExtensionAt(edid: seq<Byte>, index: nat): (block: Option<seq<Byte>>)
    ensures block.Some? ==> |block.value| == BLOCK
  {
    var start := 128 * (index + 1);
    if start + BLOCK <= |edid| then Some(edid[start..start + BLOCK]) else None
  }

  /** Every block of the extensions numbered from `from` up to the count, as far as the bytes reach. */
  ghost function AllBlocks(edid: seq<Byte>, from: nat, count: nat): seq<DataBlock>
    decreases count - from
  {
    if from >= count || ExtensionAt(edid, from).None? then []
    else Collection(ExtensionAt(edid, from).value) + AllBlocks(edid, from + 1, count)
  }

  ghost function Spelled(edid: seq<Byte>): seq<DataBlock> {
    if |edid| <= EXTENSIONS_AT then [] else AllBlocks(edid, 0, edid[EXTENSIONS_AT])
  }

  // ------------------------------------------------------------------ what a list of blocks claims

  /** `i` is the last block stating this luminance, or -1 when none does. */
  ghost predicate LastStating(blocks: seq<DataBlock>, luminance: Luminance, i: int) {
    && -1 <= i < |blocks|
    && (i >= 0 ==> blocks[i].States(luminance))
    && forall j :: i < j < |blocks| ==> !blocks[j].States(luminance)
  }

  ghost predicate PeakIs(blocks: seq<DataBlock>, i: int, peak: Option<Byte>) {
    LastStating(blocks, Peak, i) && peak == if i < 0 then None else Some(blocks[i].payload[3])
  }

  ghost predicate BlackIs(blocks: seq<DataBlock>, i: int, black: Option<(Byte, Byte)>) {
    LastStating(blocks, Black, i) && black == if i < 0 then None else Some((blocks[i].payload[3], blocks[i].payload[5]))
  }

  predicate ClaimsBt2020(block: DataBlock) {
    block.Colorimetry() && |block.payload| > 1 && BitSeven(block.payload[1])
  }

  predicate ClaimsSt2084(block: DataBlock) {
    block.HdrStatic() && |block.payload| > 1 && BitTwo(block.payload[1])
  }

  /** A capability is claimed when any block claims it; a luminance is the last one stated. */
  ghost predicate Claimed(blocks: seq<DataBlock>, claims: Claims) {
    && (claims.bt2020 <==> exists b :: b in blocks && ClaimsBt2020(b))
    && (claims.st2084 <==> exists b :: b in blocks && ClaimsSt2084(b))
    && (exists i :: PeakIs(blocks, i, claims.peak))
    && (exists i :: BlackIs(blocks, i, claims.black))
  }

  /** A block of the extended kind, by what its first byte says it is. */
  predicate Extended(block: DataBlock, kind: nat) {
    block.tag == 7 && block.payload != [] && block.payload[0] == kind
  }

  ghost predicate LastOf(blocks: seq<DataBlock>, i: int, bytes: nat) {
    && 0 <= i < |blocks| && Extended(blocks[i], 6) && |blocks[i].payload| >= bytes
    && forall j :: i < j < |blocks| ==> !(Extended(blocks[j], 6) && |blocks[j].payload| >= bytes)
  }

  ghost predicate SaysPeak(blocks: seq<DataBlock>, peak: Byte) {
    exists i :: LastOf(blocks, i, 4) && peak == blocks[i].payload[3]
  }

  ghost predicate SaysBlack(blocks: seq<DataBlock>, peak: Byte, black: Byte) {
    exists i :: LastOf(blocks, i, 6) && peak == blocks[i].payload[3] && black == blocks[i].payload[5]
  }

  /** The same in the standard's own numbers. Kind 5 is colorimetry, and the top bit of its byte is BT.2020;
      kind 6 is HDR static metadata, whose third bit is ST 2084 and whose fourth and sixth bytes, where the
      block goes on so long, are the peak and the black level. */
  ghost predicate InNumbers(blocks: seq<DataBlock>, claims: Claims) {
    && (claims.bt2020 <==>
          exists b :: b in blocks && Extended(b, 5) && |b.payload| >= 2 && b.payload[1] >= 128)
    && (claims.st2084 <==>
          exists b :: b in blocks && Extended(b, 6) && |b.payload| >= 2 && b.payload[1] % 8 >= 4)
    && (if claims.peak.Some? then SaysPeak(blocks, claims.peak.value)
        else forall b :: b in blocks ==> !(Extended(b, 6) && |b.payload| >= 4))
    && (if claims.black.Some? then SaysBlack(blocks, claims.black.value.0, claims.black.value.1)
        else forall b :: b in blocks ==> !(Extended(b, 6) && |b.payload| >= 6))
  }

  lemma ClaimedInNumbers(blocks: seq<DataBlock>, claims: Claims)
    requires Claimed(blocks, claims)
    ensures InNumbers(blocks, claims)
  {
    forall b | b in blocks
      ensures ClaimsBt2020(b) <==> Extended(b, 5) && |b.payload| >= 2 && b.payload[1] >= 128
      ensures ClaimsSt2084(b) <==> Extended(b, 6) && |b.payload| >= 2 && b.payload[1] % 8 >= 4
    {}
    var i :| PeakIs(blocks, i, claims.peak);
    var k :| BlackIs(blocks, k, claims.black);
    if claims.peak.Some? {
      assert LastOf(blocks, i, 4);
    }
    if claims.black.Some? {
      assert LastOf(blocks, k, 6);
    }
  }

  /** The claims are a function of the list: two readings of the same blocks agree. */
  lemma ClaimedIsUnique(blocks: seq<DataBlock>, one: Claims, other: Claims)
    requires Claimed(blocks, one) && Claimed(blocks, other)
    ensures one == other
  {
    var i, j :| PeakIs(blocks, i, one.peak) && PeakIs(blocks, j, other.peak);
    assert i == j;
    var k, l :| BlackIs(blocks, k, one.black) && BlackIs(blocks, l, other.black);
    assert k == l;
  }

  /** What one more block adds, and what a list of them adds. */
  ghost function Adding(claims: Claims, block: DataBlock): Claims {
    Claims(
      claims.st2084 || ClaimsSt2084(block),
      claims.bt2020 || ClaimsBt2020(block),
      if block.States(Peak) then Some(block.payload[3]) else claims.peak,
      if block.States(Black) then Some((block.payload[3], block.payload[5])) else claims.black)
  }

  ghost function AddingAll(claims: Claims, blocks: seq<DataBlock>): Claims
    decreases |blocks|
  {
    if blocks == [] then claims else AddingAll(Adding(claims, blocks[0]), blocks[1..])
  }

  lemma {:induction false} AddingBoth(claims: Claims, first: seq<DataBlock>, second: seq<DataBlock>)
    ensures AddingAll(claims, first + second) == AddingAll(AddingAll(claims, first), second)
    decreases |first|
  {
    if first == [] {
      assert first + second == second;
    } else {
      assert (first + second)[1..] == first[1..] + second;
      AddingBoth(Adding(claims, first[0]), first[1..], second);
    }
  }

  lemma ClaimedMore(blocks: seq<DataBlock>, claims: Claims, block: DataBlock)
    requires Claimed(blocks, claims)
    ensures Claimed(blocks + [block], Adding(claims, block))
  {
    var more, after := blocks + [block], Adding(claims, block);
    assert forall b :: b in more <==> b in blocks || b == block;
    var i :| PeakIs(blocks, i, claims.peak);
    assert PeakIs(more, if block.States(Peak) then |blocks| else i, after.peak);
    var k :| BlackIs(blocks, k, claims.black);
    assert BlackIs(more, if block.States(Black) then |blocks| else k, after.black);
  }

  lemma {:induction false} AddingAllIsClaimed(seen: seq<DataBlock>, claims: Claims, blocks: seq<DataBlock>)
    requires Claimed(seen, claims)
    ensures Claimed(seen + blocks, AddingAll(claims, blocks))
    decreases |blocks|
  {
    if blocks == [] {
      assert seen + blocks == seen;
    } else {
      ClaimedMore(seen, claims, blocks[0]);
      AddingAllIsClaimed(seen + [blocks[0]], Adding(claims, blocks[0]), blocks[1..]);
      assert seen + [blocks[0]] + blocks[1..] == seen + blocks;
    }
  }

  // ------------------------------------------------------------------ the walk

  class Reader {
    var claims: Claims

    constructor ()
      ensures claims == NO_CLAIMS
    {
      claims := NO_CLAIMS;
    }

    method ReadColorimetry(payload: seq<Byte>)
      modifies this
      ensures claims == old(claims).(bt2020 := old(claims).bt2020 || (payload != [] && BitSeven(payload[0])))
    {
      if payload != [] {
        claims := claims.(bt2020 := claims.bt2020 || BitSeven(payload[0]));
      }
    }

    method ReadHdrStatic(payload: seq<Byte>)
      modifies this
      ensures claims == old(claims).(
                st2084 := old(claims).st2084 || (payload != [] && BitTwo(payload[0])),
                peak := if |payload| > 2 then Some(payload[2]) else old(claims).peak,
                black := if |payload| > 4 then Some((payload[2], payload[4])) else old(claims).black)
    {
      if payload == [] {
        return;
      }
      claims := claims.(st2084 := claims.st2084 || BitTwo(payload[0]));
      if |payload| > 2 {
        claims := claims.(peak := Some(payload[2]));
        if |payload| > 4 {
          claims := claims.(black := Some((payload[2], payload[4])));
        }
      }
    }

    /** Every block but an extended-tag one is passed over, and what kind that is its first payload byte says. */
    method ReadBlock(tag: nat, payload: seq<Byte>)
      modifies this
      ensures claims == Adding(old(claims), DataBlock(tag, payload))
    {
      if tag == TAG_EXTENDED && payload != [] {
        if payload[0] == EXTENDED_COLORIMETRY {
          ReadColorimetry(payload[1..]);
        } else if payload[0] == EXTENDED_HDR_STATIC {
          ReadHdrStatic(payload[1..]);
        }
      }
    }

    /** One extension's data block collection. */
    method ReadCtaBlock(block: seq<Byte>)
      requires |block| == BLOCK && block[0] == CTA_EXTENSION_TAG
      modifies this
      ensures claims == AddingAll(old(claims), Collection(block))
    {
      var end: nat := block[2];
      if end <= COLLECTION_START || end > |block| {
        return;
      }
      var at: nat := COLLECTION_START;
      ghost var all := AddingAll(claims, Blocks(block, at, end));
      while at < end
        invariant COLLECTION_START <= at
        invariant AddingAll(claims, Blocks(block, at, end)) == all
        decreases end - at
      {
        var length := Length(block[at]);
        var tag := Tag(block[at]);
        if at + 1 + length > |block| {
          return;
        }
        var payload := block[at + 1..at + 1 + length];
        AddingBoth(claims, [DataBlock(tag, payload)], Blocks(block, at + 1 + length, end));
        ReadBlock(tag, payload);
        at := at + 1 + length;
      }
    }

    /** Only CTA-861 extensions carry data blocks; the others say nothing about HDR. */
    method ReadExtension(block: seq<Byte>)
      requires |block| == BLOCK
      modifies this
      ensures claims == AddingAll(old(claims), Collection(block))
    {
      if block[0] == CTA_EXTENSION_TAG {
        ReadCtaBlock(block);
      }
    }
  }

  /** Every byte string: no index out of range, and what its blocks add up to. */
  method FromEdid(edid: seq<Byte>) returns (claims: Claims)
    ensures claims == AddingAll(NO_CLAIMS, Spelled(edid))
    ensures InNumbers(Spelled(edid), claims)
  {
    SpelledIsClaimed(edid);
    ClaimedInNumbers(Spelled(edid), AddingAll(NO_CLAIMS, Spelled(edid)));
    if |edid| <= EXTENSIONS_AT {
      return NO_CLAIMS;
    }
    var reader := new Reader();
    var index: nat, count: nat := 0, edid[EXTENSIONS_AT];
    ghost var all := AddingAll(NO_CLAIMS, AllBlocks(edid, 0, count));
    while index < count
      invariant index <= count
      invariant AddingAll(reader.claims, AllBlocks(edid, index, count)) == all
    {
      var block := ExtensionAt(edid, index);
      if block.None? {
        break;
      }
      AddingBoth(reader.claims, Collection(block.value), AllBlocks(edid, index + 1, count));
      reader.ReadExtension(block.value);
      index := index + 1;
    }
    return reader.claims;
  }

  /** So whatever the bytes, the claims are those of the data blocks before the first truncated one. */
  lemma SpelledIsClaimed(edid: seq<Byte>)
    ensures Claimed(Spelled(edid), AddingAll(NO_CLAIMS, Spelled(edid)))
  {
    assert PeakIs([], -1, None) && BlackIs([], -1, None);
    AddingAllIsClaimed([], NO_CLAIMS, Spelled(edid));
    assert [] + Spelled(edid) == Spelled(edid);
  }

  // ------------------------------------------------------------------ and back again

  function EncodeBlock(block: DataBlock): seq<Byte>
    requires block.WellFormed()
  {
    [(block.tag * 32 + |block.payload|) as Byte] + block.payload
  }

  function Encode(blocks: seq<DataBlock>): seq<Byte>
    requires forall b :: b in blocks ==> b.WellFormed()
  {
    if blocks == [] then [] else EncodeBlock(blocks[0]) + Encode(blocks[1..])
  }

  /** An extension as it may be found: a collection of data blocks and whatever follows it, the place where
      the timings are said to begin being its end or anywhere inside its last block; or one without. */
  datatype Written =
    | Cta(revision: Byte, timings: Byte, flags: Byte, blocks: seq<DataBlock>, tail: seq<Byte>)
    | Bare(bytes: seq<Byte>)

  ghost predicate Fits(w: Written) {
    match w
    case Cta(_, timings, _, blocks, tail) =>
      && (forall b :: b in blocks ==> b.WellFormed())
      && 4 + |Encode(blocks)| + |tail| == 128
      && timings >= 4 && Reaches(blocks, timings - 4)
    case Bare(bytes) =>
      |bytes| == 128 && (bytes[0] != 2 || bytes[2] <= 4 || bytes[2] > 128)
  }

  ghost predicate Reaches(blocks: seq<DataBlock>, n: nat)
    requires forall b :: b in blocks ==> b.WellFormed()
  {
    if blocks == [] then n == 0 else |Encode(blocks[..|blocks| - 1])| < n <= |Encode(blocks)|
  }

  function Extension(w: Written): (extension: seq<Byte>)
    requires Fits(w)
    ensures |extension| == 128
  {
    match w
    case Cta(revision, timings, flags, blocks, tail) => [2, revision, timings, flags] + Encode(blocks) + tail
    case Bare(bytes) => bytes
  }

  function Carried(w: Written): seq<DataBlock> {
    if w.Cta? then w.blocks else []
  }

  lemma Slice<T>(s: seq<T>, a: nat, b: nat, c: nat, d: nat)
    requires a <= b <= |s| && c <= d <= b - a
    ensures s[a..b][c..d] == s[a + c..a + d]
  {
    forall k | 0 <= k < d - c ensures s[a..b][c..d][k] == s[a + c..a + d][k] {
      assert s[a..b][c..d][k] == s[a..b][c + k];
    }
  }

  lemma Header(tag: nat, n: nat)
    requires tag < 8 && n < 32
    ensures 0 <= tag * 32 + n < 256 && (tag * 32 + n) / 32 == tag && (tag * 32 + n) % 32 == n
  {}

  lemma EncodedSplits(blocks: seq<DataBlock>)
    requires blocks != [] && forall b :: b in blocks ==> b.WellFormed()
    ensures var code, n := Encode(blocks), |blocks[0].payload|;
            && |code| == 1 + n + |Encode(blocks[1..])|
            && Tag(code[0]) == blocks[0].tag && Length(code[0]) == n
            && code[1..1 + n] == blocks[0].payload && code[1 + n..] == Encode(blocks[1..])
  {
    assert blocks[0] in blocks;
    Header(blocks[0].tag, |blocks[0].payload|);
    assert Encode(blocks) == EncodeBlock(blocks[0]) + Encode(blocks[1..]);
  }

  /** The first encoded block, read off bytes that start with it. */
  lemma FirstBlock(bytes: seq<Byte>, blocks: seq<DataBlock>, at: nat, end: nat)
    requires blocks != [] && forall b :: b in blocks ==> b.WellFormed()
    requires at + |Encode(blocks)| == end <= |bytes| && bytes[at..end] == Encode(blocks)
    ensures at < end && Tag(bytes[at]) == blocks[0].tag && Length(bytes[at]) == |blocks[0].payload|
    ensures var next := at + 1 + |blocks[0].payload|;
            && next + |Encode(blocks[1..])| == end
            && bytes[at + 1..next] == blocks[0].payload && bytes[next..end] == Encode(blocks[1..])
  {
    EncodedSplits(blocks);
    SplitsInPlace(bytes, at, end, Encode(blocks), 1 + |blocks[0].payload|);
  }

  lemma SplitsInPlace(bytes: seq<Byte>, at: nat, end: nat, code: seq<Byte>, n: nat)
    requires at <= end <= |bytes| && bytes[at..end] == code && 1 <= n <= |code|
    ensures bytes[at] == code[0] && bytes[at + 1..at + n] == code[1..n] && bytes[at + n..end] == code[n..]
  {
    assert bytes[at] == bytes[at..end][0];
    Slice(bytes, at, end, 1, n);
    Slice(bytes, at, end, n, end - at);
  }

  lemma ReachesOn(blocks: seq<DataBlock>, n: nat)
    requires blocks != [] && (forall b :: b in blocks ==> b.WellFormed()) && Reaches(blocks, n)
    ensures n > 0
    ensures |blocks| == 1 ==> n <= 1 + |blocks[0].payload|
    ensures |blocks| > 1 ==> n > 1 + |blocks[0].payload| && Reaches(blocks[1..], n - 1 - |blocks[0].payload|)
  {
    assert blocks[0] in blocks;
    if |blocks| > 1 {
      var front := blocks[..|blocks| - 1];
      assert front[0] == blocks[0] && front[1..] == blocks[1..][..|blocks| - 2];
      assert Encode(front) == EncodeBlock(blocks[0]) + Encode(front[1..]);
    } else {
      assert blocks[1..] == [];
    }
  }

  lemma {:induction false} BlocksOfEncoded(bytes: seq<Byte>, blocks: seq<DataBlock>, at: nat, n: nat)
    requires forall b :: b in blocks ==> b.WellFormed()
    requires at + |Encode(blocks)| <= |bytes| && bytes[at..at + |Encode(blocks)|] == Encode(blocks)
    requires Reaches(blocks, n) && at + n <= |bytes|
    ensures Blocks(bytes, at, at + n) == blocks
    decreases |blocks|
  {
    if blocks != [] {
      FirstBlock(bytes, blocks, at, at + |Encode(blocks)|);
      ReachesOn(blocks, n);
      var length := 1 + |blocks[0].payload|;
      if |blocks| > 1 {
        BlocksOfEncoded(bytes, blocks[1..], at + length, n - length);
      }
      assert blocks == [blocks[0]] + blocks[1..];
    }
  }

  /** Any blocks that fit an extension are read back block for block, whatever stands after them; and an
      extension of another kind, or with its timings at an impossible place, spells none. */
  lemma ExtensionRoundTrip(w: Written)
    requires Fits(w)
    ensures Collection(Extension(w)) == Carried(w)
  {
    var extension := Extension(w);
    if w.Cta? {
      var body := Encode(w.blocks);
      assert extension[4..4 + |body|] == body;
      BlocksOfEncoded(extension, w.blocks, 4, w.timings - 4);
    }
  }

  function Joined(extensions: seq<Written>): seq<Byte>
    requires forall e :: e in extensions ==> Fits(e)
  {
    if extensions == [] then [] else Extension(extensions[0]) + Joined(extensions[1..])
  }

  ghost function Flat(extensions: seq<Written>): seq<DataBlock> {
    if extensions == [] then [] else Carried(extensions[0]) + Flat(extensions[1..])
  }

  /** A whole EDID: a base block that counts extensions, those there are, and whatever follows. */
  function Whole(base: seq<Byte>, count: Byte, extensions: seq<Written>, rest: seq<Byte>): seq<Byte>
    requires |base| == 128 && forall e :: e in extensions ==> Fits(e)
  {
    base[126 := count] + Joined(extensions) + rest
  }

  lemma FirstExtension(edid: seq<Byte>, start: nat, extension: seq<Byte>, rest: seq<Byte>)
    requires |extension| == 128 && start <= |edid| && edid[start..] == extension + rest
    ensures start + 128 <= |edid| && edid[start..start + 128] == extension && edid[start + 128..] == rest
  {
    var tail := extension + rest;
    assert tail[0..128] == extension && tail[128..|tail|] == rest;
    Slice(edid, start, |edid|, 0, 128);
    Slice(edid, start, |edid|, 128, |tail|);
  }

  /** The count is theirs, or there are fewer and not enough bytes behind them for another. */
  predicate Counted(there: nat, behind: nat, count: nat) {
    there == count || (there < count && behind < 128)
  }

  lemma FirstJoined(extensions: seq<Written>, rest: seq<Byte>)
    requires extensions != [] && forall e :: e in extensions ==> Fits(e)
    ensures Fits(extensions[0]) && forall e :: e in extensions[1..] ==> Fits(e)
    ensures Joined(extensions) + rest == Extension(extensions[0]) + (Joined(extensions[1..]) + rest)
  {
    assert extensions[0] in extensions;
  }

  lemma ExtensionIs(edid: seq<Byte>, index: nat, w: Written, after: seq<Byte>)
    requires Fits(w) && 128 * (index + 1) <= |edid| && edid[128 * (index + 1)..] == Extension(w) + after
    ensures ExtensionAt(edid, index) == Some(Extension(w)) && Collection(Extension(w)) == Carried(w)
    ensures 128 * (index + 2) <= |edid| && edid[128 * (index + 2)..] == after
  {
    var start := 128 * (index + 1);
    FirstExtension(edid, start, Extension(w), after);
    assert 128 * (index + 2) == start + 128;
    ExtensionRoundTrip(w);
  }

  lemma AnotherExtension(edid: seq<Byte>, index: nat, count: nat, w: Written, after: seq<Byte>)
    requires Fits(w) && index < count
    requires 128 * (index + 1) <= |edid| && edid[128 * (index + 1)..] == Extension(w) + after
    ensures AllBlocks(edid, index, count) == Carried(w) + AllBlocks(edid, index + 1, count)
    ensures 128 * (index + 2) <= |edid| && edid[128 * (index + 2)..] == after
  {
    ExtensionIs(edid, index, w, after);
  }

  lemma NoExtension(edid: seq<Byte>, index: nat, count: nat, rest: seq<Byte>)
    requires Counted(index, |rest|, count) && 128 * (index + 1) <= |edid| && edid[128 * (index + 1)..] == rest
    ensures AllBlocks(edid, index, count) == []
  {}

  lemma {:induction false} AllBlocksOfJoined(edid: seq<Byte>, extensions: seq<Written>, rest: seq<Byte>,
      behind: seq<Byte>, from: nat, count: nat)
    requires forall e :: e in extensions ==> Fits(e)
    requires Counted(from + |extensions|, |rest|, count) && behind == Joined(extensions) + rest
    requires 128 * (from + 1) <= |edid| && edid[128 * (from + 1)..] == behind
    ensures AllBlocks(edid, from, count) == Flat(extensions)
    decreases |extensions|
  {
    if extensions == [] {
      assert behind == rest;
      NoExtension(edid, from, count, rest);
    } else {
      var more := extensions[1..];
      FirstJoined(extensions, rest);
      AnotherExtension(edid, from, count, extensions[0], Joined(more) + rest);
      AllBlocksOfJoined(edid, more, rest, Joined(more) + rest, from + 1, count);
    }
  }

  lemma BaseAndBehind(base: seq<Byte>, joined: seq<Byte>, rest: seq<Byte>)
    requires |base| == 128
    ensures var edid := base + joined + rest; edid[126] == base[126] && edid[128..] == joined + rest
  {}

  /** Writing any extensions into an EDID and reading it spells the blocks they carry, in order: all of them
      if the count is theirs, and as many as there are if the bytes end before the next. */
  lemma {:induction false} EdidRoundTrip(base: seq<Byte>, count: Byte, extensions: seq<Written>, rest: seq<Byte>)
    requires |base| == 128 && forall e :: e in extensions ==> Fits(e)
    requires Counted(|extensions|, |rest|, count)
    ensures Spelled(Whole(base, count, extensions, rest)) == Flat(extensions)
  {
    var edid := Whole(base, count, extensions, rest);
    BaseAndBehind(base[126 := count], Joined(extensions), rest);
    AllBlocksOfJoined(edid, extensions, rest, Joined(extensions) + rest, 0, count);
  }

  /** So what is read of any such EDID is what the standard's numbers say of the blocks written into it. */
  lemma WhatIsWrittenIsClaimed(base: seq<Byte>, count: Byte, extensions: seq<Written>, rest: seq<Byte>)
    requires |base| == 128 && forall e :: e in extensions ==> Fits(e)
    requires Counted(|extensions|, |rest|, count)
    ensures InNumbers(Flat(extensions), AddingAll(NO_CLAIMS, Spelled(Whole(base, count, extensions, rest))))
  {
    var edid := Whole(base, count, extensions, rest);
    EdidRoundTrip(base, count, extensions, rest);
    SpelledIsClaimed(edid);
    ClaimedInNumbers(Spelled(edid), AddingAll(NO_CLAIMS, Spelled(edid)));
  }

  /** Fewer bytes than a base block claim nothing. */
  lemma TooShortClaimsNothing(edid: seq<Byte>)
    requires |edid| < 127
    ensures AddingAll(NO_CLAIMS, Spelled(edid)) == Claims(false, false, None, None)
  {}

  /** A block that runs off its extension hides itself and everything behind it, and nothing else. */
  lemma {:induction false} TruncationHidesTheRest(
    bytes: seq<Byte>, blocks: seq<DataBlock>, at: nat, cut: nat, end: nat)
    requires forall b :: b in blocks ==> b.WellFormed()
    requires at + |Encode(blocks)| == cut < end <= |bytes| && bytes[at..cut] == Encode(blocks)
    requires cut + 1 + Length(bytes[cut]) > |bytes|
    ensures Blocks(bytes, at, end) == blocks
    decreases |blocks|
  {
    if blocks != [] {
      FirstBlock(bytes, blocks, at, cut);
      TruncationHidesTheRest(bytes, blocks[1..], at + 1 + |blocks[0].payload|, cut, end);
      assert blocks == [blocks[0]] + blocks[1..];
    }
  }
}
