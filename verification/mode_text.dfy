/** How a mode is spelled in the configuration file, and how it is read back. */
module ModeText {
  import opened Wrappers

  type I32 = x: int | -0x8000_0000 <= x < 0x8000_0000

  datatype Mode = Mode(width: I32, height: I32, refresh: Option<I32>)

  // ------------------------------------------------------------------ decimal digits

  predicate IsDigit(c: char) {
    '0' <= c <= '9'
  }

  predicate AllDigits(s: string) {
    forall c :: c in s ==> IsDigit(c)
  }

  function DigitOf(c: char): nat
    requires IsDigit(c)
  {
    c as int - '0' as int
  }

  function Glyph(d: nat): (c: char)
    requires d < 10
    ensures IsDigit(c) && DigitOf(c) == d
  {
    '0' + d as char
  }

  function Digits(n: nat): (s: string)
    ensures s != "" && AllDigits(s)
  {
    if n < 10 then [Glyph(n)] else Digits(n / 10) + [Glyph(n % 10)]
  }

  function Value(s: string): nat
    requires AllDigits(s)
  {
    if s == "" then 0 else Value(s[..|s| - 1]) * 10 + DigitOf(s[|s| - 1])
  }

  /** What the digits after a point are worth. */
  function Part(s: string): real
    requires AllDigits(s)
  {
    if s == "" then 0.0 else (DigitOf(s[0]) as real + Part(s[1..])) / 10.0
  }

  lemma {:induction false} DigitsSayTheirNumber(n: nat)
    ensures Value(Digits(n)) == n
  {
    if n >= 10 {
      DigitsSayTheirNumber(n / 10);
      var s := Digits(n);
      assert s[..|s| - 1] == Digits(n / 10);
    } else {
      assert [Glyph(n)][..0] == "";
    }
  }

  function Thousandths(n: nat): (s: string)
    requires n < 1000
    ensures |s| == 3 && AllDigits(s)
  {
    [Glyph(n / 100), Glyph(n / 10 % 10), Glyph(n % 10)]
  }

  lemma ThousandthsAreWorth(n: nat)
    requires n < 1000
    ensures Part(Thousandths(n)) * 1000.0 == n as real
  {
    var s := Thousandths(n);
    assert s[1..] == [s[1], s[2]] && s[1..][1..] == [s[2]] && [s[2]][1..] == "";
    assert Part([s[2]]) == (n % 10) as real / 10.0;
    assert Part(s[1..]) == ((n / 10 % 10) as real + (n % 10) as real / 10.0) / 10.0;
    assert n == n / 100 * 100 + n / 10 % 10 * 10 + n % 10;
  }

  lemma {:induction false} AZeroAtTheEndIsWorthNothing(s: string)
    requires AllDigits(s)
    ensures AllDigits(s + "0") && Part(s + "0") == Part(s)
  {
    if s == "" {
      assert "0"[1..] == "";
      assert s + "0" == "0";
    } else {
      AZeroAtTheEndIsWorthNothing(s[1..]);
      assert (s + "0")[1..] == s[1..] + "0";
    }
  }

  // ------------------------------------------------------------------ spelling a mode

  function ShowInt(i: int): string {
    if i < 0 then "-" + Digits(-i) else Digits(i)
  }

  function Magnitude(i: int): nat {
    if i < 0 then -i else i
  }

  function Signing(negative: bool): string {
    if negative then "-" else ""
  }

  function Pointed(whole: string, decimals: string): string {
    if decimals == "" then whole else whole + ['.'] + decimals
  }

  function Head(mhz: int): string {
    Signing(mhz < 0) + Digits(Magnitude(mhz) / 1000)
  }

  function WithoutZeros(s: string): (t: string)
    requires AllDigits(s)
    ensures AllDigits(t) && |t| <= |s| && (t == "" || t[|t| - 1] != '0')
  {
    if s != "" && s[|s| - 1] == '0' then WithoutZeros(s[..|s| - 1]) else s
  }

  /** The same rate as a person would write it: no zeros after the last decimal that says anything, and
      no point with nothing after it. */
  function Rate(mhz: int): string {
    Pointed(Head(mhz), WithoutZeros(Thousandths(Magnitude(mhz) % 1000)))
  }

  function Spelled(mode: Mode): string {
    ShowInt(mode.width) + "x" + ShowInt(mode.height)
    + match mode.refresh case Some(mhz) => "@" + Rate(mhz) case None => ""
  }

  lemma {:induction false} ZerosAreWorthNothing(s: string)
    requires AllDigits(s)
    ensures Part(WithoutZeros(s)) == Part(s)
  {
    if s != "" && s[|s| - 1] == '0' {
      ZerosAreWorthNothing(s[..|s| - 1]);
      AZeroAtTheEndIsWorthNothing(s[..|s| - 1]);
      assert s == s[..|s| - 1] + "0";
    }
  }

  /** Popped a character at a time: zeros, and then the point if that is what is left. */
  method Trimmed(head: string, decimals: string) returns (rate: string)
    requires AllDigits(decimals)
    ensures rate == Pointed(head, WithoutZeros(decimals))
  {
    rate := head + ['.'] + decimals;
    ghost var left := decimals;
    while rate[|rate| - 1] == '0'
      invariant AllDigits(left) && rate == head + ['.'] + left
      invariant WithoutZeros(left) == WithoutZeros(decimals)
      decreases |left|
    {
      left := left[..|left| - 1];
      rate := rate[..|rate| - 1];
    }
    assert left == "" || (IsDigit(rate[|rate| - 1]) && left[|left| - 1] == rate[|rate| - 1]);
    if rate[|rate| - 1] == '.' {
      rate := rate[..|rate| - 1];
    }
  }

  method AsConfigString(mode: Mode) returns (text: string)
    ensures text == Spelled(mode)
  {
    match mode.refresh
    case Some(mhz) =>
      var rate := Trimmed(Head(mhz), Thousandths(Magnitude(mhz) % 1000));
      text := ShowInt(mode.width) + "x" + ShowInt(mode.height) + ("@" + rate);
    case None =>
      text := ShowInt(mode.width) + "x" + ShowInt(mode.height);
      Nothing(text);
  }

  // ------------------------------------------------------------------ reading one

  /** The characters Unicode calls white space. */
  predicate IsSpace(c: char) {
    var n := c as int;
    9 <= n <= 13 || n == 32 || n == 0x85 || n == 0xA0 || n == 0x1680 || 0x2000 <= n <= 0x200A
    || n == 0x2028 || n == 0x2029 || n == 0x202F || n == 0x205F || n == 0x3000
  }

  predicate AllSpace(s: string) {
    forall c :: c in s ==> IsSpace(c)
  }

  function TrimStart(s: string): string {
    if s != "" && IsSpace(s[0]) then TrimStart(s[1..]) else s
  }

  function TrimEnd(s: string): string {
    if s != "" && IsSpace(s[|s| - 1]) then TrimEnd(s[..|s| - 1]) else s
  }

  function Trim(s: string): string {
    TrimEnd(TrimStart(s))
  }

  function TrimHz(s: string): string {
    if |s| >= 2 && s[|s| - 2..] == "Hz" then TrimHz(s[..|s| - 2]) else s
  }

  /** Split at the first occurrence. */
  function SplitOnce(s: string, at: char): Option<(string, string)> {
    if s == "" then None
    else if s[0] == at then Some(("", s[1..]))
    else match SplitOnce(s[1..], at)
      case None => None
      case Some(parts) => Some(([s[0]] + parts.0, parts.1))
  }

  function Signed(s: string): (bool, string) {
    if s != "" && s[0] == '-' then (true, s[1..])
    else if s != "" && s[0] == '+' then (false, s[1..])
    else (false, s)
  }

  function ParseI32(s: string): Option<I32> {
    var (negative, digits) := Signed(s);
    if digits == "" || !AllDigits(digits) then None
    else
      var n: int := if negative then -(Value(digits) as int) else Value(digits);
      if -0x8000_0000 <= n < 0x8000_0000 then Some(n) else None
  }

  function ParseDecimal(s: string): Option<real> {
    var (negative, text) := Signed(s);
    match PlainDecimal(text)
    case None => None
    case Some(size) => Some(if negative then -size else size)
  }

  /** Digits on at least one side of an optional point. */
  function PlainDecimal(text: string): Option<real> {
    match SplitOnce(text, '.')
    case None => WholeAndPart(text, "")
    case Some(parts) => WholeAndPart(parts.0, parts.1)
  }

  function WholeAndPart(whole: string, decimals: string): Option<real> {
    if !AllDigits(whole) || !AllDigits(decimals) || (whole == "" && decimals == "") then None
    else Some(Value(whole) as real + Part(decimals))
  }

  /** To the nearest whole number, halves away from zero, then cut to thirty-two bits. */
  function Rounded(x: real): I32 {
    var n := if x >= 0.0 then (x + 0.5).Floor else -(0.5 - x).Floor;
    if n < -0x8000_0000 then -0x8000_0000 else if n >= 0x8000_0000 then 0x7FFF_FFFF else n
  }

  function Lowered(c: char): char {
    if 'A' <= c <= 'Z' then c - 'A' + 'a' else c
  }

  predicate SameButForCase(a: string, b: string) {
    |a| == |b| && forall i :: 0 <= i < |a| ==> Lowered(a[i]) == Lowered(b[i])
  }

  function ParseMode(mode: Option<string>): Option<Mode> {
    if mode.None? || SameButForCase(mode.value, "preferred") then None
    else
      var raw := mode.value;
      var (dims, rate) := match SplitOnce(raw, '@')
        case Some(parts) => (parts.0, Some(parts.1))
        case None => (raw, None);
      match SplitOnce(dims, 'x')
      case None => None
      case Some(parts) =>
        var width, height := ParseI32(Trim(parts.0)), ParseI32(Trim(parts.1));
        if width.None? || height.None? then None
        else Some(Mode(width.value, height.value, if rate.None? then None else ParseRate(rate.value)))
  }

  function ParseRate(text: string): Option<I32> {
    match ParseDecimal(Trim(TrimHz(Trim(text))))
    case None => None
    case Some(hz) => Some(Rounded(hz * 1000.0))
  }

  // ------------------------------------------------------------------ the round trip

  lemma Nothing(s: string)
    ensures s + "" == s && "" + s == s
  {}

  lemma Regroup(a: string, b: string, c: string, d: string)
    ensures a + (b + c) + d == a + b + (c + d)
  {}

  lemma Leans(a: string, b: string, c: string)
    ensures a + b + c == a + (b + c)
  {}

  /** What a printed number is made of. */
  predicate Tight(s: string) {
    s != "" && forall c :: c in s ==> IsDigit(c) || c == '-' || c == '.'
  }

  lemma {:induction false} SplitsThere(a: string, at: char, b: string)
    requires at !in a
    ensures SplitOnce(a + [at] + b, at) == Some((a, b))
  {
    var s := a + [at] + b;
    if a == "" {
      assert s[1..] == b;
    } else {
      SplitsThere(a[1..], at, b);
      assert s[1..] == a[1..] + [at] + b;
      assert [s[0]] + a[1..] == a;
    }
  }

  lemma {:induction false} SplitsNowhere(s: string, at: char)
    requires at !in s
    ensures SplitOnce(s, at) == None
  {
    if s != "" {
      SplitsNowhere(s[1..], at);
    }
  }

  lemma {:induction false} TrimsTheStart(before: string, s: string)
    requires AllSpace(before) && (s == "" || !IsSpace(s[0]))
    ensures TrimStart(before + s) == s
  {
    if before == "" {
      assert before + s == s;
    } else {
      TrimsTheStart(before[1..], s);
      assert (before + s)[1..] == before[1..] + s;
    }
  }

  lemma {:induction false} TrimsTheEnd(s: string, after: string)
    requires AllSpace(after) && (s == "" || !IsSpace(s[|s| - 1]))
    ensures TrimEnd(s + after) == s
  {
    if after == "" {
      assert s + after == s;
    } else {
      var all := s + after;
      TrimsTheEnd(s, after[..|after| - 1]);
      assert all[..|all| - 1] == s + after[..|after| - 1];
    }
  }

  lemma Trims(before: string, s: string, after: string)
    requires AllSpace(before) && AllSpace(after) && s != "" && !IsSpace(s[0]) && !IsSpace(s[|s| - 1])
    ensures Trim(before + s + after) == s
  {
    assert before + s + after == before + (s + after);
    TrimsTheStart(before, s + after);
    TrimsTheEnd(s, after);
  }

  function Repeat(unit: string, times: nat): string {
    if times == 0 then "" else Repeat(unit, times - 1) + unit
  }

  lemma {:induction false} TrimsHz(s: string, times: nat)
    requires s != "" && s[|s| - 1] != 'z'
    ensures TrimHz(s + Repeat("Hz", times)) == s
  {
    var all := s + Repeat("Hz", times);
    if times == 0 {
      assert all == s;
      assert |s| >= 2 ==> s[|s| - 2..][1] == 'z' || s[|s| - 2..] != "Hz";
    } else {
      assert all == s + Repeat("Hz", times - 1) + "Hz";
      assert all[|all| - 2..] == "Hz" && all[..|all| - 2] == s + Repeat("Hz", times - 1);
      TrimsHz(s, times - 1);
    }
  }

  lemma IntReadsBack(i: I32)
    ensures Tight(ShowInt(i)) && '.' !in ShowInt(i) && ParseI32(ShowInt(i)) == Some(i)
  {
    DigitsSayTheirNumber(Magnitude(i));
    var digits := Digits(Magnitude(i));
    assert IsDigit(digits[0]);
    if i < 0 {
      assert ("-" + digits)[1..] == digits;
    }
  }

  lemma Signs(negative: bool, text: string)
    requires text != "" && IsDigit(text[0])
    ensures Signed(Signing(negative) + text) == (negative, text)
  {
    if negative {
      assert ("-" + text)[1..] == text;
    } else {
      Nothing(text);
    }
  }

  lemma PlainReadsBack(whole: string, decimals: string, worth: Option<real>)
    requires whole != "" && AllDigits(whole) && worth == WholeAndPart(whole, decimals)
    ensures PlainDecimal(Pointed(whole, decimals)) == worth
  {
    assert '.' !in whole;
    if decimals == "" {
      SplitsNowhere(whole, '.');
    } else {
      SplitsThere(whole, '.', decimals);
    }
  }

  lemma DecimalReadsBack(negative: bool, whole: string, decimals: string, size: real)
    requires whole != "" && AllDigits(whole) && WholeAndPart(whole, decimals) == Some(size)
    ensures ParseDecimal(Pointed(Signing(negative) + whole, decimals)) == Some(if negative then -size else size)
  {
    var text := Pointed(whole, decimals);
    assert IsDigit(whole[0]) && text[0] == whole[0];
    PointedLeans(Signing(negative), whole, decimals);
    Signs(negative, text);
    PlainReadsBack(whole, decimals, Some(size));
    SignedReadsBack(Pointed(Signing(negative) + whole, decimals), negative, text, size);
  }

  lemma PointedLeans(sign: string, whole: string, decimals: string)
    ensures sign + Pointed(whole, decimals) == Pointed(sign + whole, decimals)
  {
    Leans(sign, whole, ['.']);
    Leans(sign, whole + ['.'], decimals);
  }

  lemma SignedReadsBack(s: string, negative: bool, text: string, size: real)
    requires Signed(s) == (negative, text) && PlainDecimal(text) == Some(size)
    ensures ParseDecimal(s) == Some(if negative then -size else size)
  {}

  lemma Thousands(n: nat, whole: nat, rest: nat, part: real)
    requires n == whole * 1000 + rest && rest < 1000 && part == Part(Thousandths(rest))
    ensures whole as real + part == n as real / 1000.0
  {
    ThousandthsAreWorth(rest);
  }

  lemma RateReadsBack(mhz: I32)
    ensures Tight(Rate(mhz)) && ParseDecimal(Rate(mhz)) == Some(mhz as real / 1000.0)
  {
    var n := Magnitude(mhz);
    TextReadsBack(mhz < 0, n / 1000, n % 1000);
    Thousands(n, n / 1000, n % 1000, Part(Thousandths(n % 1000)));
    SignedThousands(mhz, (n / 1000) as real + Part(Thousandths(n % 1000)));
  }

  lemma SignedThousands(mhz: I32, size: real)
    requires size == Magnitude(mhz) as real / 1000.0
    ensures (if mhz < 0 then -size else size) == mhz as real / 1000.0
  {}

  lemma TextReadsBack(negative: bool, whole: nat, rest: nat)
    requires rest < 1000
    ensures var text := Pointed(Signing(negative) + Digits(whole), WithoutZeros(Thousandths(rest)));
            var size := whole as real + Part(Thousandths(rest));
            Tight(text) && ParseDecimal(text) == Some(if negative then -size else size)
  {
    DigitsSayTheirNumber(whole);
    ZerosAreWorthNothing(Thousandths(rest));
    DecimalReadsBack(negative, Digits(whole), WithoutZeros(Thousandths(rest)), whole as real + Part(Thousandths(rest)));
  }

  lemma TightEnds(s: string)
    requires Tight(s)
    ensures !IsSpace(s[0]) && !IsSpace(s[|s| - 1]) && s[|s| - 1] != 'z'
  {
    assert s[0] in s && s[|s| - 1] in s;
  }

  lemma BareRate(before: string, rate: string, after: string)
    requires AllSpace(before) && AllSpace(after) && Tight(rate)
    ensures Trim(TrimHz(Trim(before + rate + after))) == rate
  {
    TightEnds(rate);
    Trims(before, rate, after);
    assert rate + Repeat("Hz", 0) == rate;
    TrimsHz(rate, 0);
    assert "" + rate + "" == rate;
    Trims("", rate, "");
  }

  lemma RateWithUnits(before: string, rate: string, after: string, times: nat, last: string)
    requires AllSpace(before) && AllSpace(after) && AllSpace(last) && Tight(rate) && times > 0
    ensures Trim(TrimHz(Trim(before + (rate + after + Repeat("Hz", times)) + last))) == rate
  {
    TightEnds(rate);
    var said := rate + after;
    var inner := said + Repeat("Hz", times);
    assert inner[0] == rate[0] && inner[|inner| - 1] == 'z';
    Trims(before, inner, last);
    assert said[|said| - 1] != 'z' by {
      assert after != "" ==> IsSpace(after[|after| - 1]);
    }
    TrimsHz(said, times);
    assert "" + rate + after == said;
    Trims("", rate, after);
  }

  lemma RateIsFound(before: string, rate: string, after: string, times: nat, last: string)
    requires AllSpace(before) && AllSpace(after) && AllSpace(last) && Tight(rate)
    ensures Trim(TrimHz(Trim(before + (rate + after + Repeat("Hz", times)) + last))) == rate
  {
    if times == 0 {
      Nothing(rate + after);
      Regroup(before, rate, after, last);
      BareRate(before, rate, after + last);
    } else {
      RateWithUnits(before, rate, after, times, last);
    }
  }

  lemma {:induction false} RateParses(before: string, mhz: I32, after: string, times: nat, last: string)
    requires AllSpace(before) && AllSpace(after) && AllSpace(last)
    ensures ParseRate(before + (Rate(mhz) + after + Repeat("Hz", times)) + last) == Some(mhz)
  {
    RateReadsBack(mhz);
    RateIsFound(before, Rate(mhz), after, times, last);
    RoundsBack(mhz, mhz as real / 1000.0);
  }

  lemma RoundsBack(mhz: I32, hz: real)
    requires hz == mhz as real / 1000.0
    ensures Rounded(hz * 1000.0) == mhz
  {}

  /** Any white space around a number, and any number of units after a rate. */
  datatype Pads = Pads(a: string, b: string, c: string, d: string, e: string, f: string, units: nat, g: string)

  predicate Blank(p: Pads) {
    AllSpace(p.a) && AllSpace(p.b) && AllSpace(p.c) && AllSpace(p.d) && AllSpace(p.e) && AllSpace(p.f) && AllSpace(p.g)
  }

  function Size(mode: Mode, p: Pads): string {
    (p.a + ShowInt(mode.width) + p.b) + "x" + (p.c + ShowInt(mode.height) + p.d)
  }

  function Padded(mode: Mode, p: Pads): string {
    match mode.refresh
    case Some(mhz) => Size(mode, p) + "@" + (p.e + (Rate(mhz) + p.f + Repeat("Hz", p.units)) + p.g)
    case None => Size(mode, p)
  }

  lemma SizeParses(mode: Mode, p: Pads)
    requires Blank(p)
    ensures '@' !in Size(mode, p) && Size(mode, p) != "" && Lowered(Size(mode, p)[0]) != 'p'
    ensures SplitOnce(Size(mode, p), 'x') == Some((p.a + ShowInt(mode.width) + p.b, p.c + ShowInt(mode.height) + p.d))
    ensures ParseI32(Trim(p.a + ShowInt(mode.width) + p.b)) == Some(mode.width)
    ensures ParseI32(Trim(p.c + ShowInt(mode.height) + p.d)) == Some(mode.height)
  {
    IntReadsBack(mode.width);
    IntReadsBack(mode.height);
    TightEnds(ShowInt(mode.width));
    TightEnds(ShowInt(mode.height));
    Trims(p.a, ShowInt(mode.width), p.b);
    Trims(p.c, ShowInt(mode.height), p.d);
    Mixed(p.a, ShowInt(mode.width), p.b);
    Mixed(p.c, ShowInt(mode.height), p.d);
    Sized(p.a + ShowInt(mode.width) + p.b, p.c + ShowInt(mode.height) + p.d);
  }

  predicate Padding(s: string) {
    forall c :: c in s ==> IsSpace(c) || IsDigit(c) || c == '-' || c == '.'
  }

  lemma Sized(left: string, right: string)
    requires left != "" && Padding(left) && Padding(right)
    ensures var size := left + "x" + right;
            '@' !in size && size != "" && Lowered(size[0]) != 'p' && SplitOnce(size, 'x') == Some((left, right))
  {
    assert left[0] in left;
    SplitsThere(left, 'x', right);
  }

  lemma Mixed(a: string, s: string, b: string)
    requires AllSpace(a) && AllSpace(b) && Tight(s)
    ensures Padding(a + s + b) && a + s + b != ""
  {}

  /** Whatever follows the sign is the rate alone: one that cannot be read asks for any rate at that
      size, and does not lose the size. */
  lemma AnyRateAfterASize(mode: Mode, p: Pads, tail: string)
    requires Blank(p)
    ensures ParseMode(Some(Size(mode, p) + "@" + tail)) == Some(Mode(mode.width, mode.height, ParseRate(tail)))
  {
    SizeParses(mode, p);
    NotPreferred(Size(mode, p), "@" + tail);
    Leans(Size(mode, p), "@", tail);
    SplitsThere(Size(mode, p), '@', tail);
  }

  lemma NotPreferred(size: string, tail: string)
    requires size != "" && Lowered(size[0]) != 'p'
    ensures !SameButForCase(size + tail, "preferred")
  {
    assert Lowered("preferred"[0]) == 'p';
    assert (size + tail)[0] == size[0];
  }

  /** Whatever white space stands around the numbers and however often the unit is said, a mode printed
      is the mode read back: for every width, height and rate there is. */
  lemma RoundTrip(mode: Mode, p: Pads)
    requires Blank(p)
    ensures ParseMode(Some(Padded(mode, p))) == Some(mode)
  {
    match mode.refresh
    case None =>
      SizeParses(mode, p);
      NotPreferred(Size(mode, p), "");
      Nothing(Size(mode, p));
      SplitsNowhere(Size(mode, p), '@');
    case Some(mhz) =>
      AnyRateAfterASize(mode, p, p.e + (Rate(mhz) + p.f + Repeat("Hz", p.units)) + p.g);
      RateParses(p.e, mhz, p.f, p.units, p.g);
  }

  lemma Bare(s: string)
    ensures "" + s + "" == s && "" + (s + "" + Repeat("Hz", 0)) + "" == s
  {
    Nothing(s);
  }

  lemma Unpadded(mode: Mode)
    ensures Padded(mode, NO_PADS) == Spelled(mode)
  {
    var size := ShowInt(mode.width) + "x" + ShowInt(mode.height);
    Bare(ShowInt(mode.width));
    Bare(ShowInt(mode.height));
    Leans(ShowInt(mode.width), "x", ShowInt(mode.height));
    assert Size(mode, NO_PADS) == size;
    match mode.refresh
    case None => Nothing(size);
    case Some(mhz) =>
      Bare(Rate(mhz));
      Leans(size, "@", Rate(mhz));
  }

  const NO_PADS := Pads("", "", "", "", "", "", 0, "")

  /** A mode chosen at run time, written down as the file spells it, is the mode the next session reads. */
  lemma SpelledRoundTrip(mode: Mode)
    ensures ParseMode(Some(Spelled(mode))) == Some(mode)
  {
    RoundTrip(mode, NO_PADS);
    Unpadded(mode);
  }

  /** A rate has a point exactly when its thousandths do not come to whole hertz; it then ends in a digit that
      says something, and never in the point. */
  lemma SpelledAsAPersonWould(mhz: I32)
    ensures '.' in Rate(mhz) <==> mhz % 1000 != 0
    ensures '.' in Rate(mhz) ==> Rate(mhz)[|Rate(mhz)| - 1] != '0'
    ensures Rate(mhz)[|Rate(mhz)| - 1] != '.'
  {
    NothingLeftExactly(Magnitude(mhz) % 1000);
    HeadHasNoPoint(mhz);
    PointedEnds(Head(mhz), WithoutZeros(Thousandths(Magnitude(mhz) % 1000)));
    WholeEitherWay(mhz);
  }

  lemma WholeEitherWay(mhz: int)
    ensures Magnitude(mhz) % 1000 == 0 <==> mhz % 1000 == 0
  {}

  lemma NothingLeftExactly(rest: nat)
    requires rest < 1000
    ensures WithoutZeros(Thousandths(rest)) == "" <==> rest == 0
  {
    var decimals := WithoutZeros(Thousandths(rest));
    ThousandthsAreWorth(rest);
    ZerosAreWorthNothing(Thousandths(rest));
    if decimals != "" {
      LastSays(decimals);
    }
  }

  lemma HeadHasNoPoint(mhz: I32)
    ensures Head(mhz) != "" && '.' !in Head(mhz)
  {
    assert '.' !in Digits(Magnitude(mhz) / 1000);
  }

  lemma PointedEnds(head: string, decimals: string)
    requires head != "" && '.' !in head && AllDigits(decimals)
    requires decimals == "" || decimals[|decimals| - 1] != '0'
    ensures var rate := Pointed(head, decimals);
            && ('.' in rate <==> decimals != "")
            && (decimals != "" ==> rate[|rate| - 1] != '0')
            && rate[|rate| - 1] != '.'
  {
    var rate := Pointed(head, decimals);
    if decimals == "" {
      assert head[|head| - 1] in head;
    } else {
      assert rate[|head|] == '.' && rate[|rate| - 1] == decimals[|decimals| - 1]
          && decimals[|decimals| - 1] in decimals;
    }
  }

  lemma {:induction false} LastSays(s: string)
    requires AllDigits(s) && s != "" && s[|s| - 1] != '0'
    ensures Part(s) > 0.0
  {
    if |s| > 1 {
      LastSays(s[1..]);
    } else {
      assert s[1..] == "" && DigitOf(s[0]) > 0;
    }
  }

  // ------------------------------------------------------------------ in so many words

  /** A number with its last `k` digits struck off. */
  function Struck(n: nat, k: nat): nat {
    if k == 0 then n else Struck(n / 10, k - 1)
  }

  /** The digits, read off the way anybody does: the one `k` from the right is the ones of the number with `k`
      struck off, and there is none in front that says nothing. */
  lemma {:induction false} DigitsAreDecimal(n: nat, k: nat)
    ensures k < |Digits(n)| ==> Digits(n)[|Digits(n)| - 1 - k] as int - 48 == Struck(n, k) % 10
    ensures |Digits(n)| > 1 ==> Digits(n)[0] != '0'
    ensures n > 0 ==> Digits(n)[0] != '0'
    decreases n, k
  {
    if n >= 10 {
      DigitsAreDecimal(n / 10, if k == 0 then 0 else k - 1);
      assert Digits(n)[0] == Digits(n / 10)[0];
    }
  }

  lemma OneMoreDigit(n: nat, d: nat)
    requires n > 0 && d < 10
    ensures Digits(n * 10 + d) == Digits(n) + ['0' + d as char]
  {
    assert (n * 10 + d) / 10 == n && (n * 10 + d) % 10 == d;
  }

  lemma FourDigits(a: nat, b: nat, c: nat, d: nat)
    requires 0 < a < 10 && b < 10 && c < 10 && d < 10
    ensures Digits(a * 1000 + b * 100 + c * 10 + d) ==
            ['0' + a as char, '0' + b as char, '0' + c as char, '0' + d as char]
  {
    OneMoreDigit(a, b);
    OneMoreDigit(a * 10 + b, c);
    OneMoreDigit(a * 100 + b * 10 + c, d);
  }

  lemma WholeHertz()
    ensures Rate(60_000) == "60"
  {
    OneMoreDigit(6, 0);
    Nothing(Digits(60));
    assert Thousandths(0) == "000" && "000"[..2] == "00" && "00"[..1] == "0" && "0"[..0] == "";
    assert WithoutZeros("") == "";
    assert WithoutZeros("0") == "" && WithoutZeros("00") == "";
    assert WithoutZeros("000") == "";
  }

  lemma PartsOfAHertz()
    ensures Rate(239_970) == "239.97"
  {
    OneMoreDigit(2, 3);
    OneMoreDigit(23, 9);
    Nothing(Digits(239));
    assert Thousandths(970) == "970" && "970"[..2] == "97";
    assert WithoutZeros("97") == "97" && WithoutZeros("970") == "97";
    assert "239" + ['.'] + "97" == "239.97";
  }

  lemma SpelledIs(mode: Mode, w: string, h: string, rate: string, spelled: string)
    requires mode.refresh.Some? && ShowInt(mode.width) == w && ShowInt(mode.height) == h
    requires Rate(mode.refresh.value) == rate && spelled == w + "x" + h + ("@" + rate)
    ensures Spelled(mode) == spelled
  {}

  /** What two modes look like in the file, for certain. */
  lemma InTheFile()
    ensures Spelled(Mode(1920, 1080, Some(60_000))) == "1920x1080@60"
    ensures Spelled(Mode(2560, 1440, Some(239_970))) == "2560x1440@239.97"
  {
    UsualSizes();
    WholeHertz();
    PartsOfAHertz();
    SpelledIs(Mode(1920, 1080, Some(60_000)), "1920", "1080", "60", "1920x1080@60");
    SpelledIs(Mode(2560, 1440, Some(239_970)), "2560", "1440", "239.97", "2560x1440@239.97");
  }

  lemma UsualSizes()
    ensures ShowInt(1920) == "1920" && ShowInt(1080) == "1080" && ShowInt(2560) == "2560" && ShowInt(1440) == "1440"
  {
    FourDigits(1, 9, 2, 0);
    FourDigits(1, 0, 8, 0);
    FourDigits(2, 5, 6, 0);
    FourDigits(1, 4, 4, 0);
  }

  /** No mode at all, and the word for none in whatever letters, ask for none. */
  lemma PreferredIsNoMode(text: string)
    requires |text| == 9
    requires forall i :: 0 <= i < 9 ==> text[i] == "preferred"[i] || text[i] == "PREFERRED"[i]
    ensures ParseMode(Some(text)) == None && ParseMode(None) == None
  {
    forall i | 0 <= i < 9 ensures Lowered(text[i]) == Lowered("preferred"[i]) {}
  }

  /** Nor does anything with no size in front of its rate, or with one too large for the numbers a mode has. */
  lemma NoSizeNoMode(dims: string, tail: string)
    requires 'x' !in dims && '@' !in dims
    ensures ParseMode(Some(dims)) == None && ParseMode(Some(dims + "@" + tail)) == None
  {
    SplitsNowhere(dims, 'x');
    SplitsNowhere(dims, '@');
    SplitsThere(dims, '@', tail);
  }

  lemma TooLargeIsNoMode(width: nat, height: nat)
    requires width >= 0x8000_0000 || height >= 0x8000_0000
    ensures ParseMode(Some(Digits(width) + "x" + Digits(height))) == None
  {
    NumberReads(width);
    NumberReads(height);
    SizeAlone(Digits(width), Digits(height));
  }

  lemma NumberReads(n: nat)
    ensures Trim(Digits(n)) == Digits(n)
    ensures ParseI32(Digits(n)) == if n < 0x8000_0000 then Some(n) else None
  {
    var s := Digits(n);
    DigitsSayTheirNumber(n);
    assert IsDigit(s[0]) && IsDigit(s[|s| - 1]);
    Trims("", s, "");
    assert "" + s + "" == s;
  }

  /** A number may have a plus in front of it, or a minus, and one more is one too many. */
  lemma SignsAreRead(n: nat)
    requires n < 0x8000_0000
    ensures ParseI32("+" + Digits(n)) == Some(n) && ParseI32("-" + Digits(n)) == Some(-(n as int))
    ensures ParseI32("+-" + Digits(n)) == None
  {
    DigitsSayTheirNumber(n);
    Signless(Digits(n));
  }

  lemma Signless(s: string)
    ensures Signed("+" + s) == (false, s) && Signed("-" + s) == (true, s) && Signed("+-" + s) == (false, "-" + s)
    ensures !AllDigits("-" + s)
  {
    assert ("+" + s)[1..] == s && ("-" + s)[1..] == s && ("+-" + s)[1..] == "-" + s;
    assert ("-" + s)[0] in "-" + s;
  }

  /** And so may a rate. */
  lemma ARateMayBeSigned(text: string)
    requires text != "" && text[0] != '+' && text[0] != '-'
    ensures ParseDecimal("+" + text) == ParseDecimal(text)
    ensures ParseDecimal("-" + text).Some? <==> ParseDecimal(text).Some?
    ensures ParseDecimal(text).Some? ==> ParseDecimal("-" + text).value == -ParseDecimal(text).value
  {
    Signless(text);
  }

  /** Whatever Unicode calls white space may stand around the numbers of a mode. */
  lemma WhiteSpaceIsPassedOver(mode: Mode, p: Pads)
    requires forall c: char :: c in p.a + p.b + p.c + p.d + p.e + p.f + p.g ==>
               c as int in {9, 10, 11, 12, 13, 32, 0x85, 0xA0, 0x1680, 0x2000, 0x2001, 0x2002, 0x2003, 0x2004, 0x2005,
                 0x2006, 0x2007, 0x2008, 0x2009, 0x200A, 0x2028, 0x2029, 0x202F, 0x205F, 0x3000}
    ensures ParseMode(Some(Padded(mode, p))) == Some(mode)
  {
    var all := p.a + p.b + p.c + p.d + p.e + p.f + p.g;
    assert forall c :: c in p.a || c in p.b || c in p.c || c in p.d || c in p.e || c in p.f || c in p.g ==> c in all;
    RoundTrip(mode, p);
  }

  lemma SizeAlone(w: string, h: string)
    requires w != "" && AllDigits(w) && AllDigits(h)
    ensures ParseMode(Some(w + "x" + h)).Some? ==> ParseI32(Trim(w)).Some? && ParseI32(Trim(h)).Some?
  {
    var size := w + "x" + h;
    assert IsDigit(w[0]);
    SplitsThere(w, 'x', h);
    SplitsNowhere(size, '@');
  }

  /** A rate is taken to the nearest thousandth, one half way between two to the one further from nothing, and
      one past the numbers there are to the last of them. */
  lemma RoundedIsNearest(x: real)
    ensures -2147483648.5 < x < 2147483647.5 ==>
              && -0.5 <= Rounded(x) as real - x <= 0.5
              && (Rounded(x) as real - x == 0.5 ==> x > 0.0) && (x - Rounded(x) as real == 0.5 ==> x < 0.0)
    ensures x >= 2147483647.0 ==> Rounded(x) == 2147483647
    ensures x <= -2147483648.0 ==> Rounded(x) == -2147483648
  {}
}
