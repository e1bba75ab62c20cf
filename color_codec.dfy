/** The colour-string helpers `hexToRgba` and `adjustRgbaAlpha`
    (src/polarAreaChart.ts:743-780), with the pieces of JavaScript they rely on
    written out: `parseInt(_, 16)`, the default rendering of a number inside a
    template string, and the unanchored regular-expression search
    `rgba?\((\d+),\s*(\d+),\s*(\d+)(?:,\s*([\d.]+))?\)`. An alpha value is
    passed as its rendering (`0.5` renders as "0.5", `1` as "1"). */
module ColorCodec {
  import opened Wrappers

  /** What `parseInt` returns: an integer, or NaN. */
  datatype Channel = Int(v: int) | NaN

  /** The three channels `hexToRgba` extracts. */
  datatype Rgb = Rgb(r: Channel, g: Channel, b: Channel)

  /** The failure `adjustRgbaAlpha` throws when its argument has no rgb(a) match. */
  datatype CodecError = NoRgbaMatch

  datatype Result<T> = Ok(value: T) | Err(error: CodecError)

  /** The alpha renderings the file uses: `hexToRgba(_, 0.5)` and `adjustRgbaAlpha(_, 1)`. */
  const HalfAlpha: string := "0.5"
  const OpaqueAlpha: string := "1"

  // ---------------------------------------------------------------- characters

  /** JavaScript white space and line terminators: the set that both `\s` and the
      leading-space trim of `parseInt` skip. */
  predicate IsSpace(c: char) {
    c == ' ' || c == '\t' || c == '\n' || c == '\r' || c == '\U{000B}' || c == '\U{000C}'
    || c == '\U{00A0}' || c == '\U{1680}' || ('\U{2000}' <= c <= '\U{200A}')
    || c == '\U{2028}' || c == '\U{2029}' || c == '\U{202F}' || c == '\U{205F}'
    || c == '\U{3000}' || c == '\U{FEFF}'
  }

  predicate IsDigit(c: char) { '0' <= c <= '9' }

  predicate IsHexDigit(c: char) { IsDigit(c) || 'a' <= c <= 'f' || 'A' <= c <= 'F' }

  /** A character of the class `[\d.]`. */
  predicate IsAlphaChar(c: char) { IsDigit(c) || c == '.' }

  function HexValue(c: char): (v: nat)
    requires IsHexDigit(c)
    ensures v < 16
  {
    if IsDigit(c) then c as int - '0' as int
    else if 'a' <= c <= 'f' then c as int - 'a' as int + 10
    else c as int - 'A' as int + 10
  }

  /** Length of the longest prefix of `s` whose characters all satisfy `p`. */
  function RunLength(s: string, p: char -> bool): (n: nat)
    ensures n <= |s|
    ensures forall i :: 0 <= i < n ==> p(s[i])
    ensures n < |s| ==> !p(s[n])
  {
    if s != [] && p(s[0]) then 1 + RunLength(s[1..], p) else 0
  }

  /** A run followed by a character outside the class is measured exactly. */
  lemma {:induction false} RunLengthOf(run: string, rest: string, p: char -> bool)
    requires forall i :: 0 <= i < |run| ==> p(run[i])
    requires rest == [] || !p(rest[0])
    ensures RunLength(run + rest, p) == |run|
  {
    if run != [] {
      assert (run + rest)[0] == run[0];
      assert (run + rest)[1..] == run[1..] + rest;
      RunLengthOf(run[1..], rest, p);
    } else {
      assert run + rest == rest;
    }
  }

  // ---------------------------------------------------------------- numbers

  /** Value of a string of decimal digits. */
  function DecimalNumber(s: string): nat
    requires forall i :: 0 <= i < |s| ==> IsDigit(s[i])
  {
    if s == [] then 0 else 10 * DecimalNumber(s[..|s| - 1]) + DigitValue(s[|s| - 1])
  }

  function DigitValue(c: char): (v: nat)
    requires IsDigit(c)
    ensures v < 10
  {
    c as int - '0' as int
  }

  /** Decimal rendering of a natural number, without leading zeros. */
  function Decimal(n: nat): (s: string)
    ensures |s| > 0
    ensures forall i :: 0 <= i < |s| ==> IsDigit(s[i])
  {
    if n < 10 then [('0' as int + n) as char]
    else Decimal(n / 10) + [('0' as int + n % 10) as char]
  }

  /** Reading back a rendered natural number gives the number. */
  lemma {:induction false} DecimalRoundTrip(n: nat)
    ensures DecimalNumber(Decimal(n)) == n
  {
    if n >= 10 {
      DecimalRoundTrip(n / 10);
      var s := Decimal(n);
      assert s[..|s| - 1] == Decimal(n / 10);
    }
  }

  /** How JavaScript renders a `parseInt` result inside a template string
      (`-0` renders as "0", which `Int(0)` already is). */
  function ShowChannel(c: Channel): string {
    match c
    case NaN => "NaN"
    case Int(v) => if v < 0 then "-" + Decimal(-v) else Decimal(v)
  }

  /** `parseInt(s, 16)`: skip leading white space, read an optional sign, drop a
      "0x"/"0X" prefix, then read the longest run of hexadecimal digits; NaN when
      that run is empty. */
  function ParseIntHex(s: string): Channel
    decreases |s|
  {
    if s != [] && IsSpace(s[0]) then ParseIntHex(s[1..]) else ParseSignedHex(s)
  }

  /** The rest of `parseInt(_, 16)` once the leading white space is gone: an
      optional sign, then the digits. */
  function ParseSignedHex(t: string): Channel {
    if t != [] && t[0] == '-' then Negate(ParseHexDigits(t[1..]))
    else if t != [] && t[0] == '+' then ParseHexDigits(t[1..])
    else ParseHexDigits(t)
  }

  function Negate(c: Channel): Channel {
    match c
    case NaN => NaN
    case Int(v) => Int(-v)
  }

  /** An optional "0x"/"0X" prefix, then the longest run of hexadecimal digits;
      NaN when that run is empty. */
  function ParseHexDigits(u: string): Channel {
    var w := if |u| >= 2 && u[0] == '0' && (u[1] == 'x' || u[1] == 'X') then u[2..] else u;
    if w != [] && IsHexDigit(w[0]) then Int(HexRun(w[1..], HexValue(w[0]))) else NaN
  }

  /** The digits read so far are worth `acc`; read on while the digits last. */
  function HexRun(w: string, acc: nat): nat
    decreases |w|
  {
    if w != [] && IsHexDigit(w[0]) then HexRun(w[1..], 16 * acc + HexValue(w[0])) else acc
  }

  /** Two hexadecimal digits parse to their byte value. */
  lemma ParseIntHexPair(x: char, y: char)
    requires IsHexDigit(x) && IsHexDigit(y)
    ensures ParseIntHex([x, y]) == Int(16 * HexValue(x) + HexValue(y))
  {
    var s := [x, y];
    assert !IsSpace(x) && x != '-' && x != '+' && y != 'x' && y != 'X';
    assert ParseIntHex(s) == ParseHexDigits(s);
    assert s[1..] == [y] && [y][1..] == [];
    assert HexRun([y], HexValue(x)) == HexRun([], 16 * HexValue(x) + HexValue(y));
  }

  // ---------------------------------------------------------------- hexToRgba

  /** `hex.replace(/^#/, '')`: a leading '#' is removed, and only that one. */
  function StripHash(hex: string): (h: string)
    ensures hex != [] && hex[0] == '#' ==> h == hex[1..]
    ensures !(hex != [] && hex[0] == '#') ==> h == hex
  {
    if hex != [] && hex[0] == '#' then hex[1..] else hex
  }

  /** Shorthand expansion: a 3-character code has every character doubled. */
  function ExpandShorthand(h: string): (e: string)
    ensures |h| == 3 ==> |e| == 6 && forall i :: 0 <= i < 3 ==> e[2 * i] == h[i] && e[2 * i + 1] == h[i]
    ensures |h| != 3 ==> e == h
  {
    if |h| == 3 then [h[0], h[0], h[1], h[1], h[2], h[2]] else h
  }

  /** `s.substring(start, end)` for `start <= end`: both bounds clamped to the length. */
  function Substring(s: string, start: nat, end: nat): (t: string)
    requires start <= end
    ensures |t| <= end - start
    ensures end <= |s| ==> t == s[start..end]
    ensures start <= |s| < end ==> t == s[start..]
    ensures start >= |s| ==> t == []
  {
    var a := if start < |s| then start else |s|;
    var b := if end < |s| then end else |s|;
    s[a..b]
  }

  /** The three channels `hexToRgba` parses from a colour code. */
  function HexChannels(hex: string): Rgb {
    PairChannels(ExpandShorthand(StripHash(hex)))
  }

  /** `parseInt(h.substring(0, 2), 16)` and the next two pairs. */
  function PairChannels(h: string): Rgb {
    Rgb(ParseIntHex(Substring(h, 0, 2)), ParseIntHex(Substring(h, 2, 4)), ParseIntHex(Substring(h, 4, 6)))
  }

  /** The template `rgba(${r}, ${g}, ${b}, ${alpha})`. */
  function RgbaText(c: Rgb, alpha: string): string {
    "rgba(" + RgbaFields(c, alpha)
  }

  /** What follows "rgba(" in the template. */
  function RgbaFields(c: Rgb, alpha: string): string {
    ShowChannel(c.r) + (", " + (ShowChannel(c.g) + (", " + (ShowChannel(c.b) + (", " + (alpha + ")"))))))
  }

  function HexToRgba(hex: string, alpha: string): string {
    RgbaText(HexChannels(hex), alpha)
  }

  /** Six hexadecimal digits yield the byte value of each digit pair. */
  lemma ChannelsOfSix(h: string)
    requires |h| == 6 && IsHexDigit(h[0]) && IsHexDigit(h[1]) && IsHexDigit(h[2]) && IsHexDigit(h[3])
      && IsHexDigit(h[4]) && IsHexDigit(h[5])
    ensures PairChannels(h) == Rgb(Int(16 * HexValue(h[0]) + HexValue(h[1])), Int(16 * HexValue(h[2]) + HexValue(h[3])),
                                   Int(16 * HexValue(h[4]) + HexValue(h[5])))
  {
    PairAt(h, 0, 1, 2);
    PairAt(h, 2, 3, 4);
    PairAt(h, 4, 5, 6);
  }

  lemma PairAt(h: string, i: nat, j: nat, k: nat)
    requires j == i + 1 && k == i + 2 && k <= |h| && IsHexDigit(h[i]) && IsHexDigit(h[j])
    ensures ParseIntHex(Substring(h, i, k)) == Int(16 * HexValue(h[i]) + HexValue(h[j]))
  {
    assert Substring(h, i, k) == [h[i], h[j]];
    ParseIntHexPair(h[i], h[j]);
  }

  /** "#abc", "abc" and "aabbcc" denote the same colour: shorthand doubles each
      character. */
  lemma ShorthandDoublesDigits(x: string, alpha: string)
    requires |x| == 3 && x[0] != '#'
    ensures HexToRgba("#" + x, alpha) == HexToRgba(x, alpha)
    ensures HexToRgba(x, alpha) == HexToRgba([x[0], x[0], x[1], x[1], x[2], x[2]], alpha)
  {
    assert StripHash("#" + x) == x;
  }

  // ---------------------------------------------------------------- adjustRgbaAlpha

  /** The regular expression matched at the start of `s`: the three channel
      values when it matches. The match is deterministic: each `\d+`, `\s*` and
      `[\d.]+` is followed by a character outside its class, so backtracking
      into a shorter run can never succeed. */
  function MatchRgba(s: string): Captures {
    if !RgbAt(s, 0) then None
    else
      var s1 := if |s| > 3 && s[3] == 'a' then s[4..] else s[3..];
      if s1 == [] || s1[0] != '(' then None
      else
        match ChannelField(s1[1..])
        case None => None
        case Some((r, s2)) =>
          match ChannelField(s2)
          case None => None
          case Some((g, s3)) =>
            match LastField(s3)
            case None => None
            case Some((b, _)) => Some((r, g, b))
  }

  /** "rgb" occurs at position i of s. */
  predicate RgbAt(s: string, i: nat) {
    i + 3 <= |s| && s[i] == 'r' && s[i + 1] == 'g' && s[i + 2] == 'b'
  }

  /** A channel value and what follows it, or no match. */
  type Field = Option<(nat, string)>

  /** `(\d+),\s*`: a digit run, a comma, and the white space after it. */
  function ChannelField(s: string): Field {
    var n := RunLength(s, IsDigit);
    if n == 0 || n == |s| || s[n] != ',' then None
    else
      var t := s[n + 1..];
      Some((DecimalNumber(s[..n]), t[RunLength(t, IsSpace)..]))
  }

  /** `(\d+)(?:,\s*([\d.]+))?\)`: the last channel and its closing. */
  function LastField(s: string): Field {
    var n := RunLength(s, IsDigit);
    if n == 0 || !AlphaTail(s[n..]) then None
    else Some((DecimalNumber(s[..n]), s[n..]))
  }

  /** What may follow the third channel: `)` or `,\s*[\d.]+)`. */
  predicate AlphaTail(t: string) {
    (t != [] && t[0] == ')')
    || (t != [] && t[0] == ',' &&
        var u := t[1..][RunLength(t[1..], IsSpace)..];
        var n := RunLength(u, IsAlphaChar);
        0 < n < |u| && u[n] == ')')
  }

  /** Three captured channel values, or no match. */
  type Captures = Option<(nat, nat, nat)>

  /** `String.prototype.match` without the global flag: the first position at
      which the expression matches. */
  function SearchRgba(s: string): Captures
    decreases |s|
  {
    var m := MatchRgba(s);
    if m.Some? || s == [] then m else SearchRgba(s[1..])
  }

  /** `adjustRgbaAlpha(rgba, newAlpha)`: the captured channels with the new alpha,
      or the thrown error when nothing matches. */
  function AdjustRgbaAlpha(rgba: string, newAlpha: string): Result<string> {
    match SearchRgba(rgba)
    case None => Err(NoRgbaMatch)
    case Some((r, g, b)) => Ok(RgbaText(Rgb(Int(r), Int(g), Int(b)), newAlpha))
  }

  /** A rendered natural number followed by a non-digit is read back exactly. */
  lemma ChannelRun(n: nat, rest: string)
    requires rest != [] && !IsDigit(rest[0])
    ensures var s := Decimal(n) + rest;
      RunLength(s, IsDigit) == |Decimal(n)| && s[..|Decimal(n)|] == Decimal(n)
      && s[|Decimal(n)|..] == rest && DecimalNumber(s[..|Decimal(n)|]) == n
  {
    RunLengthOf(Decimal(n), rest, IsDigit);
    DecimalRoundTrip(n);
    assert (Decimal(n) + rest)[..|Decimal(n)|] == Decimal(n);
  }

  /** A single space followed by a non-space is skipped exactly. */
  lemma OneSpace(rest: string)
    requires rest != [] && !IsSpace(rest[0])
    ensures var s := " " + rest; RunLength(s, IsSpace) == 1 && s[1..] == rest
  {
    RunLengthOf(" ", rest, IsSpace);
  }

  /** A rendered channel followed by ", " is read as one field. */
  lemma ChannelFieldOf(n: nat, rest: string)
    requires rest != [] && !IsSpace(rest[0])
    ensures ChannelField(Decimal(n) + (", " + rest)) == Some((n, rest))
  {
    var d := Decimal(n);
    var s := d + (", " + rest);
    ChannelRun(n, ", " + rest);
    var k := RunLength(s, IsDigit);
    assert k == |d| && s[k] == ',' && k != |s|;
    var t := s[k + 1..];
    assert t == " " + rest;
    OneSpace(rest);
    assert t[RunLength(t, IsSpace)..] == rest;
    assert DecimalNumber(s[..k]) == n;
  }

  /** The last rendered channel followed by ", <alpha>)" is read as the last field. */
  lemma LastFieldOf(n: nat, alpha: string)
    requires |alpha| > 0 && forall i :: 0 <= i < |alpha| ==> IsAlphaChar(alpha[i])
    ensures LastField(Decimal(n) + (", " + (alpha + ")"))).Some?
    ensures LastField(Decimal(n) + (", " + (alpha + ")"))).value.0 == n
  {
    var t := ", " + (alpha + ")");
    ChannelRun(n, t);
    assert t[1..] == " " + (alpha + ")");
    OneSpace(alpha + ")");
    RunLengthOf(alpha, ")", IsAlphaChar);
    assert AlphaTail(t);
  }

  /** What `hexToRgba` and `adjustRgbaAlpha` print is what `adjustRgbaAlpha` reads:
      re-alphaing a rendered colour with non-negative channels keeps the three
      channels and replaces the alpha, whatever alpha of the class `[\d.]+` it
      carried. */
  lemma {:induction false} AdjustRgbaText(r: nat, g: nat, b: nat, alpha: string, newAlpha: string)
    requires |alpha| > 0 && forall i :: 0 <= i < |alpha| ==> IsAlphaChar(alpha[i])
    ensures AdjustRgbaAlpha(RgbaText(Rgb(Int(r), Int(g), Int(b)), alpha), newAlpha)
         == Ok(RgbaText(Rgb(Int(r), Int(g), Int(b)), newAlpha))
  {
    var seg3 := Decimal(b) + (", " + (alpha + ")"));
    var seg2 := Decimal(g) + (", " + seg3);
    var seg1 := Decimal(r) + (", " + seg2);
    var s := "rgba(" + seg1;
    var c := Rgb(Int(r), Int(g), Int(b));
    assert ShowChannel(Int(r)) == Decimal(r) && ShowChannel(Int(g)) == Decimal(g) && ShowChannel(Int(b)) == Decimal(b);
    assert s == RgbaText(c, alpha);
    ChannelFieldOf(r, seg2);
    ChannelFieldOf(g, seg3);
    LastFieldOf(b, alpha);
    MatchAfterPrefix(seg1);
    assert MatchRgba(s) == Some((r, g, b));
    assert SearchRgba(s) == Some((r, g, b));
  }

  /** After "rgba(" the match reads the three fields. */
  lemma MatchAfterPrefix(seg: string)
    ensures MatchRgba("rgba(" + seg) ==
      match ChannelField(seg)
      case None => None
      case Some((r, s2)) =>
        match ChannelField(s2)
        case None => None
        case Some((g, s3)) =>
          match LastField(s3)
          case None => None
          case Some((b, _)) => Some((r, g, b))
  {
    var s := "rgba(" + seg;
    assert RgbAt(s, 0) && s[3] == 'a';
    assert s[4..][1..] == seg;
  }

  /** A string with no occurrence of "rgb" makes `adjustRgbaAlpha` throw. */
  lemma {:induction false} NoRgbNoMatch(s: string, newAlpha: string)
    requires forall i :: 0 <= i < |s| ==> !RgbAt(s, i)
    ensures AdjustRgbaAlpha(s, newAlpha) == Err(NoRgbaMatch)
    decreases |s|
  {
    if s != [] {
      assert !RgbAt(s, 0);
      forall i | 0 <= i < |s[1..]| ensures !RgbAt(s[1..], i) {
        assert !RgbAt(s, i + 1);
      }
      NoRgbNoMatch(s[1..], newAlpha);
    }
  }

  /** The channels of a six-digit or three-digit code, with or without '#', are
      the byte values of its (expanded) digit pairs. */
  lemma ChannelsOfCode(hex: string)
    requires var h := StripHash(hex); (|h| == 6 || |h| == 3) && forall i :: 0 <= i < |h| ==> IsHexDigit(h[i])
    ensures var e := ExpandShorthand(StripHash(hex));
      |e| == 6 &&
      HexChannels(hex) == Rgb(Int(16 * HexValue(e[0]) + HexValue(e[1])),
                              Int(16 * HexValue(e[2]) + HexValue(e[3])),
                              Int(16 * HexValue(e[4]) + HexValue(e[5])))
  {
    var h := StripHash(hex);
    var e := ExpandShorthand(h);
    ExpandedDigits(h);
    ChannelsOfSix(e);
  }

  /** A valid code expands to six hexadecimal digits. */
  lemma ExpandedDigits(h: string)
    requires (|h| == 6 || |h| == 3) && forall i :: 0 <= i < |h| ==> IsHexDigit(h[i])
    ensures var e := ExpandShorthand(h);
      |e| == 6 && IsHexDigit(e[0]) && IsHexDigit(e[1]) && IsHexDigit(e[2]) && IsHexDigit(e[3])
      && IsHexDigit(e[4]) && IsHexDigit(e[5])
  {
    if |h| == 3 {
      assert IsHexDigit(h[0]) && IsHexDigit(h[1]) && IsHexDigit(h[2]);
    }
  }

  /** The hex-to-rgba-to-alpha round trip: a valid code converted at alpha 0.5
      and re-alphaed to 1 gives the same channels at alpha 1. */
  lemma HexRoundTrip(hex: string)
    requires var h := StripHash(hex); (|h| == 6 || |h| == 3) && forall i :: 0 <= i < |h| ==> IsHexDigit(h[i])
    ensures AdjustRgbaAlpha(HexToRgba(hex, HalfAlpha), OpaqueAlpha) == Ok(HexToRgba(hex, OpaqueAlpha))
  {
    ChannelsOfCode(hex);
    var c := HexChannels(hex);
    assert forall i :: 0 <= i < |HalfAlpha| ==> IsAlphaChar(HalfAlpha[i]);
    AdjustRgbaText(c.r.v, c.g.v, c.b.v, HalfAlpha, OpaqueAlpha);
  }

  /** No rendered channel contains the letter 'r'. */
  lemma NoRInChannel(c: Channel)
    ensures 'r' !in ShowChannel(c)
  {
  }

  /** No alpha of the class `[\d.]*` contains the letter 'r'. */
  lemma NoRInAlpha(alpha: string)
    requires forall i :: 0 <= i < |alpha| ==> IsAlphaChar(alpha[i])
    ensures 'r' !in alpha
  {
  }

  /** Text without the letter 'r' never matches. */
  lemma {:induction false} NoRNoMatch(s: string, newAlpha: string)
    requires 'r' !in s
    ensures AdjustRgbaAlpha(s, newAlpha) == Err(NoRgbaMatch)
  {
    forall i | 0 <= i < |s| ensures !RgbAt(s, i) {
      assert s[i] in s;
    }
    NoRgbNoMatch(s, newAlpha);
  }

  /** A rendered colour whose red channel is NaN is rejected by `adjustRgbaAlpha`. */
  lemma {:induction false} NaNRedIsRejected(c: Rgb, alpha: string, newAlpha: string)
    requires c.r == NaN
    requires forall i :: 0 <= i < |alpha| ==> IsAlphaChar(alpha[i])
    ensures AdjustRgbaAlpha(RgbaText(c, alpha), newAlpha) == Err(NoRgbaMatch)
  {
    var s := RgbaText(c, alpha);
    NaNFieldFails(c, alpha);
    NoRInFields(c, alpha);
    var t := "gba(" + RgbaFields(c, alpha);
    assert s[1..] == t;
    assert 'r' !in t;
    NoRNoMatch(t, newAlpha);
  }

  /** The match at the start of a rendering breaks off at a NaN red channel. */
  lemma NaNFieldFails(c: Rgb, alpha: string)
    requires c.r == NaN
    ensures MatchRgba(RgbaText(c, alpha)) == None
  {
    var seg := RgbaFields(c, alpha);
    assert ChannelField(seg) == None by {
      assert seg[0] == 'N';
    }
    MatchAfterPrefix(seg);
  }

  /** The rendered fields hold no letter 'r'. */
  lemma NoRInFields(c: Rgb, alpha: string)
    requires forall i :: 0 <= i < |alpha| ==> IsAlphaChar(alpha[i])
    ensures 'r' !in RgbaFields(c, alpha)
  {
    NoRInChannel(c.r);
    NoRInChannel(c.g);
    NoRInChannel(c.b);
    NoRInAlpha(alpha);
  }

  /** A code whose red pair is not hexadecimal (a colour name such as "red", or
      an empty string) renders a NaN channel, which `adjustRgbaAlpha` rejects. */
  lemma NaNChannelIsRejected(hex: string, alpha: string, newAlpha: string)
    requires HexChannels(hex).r == NaN
    requires forall i :: 0 <= i < |alpha| ==> IsAlphaChar(alpha[i])
    ensures AdjustRgbaAlpha(HexToRgba(hex, alpha), newAlpha) == Err(NoRgbaMatch)
  {
    NaNRedIsRejected(HexChannels(hex), alpha, newAlpha);
  }
}
