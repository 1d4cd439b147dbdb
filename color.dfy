/**
 * Colour lightening: `lightenColor(hex, percent)` parses a `#rrggbb` string
 * into three channels, blends each channel toward white by `percent` per
 * cent with round-half-up, and formats the channels back as two lower-case
 * hexadecimal digits each.
 */
module Color {

  /** One colour channel. */
  type Byte = b: int | 0 <= b < 256

  /** A digit `parseInt(_, 16)` accepts, in either case. */
  predicate IsHexDigit(c: char) {
    '0' <= c <= '9' || 'a' <= c <= 'f' || 'A' <= c <= 'F'
  }

  /** A digit `Number.prototype.toString(16)` produces. */
  predicate IsLowerHexDigit(c: char) {
    '0' <= c <= '9' || 'a' <= c <= 'f'
  }

  function DigitValue(c: char): (v: nat)
    requires IsHexDigit(c)
    ensures v < 16
  {
    if '0' <= c <= '9' then c as int - '0' as int
    else if 'a' <= c <= 'f' then c as int - 'a' as int + 10
    else c as int - 'A' as int + 10
  }

  /** The lower-case digit of value `v`; reading it back gives `v`. */
  function Digit(v: nat): (c: char)
    requires v < 16
    ensures IsLowerHexDigit(c) && DigitValue(c) == v
  {
    if v < 10 then ('0' as int + v) as char else ('a' as int + v - 10) as char
  }

  /** The lower-case form of a hexadecimal digit. */
  function LowerDigit(c: char): (r: char)
    requires IsHexDigit(c)
    ensures IsLowerHexDigit(r) && DigitValue(r) == DigitValue(c)
    ensures IsLowerHexDigit(c) ==> r == c
  {
    Digit(DigitValue(c))
  }

  /** `parseInt(s, 16)` on two hexadecimal digits. */
  function ParsePair(s: string): (b: Byte)
    requires |s| == 2 && IsHexDigit(s[0]) && IsHexDigit(s[1])
    ensures b / 16 == DigitValue(s[0]) && b % 16 == DigitValue(s[1])
  {
    16 * DigitValue(s[0]) + DigitValue(s[1])
  }

  /** `n.toString(16).padStart(2, "0")` on a channel value. */
  function ToHex(b: Byte): (s: string)
    ensures |s| == 2 && IsLowerHexDigit(s[0]) && IsLowerHexDigit(s[1])
    ensures ParsePair(s) == b
  {
    [Digit(b / 16), Digit(b % 16)]
  }

  /** Formatting a parsed pair gives the pair back, folded to lower case. */
  lemma ToHexOfParsePair(s: string)
    requires |s| == 2 && IsHexDigit(s[0]) && IsHexDigit(s[1])
    ensures ToHex(ParsePair(s)) == [LowerDigit(s[0]), LowerDigit(s[1])]
  {
    var b := ParsePair(s);
    assert b / 16 == DigitValue(s[0]) && b % 16 == DigitValue(s[1]);
  }

  /** The index of the first occurrence of `c` in `s`. */
  function FirstIndex(s: string, c: char): (i: nat)
    requires c in s
    ensures i < |s| && s[i] == c && c !in s[..i]
  {
    if s[0] == c then 0
    else
      var i := FirstIndex(s[1..], c);
      assert s[..i + 1] == [s[0]] + s[1..][..i];
      i + 1
  }

  /**
   * `s.replace(c, "")` with a one-character pattern: exactly one occurrence
   * goes when there is one (so a leading `c` is stripped), and nothing
   * changes otherwise.
   */
  function RemoveFirst(s: string, c: char): (r: string)
    ensures c in s ==> |r| == |s| - 1
    ensures c in s && s[0] == c ==> r == s[1..]
    ensures c !in s ==> r == s
  {
    if c in s then s[..FirstIndex(s, c)] + s[FirstIndex(s, c) + 1..] else s
  }

  /** `replace` removes the first occurrence of `c` and keeps the rest in order. */
  lemma RemoveFirstContents(s: string, c: char)
    requires c in s
    ensures exists i :: 0 <= i < |s| && s[i] == c && c !in s[..i] && RemoveFirst(s, c) == s[..i] + s[i + 1..]
  {
    var i := FirstIndex(s, c);
  }

  /** What `lightenColor` needs of its argument: after the first `#` is removed, six hexadecimal digits lead. */
  predicate WellFormed(hex: string) {
    var d := RemoveFirst(hex, '#');
    |d| >= 6 && forall i :: 0 <= i < 6 ==> IsHexDigit(d[i])
  }

  datatype Rgb = Rgb(r: Byte, g: Byte, b: Byte)

  /** The three `parseInt(hex.substr(2 * k, 2), 16)` calls. */
  function Channels(hex: string): (rgb: Rgb)
    requires WellFormed(hex)
    ensures var d := RemoveFirst(hex, '#');
      && ToHex(rgb.r) == [LowerDigit(d[0]), LowerDigit(d[1])]
      && ToHex(rgb.g) == [LowerDigit(d[2]), LowerDigit(d[3])]
      && ToHex(rgb.b) == [LowerDigit(d[4]), LowerDigit(d[5])]
  {
    var d := RemoveFirst(hex, '#');
    ToHexOfParsePair(d[0..2]);
    ToHexOfParsePair(d[2..4]);
    ToHexOfParsePair(d[4..6]);
    Rgb(ParsePair(d[0..2]), ParsePair(d[2..4]), ParsePair(d[4..6]))
  }

  /**
   * The `lighten` lambda: `Math.round(c + (255 - c) * (percent / 100))`
   * in exact arithmetic. The result is the rounding of the exact blend
   * (within half a unit, halves rounded up) and never darker than `c`.
   */
  function Blend(c: Byte, percent: int): (r: Byte)
    requires 0 <= percent <= 100
    ensures c <= r
    ensures 100 * r - 50 <= 100 * c + (255 - c) * percent < 100 * r + 50
  {
    var exact := 100 * c + (255 - c) * percent;
    WhiteShareMonotone(c, 0, percent);
    WhiteShareMonotone(c, percent, 100);
    assert 100 * ((exact + 50) / 100) <= exact + 50 < 100 * ((exact + 50) / 100) + 100;
    (exact + 50) / 100
  }

  /** The share of white a channel takes grows with the percentage. */
  lemma WhiteShareMonotone(c: Byte, p: int, q: int)
    requires p <= q
    ensures (255 - c) * p <= (255 - c) * q
  {
    var d := q - p;
    assert (255 - c) * q == (255 - c) * p + (255 - c) * d;
  }

  /** A larger percentage never gives a darker channel. */
  lemma BlendMonotone(c: Byte, p: int, q: int)
    requires 0 <= p <= q <= 100
    ensures Blend(c, p) <= Blend(c, q)
  {
    WhiteShareMonotone(c, p, q);
    var x, y := 100 * c + (255 - c) * p + 50, 100 * c + (255 - c) * q + 50;
    assert 100 * (x / 100) <= x < 100 * (x / 100) + 100;
    assert 100 * (y / 100) <= y < 100 * (y / 100) + 100;
  }

  lemma BlendEndpoints(c: Byte, p: int)
    requires 0 <= p <= 100
    ensures Blend(c, 0) == c
    ensures Blend(c, 100) == 255
    ensures Blend(255, p) == 255
  {
  }

  /** `lightenColor(hex, percent)`. */
  function LightenColor(hex: string, percent: int): (r: string)
    requires WellFormed(hex) && 0 <= percent <= 100
    ensures |r| == 7 && r[0] == '#'
    ensures forall i :: 1 <= i < 7 ==> IsLowerHexDigit(r[i])
  {
    var c := Channels(hex);
    "#" + ToHex(Blend(c.r, percent)) + ToHex(Blend(c.g, percent)) + ToHex(Blend(c.b, percent))
  }

  /** Parsing the output back gives the three blended channels: the format step loses nothing. */
  lemma LightenColorRoundTrip(hex: string, percent: int)
    requires WellFormed(hex) && 0 <= percent <= 100
    ensures WellFormed(LightenColor(hex, percent))
    ensures var c := Channels(hex);
      Channels(LightenColor(hex, percent)) == Rgb(Blend(c.r, percent), Blend(c.g, percent), Blend(c.b, percent))
  {
    var r := LightenColor(hex, percent);
    var c := Channels(hex);
    var x, y, z := ToHex(Blend(c.r, percent)), ToHex(Blend(c.g, percent)), ToHex(Blend(c.b, percent));
    var d := x + y + z;
    assert r == "#" + d;
    assert FirstIndex(r, '#') == 0;
    assert RemoveFirst(r, '#') == d;
    assert d[0..2] == x && d[2..4] == y && d[4..6] == z;
  }

  /** Lightening never darkens a channel: each output channel lies between the input channel and 255. */
  lemma LightenNeverDarkens(hex: string, percent: int)
    requires WellFormed(hex) && 0 <= percent <= 100
    ensures WellFormed(LightenColor(hex, percent))
    ensures var c, c' := Channels(hex), Channels(LightenColor(hex, percent));
      c.r <= c'.r && c.g <= c'.g && c.b <= c'.b
  {
    LightenColorRoundTrip(hex, percent);
  }

  /** Percent 0 keeps every channel; percent 100 gives white. */
  lemma LightenColorEndpoints(hex: string)
    requires WellFormed(hex)
    ensures WellFormed(LightenColor(hex, 0)) && Channels(LightenColor(hex, 0)) == Channels(hex)
    ensures LightenColor(hex, 100) == "#ffffff"
  {
    var c := Channels(hex);
    BlendEndpoints(c.r, 0);
    BlendEndpoints(c.g, 0);
    BlendEndpoints(c.b, 0);
    LightenColorRoundTrip(hex, 0);
    assert Rgb(Blend(c.r, 0), Blend(c.g, 0), Blend(c.b, 0)) == c;
    assert ToHex(255) == "ff";
    assert LightenColor(hex, 100) == "#" + ToHex(255) + ToHex(255) + ToHex(255);
  }

  /** White is a fixed point of lightening, whatever the percentage. */
  lemma LightenWhite(percent: int)
    requires 0 <= percent <= 100
    ensures WellFormed("#ffffff") && LightenColor("#ffffff", percent) == "#ffffff"
  {
    assert RemoveFirst("#ffffff", '#') == "ffffff";
    assert Channels("#ffffff") == Rgb(255, 255, 255);
  }

  /** The default transition colour: the default accent `#ff7a00` lightened by 60 per cent. */
  lemma DefaultTransitionColor()
    ensures WellFormed("#ff7a00") && LightenColor("#ff7a00", 60) == "#ffca99"
  {
    assert RemoveFirst("#ff7a00", '#') == "ff7a00";
    assert Channels("#ff7a00") == Rgb(255, 122, 0);
    assert Blend(255, 60) == 255 && Blend(122, 60) == 202 && Blend(0, 60) == 153;
    assert ToHex(255) == "ff" && ToHex(202) == "ca" && ToHex(153) == "99";
  }

  /** Black lightened by half: 127.5 rounds up to 128. */
  lemma LightenBlackByHalf()
    ensures WellFormed("#000000") && LightenColor("#000000", 50) == "#808080"
  {
    assert RemoveFirst("#000000", '#') == "000000";
    assert Channels("#000000") == Rgb(0, 0, 0);
    assert Blend(0, 50) == 128;
    assert ToHex(128) == "80";
  }
}
