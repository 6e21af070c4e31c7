/**
 * The integer side of the colour engine (apps/web/app/lib/color.ts):
 * clamping, hex encoding and decoding, the hex branch of `parseColor`,
 * squared distance, and the palette builders `mono` and `shadesTints` with
 * the HSL conversions given as parameters. JavaScript numbers are modelled
 * as exact reals plus the three non-finite values.
 */
module Color {
  import opened Wrappers
  import opened Text

  /** A JavaScript number: a finite value, or one of the non-finite ones. */
  datatype Num = Finite(v: real) | NaN | PosInf | NegInf

  datatype RGB = RGB(r: int, g: int, b: int)

  datatype HSL = HSL(h: real, s: real, l: real)

  /** A colour whose channels are integers in [0, 255]. */
  predicate InGamut(c: RGB) {
    0 <= c.r <= 255 && 0 <= c.g <= 255 && 0 <= c.b <= 255
  }

  // ------------------------------------------------------------------ clamping

  /** `Math.round`: the nearest integer, halves rounded up. */
  function Round(x: real): (n: int)
    ensures n as real - 0.5 <= x < n as real + 0.5
  {
    (x + 0.5).Floor
  }

  /** `clamp255(n)`: non-finite becomes 0, then rounded and clamped to [0, 255]. */
  function Clamp255(n: Num): (c: int)
    ensures 0 <= c <= 255
    ensures !n.Finite? ==> c == 0
  {
    var v := Round(if n.Finite? then n.v else 0.0);
    if v < 0 then 0 else if v > 255 then 255 else v
  }

  /** An integer channel already in range comes through `clamp255` unchanged, and clamping twice is clamping once. */
  lemma Clamp255Keeps(k: int, n: Num)
    ensures 0 <= k <= 255 ==> Clamp255(Finite(k as real)) == k
    ensures Clamp255(Finite(Clamp255(n) as real)) == Clamp255(n)
  {
    assert Round(k as real) == k;
    var c := Clamp255(n);
    assert Round(c as real) == c;
  }

  /** `clamp255` never reverses the order of two finite numbers. */
  lemma Clamp255Monotone(x: real, y: real)
    requires x <= y
    ensures Clamp255(Finite(x)) <= Clamp255(Finite(y))
  {
    assert Round(x) <= Round(y);
  }

  /** `clamp01(x)`: non-finite becomes 0, then clamped to [0, 1]. */
  function Clamp01(x: Num): (c: real)
    ensures 0.0 <= c <= 1.0
    ensures !x.Finite? ==> c == 0.0
    ensures x.Finite? && 0.0 <= x.v <= 1.0 ==> c == x.v
  {
    var v := if x.Finite? then x.v else 0.0;
    if v < 0.0 then 0.0 else if v > 1.0 then 1.0 else v
  }

  /** `clamp01` never reverses the order of two finite numbers. */
  lemma Clamp01Monotone(x: real, y: real)
    requires x <= y
    ensures Clamp01(Finite(x)) <= Clamp01(Finite(y))
  {
  }

  // ------------------------------------------------------------------ hex text

  /** The lower-case hex digit of a value below 16. */
  function HexDigit(d: nat): (c: char)
    requires d < 16
    ensures IsHexDigit(c) && !('A' <= c <= 'Z')
  {
    if d < 10 then ('0' as int + d) as char else ('a' as int + d - 10) as char
  }

  /** The value of a hex digit, in either case. */
  function DigitValue16(c: char): (d: nat)
    ensures d < 16
  {
    if '0' <= c <= '9' then c as int - '0' as int
    else if 'a' <= c <= 'f' then c as int - 'a' as int + 10
    else if 'A' <= c <= 'F' then c as int - 'A' as int + 10
    else 0
  }

  lemma DigitRoundTrip(d: nat)
    requires d < 16
    ensures DigitValue16(HexDigit(d)) == d
  {
  }

  /** `n.toString(16)`. */
  function ToHex(n: nat): (s: string)
    ensures |s| >= 1
    decreases n
  {
    if n < 16 then [HexDigit(n)] else ToHex(n / 16) + [HexDigit(n % 16)]
  }

  /** `s.padStart(width, fill)`. */
  function PadStart(s: string, width: nat, fill: char): (r: string)
    ensures |r| == if |s| >= width then |s| else width
    decreases width - |s|
  {
    if |s| >= width then s else PadStart([fill] + s, width, fill)
  }

  /** `n.toString(16).padStart(2, '0')`. */
  function Hex2(n: nat): string {
    PadStart(ToHex(n), 2, '0')
  }

  /** A channel in range is written as exactly two hex digits, high digit first. */
  lemma Hex2Digits(n: nat)
    requires n < 256
    ensures Hex2(n) == [HexDigit(n / 16), HexDigit(n % 16)]
  {
    if n < 16 {
      assert ToHex(n) == [HexDigit(n)];
      assert ['0'] + [HexDigit(n)] == ['0', HexDigit(n)];
      assert PadStart(['0', HexDigit(n)], 2, '0') == ['0', HexDigit(n)];
      assert HexDigit(n / 16) == '0';
    } else {
      assert ToHex(n / 16) == [HexDigit(n / 16)];
      assert ToHex(n) == [HexDigit(n / 16), HexDigit(n % 16)];
    }
  }

  /** `rgbHex({ r, g, b })` once each field has gone through `Number`. */
  function RgbHex(r: Num, g: Num, b: Num): (out: string) {
    ToLower("#" + Hex2(Clamp255(r)) + Hex2(Clamp255(g)) + Hex2(Clamp255(b)))
  }

  /** `rgbHex` gives `#` and six lower-case hex digits: two per channel, each clamped first. */
  lemma RgbHexShape(r: Num, g: Num, b: Num)
    ensures var out := RgbHex(r, g, b);
      |out| == 7 && out[0] == '#' &&
      out[1..] == Hex2(Clamp255(r)) + Hex2(Clamp255(g)) + Hex2(Clamp255(b)) &&
      LowerHex(out[1..])
  {
    var x, y, z := Hex2(Clamp255(r)), Hex2(Clamp255(g)), Hex2(Clamp255(b));
    Hex2Lower(Clamp255(r));
    Hex2Lower(Clamp255(g));
    Hex2Lower(Clamp255(b));
    HexTriple(x, y, z);
  }

  lemma HexTriple(x: string, y: string, z: string)
    requires |x| == |y| == |z| == 2 && LowerHex(x) && LowerHex(y) && LowerHex(z)
    ensures var out := ToLower("#" + x + y + z);
      |out| == 7 && out[0] == '#' && out[1..] == x + y + z && LowerHex(out[1..])
  {
    LowerHexConcat(x, y);
    LowerHexConcat(x + y, z);
    HashedLower(x + y + z);
    assert "#" + x + y + z == "#" + (x + y + z);
  }

  /** A `#` in front of lower-case hex digits: lower-casing changes nothing. */
  lemma HashedLower(d: string)
    requires LowerHex(d)
    ensures ToLower("#" + d) == "#" + d && ("#" + d)[1..] == d
  {
  }

  /** Lower-case hex digits only. */
  predicate LowerHex(s: string) {
    forall i | 0 <= i < |s| :: IsHexDigit(s[i]) && !('A' <= s[i] <= 'Z')
  }

  lemma LowerHexConcat(a: string, b: string)
    requires LowerHex(a) && LowerHex(b)
    ensures LowerHex(a + b)
  {
  }

  lemma Hex2Lower(n: nat)
    requires n < 256
    ensures |Hex2(n)| == 2 && LowerHex(Hex2(n))
  {
    Hex2Digits(n);
  }

  // ---------------------------------------------------------------- hexToRgb

  /** `s.replace('#', '')`: the first `#` goes. */
  function DropFirstHash(s: string): string {
    match IndexOfChar(s, '#', 0)
    case Some(i) => s[..i] + s[i + 1..]
    case None => s
  }

  /** `/^([0-9a-f]{3}|[0-9a-f]{6})$/i`. */
  predicate IsHexBody(s: string) {
    (|s| == 3 || |s| == 6) && forall i | 0 <= i < |s| :: IsHexDigit(s[i])
  }

  /** `hex.split('').map(ch => ch + ch).join('')`. */
  function DoubleEach(s: string): (r: string)
    ensures |r| == 2 * |s|
  {
    if s == [] then [] else [s[0], s[0]] + DoubleEach(s[1..])
  }

  /** `parseInt(s, 16)` for a string of hex digits. */
  function HexValue(s: string): nat {
    if s == [] then 0 else HexValue(s[..|s| - 1]) * 16 + DigitValue16(s[|s| - 1])
  }

  /** The colour `hexToRgb` answers for anything it does not read. */
  const DefaultColor: RGB := RGB(34, 197, 94)

  /** `hexToRgb(hexColor)`: the 24-bit value split into its three bytes, or the default colour. */
  function HexToRgb(hexColor: string): (c: RGB)
    ensures InGamut(c)
    ensures !IsHexBody(Trim(DropFirstHash(hexColor))) ==> c == DefaultColor
  {
    var hex := Trim(DropFirstHash(hexColor));
    if !IsHexBody(hex) then DefaultColor else BodyColor(hex)
  }

  /** The colour of three or six hex digits: the short form doubled, then its 24-bit value split into bytes. */
  function BodyColor(hex: string): (c: RGB)
    requires IsHexBody(hex)
    ensures InGamut(c)
  {
    var full := if |hex| == 3 then DoubleEach(hex) else hex;
    var num := HexValue(full);
    RGB((num / 65536) % 256, (num / 256) % 256, num % 256)
  }

  /** Hex digits with nothing around them are read as they stand. */
  lemma ReadsBody(hex: string)
    requires IsHexBody(hex)
    ensures HexToRgb(hex) == BodyColor(hex)
  {
    NoHash(hex);
    NoSpaceTrim(hex);
  }

  /** A hex colour loses its `#` and is read from the digits after it. */
  lemma ReadsHashed(s: string)
    requires IsHexColor(s)
    ensures HexToRgb(s) == BodyColor(s[1..])
  {
    assert IndexOfChar(s, '#', 0) == Some(0);
    assert DropFirstHash(s) == s[1..] by {
      assert s[..0] + s[1..] == s[1..];
    }
    NoSpaceTrim(s[1..]);
  }

  /** Two more digits multiply the value by 256 and add the byte they write. */
  lemma HexValuePair(a: string, hi: char, lo: char)
    ensures HexValue(a + [hi, lo]) == HexValue(a) * 256 + DigitValue16(hi) * 16 + DigitValue16(lo)
  {
    var s := a + [hi, lo];
    assert s[..|s| - 1] == a + [hi];
    assert (a + [hi])[..|a|] == a;
  }

  /** The three bytes of a 24-bit value come back out of it. */
  lemma Bytes(num: nat, r: nat, g: nat, b: nat)
    requires r < 256 && g < 256 && b < 256 && num == (r * 256 + g) * 256 + b
    ensures (num / 65536) % 256 == r && (num / 256) % 256 == g && num % 256 == b
  {
    assert num == r * 65536 + (g * 256 + b);
    assert num / 65536 == r;
    assert num / 256 == r * 256 + g;
  }

  /** Six hex digits, two per byte, decode to the 24-bit value of those bytes. */
  lemma SixDigits(s: string, r: nat, g: nat, b: nat)
    requires |s| == 6
    requires DigitValue16(s[0]) * 16 + DigitValue16(s[1]) == r
    requires DigitValue16(s[2]) * 16 + DigitValue16(s[3]) == g
    requires DigitValue16(s[4]) * 16 + DigitValue16(s[5]) == b
    ensures HexValue(s) == (r * 256 + g) * 256 + b
  {
    assert s == [] + [s[0], s[1]] + [s[2], s[3]] + [s[4], s[5]];
    HexValuePair([], s[0], s[1]);
    HexValuePair([s[0], s[1]], s[2], s[3]);
    assert [] + [s[0], s[1]] == [s[0], s[1]];
    HexValuePair([s[0], s[1]] + [s[2], s[3]], s[4], s[5]);
  }

  /** Channels in range written by `Hex2` decode back to themselves. */
  lemma HexChannels(c: RGB)
    requires InGamut(c)
    ensures HexValue(Hex2(c.r) + Hex2(c.g) + Hex2(c.b)) == (c.r * 256 + c.g) * 256 + c.b
  {
    Hex2Digits(c.r);
    Hex2Digits(c.g);
    Hex2Digits(c.b);
    DigitRoundTrip(c.r / 16);
    DigitRoundTrip(c.r % 16);
    DigitRoundTrip(c.g / 16);
    DigitRoundTrip(c.g % 16);
    DigitRoundTrip(c.b / 16);
    DigitRoundTrip(c.b % 16);
    SixDigits(Hex2(c.r) + Hex2(c.g) + Hex2(c.b), c.r, c.g, c.b);
  }

  /** A three-digit colour reads as the six-digit colour with each digit doubled, so each channel is `17` times its digit. */
  lemma ShortFormDoubles(hex: string)
    requires IsHexBody(hex) && |hex| == 3
    ensures HexToRgb(hex) == HexToRgb(DoubleEach(hex))
    ensures HexToRgb(hex) == RGB(17 * DigitValue16(hex[0]), 17 * DigitValue16(hex[1]), 17 * DigitValue16(hex[2]))
  {
    var d := DoubleEach(hex);
    DoubleThree(hex);
    assert IsHexBody(d);
    ReadsBody(hex);
    ReadsBody(d);
    var x, y, z := 17 * DigitValue16(hex[0]), 17 * DigitValue16(hex[1]), 17 * DigitValue16(hex[2]);
    assert d[0] == d[1] == hex[0] && d[2] == d[3] == hex[1] && d[4] == d[5] == hex[2];
    SixDigits(d, x, y, z);
    var num := HexValue(d);
    assert BodyColor(hex) == RGB((num / 65536) % 256, (num / 256) % 256, num % 256);
    Bytes(num, x, y, z);
  }

  lemma DoubleThree(hex: string)
    requires |hex| == 3
    ensures DoubleEach(hex) == [hex[0], hex[0], hex[1], hex[1], hex[2], hex[2]]
  {
    var t1 := hex[1..];
    var t2 := t1[1..];
    assert t2[1..] == [];
    assert DoubleEach(t2) == [hex[2], hex[2]];
    assert DoubleEach(t1) == [hex[1], hex[1]] + [hex[2], hex[2]];
  }

  /** Text without `#` loses nothing to the `#` removal. */
  lemma NoHash(s: string)
    requires forall i | 0 <= i < |s| :: IsHexDigit(s[i])
    ensures DropFirstHash(s) == s
  {
  }

  /** Text without whitespace is its own trim. */
  lemma NoSpaceTrim(s: string)
    requires forall i | 0 <= i < |s| :: IsHexDigit(s[i])
    ensures Trim(s) == s
  {
    if s != [] {
      assert !IsSpace(s[0]) && !IsSpace(s[|s| - 1]);
      TrimTrimmed(s);
    }
  }

  // --------------------------------------------------------------- parseColor

  /** `/^#([0-9a-f]{3}|[0-9a-f]{6})$/i`. */
  predicate IsHexColor(s: string) {
    |s| >= 1 && s[0] == '#' && IsHexBody(s[1..])
  }

  /**
   * `parseColor(input)`: empty input is no colour; the trimmed text is read as hex when it is
   * hex; the `rgb(…)` and `hsl(…)` branches are the parameter `otherwise`.
   */
  function ParseColor(input: string, otherwise: string -> Option<RGB>): (c: Option<RGB>)
    ensures input == "" ==> c.None?
    ensures input != "" && IsHexColor(Trim(input)) ==> c == Some(HexToRgb(Trim(input))) && InGamut(c.value)
    ensures input != "" && !IsHexColor(Trim(input)) ==> c == otherwise(Trim(input))
  {
    if input == "" then None
    else
      var str := Trim(input);
      if IsHexColor(str) then Some(HexToRgb(str)) else otherwise(str)
  }

  /** Writing a colour as hex and parsing it back gives the colour, for integer channels in range. */
  lemma HexRoundTrip(c: RGB, otherwise: string -> Option<RGB>)
    requires InGamut(c)
    ensures ParseColor(RgbHex(Finite(c.r as real), Finite(c.g as real), Finite(c.b as real)), otherwise) == Some(c)
  {
    var r, g, b := Finite(c.r as real), Finite(c.g as real), Finite(c.b as real);
    Clamp255Keeps(c.r, r);
    Clamp255Keeps(c.g, g);
    Clamp255Keeps(c.b, b);
    var out := RgbHex(r, g, b);
    RgbHexShape(r, g, b);
    var body := out[1..];
    assert body == Hex2(c.r) + Hex2(c.g) + Hex2(c.b);
    assert LowerHex(body);
    assert Trim(out) == out by {
      assert !IsSpace(out[0]) && !IsSpace(out[6]) by {
        assert out[6] == body[5];
      }
      TrimTrimmed(out);
    }
    assert IsHexColor(out);
    ReadsHashed(out);
    HexChannels(c);
    Bytes(HexValue(body), c.r, c.g, c.b);
  }

  // -------------------------------------------------------------------- dist2

  /** `dist2(a, b)`: the squared Euclidean distance in RGB space. */
  function Dist2(a: RGB, b: RGB): int {
    (a.r - b.r) * (a.r - b.r) + (a.g - b.g) * (a.g - b.g) + (a.b - b.b) * (a.b - b.b)
  }

  lemma SquareNonNegative(x: int)
    ensures x * x >= 0
    ensures x * x == 0 <==> x == 0
  {
    if x < 0 {
      assert x * x == (-x) * (-x);
    }
  }

  /** The distance is never negative, does not depend on the order of its arguments, and is zero exactly for equal colours. */
  lemma Dist2Metric(a: RGB, b: RGB)
    ensures Dist2(a, b) >= 0
    ensures Dist2(a, b) == Dist2(b, a)
    ensures Dist2(a, b) == 0 <==> a == b
  {
    SquareNonNegative(a.r - b.r);
    SquareNonNegative(a.g - b.g);
    SquareNonNegative(a.b - b.b);
    assert (a.r - b.r) * (a.r - b.r) == (b.r - a.r) * (b.r - a.r);
    assert (a.g - b.g) * (a.g - b.g) == (b.g - a.g) * (b.g - a.g);
    assert (a.b - b.b) * (a.b - b.b) == (b.b - a.b) * (b.b - a.b);
  }

  // ------------------------------------------------------------------ palettes

  /** The number of colours a count asks for: `Math.max(1, Math.floor(count))`; `NaN` gives a loop that never runs. */
  function Steps(count: Num): nat {
    match count
    case Finite(v) => if v.Floor < 1 then 1 else v.Floor
    case NegInf => 1
    case NaN => 0
    case PosInf => 0
  }

  /** The HSL colour of entry `i` of a monochrome ramp of `n`: lightness evenly spaced from 0.1 to 0.9, saturation times 0.9. */
  function MonoLevel(hsl: HSL, n: nat, i: nat): HSL {
    var t := if n > 1 then i as real / (n - 1) as real else 0.0;
    HSL(hsl.h, hsl.s * 0.9, 0.1 + 0.8 * t)
  }

  /** `mono(rgb, count)`; an infinite count never finishes in the source and is not a valid call here. */
  method Mono(rgb: RGB, count: Num, toHsl: RGB -> HSL, fromHsl: HSL -> RGB) returns (out: seq<RGB>)
    requires count != PosInf
    ensures |out| == Steps(count)
    ensures forall i | 0 <= i < |out| :: out[i] == fromHsl(MonoLevel(toHsl(rgb), Steps(count), i))
  {
    var hsl := toHsl(rgb);
    var steps := Steps(count);
    out := [];
    for i := 0 to steps
      invariant |out| == i
      invariant forall k | 0 <= k < i :: out[k] == fromHsl(MonoLevel(hsl, steps, k))
    {
      out := out + [fromHsl(MonoLevel(hsl, steps, i))];
    }
  }

  /** The ramp goes from lightness 0.1 up to 0.9, strictly increasing, at constant hue. */
  lemma MonoRamp(hsl: HSL, n: nat, i: nat)
    requires 1 <= n && i < n
    ensures MonoLevel(hsl, n, 0).l == 0.1
    ensures n > 1 ==> MonoLevel(hsl, n, n - 1).l == 0.9
    ensures i + 1 < n ==> MonoLevel(hsl, n, i).l < MonoLevel(hsl, n, i + 1).l
    ensures MonoLevel(hsl, n, i).h == hsl.h
  {
    if n > 1 {
      var d := (n - 1) as real;
      DivSelf(d);
      if i + 1 < n {
        DivLess(i as real, (i + 1) as real, d);
      }
    }
  }

  lemma DivSelf(d: real)
    requires d > 0.0
    ensures d / d == 1.0 && 0.0 / d == 0.0
  {
  }

  lemma DivLess(x: real, y: real, d: real)
    requires x < y && d > 0.0
    ensures x / d < y / d
  {
    assert y / d - x / d == (y - x) / d;
  }

  /** Entry `i` (counted from 1) of the shades: the lightness scaled by `i / (n + 1)`. */
  function Shade(hsl: HSL, n: nat, i: nat): HSL {
    HSL(hsl.h, hsl.s, Clamp01(Finite(hsl.l * (i as real / (n + 1) as real))))
  }

  /** Entry `i` (counted from 1) of the tints: the lightness moved towards 1 by `i / (n + 1)`, saturation times 0.9. */
  function Tint(hsl: HSL, n: nat, i: nat): HSL {
    HSL(hsl.h, hsl.s * 0.9, Clamp01(Finite(hsl.l + (1.0 - hsl.l) * (i as real / (n + 1) as real))))
  }

  /** `shadesTints(rgb, steps)` as written: the shades for `i` from `n` down to 1, the colour, then the tints. */
  method ShadesTints(rgb: RGB, stepsIn: Num, toHsl: RGB -> HSL, fromHsl: HSL -> RGB) returns (out: seq<RGB>)
    requires stepsIn != PosInf
    ensures |out| == 2 * Steps(stepsIn) + 1 && out[Steps(stepsIn)] == rgb
    ensures forall k | 0 <= k < Steps(stepsIn) :: out[k] == fromHsl(Shade(toHsl(rgb), Steps(stepsIn), Steps(stepsIn) - k))
    ensures forall k | Steps(stepsIn) < k <= 2 * Steps(stepsIn) :: out[k] == fromHsl(Tint(toHsl(rgb), Steps(stepsIn), k - Steps(stepsIn)))
  {
    var hsl := toHsl(rgb);
    var steps := Steps(stepsIn);
    out := [];
    var i: nat := steps;
    while i >= 1
      invariant i <= steps && |out| == steps - i
      invariant forall k | 0 <= k < |out| :: out[k] == fromHsl(Shade(hsl, steps, steps - k))
    {
      out := out + [fromHsl(Shade(hsl, steps, i))];
      i := i - 1;
    }
    out := out + [rgb];
    for j := 1 to steps + 1
      invariant |out| == steps + j
      invariant out[steps] == rgb
      invariant forall k | 0 <= k < steps :: out[k] == fromHsl(Shade(hsl, steps, steps - k))
      invariant forall k | steps < k < steps + j :: out[k] == fromHsl(Tint(hsl, steps, k - steps))
    {
      out := out + [fromHsl(Tint(hsl, steps, j))];
    }
  }

  /** A larger fraction of a non-negative lightness is no smaller. */
  lemma ScaleMonotone(l: real, a: real, b: real)
    requires 0.0 <= l && a <= b
    ensures l * a <= l * b
  {
    assert l * b - l * a == l * (b - a);
  }

  lemma FractionMonotone(i: nat, j: nat, n: nat)
    requires i <= j
    ensures i as real / (n + 1) as real <= j as real / (n + 1) as real
  {
  }

  /** Deeper shades are darker, for a non-negative lightness. */
  lemma ShadeMonotone(hsl: HSL, n: nat, i: nat, j: nat)
    requires 0.0 <= hsl.l && i <= j
    ensures Shade(hsl, n, i).l <= Shade(hsl, n, j).l
  {
    FractionMonotone(i, j, n);
    ScaleMonotone(hsl.l, i as real / (n + 1) as real, j as real / (n + 1) as real);
    Clamp01Monotone(hsl.l * (i as real / (n + 1) as real), hsl.l * (j as real / (n + 1) as real));
  }

  /** Further tints are lighter, for a lightness at most 1. */
  lemma TintMonotone(hsl: HSL, n: nat, i: nat, j: nat)
    requires hsl.l <= 1.0 && i <= j
    ensures Tint(hsl, n, i).l <= Tint(hsl, n, j).l
  {
    FractionMonotone(i, j, n);
    ScaleMonotone(1.0 - hsl.l, i as real / (n + 1) as real, j as real / (n + 1) as real);
    Clamp01Monotone(hsl.l + (1.0 - hsl.l) * (i as real / (n + 1) as real), hsl.l + (1.0 - hsl.l) * (j as real / (n + 1) as real));
  }

  /** Every shade is at most as light as the colour, and every tint at least as light, for a lightness in [0, 1]. */
  lemma AroundTheColour(hsl: HSL, n: nat, i: nat)
    requires 0.0 <= hsl.l <= 1.0 && i <= n
    ensures Shade(hsl, n, i).l <= hsl.l
    ensures hsl.l <= Tint(hsl, n, i).l
  {
    ShadeMonotone(hsl, n, i, n + 1);
    TintMonotone(hsl, n, 0, i);
    Unscaled(hsl, n);
  }

  /** Step `n + 1` of the shades and step 0 of the tints are the colour's own lightness. */
  lemma Unscaled(hsl: HSL, n: nat)
    requires 0.0 <= hsl.l <= 1.0
    ensures Shade(hsl, n, n + 1).l == hsl.l == Tint(hsl, n, 0).l
  {
    DivSelf((n + 1) as real);
  }

  /**
   * As written, the shades come lightest first: with a lightness in (0, 1] and at least two
   * steps, each shade is darker than the one before it, so the darkest shade stands next to the
   * colour itself rather than at the start of the ramp.
   */
  lemma ShadesLightestFirst(hsl: HSL, n: nat, k: nat)
    requires 0.0 < hsl.l <= 1.0 && k + 1 < n
    ensures Shade(hsl, n, n - k).l > Shade(hsl, n, n - (k + 1)).l
  {
    ShadeIncreasing(hsl, n, n - (k + 1), n - k);
  }

  /** For a lightness in (0, 1], a larger step gives a strictly lighter shade. */
  lemma ShadeIncreasing(hsl: HSL, n: nat, i: nat, j: nat)
    requires 0.0 < hsl.l <= 1.0 && i < j <= n + 1
    ensures Shade(hsl, n, i).l < Shade(hsl, n, j).l
  {
    FractionsBetween(i, j, n);
    ShadeLess(hsl, n, i, j, i as real / (n + 1) as real, j as real / (n + 1) as real);
  }

  lemma ShadeLess(hsl: HSL, n: nat, i: nat, j: nat, a: real, b: real)
    requires 0.0 < hsl.l <= 1.0 && 0.0 <= a < b <= 1.0
    requires a == i as real / (n + 1) as real && b == j as real / (n + 1) as real
    ensures Shade(hsl, n, i).l < Shade(hsl, n, j).l
  {
    ShadeStrict(hsl.l, a, b);
  }

  lemma FractionsBetween(i: nat, j: nat, n: nat)
    requires i < j <= n + 1
    ensures 0.0 <= i as real / (n + 1) as real < j as real / (n + 1) as real <= 1.0
  {
    DivLess(i as real, j as real, (n + 1) as real);
    FractionMonotone(j, n + 1, n);
    DivSelf((n + 1) as real);
  }

  lemma ShadeStrict(l: real, a: real, b: real)
    requires 0.0 < l <= 1.0 && 0.0 <= a < b <= 1.0
    ensures Clamp01(Finite(l * a)) < Clamp01(Finite(l * b))
  {
    var lo, hi := l * a, l * b;
    ProductNonNegative(l, a);
    assert hi - lo == l * (b - a);
    ProductPositive(l, b - a);
    ProductNonNegative(l, 1.0 - b);
    assert l - hi == l * (1.0 - b);
    assert 0.0 <= lo;
    assert lo < hi;
    assert hi <= 1.0;
    assert Clamp01(Finite(lo)) == lo && Clamp01(Finite(hi)) == hi;
  }

  lemma ProductNonNegative(x: real, y: real)
    requires 0.0 <= x && 0.0 <= y
    ensures 0.0 <= x * y
  {
  }

  lemma ProductPositive(x: real, y: real)
    requires 0.0 < x && 0.0 < y
    ensures 0.0 < x * y
  {
  }

  /** `shadesTints` read as one ramp whose lightness rises throughout: the shades for `i` from 1 up to `n`, darkest first. */
  method ShadesTintsRamp(rgb: RGB, stepsIn: Num, toHsl: RGB -> HSL, fromHsl: HSL -> RGB) returns (out: seq<RGB>)
    requires stepsIn != PosInf
    ensures |out| == 2 * Steps(stepsIn) + 1 && out[Steps(stepsIn)] == rgb
    ensures forall k | 0 <= k < 2 * Steps(stepsIn) + 1 && k != Steps(stepsIn) :: out[k] == fromHsl(RampLevel(toHsl(rgb), Steps(stepsIn), k))
  {
    var hsl := toHsl(rgb);
    var steps := Steps(stepsIn);
    out := [];
    for i := 1 to steps + 1
      invariant |out| == i - 1
      invariant forall k | 0 <= k < i - 1 :: out[k] == fromHsl(RampLevel(hsl, steps, k))
    {
      out := out + [fromHsl(Shade(hsl, steps, i))];
    }
    out := out + [rgb];
    for j := 1 to steps + 1
      invariant |out| == steps + j
      invariant out[steps] == rgb
      invariant forall k | 0 <= k < steps + j && k != steps :: out[k] == fromHsl(RampLevel(hsl, steps, k))
    {
      out := out + [fromHsl(Tint(hsl, steps, j))];
    }
  }

  /** Entry `k` of the alternative ramp of `2n + 1`: shades darkest first, the colour's own HSL in the middle, then the tints. */
  function RampLevel(hsl: HSL, n: nat, k: nat): HSL {
    if k < n then Shade(hsl, n, k + 1) else if k == n then hsl else Tint(hsl, n, k - n)
  }

  /** The alternative ramp runs from dark to light: along it the lightness never decreases, for a lightness in [0, 1]. */
  lemma RampDarkToLight(hsl: HSL, n: nat, k: nat)
    requires 0.0 <= hsl.l <= 1.0 && k < 2 * n
    ensures RampLevel(hsl, n, k).l <= RampLevel(hsl, n, k + 1).l
  {
    if k + 1 < n {
      ShadeMonotone(hsl, n, k + 1, k + 2);
    } else if k + 1 == n {
      AroundTheColour(hsl, n, n);
    } else if k == n {
      AroundTheColour(hsl, n, 1);
    } else {
      TintMonotone(hsl, n, k - n, k + 1 - n);
    }
  }

}
