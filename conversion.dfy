/** The colour-space converters of src/functions/conversion.ts, over exact reals. */
module Conversion {
  import opened Wrappers
  import opened Text

  datatype Rgb = Rgb(r: real, g: real, b: real)
  datatype Hsl = Hsl(h: real, sLightness: real, l: real)
  datatype Hsv = Hsv(h: real, sValue: real, v: real)
  datatype Rgba = Rgba(r: real, g: real, b: real, a: real)

  /** What the three composite helpers return. */
  datatype Hslsv = Hslsv(h: real, sLightness: real, l: real, sValue: real, v: real)
  datatype Rgbsv = Rgbsv(r: real, g: real, b: real, sValue: real, v: real)
  datatype Rgbsl = Rgbsl(r: real, g: real, b: real, sLightness: real, l: real)

  /** The error `hexToRgba` throws. */
  datatype HexError = MalformedHex

  /** The domain the RGB converters assume: every channel in [0, 255]. */
  predicate InRange(r: real, g: real, b: real)
  {
    0.0 <= r <= 255.0 && 0.0 <= g <= 255.0 && 0.0 <= b <= 255.0
  }

  function Max3(x: real, y: real, z: real): (m: real)
    ensures m == x || m == y || m == z
    ensures m >= x && m >= y && m >= z
  {
    if x >= y && x >= z then x else if y >= z then y else z
  }

  function Min3(x: real, y: real, z: real): (m: real)
    ensures m == x || m == y || m == z
    ensures m <= x && m <= y && m <= z
  {
    if x <= y && x <= z then x else if y <= z then y else z
  }

  /** The hue both `rgbToHsl` and `rgbToHsv` compute from normalised channels: the
      `switch (max)` takes the first of r, g, b that equals the maximum. */
  function Hue(r: real, g: real, b: real): real
  {
    var max := Max3(r, g, b);
    var min := Min3(r, g, b);
    if max == min then 0.0
    else
      var d := max - min;
      var h :=
        if max == r then (g - b) / d + (if g < b then 6.0 else 0.0)
        else if max == g then (b - r) / d + 2.0
        else (r - g) / d + 4.0;
      h / 6.0 * 360.0
  }

  /** `rgbToHsl`. */
  function RgbToHsl(r: real, g: real, b: real): (c: Hsl)
    requires InRange(r, g, b)
  {
    var r, g, b := r / 255.0, g / 255.0, b / 255.0;
    var max := Max3(r, g, b);
    var min := Min3(r, g, b);
    var l := (max + min) / 2.0;
    if max == min then Hsl(Hue(r, g, b), 0.0, l)
    else
      var d := max - min;
      var s := if l > 0.5 then d / (2.0 - max - min) else d / (max + min);
      Hsl(Hue(r, g, b), s, l)
  }

  /** `hue2rgb`, the two-segment interpolation inside `hslToRgb`. */
  function Hue2Rgb(p: real, q: real, t: real): real
  {
    var t := if t < 0.0 then t + 1.0 else t;
    var t := if t > 1.0 then t - 1.0 else t;
    if t < 1.0 / 6.0 then p + (q - p) * 6.0 * t
    else if t < 1.0 / 2.0 then q
    else if t < 2.0 / 3.0 then p + (q - p) * (2.0 / 3.0 - t) * 6.0
    else p
  }

  /** `hslToRgb`. */
  function HslToRgb(h: real, s: real, l: real): (c: Rgb)
  {
    var h := h / 360.0;
    if s == 0.0 then Rgb(l * 255.0, l * 255.0, l * 255.0)
    else
      var q := if l < 0.5 then l * (1.0 + s) else l + s - l * s;
      var p := 2.0 * l - q;
      Rgb(Hue2Rgb(p, q, h + 1.0 / 3.0) * 255.0, Hue2Rgb(p, q, h) * 255.0, Hue2Rgb(p, q, h - 1.0 / 3.0) * 255.0)
  }

  /** `hsvToRgb`: the sector `Math.floor(h * 6 / 360) % 6` picks each channel from a table.
      For a negative hue the sector can be negative, and JavaScript's `%` keeps the sign, so the
      lookup can fall outside the tables; the model takes the hue non-negative. */
  function HsvToRgb(h: real, s: real, v: real): (c: Rgb)
    requires h >= 0.0
  {
    var h := h * (6.0 / 360.0);
    var i := h.Floor;
    var f := h - i as real;
    var p := v * (1.0 - s);
    var q := v * (1.0 - f * s);
    var t := v * (1.0 - (1.0 - f) * s);
    Sector(i % 6, v, p, q, t)
  }

  /** `rgbToHsv`. */
  function RgbToHsv(r: real, g: real, b: real): (c: Hsv)
  {
    var r, g, b := r / 255.0, g / 255.0, b / 255.0;
    var max := Max3(r, g, b);
    var min := Min3(r, g, b);
    var d := max - min;
    var s := if max == 0.0 then 0.0 else d / max;
    Hsv(Hue(r, g, b), s, max)
  }
  lemma QuotientBounds(x: real, d: real)
    requires d > 0.0 && -d <= x <= d
    ensures -1.0 <= x / d <= 1.0
    ensures x < 0.0 ==> x / d < 0.0
    ensures x >= 0.0 ==> x / d >= 0.0
    ensures x > 0.0 ==> x / d > 0.0
    ensures x < d ==> x / d < 1.0
    ensures -d < x ==> -1.0 < x / d
  {
    QuotientTimes(x, d);
    FactorBounds(x / d, x, d);
  }

  /** The hue lies in [0, 360) whatever the channels. */
  lemma HueRange(r: real, g: real, b: real)
    ensures 0.0 <= Hue(r, g, b) < 360.0
  {
    var max := Max3(r, g, b);
    var min := Min3(r, g, b);
    if max != min {
      var d := max - min;
      if max == r {
        QuotientBounds(g - b, d);
      } else if max == g {
        QuotientBounds(b - r, d);
      } else {
        QuotientBounds(r - g, d);
        assert r < b && g < b;
      }
    }
  }

  /** The quotient is the only number that gives the dividend back. */
  lemma QuotientUnique(x: real, y: real, d: real)
    requires d != 0.0 && x * d == y
    ensures x == y / d
  {
    var k := y / d;
    assert k * d == y;
    assert (x - k) * d == 0.0;
  }

  /** Normalising by 255 commutes with taking the largest and the smallest channel. */
  lemma ScaledExtremes(r: real, g: real, b: real)
    ensures Max3(r / 255.0, g / 255.0, b / 255.0) == Max3(r, g, b) / 255.0
    ensures Min3(r / 255.0, g / 255.0, b / 255.0) == Min3(r, g, b) / 255.0
  {
  }

  /** `rgbToHsl` on its domain: h in [0, 360), saturation and lightness in [0, 1], and the
      lightness the mean of the extreme channels. */
  lemma RgbToHslRange(r: real, g: real, b: real)
    requires InRange(r, g, b)
    ensures var c := RgbToHsl(r, g, b);
      && 0.0 <= c.h < 360.0 && 0.0 <= c.sLightness <= 1.0 && 0.0 <= c.l <= 1.0
      && c.l == (Max3(r, g, b) + Min3(r, g, b)) / 510.0
  {
    var R, G, B := r / 255.0, g / 255.0, b / 255.0;
    var max, min := Max3(R, G, B), Min3(R, G, B);
    ScaledExtremes(r, g, b);
    HueRange(R, G, B);
    var l := (max + min) / 2.0;
    if max != min {
      var d := max - min;
      if l > 0.5 {
        QuotientBounds(d, 2.0 - max - min);
        assert RgbToHsl(r, g, b) == Hsl(Hue(R, G, B), d / (2.0 - max - min), l);
      } else {
        QuotientBounds(d, max + min);
        assert RgbToHsl(r, g, b) == Hsl(Hue(R, G, B), d / (max + min), l);
      }
    }
  }

  /** `rgbToHsl` gives saturation 0 exactly for a grey (all channels equal), and then hue 0
      and lightness r / 255. */
  lemma RgbToHslGrey(r: real, g: real, b: real)
    requires InRange(r, g, b)
    ensures RgbToHsl(r, g, b).sLightness == 0.0 <==> r == g == b
    ensures r == g == b ==> RgbToHsl(r, g, b) == Hsl(0.0, 0.0, r / 255.0)
  {
    var R, G, B := r / 255.0, g / 255.0, b / 255.0;
    var max, min := Max3(R, G, B), Min3(R, G, B);
    var l := (max + min) / 2.0;
    if max != min {
      var d := max - min;
      if l > 0.5 {
        QuotientBounds(d, 2.0 - max - min);
        assert RgbToHsl(r, g, b).sLightness == d / (2.0 - max - min);
      } else {
        QuotientBounds(d, max + min);
        assert RgbToHsl(r, g, b).sLightness == d / (max + min);
      }
    }
  }

  /** The HSV saturation does not depend on the scale of the channels. */
  lemma ScaledSaturation(max: real, min: real)
    requires max != 0.0
    ensures (max / 255.0 - min / 255.0) / (max / 255.0) == (max - min) / max
  {
    var M, m := max / 255.0, min / 255.0;
    var x := (M - m) / M;
    assert x * M == M - m;
    assert x * max == max - min;
    QuotientUnique(x, max - min, max);
  }

  /** `rgbToHsv`: v is the largest channel over 255, the saturation is 0 for black and
      (max - min) / max otherwise, and the hue is the one `rgbToHsl` gives. */
  lemma RgbToHsvSpec(r: real, g: real, b: real)
    ensures var c := RgbToHsv(r, g, b);
      var max, min := Max3(r, g, b), Min3(r, g, b);
      && c.v == max / 255.0
      && c.sValue == (if max == 0.0 then 0.0 else (max - min) / max)
      && (InRange(r, g, b) ==> c.h == RgbToHsl(r, g, b).h)
  {
    var max, min := Max3(r, g, b), Min3(r, g, b);
    ScaledExtremes(r, g, b);
    if max != 0.0 {
      ScaledSaturation(max, min);
    }
  }

  /** `rgbToHsv` on the RGB domain: h in [0, 360), saturation and value in [0, 1]. */
  lemma RgbToHsvRange(r: real, g: real, b: real)
    requires InRange(r, g, b)
    ensures var c := RgbToHsv(r, g, b);
      0.0 <= c.h < 360.0 && 0.0 <= c.sValue <= 1.0 && 0.0 <= c.v <= 1.0
  {
    var R, G, B := r / 255.0, g / 255.0, b / 255.0;
    var max, min := Max3(R, G, B), Min3(R, G, B);
    HueRange(R, G, B);
    if max != 0.0 {
      QuotientBounds(max - min, max);
    }
  }

  lemma NonNegProduct(a: real, b: real)
    requires a >= 0.0 && b >= 0.0
    ensures a * b >= 0.0
  {
  }

  /** The product of two positive numbers is positive. */
  lemma PositiveProduct(a: real, b: real)
    requires a > 0.0 && b > 0.0
    ensures a * b > 0.0
  {
  }

  /** A product with a positive factor is zero only when the other factor is. */
  lemma ZeroProduct(a: real, d: real)
    requires d > 0.0 && a * d == 0.0
    ensures a == 0.0
  {
  }

  /** Bounds on the product of two numbers in [0, 1], each about the single term x * y. */
  lemma UnitProduct(x: real, y: real)
    requires 0.0 <= x <= 1.0 && 0.0 <= y <= 1.0
    ensures 0.0 <= x * y
    ensures x * y <= x
    ensures x * y <= y
    ensures x + y - 1.0 <= x * y
  {
    NonNegProduct(x, y);
    NonNegProduct(x, 1.0 - y);
    NonNegProduct(1.0 - x, y);
    NonNegProduct(1.0 - x, 1.0 - y);
    assert x * (1.0 - y) == x - x * y;
    assert (1.0 - x) * y == y - x * y;
    assert (1.0 - x) * (1.0 - y) == 1.0 - x - y + x * y;
  }

  /** A step from p towards q by a fraction u in [0, 1] stays between them. */
  lemma Interpolate(p: real, q: real, u: real, y: real)
    requires p <= q && 0.0 <= u <= 1.0 && y == p + (q - p) * u
    ensures p <= y <= q
  {
    var d := q - p;
    assert d * (1.0 - u) >= 0.0;
    assert d * u >= 0.0;
    assert y == p + d * u;
    assert d * u + d * (1.0 - u) == d;
  }

  /** How far `hue2rgb` moves from p towards q at t: the piecewise-linear weight of its
      four segments. */
  function HueWeight(t: real): (w: real)
    ensures -1.0 <= t <= 2.0 ==> 0.0 <= w <= 1.0
  {
    var t := if t < 0.0 then t + 1.0 else t;
    var t := if t > 1.0 then t - 1.0 else t;
    if t < 1.0 / 6.0 then 6.0 * t
    else if t < 1.0 / 2.0 then 1.0
    else if t < 2.0 / 3.0 then (2.0 / 3.0 - t) * 6.0
    else 0.0
  }

  lemma Hue2RgbWeight(p: real, q: real, t: real)
    ensures Hue2Rgb(p, q, t) == p + (q - p) * HueWeight(t)
  {
    var t1 := if t < 0.0 then t + 1.0 else t;
    var t2 := if t1 > 1.0 then t1 - 1.0 else t1;
    if t2 < 1.0 / 6.0 {
      assert (q - p) * 6.0 * t2 == (q - p) * (6.0 * t2);
    } else if t2 < 1.0 / 2.0 {
    } else if t2 < 2.0 / 3.0 {
      assert (q - p) * (2.0 / 3.0 - t2) * 6.0 == (q - p) * ((2.0 / 3.0 - t2) * 6.0);
    }
  }

  /** `hue2rgb` stays between p and q for any t within one cycle of [0, 1]. */
  lemma Hue2RgbBetween(p: real, q: real, t: real)
    requires p <= q && -1.0 <= t <= 2.0
    ensures p <= Hue2Rgb(p, q, t) <= q
  {
    Hue2RgbWeight(p, q, t);
    Interpolate(p, q, HueWeight(t), Hue2Rgb(p, q, t));
  }

  /** The two levels `hslToRgb` interpolates between lie in [0, 1], p below q. */
  lemma HslPQ(s: real, l: real)
    requires 0.0 <= s <= 1.0 && 0.0 <= l <= 1.0
    ensures var q := if l < 0.5 then l * (1.0 + s) else l + s - l * s;
      0.0 <= 2.0 * l - q <= q <= 1.0
  {
    UnitProduct(l, s);
    assert l * (1.0 + s) == l + l * s;
  }

  /** `hslToRgb`: saturation 0 gives the grey 255 * l, and on its documented domain
      (h in [0, 360], s and l in [0, 1]) every channel lies in [0, 255]. */
  lemma HslToRgbRange(h: real, s: real, l: real)
    ensures s == 0.0 ==> HslToRgb(h, s, l) == Rgb(255.0 * l, 255.0 * l, 255.0 * l)
    ensures 0.0 <= h <= 360.0 && 0.0 <= s <= 1.0 && 0.0 <= l <= 1.0 ==>
      var c := HslToRgb(h, s, l);
      InRange(c.r, c.g, c.b)
  {
    if 0.0 <= h <= 360.0 && 0.0 <= s <= 1.0 && 0.0 <= l <= 1.0 && s != 0.0 {
      var q := if l < 0.5 then l * (1.0 + s) else l + s - l * s;
      var p := 2.0 * l - q;
      HslPQ(s, l);
      Hue2RgbBetween(p, q, h / 360.0 + 1.0 / 3.0);
      Hue2RgbBetween(p, q, h / 360.0);
      Hue2RgbBetween(p, q, h / 360.0 - 1.0 / 3.0);
    }
  }

  /** For a hue in [0, 360) the sector `Math.floor(h * 6 / 360)` is already one of 0..5. */
  lemma HsvSector(h: real)
    requires 0.0 <= h < 360.0
    ensures 0 <= (h * (6.0 / 360.0)).Floor <= 5
  {
  }

  /** `hsvToRgb` with saturation 0 gives the grey 255 * v. */
  lemma HsvToRgbGrey(h: real, v: real)
    requires h >= 0.0
    ensures HsvToRgb(h, 0.0, v) == Rgb(255.0 * v, 255.0 * v, 255.0 * v)
  {
  }

  /** The three levels `hsvToRgb` picks from lie in [0, 1]. */
  lemma HsvLevels(f: real, s: real, v: real)
    requires 0.0 <= f <= 1.0 && 0.0 <= s <= 1.0 && 0.0 <= v <= 1.0
    ensures 0.0 <= v * (1.0 - s) <= 1.0
    ensures 0.0 <= v * (1.0 - f * s) <= 1.0
    ensures 0.0 <= v * (1.0 - (1.0 - f) * s) <= 1.0
  {
    UnitProduct(f, s);
    UnitProduct(1.0 - f, s);
    UnitProduct(v, 1.0 - s);
    UnitProduct(v, 1.0 - f * s);
    UnitProduct(v, 1.0 - (1.0 - f) * s);
  }

  /** `hsvToRgb` with s and v in [0, 1] puts every channel in [0, 255]. */
  lemma HsvToRgbRange(h: real, s: real, v: real)
    requires h >= 0.0 && 0.0 <= s <= 1.0 && 0.0 <= v <= 1.0
    ensures var c := HsvToRgb(h, s, v);
      InRange(c.r, c.g, c.b)
  {
    var h6 := h * (6.0 / 360.0);
    var i, f := h6.Floor, h6 - h6.Floor as real;
    HsvToRgbSector(h, s, v, i, f);
    HsvLevels(f, s, v);
    SectorRange(i % 6, v, v * (1.0 - s), v * (1.0 - f * s), v * (1.0 - (1.0 - f) * s), HsvToRgb(h, s, v));
  }

  /** `hsvToRgb` picks sextant i mod 6 of the hue, with f the fractional part of h / 60. */
  lemma HsvToRgbSector(h: real, s: real, v: real, i: int, f: real)
    requires h >= 0.0 && i == (h * (6.0 / 360.0)).Floor && f == h * (6.0 / 360.0) - i as real
    ensures 0.0 <= f < 1.0
    ensures HsvToRgb(h, s, v) == Sector(i % 6, v, v * (1.0 - s), v * (1.0 - f * s), v * (1.0 - (1.0 - f) * s))
  {
  }

  /** Whichever sextant is picked, levels in [0, 1] give channels in [0, 255]. */
  lemma SectorRange(i: int, v: real, p: real, q: real, t: real, c: Rgb)
    requires 0 <= i <= 5 && c == Sector(i, v, p, q, t)
    requires 0.0 <= v <= 1.0 && 0.0 <= p <= 1.0 && 0.0 <= q <= 1.0 && 0.0 <= t <= 1.0
    ensures InRange(c.r, c.g, c.b)
  {
  }

  /** In each sextant one channel is the level v and one the level p, and the third lies
      between them: sextants 0 and 5 put v in red, 1 and 2 in green, 3 and 4 in blue; p goes
      to blue in 0 and 1, to red in 2 and 3, to green in 4 and 5. */
  lemma SectorChannels(i: int, v: real, p: real, q: real, t: real, c: Rgb)
    requires 0 <= i <= 5 && c == Sector(i, v, p, q, t)
    requires p <= q <= v && p <= t <= v
    ensures Max3(c.r, c.g, c.b) == v * 255.0 && Min3(c.r, c.g, c.b) == p * 255.0
    ensures (i == 0 || i == 5 ==> c.r == v * 255.0) && (i == 1 || i == 2 ==> c.g == v * 255.0)
      && (i == 3 || i == 4 ==> c.b == v * 255.0)
    ensures (i == 2 || i == 3 ==> c.r == p * 255.0) && (i == 4 || i == 5 ==> c.g == p * 255.0)
      && (i == 0 || i == 1 ==> c.b == p * 255.0)
  {
  }

  /** The levels of `hsvToRgb` are ordered: p = v(1 - s) is the lowest, v the highest, and
      the two interpolated levels q and t lie between. */
  lemma HsvLevelsOrdered(f: real, s: real, v: real, p: real, q: real, t: real)
    requires 0.0 <= f <= 1.0 && 0.0 <= s <= 1.0 && v >= 0.0
    requires p == v * (1.0 - s) && q == v * (1.0 - f * s) && t == v * (1.0 - (1.0 - f) * s)
    ensures p <= q <= v && p <= t <= v
  {
    assert q - p == v * (s * (1.0 - f));
    assert v - q == v * (f * s);
    assert t - p == v * (f * s);
    assert v - t == v * (s * (1.0 - f));
    NonNegProduct(s, 1.0 - f);
    NonNegProduct(f, s);
    NonNegProduct(v, s * (1.0 - f));
    NonNegProduct(v, f * s);
  }

  /** `hsvToRgb` with s in [0, 1] and v >= 0: the largest channel is 255 v and the smallest
      255 v (1 - s), placed in the channels the sextant `floor(h / 60) mod 6` names. */
  lemma HsvToRgbExtremes(h: real, s: real, v: real)
    requires h >= 0.0 && 0.0 <= s <= 1.0 && v >= 0.0
    ensures var c := HsvToRgb(h, s, v);
      var i := (h * (6.0 / 360.0)).Floor % 6;
      var p := v * (1.0 - s);
      && Max3(c.r, c.g, c.b) == v * 255.0 && Min3(c.r, c.g, c.b) == p * 255.0
      && (i == 0 || i == 5 ==> c.r == v * 255.0) && (i == 1 || i == 2 ==> c.g == v * 255.0)
      && (i == 3 || i == 4 ==> c.b == v * 255.0)
      && (i == 2 || i == 3 ==> c.r == p * 255.0) && (i == 4 || i == 5 ==> c.g == p * 255.0)
      && (i == 0 || i == 1 ==> c.b == p * 255.0)
  {
    var h6 := h * (6.0 / 360.0);
    var i, f := h6.Floor, h6 - h6.Floor as real;
    var p, q, t := v * (1.0 - s), v * (1.0 - f * s), v * (1.0 - (1.0 - f) * s);
    HsvToRgbSector(h, s, v, i, f);
    HsvLevelsOrdered(f, s, v, p, q, t);
    SectorChannels(i % 6, v, p, q, t, HsvToRgb(h, s, v));
  }

  /** Channels whose largest is 255 v and smallest 255 v (1 - s) have HSV value v, and
      saturation s unless v is 0. */
  lemma HsvOfExtremes(r: real, g: real, b: real, s: real, v: real)
    requires v >= 0.0 && Max3(r, g, b) == v * 255.0 && Min3(r, g, b) == v * (1.0 - s) * 255.0
    ensures RgbToHsv(r, g, b).v == v
    ensures v > 0.0 ==> RgbToHsv(r, g, b).sValue == s
    ensures v == 0.0 ==> RgbToHsv(r, g, b).sValue == 0.0
  {
    RgbToHsvSpec(r, g, b);
    var max, min := Max3(r, g, b), Min3(r, g, b);
    if v > 0.0 {
      assert s * max == max - min;
      QuotientUnique(s, max - min, max);
    }
  }

  /** `rgbToHsv` recovers the value of every colour `hsvToRgb` produces, and its saturation
      whenever the value is not 0 (black has saturation 0 whatever s was). */
  lemma HsvToRgbRecoversSV(h: real, s: real, v: real)
    requires h >= 0.0 && 0.0 <= s <= 1.0 && v >= 0.0
    ensures var c := HsvToRgb(h, s, v);
      && RgbToHsv(c.r, c.g, c.b).v == v
      && (v > 0.0 ==> RgbToHsv(c.r, c.g, c.b).sValue == s)
      && (v == 0.0 ==> RgbToHsv(c.r, c.g, c.b).sValue == 0.0)
  {
    var c := HsvToRgb(h, s, v);
    HsvToRgbExtremes(h, s, v);
    HsvOfExtremes(c.r, c.g, c.b, s, v);
  }

  /** Multiplying a quotient by its divisor gives the dividend back. */
  lemma QuotientTimes(x: real, d: real)
    requires d != 0.0
    ensures d * (x / d) == x
  {
  }

  /** Half a positive divisor times the quotient is half the dividend. */
  lemma HalfDivisorTimesQuotient(n: real, d: real)
    requires n > 0.0
    ensures (n / 2.0) * (d / n) == d / 2.0
  {
    var k := d / n;
    assert k * n == d;
    assert (n / 2.0) * k == (n * k) / 2.0;
  }

  /** For a chromatic colour (min < max within [0, 1]), the saturation `rgbToHsl` computes is
      not 0, and the levels q and p that `hslToRgb` derives from it and the lightness are the
      largest and the smallest channel again. */
  lemma HslLevelsRecovered(max: real, min: real, l: real, s: real)
    requires 0.0 <= min < max <= 1.0 && l == (max + min) / 2.0
    requires s == if l > 0.5 then (max - min) / (2.0 - max - min) else (max - min) / (max + min)
    ensures s != 0.0
    ensures (if l < 0.5 then l * (1.0 + s) else l + s - l * s) == max
    ensures 2.0 * l - max == min
  {
    var d := max - min;
    if l > 0.5 {
      var n := 2.0 - max - min;
      QuotientBounds(d, n);
      HalfDivisorTimesQuotient(n, d);
      assert n / 2.0 == 1.0 - l;
      assert l + s - l * s == l + (1.0 - l) * s;
    } else {
      var n := max + min;
      QuotientBounds(d, n);
      HalfDivisorTimesQuotient(n, d);
      if l == 0.5 {
        assert s == d;
      }
    }
  }

  /** The weights `hue2rgb` applies at the three offsets of a hue in the red-to-yellow
      sextants, x in [0, 1] being the hue over 60 degrees. */
  lemma WeightsRedUp(x: real)
    requires 0.0 <= x <= 1.0
    ensures HueWeight(x / 6.0 + 1.0 / 3.0) == 1.0
    ensures HueWeight(x / 6.0) == x
    ensures HueWeight(x / 6.0 - 1.0 / 3.0) == 0.0
  {
  }

  /** The same for the magenta-to-red sextant, k in [-1, 0) being the hue over 60 degrees
      before it wraps past 360. */
  lemma WeightsRedDown(k: real)
    requires -1.0 <= k < 0.0
    ensures HueWeight((k + 6.0) / 6.0 + 1.0 / 3.0) == 1.0
    ensures HueWeight((k + 6.0) / 6.0) == 0.0
    ensures HueWeight((k + 6.0) / 6.0 - 1.0 / 3.0) == -k
  {
  }

  /** The same for the two sextants around green, k in [-1, 1]. */
  lemma WeightsGreen(k: real)
    requires -1.0 <= k <= 1.0
    ensures HueWeight((k + 2.0) / 6.0 + 1.0 / 3.0) == if k < 0.0 then -k else 0.0
    ensures HueWeight((k + 2.0) / 6.0) == 1.0
    ensures HueWeight((k + 2.0) / 6.0 - 1.0 / 3.0) == if k < 0.0 then 0.0 else k
  {
  }

  /** The same for the two sextants around blue, k in (-1, 1). */
  lemma WeightsBlue(k: real)
    requires -1.0 < k < 1.0
    ensures HueWeight((k + 4.0) / 6.0 + 1.0 / 3.0) == if k > 0.0 then k else 0.0
    ensures HueWeight((k + 4.0) / 6.0) == if k < 0.0 then -k else 0.0
    ensures HueWeight((k + 4.0) / 6.0 - 1.0 / 3.0) == 1.0
  {
  }

  /** `hue2rgb` between lo and hi = lo + d at a point of weight w. */
  lemma Hue2RgbAt(lo: real, hi: real, d: real, t: real, w: real)
    requires hi - lo == d && HueWeight(t) == w
    ensures Hue2Rgb(lo, hi, t) == lo + d * w
  {
    Hue2RgbWeight(lo, hi, t);
  }

  /** `hue2rgb` between b and r gives back the channels of a colour whose maximum is red and
      whose green is at least blue. */
  lemma HueChannelsRedUp(r: real, g: real, b: real)
    requires r >= g >= b && r > b
    ensures var x := (g - b) / (r - b);
      && Hue2Rgb(b, r, x / 6.0 + 1.0 / 3.0) == r
      && Hue2Rgb(b, r, x / 6.0) == g
      && Hue2Rgb(b, r, x / 6.0 - 1.0 / 3.0) == b
  {
    var d, x := r - b, (g - b) / (r - b);
    QuotientBounds(g - b, d);
    QuotientTimes(g - b, d);
    WeightsRedUp(x);
    Hue2RgbAt(b, r, d, x / 6.0 + 1.0 / 3.0, 1.0);
    Hue2RgbAt(b, r, d, x / 6.0, x);
    Hue2RgbAt(b, r, d, x / 6.0 - 1.0 / 3.0, 0.0);
  }

  /** The same when red is the maximum and green is below blue (the hue wraps past 300). */
  lemma HueChannelsRedDown(r: real, g: real, b: real)
    requires r >= b > g
    ensures var x := (g - b) / (r - g) + 6.0;
      && Hue2Rgb(g, r, x / 6.0 + 1.0 / 3.0) == r
      && Hue2Rgb(g, r, x / 6.0) == g
      && Hue2Rgb(g, r, x / 6.0 - 1.0 / 3.0) == b
  {
    var d, k := r - g, (g - b) / (r - g);
    QuotientBounds(g - b, d);
    QuotientTimes(g - b, d);
    WeightsRedDown(k);
    assert d * -k == b - g;
    Hue2RgbAt(g, r, d, (k + 6.0) / 6.0 + 1.0 / 3.0, 1.0);
    Hue2RgbAt(g, r, d, (k + 6.0) / 6.0, 0.0);
    Hue2RgbAt(g, r, d, (k + 6.0) / 6.0 - 1.0 / 3.0, -k);
  }

  /** The same when green is the maximum and red is not. */
  lemma HueChannelsGreen(r: real, g: real, b: real, min: real)
    requires g > r && g >= b && min == Min3(r, g, b)
    ensures var x := (b - r) / (g - min) + 2.0;
      && Hue2Rgb(min, g, x / 6.0 + 1.0 / 3.0) == r
      && Hue2Rgb(min, g, x / 6.0) == g
      && Hue2Rgb(min, g, x / 6.0 - 1.0 / 3.0) == b
  {
    var d, k := g - min, (b - r) / (g - min);
    QuotientBounds(b - r, d);
    QuotientTimes(b - r, d);
    WeightsGreen(k);
    var w1 := if k < 0.0 then -k else 0.0;
    var w3 := if k < 0.0 then 0.0 else k;
    if k < 0.0 {
      assert min == b && d * w1 == r - b && d * w3 == 0.0;
    } else {
      assert min == r && d * w1 == 0.0 && d * w3 == b - r;
    }
    Hue2RgbAt(min, g, d, (k + 2.0) / 6.0 + 1.0 / 3.0, w1);
    Hue2RgbAt(min, g, d, (k + 2.0) / 6.0, 1.0);
    Hue2RgbAt(min, g, d, (k + 2.0) / 6.0 - 1.0 / 3.0, w3);
  }

  /** The same when blue is the only maximum. */
  lemma HueChannelsBlue(r: real, g: real, b: real, min: real)
    requires b > r && b > g && min == Min3(r, g, b)
    ensures var x := (r - g) / (b - min) + 4.0;
      && Hue2Rgb(min, b, x / 6.0 + 1.0 / 3.0) == r
      && Hue2Rgb(min, b, x / 6.0) == g
      && Hue2Rgb(min, b, x / 6.0 - 1.0 / 3.0) == b
  {
    var d, k := b - min, (r - g) / (b - min);
    QuotientBounds(r - g, d);
    QuotientTimes(r - g, d);
    WeightsBlue(k);
    var w1 := if k > 0.0 then k else 0.0;
    var w2 := if k < 0.0 then -k else 0.0;
    if k > 0.0 {
      assert min == g && d * w1 == r - g && d * w2 == 0.0;
    } else {
      assert min == r && d * w1 == 0.0 && d * w2 == g - r;
    }
    Hue2RgbAt(min, b, d, (k + 4.0) / 6.0 + 1.0 / 3.0, w1);
    Hue2RgbAt(min, b, d, (k + 4.0) / 6.0, w2);
    Hue2RgbAt(min, b, d, (k + 4.0) / 6.0 - 1.0 / 3.0, 1.0);
  }

  /** For a chromatic colour, `hue2rgb` between the smallest and the largest channel, at the
      hue `rgbToHsl` found and its two offsets, gives the three channels back. */
  lemma HueChannels(r: real, g: real, b: real)
    requires Max3(r, g, b) != Min3(r, g, b)
    ensures var max, min := Max3(r, g, b), Min3(r, g, b);
      var h := Hue(r, g, b) / 360.0;
      && Hue2Rgb(min, max, h + 1.0 / 3.0) == r
      && Hue2Rgb(min, max, h) == g
      && Hue2Rgb(min, max, h - 1.0 / 3.0) == b
  {
    var max, min := Max3(r, g, b), Min3(r, g, b);
    var d := max - min;
    if max == r {
      if g < b {
        assert Hue(r, g, b) / 360.0 == ((g - b) / d + 6.0) / 6.0;
        HueChannelsRedDown(r, g, b);
      } else {
        assert Hue(r, g, b) / 360.0 == ((g - b) / d) / 6.0;
        HueChannelsRedUp(r, g, b);
      }
    } else if max == g {
      assert Hue(r, g, b) / 360.0 == ((b - r) / d + 2.0) / 6.0;
      HueChannelsGreen(r, g, b, min);
    } else {
      assert Hue(r, g, b) / 360.0 == ((r - g) / d + 4.0) / 6.0;
      HueChannelsBlue(r, g, b, min);
    }
  }

  /** The chromatic branch of `hslToRgb` gives (r, g, b) back once its levels are the
      extreme channels and `hue2rgb` between them returns each channel. */
  lemma HslToRgbChromatic(h: real, s: real, l: real, lo: real, hi: real, r: real, g: real, b: real)
    requires s != 0.0
    requires hi == (if l < 0.5 then l * (1.0 + s) else l + s - l * s) && lo == 2.0 * l - hi
    requires Hue2Rgb(lo, hi, h / 360.0 + 1.0 / 3.0) == r
    requires Hue2Rgb(lo, hi, h / 360.0) == g
    requires Hue2Rgb(lo, hi, h / 360.0 - 1.0 / 3.0) == b
    ensures HslToRgb(h, s, l) == Rgb(r * 255.0, g * 255.0, b * 255.0)
  {
  }

  /** The round trip on normalised channels in [0, 1]. */
  lemma HslRoundTripUnit(r: real, g: real, b: real)
    requires 0.0 <= r <= 1.0 && 0.0 <= g <= 1.0 && 0.0 <= b <= 1.0
    ensures var max, min := Max3(r, g, b), Min3(r, g, b);
      var l := (max + min) / 2.0;
      var d := max - min;
      var s := if max == min then 0.0 else if l > 0.5 then d / (2.0 - max - min) else d / (max + min);
      HslToRgb(Hue(r, g, b), s, l) == Rgb(r * 255.0, g * 255.0, b * 255.0)
  {
    var max, min := Max3(r, g, b), Min3(r, g, b);
    var l := (max + min) / 2.0;
    var d := max - min;
    if max != min {
      HslRoundTripChromatic(r, g, b, max, min, l, if l > 0.5 then d / (2.0 - max - min) else d / (max + min));
    } else {
      HslGrey(Hue(r, g, b), r, g, b, l);
    }
  }

  /** Saturation 0 gives back a grey whose channels all equal the lightness. */
  lemma HslGrey(h: real, r: real, g: real, b: real, l: real)
    requires r == l && g == l && b == l
    ensures HslToRgb(h, 0.0, l) == Rgb(r * 255.0, g * 255.0, b * 255.0)
  {
  }

  /** The chromatic case of the round trip, the extremes, lightness and saturation given. */
  lemma HslRoundTripChromatic(r: real, g: real, b: real, max: real, min: real, l: real, s: real)
    requires 0.0 <= r <= 1.0 && 0.0 <= g <= 1.0 && 0.0 <= b <= 1.0
    requires max == Max3(r, g, b) && min == Min3(r, g, b) && max != min && l == (max + min) / 2.0
    requires s == if l > 0.5 then (max - min) / (2.0 - max - min) else (max - min) / (max + min)
    ensures HslToRgb(Hue(r, g, b), s, l) == Rgb(r * 255.0, g * 255.0, b * 255.0)
  {
    HslLevelsRecovered(max, min, l, s);
    HueChannels(r, g, b);
    HslToRgbChromatic(Hue(r, g, b), s, l, min, max, r, g, b);
  }

  /** Exact round trip: `hslToRgb(rgbToHsl(r, g, b))` is (r, g, b) for every colour of the
      RGB domain. */
  lemma HslRoundTrip(r: real, g: real, b: real)
    requires InRange(r, g, b)
    ensures var c := RgbToHsl(r, g, b);
      HslToRgb(c.h, c.sLightness, c.l) == Rgb(r, g, b)
  {
    HslRoundTripUnit(r / 255.0, g / 255.0, b / 255.0);
  }

  /** `hsvToRgb` at a hue whose sector is known: the channels are the table entries of that
      sector, with f the position inside it and p, q, t the levels it derives. */
  lemma HsvToRgbAt(x: real, s: real, v: real, i: int, f: real, p: real, q: real, t: real)
    requires 0 <= i <= 5 && i as real <= x < i as real + 1.0 && f == x - i as real
    requires p == v * (1.0 - s) && q == v * (1.0 - f * s) && t == v * (1.0 - (1.0 - f) * s)
    ensures HsvToRgb(x / 6.0 * 360.0, s, v) == Sector(i, v, p, q, t)
  {
    assert (x / 6.0 * 360.0) * (6.0 / 360.0) == x;
    assert x.Floor == i;
  }

  /** Column i of `hsvToRgb`'s three tables (r from [v, q, p, p, t, v], g from
      [t, v, v, q, p, p], b from [p, p, t, v, v, q]), scaled to [0, 255]. */
  function Sector(i: int, v: real, p: real, q: real, t: real): (c: Rgb)
    requires 0 <= i <= 5
  {
    var (r, g, b) :=
      if i == 0 then (v, t, p)
      else if i == 1 then (q, v, p)
      else if i == 2 then (p, v, t)
      else if i == 3 then (p, q, v)
      else if i == 4 then (t, p, v)
      else (v, p, q);
    Rgb(r * 255.0, g * 255.0, b * 255.0)
  }

  /** A factor k with k * d == x, for d > 0 and x within [-d, d], lies in [-1, 1] and has
      the sign of x. */
  lemma FactorBounds(k: real, x: real, d: real)
    requires d > 0.0 && k * d == x && -d <= x <= d
    ensures -1.0 <= k <= 1.0
    ensures x < 0.0 ==> k < 0.0
    ensures x >= 0.0 ==> k >= 0.0
    ensures x < d ==> k < 1.0
    ensures -d < x ==> -1.0 < k
  {
    assert (k - 1.0) * d == x - d;
    assert (-1.0 - k) * d == -d - x;
    assert (-k) * d == -x;
    if k > 1.0 { PositiveProduct(k - 1.0, d); }
    if k < -1.0 { PositiveProduct(-1.0 - k, d); }
    if k >= 1.0 { NonNegProduct(k - 1.0, d); }
    if k <= -1.0 { NonNegProduct(-1.0 - k, d); }
    if k >= 0.0 { NonNegProduct(k, d); }
    if k < 0.0 { PositiveProduct(-k, d); }
  }

  /** With v the largest channel and s such that max * s is the spread, the three levels of
      `hsvToRgb` are the smallest channel, the largest less f of the spread, and the smallest
      plus f of it. */
  lemma HsvLevelsRecovered(max: real, min: real, s: real, f: real)
    requires max * s == max - min
    ensures max * (1.0 - s) == min
    ensures max * (1.0 - f * s) == max - f * (max - min)
    ensures max * (1.0 - (1.0 - f) * s) == min + f * (max - min)
  {
    assert max * (1.0 - s) == max - max * s;
    assert max * (1.0 - f * s) == max - f * (max * s);
    assert max * (1.0 - (1.0 - f) * s) == max - (max * s) + f * (max * s);
  }

  /** `hsvToRgb` in sector i at position f, with v the largest channel and s such that
      max * s is the spread max - min: the table entries are max, min, max less f of the
      spread and min plus f of it. */
  lemma HsvAt(x: real, s: real, max: real, min: real, i: int, f: real)
    requires 0 <= i <= 5 && i as real <= x < i as real + 1.0 && f == x - i as real
    requires max * s == max - min
    ensures HsvToRgb(x / 6.0 * 360.0, s, max)
      == Sector(i, max, min, max - f * (max - min), min + f * (max - min))
  {
    HsvLevelsRecovered(max, min, s, f);
    HsvToRgbAt(x, s, max, i, f, min, max - f * (max - min), min + f * (max - min));
  }

  /** The HSV round trip when red is the maximum and green at least blue; k is the hue
      position (g - b) / (r - b) and s the saturation. */
  lemma HsvChannelsRedUp(r: real, g: real, b: real, s: real, k: real)
    requires r >= g >= b >= 0.0 && r > b && r * s == r - b && k * (r - b) == g - b
    ensures HsvToRgb(k / 6.0 * 360.0, s, r) == Rgb(r * 255.0, g * 255.0, b * 255.0)
  {
    FactorBounds(k, g - b, r - b);
    if k < 1.0 {
      HsvAt(k, s, r, b, 0, k);
    } else {
      HsvAt(k, s, r, b, 1, 0.0);
    }
  }

  /** The HSV round trip when red is the maximum and green below blue. */
  lemma HsvChannelsRedDown(r: real, g: real, b: real, s: real, k: real)
    requires r >= b > g >= 0.0 && r * s == r - g && k * (r - g) == g - b
    ensures HsvToRgb((k + 6.0) / 6.0 * 360.0, s, r) == Rgb(r * 255.0, g * 255.0, b * 255.0)
  {
    FactorBounds(k, g - b, r - g);
    HsvAt(k + 6.0, s, r, g, 5, k + 1.0);
    assert (k + 1.0) * (r - g) == k * (r - g) + (r - g);
  }

  /** The HSV round trip when green is the maximum, blue below red. */
  lemma HsvChannelsGreenDown(r: real, g: real, b: real, s: real, k: real)
    requires g > r > b >= 0.0 && g * s == g - b && k * (g - b) == b - r
    ensures HsvToRgb((k + 2.0) / 6.0 * 360.0, s, g) == Rgb(r * 255.0, g * 255.0, b * 255.0)
  {
    FactorBounds(k, b - r, g - b);
    HsvAt(k + 2.0, s, g, b, 1, k + 1.0);
    assert (k + 1.0) * (g - b) == k * (g - b) + (g - b);
  }

  /** The HSV round trip when green is the maximum, above red, and blue at least red. */
  lemma HsvChannelsGreenUp(r: real, g: real, b: real, s: real, k: real)
    requires g > r >= 0.0 && g >= b >= r && g * s == g - r && k * (g - r) == b - r
    ensures HsvToRgb((k + 2.0) / 6.0 * 360.0, s, g) == Rgb(r * 255.0, g * 255.0, b * 255.0)
  {
    FactorBounds(k, b - r, g - r);
    if b < g {
      HsvAt(k + 2.0, s, g, r, 2, k);
    } else {
      assert (k - 1.0) * (g - r) == 0.0;
      ZeroProduct(k - 1.0, g - r);
      HsvAt(k + 2.0, s, g, r, 3, 0.0);
    }
  }

  /** The HSV round trip when blue is the only maximum and red below green. */
  lemma HsvChannelsBlueDown(r: real, g: real, b: real, s: real, k: real)
    requires b > g > r >= 0.0 && b * s == b - r && k * (b - r) == r - g
    ensures HsvToRgb((k + 4.0) / 6.0 * 360.0, s, b) == Rgb(r * 255.0, g * 255.0, b * 255.0)
  {
    FactorBounds(k, r - g, b - r);
    HsvAt(k + 4.0, s, b, r, 3, k + 1.0);
    assert (k + 1.0) * (b - r) == k * (b - r) + (b - r);
  }

  /** The HSV round trip when blue is the only maximum and red at least green. */
  lemma HsvChannelsBlueUp(r: real, g: real, b: real, s: real, k: real)
    requires b > r >= g >= 0.0 && b * s == b - g && k * (b - g) == r - g
    ensures HsvToRgb((k + 4.0) / 6.0 * 360.0, s, b) == Rgb(r * 255.0, g * 255.0, b * 255.0)
  {
    FactorBounds(k, r - g, b - g);
    HsvAt(k + 4.0, s, b, g, 4, k);
  }

  /** The HSV round trip of a chromatic colour with non-negative channels, one lemma per
      branch of `rgbToHsv`'s hue: here red the maximum, green below blue. */
  lemma HsvRoundTripRedDown(r: real, g: real, b: real)
    requires 0.0 <= g < b && Max3(r, g, b) == r && r != Min3(r, g, b)
    ensures var s := (r - Min3(r, g, b)) / r;
      Hue(r, g, b) >= 0.0 && HsvToRgb(Hue(r, g, b), s, r) == Rgb(r * 255.0, g * 255.0, b * 255.0)
  {
    HueRange(r, g, b);
    var d := r - g;
    QuotientTimes(d, r);
    var k := (g - b) / d;
    QuotientTimes(g - b, d);
    assert Hue(r, g, b) == (k + 6.0) / 6.0 * 360.0;
    HsvChannelsRedDown(r, g, b, d / r, k);
  }

  /** Red the maximum, green at least blue. */
  lemma HsvRoundTripRedUp(r: real, g: real, b: real)
    requires 0.0 <= b <= g && Max3(r, g, b) == r && r != Min3(r, g, b)
    ensures var s := (r - Min3(r, g, b)) / r;
      Hue(r, g, b) >= 0.0 && HsvToRgb(Hue(r, g, b), s, r) == Rgb(r * 255.0, g * 255.0, b * 255.0)
  {
    HueRange(r, g, b);
    var d := r - b;
    QuotientTimes(d, r);
    var k := (g - b) / d;
    QuotientTimes(g - b, d);
    assert Hue(r, g, b) == k / 6.0 * 360.0;
    HsvChannelsRedUp(r, g, b, d / r, k);
  }

  /** Green the maximum (and not red), blue below red. */
  lemma HsvRoundTripGreenDown(r: real, g: real, b: real)
    requires 0.0 <= b < r && Max3(r, g, b) == g != r
    ensures var s := (g - Min3(r, g, b)) / g;
      Hue(r, g, b) >= 0.0 && HsvToRgb(Hue(r, g, b), s, g) == Rgb(r * 255.0, g * 255.0, b * 255.0)
  {
    HueRange(r, g, b);
    var d := g - b;
    QuotientTimes(d, g);
    var k := (b - r) / d;
    QuotientTimes(b - r, d);
    assert Hue(r, g, b) == (k + 2.0) / 6.0 * 360.0;
    HsvChannelsGreenDown(r, g, b, d / g, k);
  }

  /** Green the maximum (and not red), blue at least red. */
  lemma HsvRoundTripGreenUp(r: real, g: real, b: real)
    requires 0.0 <= r <= b && Max3(r, g, b) == g != r
    ensures var s := (g - Min3(r, g, b)) / g;
      Hue(r, g, b) >= 0.0 && HsvToRgb(Hue(r, g, b), s, g) == Rgb(r * 255.0, g * 255.0, b * 255.0)
  {
    HueRange(r, g, b);
    var d := g - r;
    QuotientTimes(d, g);
    var k := (b - r) / d;
    QuotientTimes(b - r, d);
    assert Hue(r, g, b) == (k + 2.0) / 6.0 * 360.0;
    HsvChannelsGreenUp(r, g, b, d / g, k);
  }

  /** Blue the only maximum, red below green. */
  lemma HsvRoundTripBlueDown(r: real, g: real, b: real)
    requires 0.0 <= r < g && Max3(r, g, b) == b != g
    ensures var s := (b - Min3(r, g, b)) / b;
      Hue(r, g, b) >= 0.0 && HsvToRgb(Hue(r, g, b), s, b) == Rgb(r * 255.0, g * 255.0, b * 255.0)
  {
    HueRange(r, g, b);
    var d := b - r;
    QuotientTimes(d, b);
    var k := (r - g) / d;
    QuotientTimes(r - g, d);
    assert Hue(r, g, b) == (k + 4.0) / 6.0 * 360.0;
    HsvChannelsBlueDown(r, g, b, d / b, k);
  }

  /** Blue the only maximum, red at least green. */
  lemma HsvRoundTripBlueUp(r: real, g: real, b: real)
    requires 0.0 <= g <= r && Max3(r, g, b) == b != r && b != g
    ensures var s := (b - Min3(r, g, b)) / b;
      Hue(r, g, b) >= 0.0 && HsvToRgb(Hue(r, g, b), s, b) == Rgb(r * 255.0, g * 255.0, b * 255.0)
  {
    HueRange(r, g, b);
    var d := b - g;
    QuotientTimes(d, b);
    var k := (r - g) / d;
    QuotientTimes(r - g, d);
    assert Hue(r, g, b) == (k + 4.0) / 6.0 * 360.0;
    HsvChannelsBlueUp(r, g, b, d / b, k);
  }

  /** The round trip on non-negative normalised channels. */
  lemma HsvRoundTripUnit(r: real, g: real, b: real)
    requires 0.0 <= r && 0.0 <= g && 0.0 <= b
    ensures var max, min := Max3(r, g, b), Min3(r, g, b);
      var s := if max == 0.0 then 0.0 else (max - min) / max;
      Hue(r, g, b) >= 0.0 && HsvToRgb(Hue(r, g, b), s, max) == Rgb(r * 255.0, g * 255.0, b * 255.0)
  {
    var max, min := Max3(r, g, b), Min3(r, g, b);
    HueRange(r, g, b);
    if max == min {
      HsvToRgbGrey(0.0, max);
    } else if max == r {
      if g < b { HsvRoundTripRedDown(r, g, b); } else { HsvRoundTripRedUp(r, g, b); }
    } else if max == g {
      if b < r { HsvRoundTripGreenDown(r, g, b); } else { HsvRoundTripGreenUp(r, g, b); }
    } else {
      if r < g { HsvRoundTripBlueDown(r, g, b); } else { HsvRoundTripBlueUp(r, g, b); }
    }
  }

  /** Exact round trip: `hsvToRgb(rgbToHsv(r, g, b))` is (r, g, b) for every colour with
      non-negative channels. */
  lemma HsvRoundTrip(r: real, g: real, b: real)
    requires 0.0 <= r && 0.0 <= g && 0.0 <= b
    ensures var c := RgbToHsv(r, g, b);
      c.h >= 0.0 && HsvToRgb(c.h, c.sValue, c.v) == Rgb(r, g, b)
  {
    var R, G, B := r / 255.0, g / 255.0, b / 255.0;
    HueRange(R, G, B);
    HsvRoundTripUnit(R, G, B);
  }

  /** The pattern `hexToRgba` tests: `#` and then 3, 4, 6 or 8 hexadecimal digits of either
      case. */
  predicate WellFormedHex(hex: string)
  {
    (|hex| == 4 || |hex| == 5 || |hex| == 7 || |hex| == 9) && hex[0] == '#' && AllHexDigits(hex[1..])
  }

  /** The four two-digit components `hexToRgba` reads from the digits after `#`: the short
      forms double every digit, and the forms without alpha get `ff`. */
  function HexComponents(c: string): (parts: seq<string>)
    requires AllHexDigits(c) && (|c| == 3 || |c| == 4 || |c| == 6 || |c| == 8)
    ensures |parts| == 4 && forall i :: 0 <= i < 4 ==> |parts[i]| == 2 && AllHexDigits(parts[i])
  {
    if |c| == 3 then [[c[0], c[0]], [c[1], c[1]], [c[2], c[2]], "ff"]
    else if |c| == 4 then [[c[0], c[0]], [c[1], c[1]], [c[2], c[2]], [c[3], c[3]]]
    else if |c| == 6 then [[c[0], c[1]], [c[2], c[3]], [c[4], c[5]], "ff"]
    else [[c[0], c[1]], [c[2], c[3]], [c[4], c[5]], [c[6], c[7]]]
  }

  /** `hexToRgba`: a malformed string is the thrown error; otherwise the three channels are
      the parsed bytes and alpha the fourth byte over 255. */
  function HexToRgba(hex: string): (res: Result<Rgba, HexError>)
    ensures res.Ok? <==> WellFormedHex(hex)
  {
    if !WellFormedHex(hex) then Err(MalformedHex)
    else
      var c := HexComponents(hex[1..]);
      Ok(Rgba(HexValue(c[0]) as real, HexValue(c[1]) as real, HexValue(c[2]) as real,
        HexValue(c[3]) as real / 255.0))
  }

  /** The byte a pair of hexadecimal digits spells. */
  function Byte(hi: char, lo: char): (n: nat)
    requires IsHexDigit(hi) && IsHexDigit(lo)
    ensures n < 256
  {
    16 * DigitValue(hi) + DigitValue(lo)
  }

  /** What a well-formed hex string decodes to, digit by digit: for the short forms each
      channel is 17 times its digit (the doubled nibble), for the long forms the byte of its
      two digits; alpha is 1 without an alpha digit, and its byte over 255 otherwise. */
  lemma HexToRgbaDigits(hex: string)
    requires WellFormedHex(hex)
    ensures var c := HexToRgba(hex).value;
      && (|hex| == 4 || |hex| == 5 ==>
           && c.r == (17 * DigitValue(hex[1])) as real
           && c.g == (17 * DigitValue(hex[2])) as real
           && c.b == (17 * DigitValue(hex[3])) as real)
      && (|hex| == 7 || |hex| == 9 ==>
           && c.r == Byte(hex[1], hex[2]) as real
           && c.g == Byte(hex[3], hex[4]) as real
           && c.b == Byte(hex[5], hex[6]) as real)
      && (|hex| == 4 || |hex| == 7 ==> c.a == 1.0)
      && (|hex| == 5 ==> c.a == (17 * DigitValue(hex[4])) as real / 255.0)
      && (|hex| == 9 ==> c.a == Byte(hex[7], hex[8]) as real / 255.0)
  {
    var d := hex[1..];
    assert forall i :: 1 <= i < |hex| ==> hex[i] == d[i - 1];
    if |d| <= 4 {
      ShortComponents(d);
    } else {
      LongComponents(d);
    }
  }

  /** The values of the components of three or four digits: each digit doubled, alpha `ff`
      when absent. */
  lemma ShortComponents(d: string)
    requires AllHexDigits(d) && (|d| == 3 || |d| == 4)
    ensures var c := HexComponents(d);
      && HexValue(c[0]) == 17 * DigitValue(d[0])
      && HexValue(c[1]) == 17 * DigitValue(d[1])
      && HexValue(c[2]) == 17 * DigitValue(d[2])
      && HexValue(c[3]) == if |d| == 3 then 255 else 17 * DigitValue(d[3])
  {
    HexPairValue('f', 'f');
    HexPairValue(d[0], d[0]);
    HexPairValue(d[1], d[1]);
    HexPairValue(d[2], d[2]);
    if |d| == 4 {
      HexPairValue(d[3], d[3]);
    }
  }

  /** The values of the components of six or eight digits: the bytes of consecutive digit
      pairs, alpha `ff` when absent. */
  lemma LongComponents(d: string)
    requires AllHexDigits(d) && (|d| == 6 || |d| == 8)
    ensures var c := HexComponents(d);
      && HexValue(c[0]) == Byte(d[0], d[1])
      && HexValue(c[1]) == Byte(d[2], d[3])
      && HexValue(c[2]) == Byte(d[4], d[5])
      && HexValue(c[3]) == if |d| == 6 then 255 else Byte(d[6], d[7])
  {
    HexPairValue('f', 'f');
    HexPairValue(d[0], d[1]);
    HexPairValue(d[2], d[3]);
    HexPairValue(d[4], d[5]);
    if |d| == 8 {
      HexPairValue(d[6], d[7]);
    }
  }

  /** A decoded colour has whole channels in [0, 255] and alpha in [0, 1]. */
  lemma HexToRgbaRange(hex: string)
    requires WellFormedHex(hex)
    ensures var c := HexToRgba(hex).value;
      && c.r == c.r.Floor as real && c.g == c.g.Floor as real && c.b == c.b.Floor as real
      && InRange(c.r, c.g, c.b) && 0.0 <= c.a <= 1.0
  {
    var c := HexComponents(hex[1..]);
    HexPairValue(c[0][0], c[0][1]);
    HexPairValue(c[1][0], c[1][1]);
    HexPairValue(c[2][0], c[2][1]);
    HexPairValue(c[3][0], c[3][1]);
    assert c[0] == [c[0][0], c[0][1]] && c[1] == [c[1][0], c[1][1]];
    assert c[2] == [c[2][0], c[2][1]] && c[3] == [c[3][0], c[3][1]];
  }

  /** `rgbToHslsv`: the HSL fields of `rgbToHsl` with the saturation and value of
      `rgbToHsv`. */
  function RgbToHslsv(r: real, g: real, b: real): (c: Hslsv)
    requires InRange(r, g, b)
  {
    var hsl := RgbToHsl(r, g, b);
    var hsv := RgbToHsv(r, g, b);
    Hslsv(hsl.h, hsl.sLightness, hsl.l, hsv.sValue, hsv.v)
  }

  /** Both halves of what `rgbToHslsv` returns describe the input colour: with the shared hue,
      the HSL part converts back through `hslToRgb` and the HSV part through `hsvToRgb`. */
  lemma RgbToHslsvRecovers(r: real, g: real, b: real)
    requires InRange(r, g, b)
    ensures var c := RgbToHslsv(r, g, b);
      && HslToRgb(c.h, c.sLightness, c.l) == Rgb(r, g, b)
      && c.h >= 0.0 && HsvToRgb(c.h, c.sValue, c.v) == Rgb(r, g, b)
  {
    HslRoundTrip(r, g, b);
    RgbToHsvSpec(r, g, b);
    HsvRoundTrip(r, g, b);
  }

  /** `hslToRgbsv`: the channels of `hslToRgb` with the saturation and value `rgbToHsv` finds
      for them. */
  function HslToRgbsv(h: real, s: real, l: real): (c: Rgbsv)
  {
    var rgb := HslToRgb(h, s, l);
    var hsv := RgbToHsv(rgb.r, rgb.g, rgb.b);
    Rgbsv(rgb.r, rgb.g, rgb.b, hsv.sValue, hsv.v)
  }

  /** On the HSL domain `hslToRgbsv` gives channels in [0, 255] and an HSV saturation and
      value in [0, 1]: v is the largest channel over 255, and a grey (s = 0) has HSV saturation
      0 and value l. */
  lemma HslToRgbsvSpec(h: real, s: real, l: real)
    requires 0.0 <= h <= 360.0 && 0.0 <= s <= 1.0 && 0.0 <= l <= 1.0
    ensures var c := HslToRgbsv(h, s, l);
      && InRange(c.r, c.g, c.b) && 0.0 <= c.sValue <= 1.0 && c.v == Max3(c.r, c.g, c.b) / 255.0
      && (s == 0.0 ==> c.sValue == 0.0 && c.v == l)
  {
    var rgb := HslToRgb(h, s, l);
    HslToRgbRange(h, s, l);
    RgbToHsvSpec(rgb.r, rgb.g, rgb.b);
    RgbToHsvRange(rgb.r, rgb.g, rgb.b);
  }

  /** `hsvToRgbsl`: the channels of `hsvToRgb`, with both `sLightness` and `l` set to the
      lightness `rgbToHsl` finds for them. */
  function HsvToRgbsl(h: real, s: real, v: real): (c: Rgbsl)
    requires h >= 0.0 && 0.0 <= s <= 1.0 && 0.0 <= v <= 1.0
  {
    HsvToRgbRange(h, s, v);
    var rgb := HsvToRgb(h, s, v);
    var hsl := RgbToHsl(rgb.r, rgb.g, rgb.b);
    Rgbsl(rgb.r, rgb.g, rgb.b, hsl.l, hsl.l)
  }

  /** `hsvToRgbsl` copies the lightness into `sLightness`: the two fields are always equal,
      both the mean of the extreme channels over 255, and they lie in [0, 1]. */
  lemma HsvToRgbslSpec(h: real, s: real, v: real)
    requires h >= 0.0 && 0.0 <= s <= 1.0 && 0.0 <= v <= 1.0
    ensures var c := HsvToRgbsl(h, s, v);
      && InRange(c.r, c.g, c.b) && c.sLightness == c.l
      && c.l == (Max3(c.r, c.g, c.b) + Min3(c.r, c.g, c.b)) / 510.0 && 0.0 <= c.l <= 1.0
  {
    HsvToRgbRange(h, s, v);
    var rgb := HsvToRgb(h, s, v);
    RgbToHslRange(rgb.r, rgb.g, rgb.b);
  }

  /** So `sLightness` from `hsvToRgbsl` is not the HSL saturation: for pure red (h = 0,
      s = v = 1) it is 0.5, while `rgbToHsl` gives the same colour saturation 1. */
  lemma HsvToRgbslPureRed()
    ensures HsvToRgbsl(0.0, 1.0, 1.0).sLightness == 0.5
    ensures RgbToHsl(255.0, 0.0, 0.0).sLightness == 1.0
  {
    assert HsvToRgb(0.0, 1.0, 1.0) == Rgb(255.0, 0.0, 0.0) by {
      HsvToRgbAt(0.0, 1.0, 1.0, 0, 0.0, 0.0, 1.0, 0.0);
    }
  }
}
