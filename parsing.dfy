/** `parseColor` of src/functions/parsing.ts: normalise the text, substitute a colour name or
    `transparent`, then try ten matchers in a fixed order and build the full colour record from
    the first one that matches.

    The name table and the regular expressions live in files that are not part of this model.
    The table is a parameter (`map<string, string>`), and each matcher is a parameter that
    either fails or returns its captures already converted by `parseInt` / `parseFloat`. */
module Parsing {
  import opened Wrappers
  import opened Text
  import opened Types
  import C = Conversion

  /** A channel captured by the rgb matchers: a whole number in [0, 255]. */
  type Byte = n: int | 0 <= n < 256

  /** A hue captured by the hsv matchers: not negative. */
  type Degrees = x: real | x >= 0.0

  /** A saturation or value captured by the hsv matchers: in [0, 1]. */
  type Fraction = x: real | 0.0 <= x <= 1.0

  /** The two hexadecimal digits of one component captured by the long hex matchers. */
  datatype HexPair = HexPair(hi: HexDigit, lo: HexDigit)

  /** `MATCHERS`: what each pattern captures from a string, or `None` when it does not match. */
  datatype Matchers = Matchers(
    rgb: string -> Option<(Byte, Byte, Byte)>,
    rgba: string -> Option<(Byte, Byte, Byte, real)>,
    hsl: string -> Option<(real, real, real)>,
    hsla: string -> Option<(real, real, real, real)>,
    hsv: string -> Option<(Degrees, Fraction, Fraction)>,
    hsva: string -> Option<(Degrees, Fraction, Fraction, real)>,
    hex8: string -> Option<(HexPair, HexPair, HexPair, HexPair)>,
    hex6: string -> Option<(HexPair, HexPair, HexPair)>,
    hex4: string -> Option<(HexDigit, HexDigit, HexDigit, HexDigit)>,
    hex3: string -> Option<(HexDigit, HexDigit, HexDigit)>)

  /** The ten matchers, by name. */
  datatype Pattern =
    | MatchRgb | MatchRgba | MatchHsl | MatchHsla | MatchHsv | MatchHsva
    | MatchHex8 | MatchHex6 | MatchHex4 | MatchHex3

  /** The order in which `parseColor` tries the matchers. */
  const Priority: seq<Pattern> :=
    [MatchRgb, MatchRgba, MatchHsl, MatchHsla, MatchHsv, MatchHsva, MatchHex8, MatchHex6, MatchHex4, MatchHex3]

  /** The format tag each matcher's branch records. */
  function FormatOf(p: Pattern): Format
  {
    match p
    case MatchRgb | MatchRgba => Rgb
    case MatchHsl | MatchHsla => Hsl
    case MatchHsv | MatchHsva => Hsv
    case _ => Hex
  }

  /** The matchers whose branch sets alpha to 1 rather than reading it. */
  predicate Opaque(p: Pattern)
  {
    p == MatchRgb || p == MatchHsl || p == MatchHsv || p == MatchHex6 || p == MatchHex3
  }

  /** Whether matcher p matches s. */
  predicate Captures(m: Matchers, p: Pattern, s: string)
  {
    match p
    case MatchRgb => m.rgb(s).Some?
    case MatchRgba => m.rgba(s).Some?
    case MatchHsl => m.hsl(s).Some?
    case MatchHsla => m.hsla(s).Some?
    case MatchHsv => m.hsv(s).Some?
    case MatchHsva => m.hsva(s).Some?
    case MatchHex8 => m.hex8(s).Some?
    case MatchHex6 => m.hex6(s).Some?
    case MatchHex4 => m.hex4(s).Some?
    case MatchHex3 => m.hex3(s).Some?
  }

  /** `parseInt` of one long-form component. */
  function PairValue(p: HexPair): nat
  {
    HexValue([p.hi, p.lo])
  }

  /** `parseInt(d + '' + d, 16)`: the value of a short-form digit written twice. */
  function DoubledValue(d: HexDigit): nat
  {
    HexValue([d, d])
  }

  /** The RGB and hex branches: the channels as given, the rest from `rgbToHslsv`. */
  function FromRgb(r: real, g: real, b: real, a: real, format: Format): ColorAttr
    requires C.InRange(r, g, b)
  {
    var c := C.RgbToHslsv(r, g, b);
    ColorAttr(r, g, b, c.h, c.sLightness, c.l, c.sValue, c.v, a, format)
  }

  /** The HSL branches: h, sLightness and l as given, the rest from `hslToRgbsv`. */
  function FromHsl(h: real, s: real, l: real, a: real): ColorAttr
  {
    var c := C.HslToRgbsv(h, s, l);
    ColorAttr(c.r, c.g, c.b, h, s, l, c.sValue, c.v, a, Hsl)
  }

  /** The HSV branches: h, sValue and v as given, the rest from `hsvToRgbsl`. */
  function FromHsv(h: Degrees, s: Fraction, v: Fraction, a: real): ColorAttr
  {
    var c := C.HsvToRgbsl(h, s, v);
    ColorAttr(c.r, c.g, c.b, h, c.sLightness, c.l, s, v, a, Hsv)
  }

  /** The record one matcher's branch returns. */
  function Build(m: Matchers, p: Pattern, s: string): ColorAttr
    requires Captures(m, p, s)
  {
    match p
    case MatchRgb =>
      var (r, g, b) := m.rgb(s).value;
      FromRgb(r as real, g as real, b as real, 1.0, Rgb)
    case MatchRgba =>
      var (r, g, b, a) := m.rgba(s).value;
      FromRgb(r as real, g as real, b as real, a, Rgb)
    case MatchHsl =>
      var (h, sl, l) := m.hsl(s).value;
      FromHsl(h, sl, l, 1.0)
    case MatchHsla =>
      var (h, sl, l, a) := m.hsla(s).value;
      FromHsl(h, sl, l, a)
    case MatchHsv =>
      var (h, sv, v) := m.hsv(s).value;
      FromHsv(h, sv, v, 1.0)
    case MatchHsva =>
      var (h, sv, v, a) := m.hsva(s).value;
      FromHsv(h, sv, v, a)
    case MatchHex8 =>
      var (r, g, b, a) := m.hex8(s).value;
      HexBytes(r, g, b);
      FromRgb(PairValue(r) as real, PairValue(g) as real, PairValue(b) as real, PairValue(a) as real / 255.0, Hex)
    case MatchHex6 =>
      var (r, g, b) := m.hex6(s).value;
      HexBytes(r, g, b);
      FromRgb(PairValue(r) as real, PairValue(g) as real, PairValue(b) as real, 1.0, Hex)
    case MatchHex4 =>
      var (r, g, b, a) := m.hex4(s).value;
      DoubledBytes(r, g, b);
      FromRgb(DoubledValue(r) as real, DoubledValue(g) as real, DoubledValue(b) as real, DoubledValue(a) as real / 255.0, Hex)
    case MatchHex3 =>
      var (r, g, b) := m.hex3(s).value;
      DoubledBytes(r, g, b);
      FromRgb(DoubledValue(r) as real, DoubledValue(g) as real, DoubledValue(b) as real, 1.0, Hex)
  }

  /** Long-form components are bytes. */
  lemma HexBytes(r: HexPair, g: HexPair, b: HexPair)
    ensures PairValue(r) < 256 && PairValue(g) < 256 && PairValue(b) < 256
  {
    HexPairValue(r.hi, r.lo);
    HexPairValue(g.hi, g.lo);
    HexPairValue(b.hi, b.lo);
  }

  /** A doubled digit is 17 times the digit, so a byte. */
  lemma DoubledBytes(r: HexDigit, g: HexDigit, b: HexDigit)
    ensures DoubledValue(r) == 17 * DigitValue(r) && DoubledValue(g) == 17 * DigitValue(g)
    ensures DoubledValue(b) == 17 * DigitValue(b)
    ensures DoubledValue(r) < 256 && DoubledValue(g) < 256 && DoubledValue(b) < 256
  {
    HexPairValue(r, r);
    HexPairValue(g, g);
    HexPairValue(b, b);
  }

  /** Name substitution: a name whose table entry is truthy (present and not empty) becomes
      that entry; otherwise `transparent` becomes `#0000`. */
  function Resolve(names: map<string, string>, s: string): string
  {
    if s in names && names[s] != "" then names[s]
    else if s == "transparent" then "#0000"
    else s
  }

  /** The chain of matchers, tried in `parseColor`'s order on the resolved text. */
  function Dispatch(m: Matchers, s: string): Option<ColorAttr>
  {
    if Captures(m, MatchRgb, s) then Some(Build(m, MatchRgb, s))
    else if Captures(m, MatchRgba, s) then Some(Build(m, MatchRgba, s))
    else if Captures(m, MatchHsl, s) then Some(Build(m, MatchHsl, s))
    else if Captures(m, MatchHsla, s) then Some(Build(m, MatchHsla, s))
    else if Captures(m, MatchHsv, s) then Some(Build(m, MatchHsv, s))
    else if Captures(m, MatchHsva, s) then Some(Build(m, MatchHsva, s))
    else if Captures(m, MatchHex8, s) then Some(Build(m, MatchHex8, s))
    else if Captures(m, MatchHex6, s) then Some(Build(m, MatchHex6, s))
    else if Captures(m, MatchHex4, s) then Some(Build(m, MatchHex4, s))
    else if Captures(m, MatchHex3, s) then Some(Build(m, MatchHex3, s))
    else None
  }

  /** `parseColor`: `None` stands for the `false` it returns when nothing matches. */
  function ParseColor(names: map<string, string>, m: Matchers, color: string): Option<ColorAttr>
  {
    Dispatch(m, Resolve(names, Normalize(color)))
  }

  /** Reference definition of a priority chain: the record of the first pattern in ps that
      matches, if any. */
  function FirstMatch(m: Matchers, ps: seq<Pattern>, s: string): Option<ColorAttr>
  {
    if ps == [] then None
    else if Captures(m, ps[0], s) then Some(Build(m, ps[0], s))
    else FirstMatch(m, ps[1..], s)
  }

  /** The first-match chain fails exactly when no pattern matches, and otherwise returns the
      record of a matching pattern that no earlier pattern precedes. */
  lemma FirstMatchSpec(m: Matchers, ps: seq<Pattern>, s: string)
    ensures FirstMatch(m, ps, s).None? <==> forall i :: 0 <= i < |ps| ==> !Captures(m, ps[i], s)
    ensures FirstMatch(m, ps, s).Some? ==>
      exists i :: 0 <= i < |ps| && Captures(m, ps[i], s)
        && (forall j :: 0 <= j < i ==> !Captures(m, ps[j], s))
        && FirstMatch(m, ps, s).value == Build(m, ps[i], s)
  {
    FirstMatchNone(m, ps, s);
    if FirstMatch(m, ps, s).Some? {
      FirstMatchFirst(m, ps, s);
    }
  }

  /** The first-match chain fails exactly when no pattern matches. */
  lemma {:induction false} FirstMatchNone(m: Matchers, ps: seq<Pattern>, s: string)
    ensures FirstMatch(m, ps, s).None? <==> forall i :: 0 <= i < |ps| ==> !Captures(m, ps[i], s)
  {
    if ps != [] && !Captures(m, ps[0], s) {
      FirstMatchNone(m, ps[1..], s);
      assert forall i :: 1 <= i < |ps| ==> ps[i] == ps[1..][i - 1];
    }
  }

  /** A successful first-match chain returns the record of a matching pattern with no
      matching pattern before it. */
  lemma {:induction false} FirstMatchFirst(m: Matchers, ps: seq<Pattern>, s: string)
    requires FirstMatch(m, ps, s).Some?
    ensures
      exists i :: 0 <= i < |ps| && Captures(m, ps[i], s)
        && (forall j :: 0 <= j < i ==> !Captures(m, ps[j], s))
        && FirstMatch(m, ps, s).value == Build(m, ps[i], s)
  {
    if !Captures(m, ps[0], s) {
      var rest := ps[1..];
      FirstMatchFirst(m, rest, s);
      var i :| 0 <= i < |rest| && Captures(m, rest[i], s)
        && (forall j :: 0 <= j < i ==> !Captures(m, rest[j], s))
        && FirstMatch(m, rest, s).value == Build(m, rest[i], s);
      EarlierMiss(m, ps, s, i + 1);
    }
  }

  /** No pattern before index k of ps matches when the first does not and none of the
      k - 1 after it does. */
  lemma EarlierMiss(m: Matchers, ps: seq<Pattern>, s: string, k: nat)
    requires 0 < k <= |ps| && !Captures(m, ps[0], s)
    requires forall j :: 0 <= j < k - 1 ==> !Captures(m, ps[1..][j], s)
    ensures forall j :: 0 <= j < k ==> !Captures(m, ps[j], s)
  {
    forall j | 0 < j < k
      ensures !Captures(m, ps[j], s)
    {
      assert ps[j] == ps[1..][j - 1];
    }
  }

  /** One step of the first-match chain. */
  lemma FirstMatchStep(m: Matchers, ps: seq<Pattern>, s: string)
    requires ps != []
    ensures FirstMatch(m, ps, s)
      == if Captures(m, ps[0], s) then Some(Build(m, ps[0], s)) else FirstMatch(m, ps[1..], s)
  {
  }

  /** The last four patterns of `Priority`, the hex forms, as a first-match chain. */
  lemma FirstMatchHex(m: Matchers, s: string)
    ensures FirstMatch(m, Priority[6..], s)
      == if Captures(m, MatchHex8, s) then Some(Build(m, MatchHex8, s))
         else if Captures(m, MatchHex6, s) then Some(Build(m, MatchHex6, s))
         else if Captures(m, MatchHex4, s) then Some(Build(m, MatchHex4, s))
         else if Captures(m, MatchHex3, s) then Some(Build(m, MatchHex3, s))
         else None
  {
    var p6 := Priority[6..];
    var p7, p8, p9 := p6[1..], p6[2..], p6[3..];
    assert p6[0] == MatchHex8 && p7[0] == MatchHex6 && p8[0] == MatchHex4 && p9 == [MatchHex3];
    assert p7[1..] == p8 && p8[1..] == p9 && p9[1..] == [];
    FirstMatchStep(m, p6, s);
    FirstMatchStep(m, p7, s);
    FirstMatchStep(m, p8, s);
    FirstMatchStep(m, p9, s);
  }

  /** The matcher chain of `parseColor` is the first match over `Priority`. */
  lemma DispatchIsFirstMatch(m: Matchers, s: string)
    ensures Dispatch(m, s) == FirstMatch(m, Priority, s)
  {
    var p0 := Priority;
    var p1, p2, p3, p4, p5 := p0[1..], p0[2..], p0[3..], p0[4..], p0[5..];
    assert p0[0] == MatchRgb && p1[0] == MatchRgba && p2[0] == MatchHsl;
    assert p3[0] == MatchHsla && p4[0] == MatchHsv && p5[0] == MatchHsva;
    assert p1[1..] == p2 && p2[1..] == p3 && p3[1..] == p4 && p4[1..] == p5 && p5[1..] == p0[6..];
    FirstMatchStep(m, p0, s);
    FirstMatchStep(m, p1, s);
    FirstMatchStep(m, p2, s);
    FirstMatchStep(m, p3, s);
    FirstMatchStep(m, p4, s);
    FirstMatchStep(m, p5, s);
    FirstMatchHex(m, s);
  }

  /** `parseColor` returns `false` exactly when no matcher matches the resolved text, and
      otherwise the record of the first matcher in `Priority` that matches it. */
  lemma ParseColorFirstMatch(names: map<string, string>, m: Matchers, color: string)
    ensures var s := Resolve(names, Normalize(color));
      && (ParseColor(names, m, color).None? <==> forall i :: 0 <= i < |Priority| ==> !Captures(m, Priority[i], s))
      && (ParseColor(names, m, color).Some? ==>
           exists i :: 0 <= i < |Priority| && Captures(m, Priority[i], s)
             && (forall j :: 0 <= j < i ==> !Captures(m, Priority[j], s))
             && ParseColor(names, m, color).value == Build(m, Priority[i], s))
  {
    var s := Resolve(names, Normalize(color));
    DispatchIsFirstMatch(m, s);
    FirstMatchSpec(m, Priority, s);
  }

  /** The result depends only on the trimmed, lower-cased text. */
  lemma ParseColorNormalized(names: map<string, string>, m: Matchers, color: string)
    ensures ParseColor(names, m, color) == ParseColor(names, m, Normalize(color))
  {
    NormalizeIdempotent(color);
  }

  /** A name with a truthy table entry parses as that entry would without normalisation or
      name lookup; and when the entry is itself normalised and no name, it parses exactly
      like the entry. */
  lemma ParseColorName(names: map<string, string>, m: Matchers, color: string)
    requires Normalize(color) in names && names[Normalize(color)] != ""
    ensures ParseColor(names, m, color) == Dispatch(m, names[Normalize(color)])
    ensures var e := names[Normalize(color)];
      Normalize(e) == e && !(e in names && names[e] != "") && e != "transparent" ==>
      ParseColor(names, m, e) == ParseColor(names, m, color)
  {
  }

  /** `transparent`, unless the table names it, is parsed as `#0000`. */
  lemma ParseColorTransparent(names: map<string, string>, m: Matchers, color: string)
    requires Normalize(color) == "transparent"
    requires !("transparent" in names && names["transparent"] != "")
    ensures ParseColor(names, m, color) == Dispatch(m, "#0000")
  {
  }

  /** Black converts to hue, saturations, lightness and value 0. */
  lemma BlackHslsv()
    ensures C.RgbToHslsv(0.0, 0.0, 0.0) == C.Hslsv(0.0, 0.0, 0.0, 0.0, 0.0)
  {
    assert C.RgbToHsl(0.0, 0.0, 0.0) == C.Hsl(0.0, 0.0, 0.0);
    assert C.RgbToHsv(0.0, 0.0, 0.0) == C.Hsv(0.0, 0.0, 0.0);
  }

  /** Under matchers that let only the four-digit hex pattern match `#0000`, capturing four
      `0` digits, `#0000` is the fully transparent black tagged `hex`. */
  lemma TransparentBlack(m: Matchers)
    requires forall i :: 0 <= i < 8 ==> !Captures(m, Priority[i], "#0000")
    requires m.hex4("#0000") == Some(('0', '0', '0', '0'))
    ensures Dispatch(m, "#0000") == Some(ColorAttr(0.0, 0.0, 0.0, 0.0, 0.0, 0.0, 0.0, 0.0, 0.0, Hex))
  {
    assert Priority[0] == MatchRgb && Priority[1] == MatchRgba && Priority[2] == MatchHsl;
    assert Priority[3] == MatchHsla && Priority[4] == MatchHsv && Priority[5] == MatchHsva;
    assert Priority[6] == MatchHex8 && Priority[7] == MatchHex6;
    DoubledBytes('0', '0', '0');
    assert DoubledValue('0') == 0;
    BlackHslsv();
    assert Build(m, MatchHex4, "#0000") == FromRgb(0.0, 0.0, 0.0, 0.0, Hex);
  }

  /** The three colour spaces of a record agree: with the record's hue, the HSL and the HSV
      fields both convert back to its channels. */
  ghost predicate RgbDerived(c: ColorAttr)
  {
    && C.InRange(c.r, c.g, c.b)
    && C.HslToRgb(c.h, c.sLightness, c.l) == C.Rgb(c.r, c.g, c.b)
    && c.h >= 0.0 && C.HsvToRgb(c.h, c.sValue, c.v) == C.Rgb(c.r, c.g, c.b)
  }

  /** The channels of a record are what its HSL fields give, and its HSV value is the largest
      channel over 255. */
  ghost predicate HslDerived(c: ColorAttr)
  {
    && C.HslToRgb(c.h, c.sLightness, c.l) == C.Rgb(c.r, c.g, c.b)
    && c.sValue == C.RgbToHsv(c.r, c.g, c.b).sValue && c.v == C.Max3(c.r, c.g, c.b) / 255.0
  }

  /** The channels of a record are what its HSV fields give, and both HSL fields carry the
      lightness of those channels. */
  ghost predicate HsvDerived(c: ColorAttr)
  {
    && c.h >= 0.0 && C.HsvToRgb(c.h, c.sValue, c.v) == C.Rgb(c.r, c.g, c.b)
    && C.InRange(c.r, c.g, c.b)
    && c.sLightness == c.l == (C.Max3(c.r, c.g, c.b) + C.Min3(c.r, c.g, c.b)) / 510.0
  }

  /** The RGB and hex builder keeps its inputs and derives consistent HSL and HSV fields. */
  lemma FromRgbSpec(r: real, g: real, b: real, a: real, format: Format)
    requires C.InRange(r, g, b)
    ensures var c := FromRgb(r, g, b, a, format);
      c.r == r && c.g == g && c.b == b && c.a == a && c.format == format && RgbDerived(c)
  {
    C.RgbToHslsvRecovers(r, g, b);
  }

  /** The HSL builder keeps its inputs and derives channels and HSV fields that agree. */
  lemma FromHslSpec(h: real, s: real, l: real, a: real)
    ensures var c := FromHsl(h, s, l, a);
      c.h == h && c.sLightness == s && c.l == l && c.a == a && c.format == Hsl && HslDerived(c)
  {
    var rgb := C.HslToRgb(h, s, l);
    C.RgbToHsvSpec(rgb.r, rgb.g, rgb.b);
  }

  /** The HSV builder keeps its inputs and derives channels and a lightness that agree. */
  lemma FromHsvSpec(h: Degrees, s: Fraction, v: Fraction, a: real)
    ensures var c := FromHsv(h, s, v, a);
      c.h == h && c.sValue == s && c.v == v && c.a == a && c.format == Hsv && HsvDerived(c)
  {
    C.HsvToRgbslSpec(h, s, v);
  }

  /** The channels of a record are whole numbers. */
  ghost predicate WholeChannels(c: ColorAttr)
  {
    c.r == c.r.Floor as real && c.g == c.g.Floor as real && c.b == c.b.Floor as real
  }

  /** The fields a branch takes from its captures: the channels (rgb, hex) or the hue and the
      other two coordinates (hsl, hsv) as parsed, and alpha for the patterns that capture it
      (over 255 for the hex forms, whose short digits count double). */
  ghost predicate KeepsCaptures(m: Matchers, p: Pattern, s: string, c: ColorAttr)
    requires Captures(m, p, s)
  {
    match p
    case MatchRgb =>
      var t := m.rgb(s).value;
      c.r == t.0 as real && c.g == t.1 as real && c.b == t.2 as real
    case MatchRgba =>
      var t := m.rgba(s).value;
      c.r == t.0 as real && c.g == t.1 as real && c.b == t.2 as real && c.a == t.3
    case MatchHsl =>
      var t := m.hsl(s).value;
      c.h == t.0 && c.sLightness == t.1 && c.l == t.2
    case MatchHsla =>
      var t := m.hsla(s).value;
      c.h == t.0 && c.sLightness == t.1 && c.l == t.2 && c.a == t.3
    case MatchHsv =>
      var t := m.hsv(s).value;
      c.h == t.0 && c.sValue == t.1 && c.v == t.2
    case MatchHsva =>
      var t := m.hsva(s).value;
      c.h == t.0 && c.sValue == t.1 && c.v == t.2 && c.a == t.3
    case MatchHex8 =>
      var t := m.hex8(s).value;
      && c.r == PairValue(t.0) as real && c.g == PairValue(t.1) as real && c.b == PairValue(t.2) as real
      && c.a == PairValue(t.3) as real / 255.0
    case MatchHex6 =>
      var t := m.hex6(s).value;
      c.r == PairValue(t.0) as real && c.g == PairValue(t.1) as real && c.b == PairValue(t.2) as real
    case MatchHex4 =>
      var t := m.hex4(s).value;
      && c.r == (17 * DigitValue(t.0)) as real && c.g == (17 * DigitValue(t.1)) as real
      && c.b == (17 * DigitValue(t.2)) as real && c.a == (17 * DigitValue(t.3)) as real / 255.0
    case MatchHex3 =>
      var t := m.hex3(s).value;
      && c.r == (17 * DigitValue(t.0)) as real && c.g == (17 * DigitValue(t.1)) as real
      && c.b == (17 * DigitValue(t.2)) as real
  }

  /** The `rgb` and `rgba` branches. */
  lemma BuildRgbSpec(m: Matchers, p: Pattern, s: string)
    requires (p == MatchRgb || p == MatchRgba) && Captures(m, p, s)
    ensures var c := Build(m, p, s);
      c.format == Rgb && KeepsCaptures(m, p, s, c) && (p == MatchRgb ==> c.a == 1.0)
        && RgbDerived(c) && WholeChannels(c)
  {
    if p == MatchRgb {
      var (r, g, b) := m.rgb(s).value;
      FromRgbSpec(r as real, g as real, b as real, 1.0, Rgb);
    } else {
      var (r, g, b, a) := m.rgba(s).value;
      FromRgbSpec(r as real, g as real, b as real, a, Rgb);
    }
  }

  /** The `hsl` and `hsla` branches. */
  lemma BuildHslSpec(m: Matchers, p: Pattern, s: string)
    requires (p == MatchHsl || p == MatchHsla) && Captures(m, p, s)
    ensures var c := Build(m, p, s);
      c.format == Hsl && KeepsCaptures(m, p, s, c) && (p == MatchHsl ==> c.a == 1.0) && HslDerived(c)
  {
    if p == MatchHsl {
      var (h, sl, l) := m.hsl(s).value;
      FromHslSpec(h, sl, l, 1.0);
    } else {
      var (h, sl, l, a) := m.hsla(s).value;
      FromHslSpec(h, sl, l, a);
    }
  }

  /** The `hsv` and `hsva` branches. */
  lemma BuildHsvSpec(m: Matchers, p: Pattern, s: string)
    requires (p == MatchHsv || p == MatchHsva) && Captures(m, p, s)
    ensures var c := Build(m, p, s);
      c.format == Hsv && KeepsCaptures(m, p, s, c) && (p == MatchHsv ==> c.a == 1.0) && HsvDerived(c)
  {
    if p == MatchHsv {
      var (h, sv, v) := m.hsv(s).value;
      FromHsvSpec(h, sv, v, 1.0);
    } else {
      var (h, sv, v, a) := m.hsva(s).value;
      FromHsvSpec(h, sv, v, a);
    }
  }

  /** The long hex branches (8 and 6 digits). */
  lemma BuildHexLongSpec(m: Matchers, p: Pattern, s: string)
    requires (p == MatchHex8 || p == MatchHex6) && Captures(m, p, s)
    ensures var c := Build(m, p, s);
      && c.format == Hex && KeepsCaptures(m, p, s, c) && (p == MatchHex6 ==> c.a == 1.0) && 0.0 <= c.a <= 1.0
      && RgbDerived(c) && WholeChannels(c)
  {
    if p == MatchHex8 {
      var (r, g, b, a) := m.hex8(s).value;
      HexBytes(r, g, b);
      HexBytes(a, a, a);
      FromRgbSpec(PairValue(r) as real, PairValue(g) as real, PairValue(b) as real, PairValue(a) as real / 255.0, Hex);
    } else {
      var (r, g, b) := m.hex6(s).value;
      HexBytes(r, g, b);
      FromRgbSpec(PairValue(r) as real, PairValue(g) as real, PairValue(b) as real, 1.0, Hex);
    }
  }

  /** The short hex branches (4 and 3 digits). */
  lemma BuildHexShortSpec(m: Matchers, p: Pattern, s: string)
    requires (p == MatchHex4 || p == MatchHex3) && Captures(m, p, s)
    ensures var c := Build(m, p, s);
      && c.format == Hex && KeepsCaptures(m, p, s, c) && (p == MatchHex3 ==> c.a == 1.0) && 0.0 <= c.a <= 1.0
      && RgbDerived(c) && WholeChannels(c)
  {
    if p == MatchHex4 {
      var (r, g, b, a) := m.hex4(s).value;
      DoubledBytes(r, g, b);
      DoubledBytes(a, a, a);
      FromRgbSpec(DoubledValue(r) as real, DoubledValue(g) as real, DoubledValue(b) as real, DoubledValue(a) as real / 255.0, Hex);
    } else {
      var (r, g, b) := m.hex3(s).value;
      DoubledBytes(r, g, b);
      FromRgbSpec(DoubledValue(r) as real, DoubledValue(g) as real, DoubledValue(b) as real, 1.0, Hex);
    }
  }

  /** What a branch records: its format tag; the captured values; alpha 1 for the matchers
      without alpha, a value in [0, 1] for the hex forms; whole channels in [0, 255] for the RGB and hex forms; and
      the fields it derives consistent with those it was given. */
  lemma BuildSpec(m: Matchers, p: Pattern, s: string)
    requires Captures(m, p, s)
    ensures var c := Build(m, p, s);
      && c.format == FormatOf(p)
      && KeepsCaptures(m, p, s, c)
      && (Opaque(p) ==> c.a == 1.0)
      && (FormatOf(p) == Hex ==> 0.0 <= c.a <= 1.0)
      && (FormatOf(p) == Rgb || FormatOf(p) == Hex ==> RgbDerived(c) && WholeChannels(c))
      && (FormatOf(p) == Hsl ==> HslDerived(c))
      && (FormatOf(p) == Hsv ==> HsvDerived(c))
  {
    if p == MatchRgb || p == MatchRgba {
      BuildRgbSpec(m, p, s);
    } else if p == MatchHsl || p == MatchHsla {
      BuildHslSpec(m, p, s);
    } else if p == MatchHsv || p == MatchHsva {
      BuildHsvSpec(m, p, s);
    } else if p == MatchHex8 || p == MatchHex6 {
      BuildHexLongSpec(m, p, s);
    } else {
      BuildHexShortSpec(m, p, s);
    }
  }

  /** Every record `parseColor` returns is one `BuildSpec` describes: produced by a matching
      pattern, and so tagged, with its alpha rule and its derived fields. */
  lemma ParseColorResult(names: map<string, string>, m: Matchers, color: string)
    ensures var s := Resolve(names, Normalize(color));
      ParseColor(names, m, color).Some? ==>
        exists p :: Captures(m, p, s) && ParseColor(names, m, color).value == Build(m, p, s)
  {
    ParseColorFirstMatch(names, m, color);
    var s := Resolve(names, Normalize(color));
    if ParseColor(names, m, color).Some? {
      var i :| 0 <= i < |Priority| && Captures(m, Priority[i], s)
        && ParseColor(names, m, color).value == Build(m, Priority[i], s);
    }
  }
}
