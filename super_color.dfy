/** The `SuperColor` class of src/SuperColor.ts: ten fields holding one colour in three
    colour spaces at once, setters that recompute the other spaces, and renderers. */
module Colors {
  import opened Wrappers
  import opened Text
  import opened Types
  import opened Utils
  import C = Conversion
  import P = Parsing

  /** What the constructor accepts: a string to parse, or a complete attribute record. */
  datatype ColorInput = Str(text: string) | Attr(attr: ColorAttr)

  /** What `toHsla` returns. */
  datatype Hsla = Hsla(h: real, sLightness: real, l: real, a: real)

  /** What `toHsva` returns. */
  datatype Hsva = Hsva(h: real, sValue: real, v: real, a: real)

  /** The optional members of the object `setRgb` receives. */
  datatype RgbPatch = RgbPatch(r: Option<real>, g: Option<real>, b: Option<real>)

  /** The optional members of the object `setHsl` receives. */
  datatype HslPatch = HslPatch(h: Option<real>, sLightness: Option<real>, l: Option<real>)

  /** The optional members of the object `setHsv` receives. */
  datatype HsvPatch = HsvPatch(h: Option<real>, sValue: Option<real>, v: Option<real>)

  /** The value after an object spread: the supplied member if present, else the current
      one. */
  function Merge(supplied: Option<real>, current: real): (x: real)
    ensures supplied.Some? ==> x == supplied.value
    ensures supplied.None? ==> x == current
  {
    if supplied.Some? then supplied.value else current
  }

  /** The record the constructor falls back to when the string does not parse. */
  const Fallback: ColorAttr := ColorAttr(0.0, 0.0, 0.0, 0.0, 0.0, 0.0, 0.0, 0.0, 1.0, Hex)

  /** The left padding `toHex` applies to each component. */
  function Pad(s: string): string
  {
    if |s| == 1 then "0" + s else s
  }

  /** A string made only of `f`, as `/^f*$/` tests. */
  predicate AllF(s: string)
  {
    forall i :: 0 <= i < |s| ==> s[i] == 'f'
  }

  /** The assembly step of `toHex` on the padded components: one digit each when all four
      are a doubled digit, and no alpha when it is all `f`. */
  function HexText(red: string, green: string, blue: string, alpha: string): string
    requires |red| >= 2 && |green| >= 2 && |blue| >= 2 && |alpha| >= 2
  {
    var short := alpha[0] == alpha[1] && red[0] == red[1] && blue[0] == blue[1] && green[0] == green[1];
    var alpha := if short then [alpha[0]] else alpha;
    var red := if short then [red[0]] else red;
    var blue := if short then [blue[0]] else blue;
    var green := if short then [green[0]] else green;
    var alpha := if AllF(alpha) then "" else alpha;
    "#" + red + green + blue + alpha
  }

  /** The two padded hex digits of a byte. */
  function ByteHex(n: nat): (s: string)
    requires n < 256
    ensures |s| == 2 && s == [LowerHexDigit(n / 16), LowerHexDigit(n % 16)]
  {
    PaddedByte(n);
    Pad(IntToHex(n))
  }

  /** Division by 16 is determined by quotient and remainder. */
  lemma Split16(n: nat, q: nat, rem: nat)
    requires rem < 16 && n == 16 * q + rem
    ensures n / 16 == q && n % 16 == rem
  {
  }

  /** A byte has equal hex digits exactly when it is a multiple of 17. */
  lemma DoubledByte(n: nat)
    requires n < 256
    ensures n / 16 == n % 16 <==> n % 17 == 0
  {
    if n % 17 == 0 {
      var k := n / 17;
      assert n == 16 * k + k;
      Split16(n, k, k);
    }
    if n / 16 == n % 16 {
      var q := n / 16;
      assert n == 17 * q;
    }
  }

  /** A byte is written as a doubled digit exactly when it is a multiple of 17, as `ff`
      exactly when it is 255, and with leading digit `f` exactly when it is at least 240. */
  lemma ByteHexDoubled(n: nat)
    requires n < 256
    ensures ByteHex(n)[0] == ByteHex(n)[1] <==> n % 17 == 0
    ensures ByteHex(n)[0] == 'f' && ByteHex(n)[1] == 'f' <==> n == 255
    ensures ByteHex(n)[0] == 'f' <==> n / 16 == 15
  {
    DoubledByte(n);
    LowerHexDigitInjective(n / 16, n % 16);
    LowerHexDigitInjective(n / 16, 15);
    LowerHexDigitInjective(n % 16, 15);
    assert LowerHexDigit(15) == 'f';
    if n / 16 == 15 && n % 16 == 15 {
      Split16(255, 15, 15);
    }
  }

  /** The `/^f*$/` test on one or two characters. */
  lemma AllFPair(c: char, d: char)
    ensures AllF([c]) <==> c == 'f'
    ensures AllF([c, d]) <==> c == 'f' && d == 'f'
  {
    assert [c][0] == c;
    assert [c, d][0] == c && [c, d][1] == d;
  }

  /** The two outcomes of `toHex`'s assembly on two-digit components. */
  lemma HexTextCases(red: string, green: string, blue: string, alpha: string)
    requires |red| == 2 && |green| == 2 && |blue| == 2 && |alpha| == 2
    ensures var short := alpha[0] == alpha[1] && red[0] == red[1] && blue[0] == blue[1] && green[0] == green[1];
      && (short ==>
            HexText(red, green, blue, alpha)
              == "#" + [red[0], green[0], blue[0]] + (if alpha[0] == 'f' then [] else [alpha[0]]))
      && (!short ==>
            HexText(red, green, blue, alpha)
              == "#" + red + green + blue + (if alpha[0] == 'f' && alpha[1] == 'f' then [] else alpha))
  {
    AllFPair(alpha[0], alpha[1]);
    assert alpha == [alpha[0], alpha[1]];
  }

  /** `#` and the digits that `toHex` writes: lower-case hex digits, 3, 4, 6 or 8 of them. */
  predicate LowerHex(digits: string)
  {
    AllHexDigits(digits) && forall i :: 0 <= i < |digits| ==> !('A' <= digits[i] <= 'F')
  }

  /** The two digits of a byte are lower-case hex digits. */
  lemma ByteHexLower(n: nat)
    requires n < 256
    ensures LowerHex(ByteHex(n))
  {
  }

  /** The digits after `#` in the short form. */
  function ShortDigits(r: nat, g: nat, b: nat, alpha: nat): (d: string)
    requires r < 256 && g < 256 && b < 256 && alpha < 256
    ensures LowerHex(d) && |d| == (if alpha / 16 == 15 then 3 else 4)
  {
    ByteHexDoubled(alpha);
    [ByteHex(r)[0], ByteHex(g)[0], ByteHex(b)[0]] + (if ByteHex(alpha)[0] == 'f' then [] else [ByteHex(alpha)[0]])
  }

  /** The digits after `#` in the long form. */
  function LongDigits(r: nat, g: nat, b: nat, alpha: nat): (d: string)
    requires r < 256 && g < 256 && b < 256 && alpha < 256
    ensures LowerHex(d) && |d| == (if alpha == 255 then 6 else 8)
  {
    ByteHexDoubled(alpha);
    var R, G, B, A := ByteHex(r), ByteHex(g), ByteHex(b), ByteHex(alpha);
    [R[0], R[1], G[0], G[1], B[0], B[1]] + (if A[0] == 'f' && A[1] == 'f' then [] else [A[0], A[1]])
  }

  /** The assembly on bytes is `#` followed by the short or the long digits. */
  lemma HexTextDigits(r: nat, g: nat, b: nat, alpha: nat)
    requires r < 256 && g < 256 && b < 256 && alpha < 256
    ensures var short := r % 17 == 0 && g % 17 == 0 && b % 17 == 0 && alpha % 17 == 0;
      HexText(ByteHex(r), ByteHex(g), ByteHex(b), ByteHex(alpha))
        == "#" + if short then ShortDigits(r, g, b, alpha) else LongDigits(r, g, b, alpha)
  {
    if r % 17 == 0 && g % 17 == 0 && b % 17 == 0 && alpha % 17 == 0 {
      HexTextShortDigits(r, g, b, alpha);
    } else {
      HexTextLongDigits(r, g, b, alpha);
    }
  }

  /** The short case of `HexTextDigits`. */
  lemma HexTextShortDigits(r: nat, g: nat, b: nat, alpha: nat)
    requires r < 256 && g < 256 && b < 256 && alpha < 256
    requires r % 17 == 0 && g % 17 == 0 && b % 17 == 0 && alpha % 17 == 0
    ensures HexText(ByteHex(r), ByteHex(g), ByteHex(b), ByteHex(alpha)) == "#" + ShortDigits(r, g, b, alpha)
  {
    var R, G, B, A := ByteHex(r), ByteHex(g), ByteHex(b), ByteHex(alpha);
    ByteHexDoubled(r);
    ByteHexDoubled(g);
    ByteHexDoubled(b);
    ByteHexDoubled(alpha);
    HexTextCases(R, G, B, A);
  }

  /** The long case of `HexTextDigits`. */
  lemma HexTextLongDigits(r: nat, g: nat, b: nat, alpha: nat)
    requires r < 256 && g < 256 && b < 256 && alpha < 256
    requires !(r % 17 == 0 && g % 17 == 0 && b % 17 == 0 && alpha % 17 == 0)
    ensures HexText(ByteHex(r), ByteHex(g), ByteHex(b), ByteHex(alpha)) == "#" + LongDigits(r, g, b, alpha)
  {
    var R, G, B, A := ByteHex(r), ByteHex(g), ByteHex(b), ByteHex(alpha);
    ByteHexDoubled(r);
    ByteHexDoubled(g);
    ByteHexDoubled(b);
    ByteHexDoubled(alpha);
    HexTextCases(R, G, B, A);
    assert R + G + B == [R[0], R[1], G[0], G[1], B[0], B[1]];
  }

  /** The shape of `toHex` on bytes: `#` and 3, 4, 6 or 8 lower-case digits; the short forms
      exactly when every byte is a doubled digit, and no alpha digits exactly when alpha is
      255. */
  lemma HexTextShape(r: nat, g: nat, b: nat, alpha: nat)
    requires r < 256 && g < 256 && b < 256 && alpha < 256
    ensures var s := HexText(ByteHex(r), ByteHex(g), ByteHex(b), ByteHex(alpha));
      && C.WellFormedHex(s) && LowerHex(s[1..])
      && (|s| <= 5 <==> r % 17 == 0 && g % 17 == 0 && b % 17 == 0 && alpha % 17 == 0)
      && (|s| == 4 || |s| == 7 <==> alpha == 255)
  {
    HexTextDigits(r, g, b, alpha);
    var s := HexText(ByteHex(r), ByteHex(g), ByteHex(b), ByteHex(alpha));
    if r % 17 == 0 && g % 17 == 0 && b % 17 == 0 && alpha % 17 == 0 {
      assert s[1..] == ShortDigits(r, g, b, alpha);
      DoubledByte(alpha);
      if alpha / 16 == 15 {
        Split16(255, 15, 15);
      }
    } else {
      assert s[1..] == LongDigits(r, g, b, alpha);
    }
  }

  /** The shape and the read-back of the byte encoding, over the whole string. */
  lemma HexTextSpec(r: nat, g: nat, b: nat, alpha: nat)
    requires r < 256 && g < 256 && b < 256 && alpha < 256
    ensures var s := HexText(ByteHex(r), ByteHex(g), ByteHex(b), ByteHex(alpha));
      && C.WellFormedHex(s)
      && (forall i :: 0 <= i < |s| ==> !('A' <= s[i] <= 'F'))
      && (|s| <= 5 <==> r % 17 == 0 && g % 17 == 0 && b % 17 == 0 && alpha % 17 == 0)
      && (|s| == 4 || |s| == 7 <==> alpha == 255)
      && C.HexToRgba(s) == Ok(C.Rgba(r as real, g as real, b as real, alpha as real / 255.0))
  {
    var s := HexText(ByteHex(r), ByteHex(g), ByteHex(b), ByteHex(alpha));
    HexTextShape(r, g, b, alpha);
    HexTextRoundTrip(r, g, b, alpha);
    assert forall i :: 1 <= i < |s| ==> s[i] == s[1..][i - 1];
  }

  /** Reading back the short form gives the bytes. */
  lemma ShortRoundTrip(r: nat, g: nat, b: nat, alpha: nat)
    requires r < 256 && g < 256 && b < 256 && alpha < 256
    requires r % 17 == 0 && g % 17 == 0 && b % 17 == 0 && alpha % 17 == 0
    ensures C.WellFormedHex("#" + ShortDigits(r, g, b, alpha))
    ensures C.HexToRgba("#" + ShortDigits(r, g, b, alpha))
      == Ok(C.Rgba(r as real, g as real, b as real, alpha as real / 255.0))
  {
    var s := "#" + ShortDigits(r, g, b, alpha);
    assert s[1..] == ShortDigits(r, g, b, alpha);
    DoubledByte(alpha);
    if alpha / 16 == 15 {
      Split16(255, 15, 15);
    }
    C.HexToRgbaDigits(s);
    ComponentDigits(r);
    ComponentDigits(g);
    ComponentDigits(b);
    ComponentDigits(alpha);
  }

  /** Reading back the long form gives the bytes. */
  lemma LongRoundTrip(r: nat, g: nat, b: nat, alpha: nat)
    requires r < 256 && g < 256 && b < 256 && alpha < 256
    ensures C.WellFormedHex("#" + LongDigits(r, g, b, alpha))
    ensures C.HexToRgba("#" + LongDigits(r, g, b, alpha))
      == Ok(C.Rgba(r as real, g as real, b as real, alpha as real / 255.0))
  {
    var s := "#" + LongDigits(r, g, b, alpha);
    var R, G, B, A := ByteHex(r), ByteHex(g), ByteHex(b), ByteHex(alpha);
    assert s[1..] == LongDigits(r, g, b, alpha);
    assert s[1] == R[0] && s[2] == R[1];
    assert s[3] == G[0] && s[4] == G[1];
    assert s[5] == B[0] && s[6] == B[1];
    ByteHexDoubled(alpha);
    if alpha != 255 {
      assert s[7] == A[0] && s[8] == A[1];
    }
    C.HexToRgbaDigits(s);
    ComponentDigits(r);
    ComponentDigits(g);
    ComponentDigits(b);
    ComponentDigits(alpha);
  }

  /** Reading back what `toHex` writes: `hexToRgba` accepts it and returns the bytes, with
      alpha over 255. */
  lemma HexTextRoundTrip(r: nat, g: nat, b: nat, alpha: nat)
    requires r < 256 && g < 256 && b < 256 && alpha < 256
    ensures C.HexToRgba(HexText(ByteHex(r), ByteHex(g), ByteHex(b), ByteHex(alpha)))
      == Ok(C.Rgba(r as real, g as real, b as real, alpha as real / 255.0))
  {
    HexTextDigits(r, g, b, alpha);
    if r % 17 == 0 && g % 17 == 0 && b % 17 == 0 && alpha % 17 == 0 {
      ShortRoundTrip(r, g, b, alpha);
    } else {
      LongRoundTrip(r, g, b, alpha);
    }
  }

  /** The digit values of a byte's hex form: the byte from its two digits, and 17 times the
      leading digit when the byte is a multiple of 17. */
  lemma ComponentDigits(n: nat)
    requires n < 256
    ensures C.Byte(ByteHex(n)[0], ByteHex(n)[1]) == n
    ensures n % 17 == 0 ==> 17 * DigitValue(ByteHex(n)[0]) == n
  {
    DoubledByte(n);
  }

  /** The template of the string renderers: `name(args)` without an alpha argument and
      `namea(args, alpha)` with one. */
  function Functional(name: string, args: string, alpha: Option<string>): string
  {
    match alpha
    case None => name + "(" + args + ")"
    case Some(t) => name + "a(" + args + ", " + t + ")"
  }

  /** The arguments of `toHslaString` and `toHsvaString`: an angle in degrees and two
      percentages. */
  function AnglePercents(deg: int, p1: int, p2: int): string
  {
    IntToDecimal(deg) + "deg, " + IntToDecimal(p1) + "%, " + IntToDecimal(p2) + "%"
  }

  /** Renderings of equal angles, percentages and alpha arguments are equal. */
  lemma AnglePercentsCongruence(name: string, d1: int, p1: int, q1: int, d2: int, p2: int, q2: int,
                                x: Option<string>, y: Option<string>)
    requires d1 == d2 && p1 == p2 && q1 == q2 && x == y
    ensures Functional(name, AnglePercents(d1, p1, q1), x) == Functional(name, AnglePercents(d2, p2, q2), y)
  {
  }

  /** A rendered string starts with the three-letter name, followed by `(` exactly when
      there is no alpha argument. */
  lemma FunctionalForm(name: string, args: string, alpha: Option<string>)
    requires |name| == 3
    ensures var s := Functional(name, args, alpha);
      s[..3] == name && (s[3] == '(' <==> alpha.None?)
  {
    var s := Functional(name, args, alpha);
    match alpha
    case None =>
      assert s == (name + "(") + (args + ")");
      assert s[3] == (name + "(")[3];
    case Some(t) =>
      assert s == (name + "a(") + (args + ", " + t + ")");
      assert s[3] == (name + "a(")[3];
    assert s[..3] == name;
  }

  /** What `toHex` needs to write its components: the rounded channels, and the rounded
      alpha byte when alpha is not 1, are not negative. */
  predicate HexWritable(r: real, g: real, b: real, a: real)
  {
    Rd(r) >= 0 && Rd(g) >= 0 && Rd(b) >= 0 && (a != 1.0 ==> Rd(a * 255.0) >= 0)
  }

  /** The alpha byte `toHex` writes: 255 for alpha 1, the rounded alpha times 255
      otherwise. */
  function AlphaByte(a: real): (n: int)
    ensures a == 1.0 ==> n == 255
    ensures a != 1.0 ==> n == Rd(a * 255.0)
  {
    if a != 1.0 then Rd(a * 255.0) else 255
  }

  /** `toHex` on the channels and alpha of a colour. */
  function HexOf(r: real, g: real, b: real, a: real): string
    requires HexWritable(r, g, b, a)
  {
    var alpha := if a != 1.0 then IntToHex(Rd(a * 255.0)) else "ff";
    var red := IntToHex(Rd(r));
    var green := IntToHex(Rd(g));
    var blue := IntToHex(Rd(b));
    HexText(Pad(red), Pad(green), Pad(blue), Pad(alpha))
  }

  /** For bytes, `toHex` is the byte encoding of the rounded channels and the alpha byte. */
  lemma HexOfBytes(r: real, g: real, b: real, a: real)
    requires 0 <= Rd(r) < 256 && 0 <= Rd(g) < 256 && 0 <= Rd(b) < 256
    requires a != 1.0 ==> 0 <= Rd(a * 255.0) < 256
    ensures 0 <= AlphaByte(a) < 256
    ensures HexOf(r, g, b, a) == HexText(ByteHex(Rd(r)), ByteHex(Rd(g)), ByteHex(Rd(b)), ByteHex(AlphaByte(a)))
  {
    assert IntToHex(255) == "ff" by {
      assert IntToHex(15) == "f";
    }
    var alpha := if a != 1.0 then IntToHex(Rd(a * 255.0)) else "ff";
    assert Pad(alpha) == ByteHex(AlphaByte(a));
  }

  /** For rounded channels and alpha byte within [0, 255], `toHex` is the byte encoding:
      `#` and 3, 4, 6 or 8 lower-case digits, short exactly when all four bytes are doubled
      digits, without alpha exactly when the alpha byte is 255; and `hexToRgba` reads it
      back as the rounded channels and alpha (1 when alpha is 1). */
  lemma HexOfRoundTrip(r: real, g: real, b: real, a: real)
    requires 0 <= Rd(r) < 256 && 0 <= Rd(g) < 256 && 0 <= Rd(b) < 256
    requires a != 1.0 ==> 0 <= Rd(a * 255.0) < 256
    ensures var s := HexOf(r, g, b, a);
      && C.WellFormedHex(s)
      && (forall i :: 0 <= i < |s| ==> !('A' <= s[i] <= 'F'))
      && (|s| <= 5 <==> Rd(r) % 17 == 0 && Rd(g) % 17 == 0 && Rd(b) % 17 == 0 && AlphaByte(a) % 17 == 0)
      && (|s| == 4 || |s| == 7 <==> a == 1.0 || Rd(a * 255.0) == 255)
      && C.HexToRgba(s) == Ok(C.Rgba(Rd(r) as real, Rd(g) as real, Rd(b) as real,
           if a == 1.0 then 1.0 else Rd(a * 255.0) as real / 255.0))
  {
    HexOfBytes(r, g, b, a);
    var al := AlphaByte(a);
    AlphaByteFacts(a, al);
    HexTextSpec(Rd(r), Rd(g), Rd(b), al);
  }

  /** The alpha byte is 255 exactly for an opaque colour, and over 255 it is the alpha
      `hexToRgba` reads back. */
  lemma AlphaByteFacts(a: real, al: int)
    requires al == AlphaByte(a)
    ensures al == 255 <==> a == 1.0 || Rd(a * 255.0) == 255
    ensures al as real / 255.0 == if a == 1.0 then 1.0 else Rd(a * 255.0) as real / 255.0
  {
  }

  /** `toHex` is stable under `hexToRgba`: re-encoding what it decodes to gives the same
      string back. */
  lemma HexOfIdempotent(r: real, g: real, b: real, a: real)
    requires 0 <= Rd(r) < 256 && 0 <= Rd(g) < 256 && 0 <= Rd(b) < 256
    requires a != 1.0 ==> 0 <= Rd(a * 255.0) < 256
    ensures C.WellFormedHex(HexOf(r, g, b, a))
    ensures var c := C.HexToRgba(HexOf(r, g, b, a)).value;
      HexWritable(c.r, c.g, c.b, c.a) && HexOf(c.r, c.g, c.b, c.a) == HexOf(r, g, b, a)
  {
    HexOfRoundTrip(r, g, b, a);
    var c := C.HexToRgba(HexOf(r, g, b, a)).value;
    RdOfInteger(Rd(r));
    RdOfInteger(Rd(g));
    RdOfInteger(Rd(b));
    AlphaByteStable(a, c.a);
    HexOfBytes(r, g, b, a);
    HexOfBytes(c.r, c.g, c.b, c.a);
  }

  /** The alpha `hexToRgba` reads back from the alpha byte has that same alpha byte. */
  lemma AlphaByteStable(a: real, a': real)
    requires a != 1.0 ==> 0 <= Rd(a * 255.0) < 256
    requires a' == if a == 1.0 then 1.0 else Rd(a * 255.0) as real / 255.0
    ensures a' != 1.0 ==> 0 <= Rd(a' * 255.0) < 256
    ensures AlphaByte(a') == AlphaByte(a)
  {
    if a != 1.0 {
      var k := Rd(a * 255.0);
      assert a' * 255.0 == k as real;
      RdOfInteger(k);
    }
  }

  /** The record `setHex` stores: none for a malformed string, otherwise the decoded
      channels and alpha with the HSL and HSV fields derived from the channels. */
  function HexRecord(color: string, format: Format): (c: Option<ColorAttr>)
    ensures c.Some? <==> C.WellFormedHex(color)
  {
    match C.HexToRgba(color)
    case Err(_) => None
    case Ok(rgba) =>
      C.HexToRgbaRange(color);
      Some(P.FromRgb(rgba.r, rgba.g, rgba.b, rgba.a, format))
  }

  /** A decoded record keeps the decoded channels and alpha, each in range, and the format
      given, and its three colour spaces agree. */
  lemma HexRecordSpec(color: string, format: Format)
    requires C.WellFormedHex(color)
    ensures var rgba := C.HexToRgba(color).value;
      var c := HexRecord(color, format).value;
      && c.r == rgba.r && c.g == rgba.g && c.b == rgba.b && c.a == rgba.a && c.format == format
      && P.RgbDerived(c) && 0.0 <= c.a <= 1.0
  {
    var rgba := C.HexToRgba(color).value;
    C.HexToRgbaRange(color);
    P.FromRgbSpec(rgba.r, rgba.g, rgba.b, rgba.a, format);
  }

  /** `SuperColor`: ten fields, every colour space stored at once. */
  class SuperColor {
    var r: real
    var g: real
    var b: real
    var h: real
    var sLightness: real
    var l: real
    var sValue: real
    var v: real
    var a: real
    var format: Format

    /** The ten fields as one record. */
    function State(): ColorAttr
      reads this
    {
      ColorAttr(r, g, b, h, sLightness, l, sValue, v, a, format)
    }

    /** The constructor: a string goes through `parseColor` with the name table and
        matchers, and falls back to opaque black tagged `hex` when it does not parse; a
        record is copied field by field. */
    constructor(color: ColorInput, names: map<string, string>, m: P.Matchers)
      ensures State() == match color
        case Attr(attr) => attr
        case Str(text) =>
          var parsed := P.ParseColor(names, m, text);
          if parsed.Some? then parsed.value else Fallback
    {
      var c := Fallback;
      if color.Str? {
        var parsed := P.ParseColor(names, m, color.text);
        if parsed.Some? {
          c := parsed.value;
        }
      } else {
        c := color.attr;
      }
      r, g, b := c.r, c.g, c.b;
      h, sLightness, l := c.h, c.sLightness, c.l;
      sValue, v := c.sValue, c.v;
      a, format := c.a, c.format;
    }

    /** `getFormat`. */
    function GetFormat(): (f: Format)
      reads this
      ensures f == State().format
    {
      format
    }

    /** `setFormat`: only the format changes. */
    method SetFormat(f: Format)
      modifies this
      ensures State() == old(State()).(format := f)
    {
      format := f;
    }

    /** `setAlpha`: only alpha changes. */
    method SetAlpha(alpha: real)
      modifies this
      ensures State() == old(State()).(a := alpha)
    {
      a := alpha;
    }

    /** `setHue`: the hue and the channels change, the channels becoming the HSL colour of
        the new hue with the stored saturation and lightness; nothing else moves. */
    method SetHue(hue: real)
      modifies this
      ensures var c := C.HslToRgb(hue, old(sLightness), old(l));
        State() == old(State()).(r := c.r, g := c.g, b := c.b, h := hue)
      ensures C.HslToRgb(h, sLightness, l) == C.Rgb(r, g, b)
    {
      var c := C.HslToRgb(hue, sLightness, l);
      r, g, b := c.r, c.g, c.b;
      h := hue;
    }

    /** Overwrites every field with the given record. */
    method Store(c: ColorAttr)
      modifies this
      ensures State() == c
    {
      r, g, b, a := c.r, c.g, c.b, c.a;
      h, sLightness, l, sValue, v := c.h, c.sLightness, c.l, c.sValue, c.v;
      format := c.format;
    }

    /** `setHex`: a malformed string throws before any field is written; otherwise the
        channels and alpha are decoded and the other spaces derived from the channels, the
        format staying as it was. */
    method SetHex(color: string) returns (ok: bool)
      modifies this
      ensures ok <==> C.WellFormedHex(color)
      ensures !ok ==> State() == old(State())
      ensures ok ==> State() == HexRecord(color, old(format)).value
      ensures ok ==> P.RgbDerived(State()) && 0.0 <= a <= 1.0
    {
      if !C.WellFormedHex(color) {
        return false;
      }
      HexRecordSpec(color, format);
      Store(HexRecord(color, format).value);
      ok := true;
    }

    /** `setRgb`: the supplied channels replace the stored ones and the HSL and HSV fields
        are derived from the merged channels; alpha and format stay. */
    method SetRgb(patch: RgbPatch)
      requires C.InRange(Merge(patch.r, r), Merge(patch.g, g), Merge(patch.b, b))
      modifies this
      ensures State() == P.FromRgb(Merge(patch.r, old(r)), Merge(patch.g, old(g)), Merge(patch.b, old(b)),
        old(a), old(format))
      ensures P.RgbDerived(State())
    {
      var nr, ng, nb := Merge(patch.r, r), Merge(patch.g, g), Merge(patch.b, b);
      P.FromRgbSpec(nr, ng, nb, a, format);
      var c := C.RgbToHslsv(nr, ng, nb);
      r, g, b := nr, ng, nb;
      h, sLightness, l, sValue, v := c.h, c.sLightness, c.l, c.sValue, c.v;
    }

    /** `setHsl`: the supplied HSL fields replace the stored ones and the channels and HSV
        fields are derived from the merged HSL colour; alpha and format stay. */
    method SetHsl(patch: HslPatch)
      modifies this
      ensures State() == P.FromHsl(Merge(patch.h, old(h)), Merge(patch.sLightness, old(sLightness)),
        Merge(patch.l, old(l)), old(a)).(format := old(format))
      ensures P.HslDerived(State())
    {
      var nh, ns, nl := Merge(patch.h, h), Merge(patch.sLightness, sLightness), Merge(patch.l, l);
      P.FromHslSpec(nh, ns, nl, a);
      var c := C.HslToRgbsv(nh, ns, nl);
      h, sLightness, l := nh, ns, nl;
      sValue, v := c.sValue, c.v;
      r, g, b := c.r, c.g, c.b;
    }

    /** `setHsv`: the supplied saturation and value replace the stored ones and the channels
        and both HSL fields are derived from the merged HSV colour, whose hue is the supplied
        one if any; the stored hue itself is never written, and alpha and format stay. */
    method SetHsv(patch: HsvPatch)
      requires Merge(patch.h, h) >= 0.0
      requires 0.0 <= Merge(patch.sValue, sValue) <= 1.0 && 0.0 <= Merge(patch.v, v) <= 1.0
      modifies this
      ensures var c := C.HsvToRgbsl(Merge(patch.h, old(h)), Merge(patch.sValue, old(sValue)), Merge(patch.v, old(v)));
        State() == old(State()).(r := c.r, g := c.g, b := c.b, sLightness := c.l, l := c.l,
          sValue := Merge(patch.sValue, old(sValue)), v := Merge(patch.v, old(v)))
      ensures h == old(h) && sLightness == l
      ensures C.InRange(r, g, b) && C.HsvToRgb(Merge(patch.h, old(h)), sValue, v) == C.Rgb(r, g, b)
    {
      var nh, ns, nv := Merge(patch.h, h), Merge(patch.sValue, sValue), Merge(patch.v, v);
      C.HsvToRgbslSpec(nh, ns, nv);
      var c := C.HsvToRgbsl(nh, ns, nv);
      sValue, v := ns, nv;
      r, g, b := c.r, c.g, c.b;
      sLightness, l := c.sLightness, c.l;
    }

    /** `toHex`. */
    function ToHex(): string
      reads this
      requires HexWritable(r, g, b, a)
    {
      HexOf(r, g, b, a)
    }

    /** For channels and alpha that round to bytes, `hexToRgba` reads back from `toHex` the
        channels `toRgba` reports, and alpha 1 for an opaque colour. */
    lemma ToHexRoundTrip()
      requires 0 <= Rd(r) < 256 && 0 <= Rd(g) < 256 && 0 <= Rd(b) < 256
      requires a != 1.0 ==> 0 <= Rd(a * 255.0) < 256
      ensures C.WellFormedHex(ToHex())
      ensures var c := C.HexToRgba(ToHex()).value;
        && c.r == ToRgba().r && c.g == ToRgba().g && c.b == ToRgba().b
        && (a == 1.0 ==> c.a == 1.0)
    {
      HexOfRoundTrip(r, g, b, a);
    }

    /** `toRgba`: each channel within rounding distance of the stored one and whole, alpha
        within 0.005 of the stored one and in hundredths. */
    function ToRgba(): (c: C.Rgba)
      reads this
      ensures r - 0.5 < c.r <= r + 0.5 && g - 0.5 < c.g <= g + 0.5 && b - 0.5 < c.b <= b + 0.5
      ensures c.r == c.r.Floor as real && c.g == c.g.Floor as real && c.b == c.b.Floor as real
      ensures -0.005 < c.a - a <= 0.005 && Rd2(c.a) == c.a
    {
      Rd2Idempotent(a);
      C.Rgba(Rd(r) as real, Rd(g) as real, Rd(b) as real, Rd2(a))
    }

    /** `toHsla`: the hue within rounding distance of the stored one and whole, the other
        fields within 0.005 of the stored ones and in hundredths. */
    function ToHsla(): (c: Hsla)
      reads this
      ensures h - 0.5 < c.h <= h + 0.5 && c.h == c.h.Floor as real
      ensures -0.005 < c.sLightness - sLightness <= 0.005 && -0.005 < c.l - l <= 0.005
      ensures -0.005 < c.a - a <= 0.005
      ensures Rd2(c.sLightness) == c.sLightness && Rd2(c.l) == c.l && Rd2(c.a) == c.a
    {
      Rd2Idempotent(sLightness);
      Rd2Idempotent(l);
      Rd2Idempotent(a);
      Hsla(Rd(h) as real, Rd2(sLightness), Rd2(l), Rd2(a))
    }

    /** `toHsva`: as `toHsla`, for the HSV fields. */
    function ToHsva(): (c: Hsva)
      reads this
      ensures h - 0.5 < c.h <= h + 0.5 && c.h == c.h.Floor as real
      ensures -0.005 < c.sValue - sValue <= 0.005 && -0.005 < c.v - v <= 0.005
      ensures -0.005 < c.a - a <= 0.005
      ensures Rd2(c.sValue) == c.sValue && Rd2(c.v) == c.v && Rd2(c.a) == c.a
    {
      Rd2Idempotent(sValue);
      Rd2Idempotent(v);
      Rd2Idempotent(a);
      Hsva(Rd(h) as real, Rd2(sValue), Rd2(v), Rd2(a))
    }

    /** The alpha argument the `a` forms of the renderers print, absent when alpha is 1;
        `fmt` is JavaScript's rendering of a fractional number. */
    function AlphaText(fmt: real -> string): (t: Option<string>)
      reads this
      ensures t.None? <==> a == 1.0
      ensures t.Some? ==> t.value == fmt(ToRgba().a)
    {
      if a == 1.0 then None else Some(fmt(Rd2(a)))
    }

    /** `toRgbaString`. */
    function ToRgbaString(fmt: real -> string): string
      reads this
    {
      Functional("rgb", IntToDecimal(Rd(r)) + ", " + IntToDecimal(Rd(g)) + ", " + IntToDecimal(Rd(b)),
        AlphaText(fmt))
    }

    /** `toHslaString`: the hue in degrees and the saturation and lightness as rounded
        percentages. */
    function ToHslaString(fmt: real -> string): string
      reads this
    {
      Functional("hsl", AnglePercents(Rd(h), Rd(sLightness * 100.0), Rd(l * 100.0)), AlphaText(fmt))
    }

    /** `toHsvaString`: as `toHslaString`, for the HSV fields. */
    function ToHsvaString(fmt: real -> string): string
      reads this
    {
      Functional("hsv", AnglePercents(Rd(h), Rd(sValue * 100.0), Rd(v * 100.0)), AlphaText(fmt))
    }

    /** `toRgbaString` uses `rgb(` exactly when alpha is 1, and `rgba(` otherwise. */
    lemma RgbaStringForm(fmt: real -> string)
      ensures ToRgbaString(fmt)[..3] == "rgb" && (ToRgbaString(fmt)[3] == '(' <==> a == 1.0)
    {
      FunctionalForm("rgb", IntToDecimal(Rd(r)) + ", " + IntToDecimal(Rd(g)) + ", " + IntToDecimal(Rd(b)),
        AlphaText(fmt));
    }

    /** `toHslaString` uses `hsl(` exactly when alpha is 1, and `hsla(` otherwise. */
    lemma HslaStringForm(fmt: real -> string)
      ensures ToHslaString(fmt)[..3] == "hsl" && (ToHslaString(fmt)[3] == '(' <==> a == 1.0)
    {
      FunctionalForm("hsl", AnglePercents(Rd(h), Rd(sLightness * 100.0), Rd(l * 100.0)), AlphaText(fmt));
    }

    /** `toHsvaString` uses `hsv(` exactly when alpha is 1, and `hsva(` otherwise. */
    lemma HsvaStringForm(fmt: real -> string)
      ensures ToHsvaString(fmt)[..3] == "hsv" && (ToHsvaString(fmt)[3] == '(' <==> a == 1.0)
    {
      FunctionalForm("hsv", AnglePercents(Rd(h), Rd(sValue * 100.0), Rd(v * 100.0)), AlphaText(fmt));
    }

    /** `toRgbaString` prints the channels and the alpha that `toRgba` reports. */
    lemma RgbaStringOfRgba(fmt: real -> string)
      ensures var c := ToRgba();
        var args := IntToDecimal(c.r.Floor) + ", " + IntToDecimal(c.g.Floor) + ", " + IntToDecimal(c.b.Floor);
        ToRgbaString(fmt) == if a == 1.0 then "rgb(" + args + ")" else "rgba(" + args + ", " + fmt(c.a) + ")"
    {
      var c := ToRgba();
      assert c.r.Floor == Rd(r) && c.g.Floor == Rd(g) && c.b.Floor == Rd(b);
    }

    /** `toHslaString` prints the hue that `toHsla` reports in degrees, its saturation and
        lightness as rounded percentages, and its alpha unless alpha is 1. */
    lemma HslaStringOfHsla(fmt: real -> string)
      ensures var c := ToHsla();
        ToHslaString(fmt) == Functional("hsl", AnglePercents(c.h.Floor, Rd(c.sLightness * 100.0), Rd(c.l * 100.0)),
          if a == 1.0 then None else Some(fmt(c.a)))
    {
      HslaPercents();
      AlphaTextRounded(fmt);
      var c := ToHsla();
      assert ToHslaString(fmt) == Functional("hsl", AnglePercents(Rd(h), Rd(sLightness * 100.0), Rd(l * 100.0)), AlphaText(fmt));
      AnglePercentsCongruence("hsl", Rd(h), Rd(sLightness * 100.0), Rd(l * 100.0),
        c.h.Floor, Rd(c.sLightness * 100.0), Rd(c.l * 100.0),
        AlphaText(fmt), if a == 1.0 then None else Some(fmt(c.a)));
    }

    /** The rounded hue and percentages of the fields are those of `toHsla`. */
    lemma HslaPercents()
      ensures ToHsla().h.Floor == Rd(h)
      ensures Rd(ToHsla().sLightness * 100.0) == Rd(sLightness * 100.0) && Rd(ToHsla().l * 100.0) == Rd(l * 100.0)
    {
      Rd2Percent(sLightness);
      Rd2Percent(l);
    }

    /** `toHsvaString` prints the hue that `toHsva` reports in degrees, its saturation and
        value as rounded percentages, and its alpha unless alpha is 1. */
    lemma HsvaStringOfHsva(fmt: real -> string)
      ensures var c := ToHsva();
        ToHsvaString(fmt) == Functional("hsv", AnglePercents(c.h.Floor, Rd(c.sValue * 100.0), Rd(c.v * 100.0)),
          if a == 1.0 then None else Some(fmt(c.a)))
    {
      HsvaPercents();
      AlphaTextRounded(fmt);
      var c := ToHsva();
      assert ToHsvaString(fmt) == Functional("hsv", AnglePercents(Rd(h), Rd(sValue * 100.0), Rd(v * 100.0)), AlphaText(fmt));
      AnglePercentsCongruence("hsv", Rd(h), Rd(sValue * 100.0), Rd(v * 100.0),
        c.h.Floor, Rd(c.sValue * 100.0), Rd(c.v * 100.0),
        AlphaText(fmt), if a == 1.0 then None else Some(fmt(c.a)));
    }

    /** The rounded hue and percentages of the fields are those of `toHsva`. */
    lemma HsvaPercents()
      ensures ToHsva().h.Floor == Rd(h)
      ensures Rd(ToHsva().sValue * 100.0) == Rd(sValue * 100.0) && Rd(ToHsva().v * 100.0) == Rd(v * 100.0)
    {
      Rd2Percent(sValue);
      Rd2Percent(v);
    }

    /** The alpha argument is the alpha that `toHsla` and `toHsva` report. */
    lemma AlphaTextRounded(fmt: real -> string)
      ensures AlphaText(fmt) == if a == 1.0 then None else Some(fmt(ToHsla().a))
      ensures AlphaText(fmt) == if a == 1.0 then None else Some(fmt(ToHsva().a))
    {
    }

    /** After `setHex(toHex())` the colour writes the same hex string again: the string is
        well-formed, and the record it decodes to renders as it. */
    lemma ToHexStable()
      requires 0 <= Rd(r) < 256 && 0 <= Rd(g) < 256 && 0 <= Rd(b) < 256
      requires a != 1.0 ==> 0 <= Rd(a * 255.0) < 256
      ensures HexRecord(ToHex(), format).Some?
      ensures var c := HexRecord(ToHex(), format).value;
        HexWritable(c.r, c.g, c.b, c.a) && HexOf(c.r, c.g, c.b, c.a) == ToHex()
    {
      HexOfRoundTrip(r, g, b, a);
      HexOfIdempotent(r, g, b, a);
      HexRecordSpec(ToHex(), format);
    }

    /** `toString`: the colour name of the hex form when names are allowed and the table has
        a truthy entry for it; otherwise the renderer of the stored format. */
    function ToString(canBeColorName: bool, hexNames: map<string, string>, fmt: real -> string): (s: string)
      reads this
      requires HexWritable(r, g, b, a)
    {
      var hex := ToHex();
      if canBeColorName && hex in hexNames && hexNames[hex] != "" then hexNames[hex]
      else
        match format
        case Rgb => ToRgbaString(fmt)
        case Hsl => ToHslaString(fmt)
        case Hsv => ToHsvaString(fmt)
        case Hex => hex
    }

    /** Without a name, `toString` of a colour tagged `hex` is its `toHex`, and one tagged
        otherwise is never a hex string but the renderer of its format; with a name, the
        name. */
    lemma ToStringSpec(canBeColorName: bool, hexNames: map<string, string>, fmt: real -> string)
      requires HexWritable(r, g, b, a)
      ensures var hex := ToHex();
        var s := ToString(canBeColorName, hexNames, fmt);
        && (canBeColorName && hex in hexNames && hexNames[hex] != "" ==> s == hexNames[hex])
        && (!(canBeColorName && hex in hexNames && hexNames[hex] != "") ==>
             && (format == Hex ==> s == hex && s[0] == '#')
             && (format == Rgb ==> s == ToRgbaString(fmt) && s[..3] == "rgb")
             && (format == Hsl ==> s == ToHslaString(fmt) && s[..3] == "hsl")
             && (format == Hsv ==> s == ToHsvaString(fmt) && s[..3] == "hsv"))
    {
      RgbaStringForm(fmt);
      HslaStringForm(fmt);
      HsvaStringForm(fmt);
    }
  }
}
