# super-color in Dafny

A model of the core of `super-color`, a TypeScript library that holds one colour in
three colour spaces at once. It keeps the red/green/blue channels (0–255), the HSL triple
and the HSV triple together with an alpha and a preferred output format. It parses CSS-like
colour strings (`rgb(…)`, `rgba(…)`, `hsl(…)`, `hsv(…)`, `#rgb`, `#rgba`, `#rrggbb`,
`#rrggbbaa`, colour names, `transparent`). It renders the colour back as hex, as functional
strings or as a colour name.

Files, one Dafny module each:

- `wrappers.dfy` (`Wrappers`): `Option` and `Result`.
- `types.dfy` (`Types`): the format tag and the ten-field colour record of `src/types/index.ts`.
- `utils.dfy` (`Utils`): `rd`, `rd2` and `flip` of `src/functions/utils.ts`. `flip` is an
  imperative loop proved against a reference fold.
- `text.dfy` (`Text`): the JavaScript string built-ins the core relies on:
  - hexadecimal digits, `parseInt(_, 16)`, `toString(16)` and decimal `toString()`;
  - trimming with the `\s` class;
  - `toLowerCase`.
- `conversion.dfy` (`Conversion`): the colour-space converters of `src/functions/conversion.ts`.
  They are proved in range, and proved to round-trip exactly on real numbers.
- `parsing.dfy` (`Parsing`): `parseColor` of `src/functions/parsing.ts`. The model covers
  normalisation, name substitution and the ten-matcher chain. It proves that the chain is a
  first-match search, and what each branch records.
- `super_color.dfy` (`Colors`): the `SuperColor` class of `src/SuperColor.ts`:
  - a Dafny `class` with the same ten fields;
  - setters with `modifies` clauses, whose `ensures` give the complete new state;
  - `toHex`, proved to be read back by `hexToRgba`;
  - the string renderers and `toString`.

Numbers are exact reals, so every round-trip below holds without floating-point error. The
regular expressions, the colour-name tables and JavaScript's formatting of fractional numbers
live in files outside this model. They are parameters:
- `Parsing.Matchers` holds one function per pattern, returning the captures already converted;
- the name tables are `map<string, string>`;
- `fmt: real -> string` stands for number-to-string formatting.

## Model

| member | source | states |
|---|---|---|
| Utils.Rd | src/functions/utils.ts:3 | `Math.round`: the result is within half below and at most half above, so halves round up |
| Utils.Rd2 | src/functions/utils.ts:4 | rounds to hundredths: the result times 100 is the rounded `x * 100`, within 0.005 of `x` |
| Utils.Rd2Idempotent | src/functions/utils.ts:4 | a value already rounded to hundredths is left unchanged by `rd2` |
| Utils.Rd2Percent | src/functions/utils.ts:3-4 | the rounded percentage of `rd2(x)` is the rounded percentage of x |
| Utils.FlippedInverts | src/functions/utils.ts:11-15 | each entry of the flipped map points back to a key with that value, and every visited key's value becomes a key |
| Utils.FlippedKeys | src/functions/utils.ts:7-17 | when the loop visits every own key, the flipped map's keys are exactly the original map's values |
| Utils.FlipFlip | src/functions/utils.ts:7-17 | flipping an injective map twice gives it back, whatever the visiting orders |
| Utils.Flip | src/functions/utils.ts:7-17 | the loop builds the reference fold over the visiting order; its keys are the values of `o`, each mapping to a key that holds it |
| Text.IntToHex | src/SuperColor.ts:174-177 | `toString(16)`: lower-case hex digits; one digit exactly below 16, two exactly for 16..255 |
| Text.HexValueOfIntToHex | src/SuperColor.ts:174-177 | `parseInt(_, 16)` reads back the number that `toString(16)` wrote |
| Text.PaddedByte | src/SuperColor.ts:179-182 | a byte left-padded to two digits is its high digit followed by its low digit |
| Text.HexPairValue | src/functions/conversion.ts:152 | `parseInt` of two hex digits is 16 × high + low, below 256 |
| Text.LowerHexDigitInjective | src/SuperColor.ts:184-188 | two written digits are equal exactly when their values are |
| Text.IntToDecimal | src/SuperColor.ts:212-216 | decimal `toString()`: starts with a minus sign exactly for a negative integer |
| Text.DecimalValueOfNatToDecimal | src/SuperColor.ts:212-216 | reading the decimal digits of a non-negative integer back gives that integer |
| Text.IntToDecimalValue | src/SuperColor.ts:212-216 | after the optional minus sign, the text is all decimal digits and reads back as the magnitude |
| Text.TrimLeft | src/functions/parsing.ts:6 | a suffix of the input that is empty or starts with a non-space; every removed character is a space |
| Text.TrimRight | src/functions/parsing.ts:7 | a prefix of the input that is empty or ends with a non-space; every removed character is a space |
| Text.ToLower | src/functions/parsing.ts:28 | same length; each character is mapped to lower case (ASCII letters only) |
| Text.NormalizedEnds | src/functions/parsing.ts:28 | a normalised string has no space at either end |
| Text.NormalizeIdempotent | src/functions/parsing.ts:28 | normalising twice is the same as normalising once |
| Conversion.Max3 | src/functions/conversion.ts:13 | `Math.max` of three: one of them, and no smaller than any |
| Conversion.Min3 | src/functions/conversion.ts:14 | `Math.min` of three: one of them, and no larger than any |
| Conversion.HueRange | src/functions/conversion.ts:24-36 | the hue the `switch (max)` computes lies in [0, 360) for any channels |
| Conversion.RgbToHslRange | src/functions/conversion.ts:8-40 | on [0, 255] channels: h in [0, 360), s and l in [0, 1], l the mean of the extremes |
| Conversion.RgbToHslGrey | src/functions/conversion.ts:19-20 | saturation is 0 exactly for a grey; a grey has hue 0 and lightness r / 255 |
| Conversion.RgbToHsvSpec | src/functions/conversion.ts:97-128 | v is the largest channel over 255; s is 0 for black and otherwise the spread over the max; h is the HSL hue |
| Conversion.RgbToHsvRange | src/functions/conversion.ts:97-128 | on [0, 255] channels: h in [0, 360), s and v in [0, 1] |
| Conversion.Hue2RgbWeight | src/functions/conversion.ts:51-58 | `hue2rgb` is p moved towards q by a piecewise-linear weight of t |
| Conversion.Hue2RgbBetween | src/functions/conversion.ts:51-58 | `hue2rgb` stays between p and q for t in [-1, 2] |
| Conversion.HslPQ | src/functions/conversion.ts:63-64 | the two levels `hslToRgb` derives lie in [0, 1], p below q |
| Conversion.HslToRgbRange | src/functions/conversion.ts:46-71 | saturation 0 gives the grey 255·l; on the documented domain every channel is in [0, 255] |
| Conversion.HueChannels | src/functions/conversion.ts:51-67 | for a chromatic colour, `hue2rgb` between min and max at the computed hue and its offsets gives back r, g, b |
| Conversion.HslRoundTrip | src/functions/conversion.ts:8-71 | exact round trip: `hslToRgb(rgbToHsl(r, g, b))` is (r, g, b) for every colour in [0, 255] |
| Conversion.HsvToRgbGrey | src/functions/conversion.ts:77-91 | saturation 0 gives the grey 255·v |
| Conversion.HsvSector | src/functions/conversion.ts:78-85 | a hue in [0, 360) falls in one of the six sectors 0..5 |
| Conversion.HsvLevelsOrdered | src/functions/conversion.ts:80-83 | for f, s in [0, 1] and v ≥ 0 the levels satisfy p ≤ q ≤ v and p ≤ t ≤ v |
| Conversion.SectorChannels | src/functions/conversion.ts:85-88 | in each sector the largest channel is 255·v and the smallest 255·p, and each table column puts v and p in its documented channels |
| Conversion.HsvToRgbExtremes | src/functions/conversion.ts:77-91 | the channels of `hsvToRgb` have maximum 255·v, minimum 255·v·(1 − s), and v and p in the channels the sector names |
| Conversion.HsvOfExtremes | src/functions/conversion.ts:97-128 | channels with maximum 255·v and minimum 255·v·(1 − s) give back v, and s when v > 0 (0 for black) |
| Conversion.HsvToRgbRecoversSV | src/functions/conversion.ts:77-128 | `rgbToHsv(hsvToRgb(h, s, v))` gives back v for every hue, and s unless v is 0 |
| Conversion.HsvToRgbRange | src/functions/conversion.ts:77-91 | for h ≥ 0 and s, v in [0, 1], every channel is in [0, 255] |
| Conversion.HsvRoundTrip | src/functions/conversion.ts:77-128 | exact round trip: `hsvToRgb(rgbToHsv(r, g, b))` is (r, g, b) for all non-negative channels |
| Conversion.HexComponents | src/functions/conversion.ts:137-150 | the digits always split into four two-digit hex components |
| Conversion.HexToRgba | src/functions/conversion.ts:130-160 | succeeds exactly when the string is `#` plus 3, 4, 6 or 8 hex digits; otherwise it is the thrown error |
| Conversion.HexToRgbaDigits | src/functions/conversion.ts:137-158 | short forms: each channel is 17 × its digit; long forms: the byte of its digit pair; alpha is 1 when absent, else its byte over 255 |
| Conversion.HexToRgbaRange | src/functions/conversion.ts:130-160 | decoded channels are whole numbers in [0, 255], alpha in [0, 1] |
| Conversion.RgbToHslsvRecovers | src/functions/conversion.ts:162-183 | the HSL half and the HSV half of the result each convert back to the input channels |
| Conversion.HslToRgbsvSpec | src/functions/conversion.ts:185-206 | channels in [0, 255]; HSV saturation in [0, 1]; v is the max channel over 255; a grey has saturation 0 and v = l |
| Conversion.HsvToRgbslSpec | src/functions/conversion.ts:208-229 | channels in [0, 255]; `sLightness` always equals `l`, the mean of the extremes over 255 |
| Conversion.HsvToRgbslPureRed | src/functions/conversion.ts:226 | so for pure red `sLightness` is 0.5, while `rgbToHsl` gives saturation 1 |
| Parsing.HexBytes | src/functions/parsing.ts:90-107 | each long-form component parses to a byte |
| Parsing.DoubledBytes | src/functions/parsing.ts:108-125 | a doubled short-form digit parses to 17 × the digit, a byte |
| Parsing.FirstMatchSpec | src/functions/parsing.ts:35-127 | the first-match search fails exactly when no pattern matches; otherwise it returns the record of a matching pattern with no match before it |
| Parsing.DispatchIsFirstMatch | src/functions/parsing.ts:35-127 | the chain of ten `if (match = …)` blocks is the first-match search over rgb, rgba, hsl, hsla, hsv, hsva, hex8, hex6, hex4, hex3 |
| Parsing.ParseColorFirstMatch | src/functions/parsing.ts:12-128 | `parseColor` returns `false` exactly when no matcher accepts the resolved text; otherwise the first matcher's record |
| Parsing.ParseColorNormalized | src/functions/parsing.ts:28 | the result depends only on the trimmed, lower-cased text |
| Parsing.ParseColorName | src/functions/parsing.ts:29-30 | a name with a truthy table entry parses as its entry does |
| Parsing.ParseColorTransparent | src/functions/parsing.ts:31-32 | `transparent`, unless the table names it, parses as `#0000` |
| Parsing.BlackHslsv | src/functions/conversion.ts:162-183 | black has hue, saturations, lightness and value all 0 |
| Parsing.TransparentBlack | src/functions/parsing.ts:108-116 | `#0000` matched by the four-digit pattern is fully transparent black tagged `hex` |
| Parsing.FromRgbSpec | src/functions/parsing.ts:36-53 | the RGB builder keeps channels, alpha and format, and derives HSL and HSV fields that convert back |
| Parsing.FromHslSpec | src/functions/parsing.ts:54-71 | the HSL builder keeps h, s, l and alpha; its channels are `hslToRgb` of them, its HSV fields those of the channels |
| Parsing.FromHsvSpec | src/functions/parsing.ts:72-89 | the HSV builder keeps h, s, v and alpha; its channels are `hsvToRgb` of them; both HSL fields are the lightness |
| Parsing.BuildRgbSpec | src/functions/parsing.ts:36-53 | the rgb/rgba branches record the captured channels (and rgba's captured alpha) and format `rgb`; rgb sets alpha 1; every space agrees |
| Parsing.BuildHslSpec | src/functions/parsing.ts:54-71 | the hsl/hsla branches record the captured h, s, l (and hsla's alpha) and format `hsl`; hsl sets alpha 1; the derived fields agree |
| Parsing.BuildHsvSpec | src/functions/parsing.ts:72-89 | the hsv/hsva branches record the captured h, s, v (and hsva's alpha) and format `hsv`; hsv sets alpha 1; the derived fields agree |
| Parsing.BuildHexLongSpec | src/functions/parsing.ts:90-107 | the hex8/hex6 branches record each digit pair's byte as its channel, hex8's alpha as its byte over 255, and format `hex`; hex6 sets alpha 1 |
| Parsing.BuildHexShortSpec | src/functions/parsing.ts:108-125 | the hex4/hex3 branches record 17 × each digit as its channel, hex4's alpha as 17 × its digit over 255, and format `hex`; hex3 sets alpha 1 |
| Parsing.BuildSpec | src/functions/parsing.ts:36-125 | each branch: the captured values in their fields, its format tag, its alpha rule, and derived fields that agree with those it was given |
| Parsing.ParseColorResult | src/functions/parsing.ts:12-128 | every record `parseColor` returns is a branch record of a matching pattern |
| Colors.Merge | src/SuperColor.ts:115-120 | the object spread: the supplied member if present, else the stored one |
| Colors.ByteHex | src/SuperColor.ts:174-182 | a byte's padded hex text is its two lower-case digits |
| Colors.ByteHexDoubled | src/SuperColor.ts:184-198 | the digits are equal exactly for multiples of 17, `ff` exactly for 255, and lead with `f` exactly from 240 |
| Colors.AllFPair | src/SuperColor.ts:196-198 | `/^f*$/` on one or two characters holds exactly when they are all `f` |
| Colors.HexTextCases | src/SuperColor.ts:184-200 | the assembly writes one digit per component when all four are doubled, and drops an all-`f` alpha |
| Colors.HexTextShape | src/SuperColor.ts:173-201 | `#` plus 3, 4, 6 or 8 lower-case digits: short exactly when every byte is a doubled digit, no alpha exactly when alpha is 255 |
| Colors.HexTextRoundTrip | src/SuperColor.ts:173-201 | `hexToRgba` reads back the bytes, with alpha over 255 |
| Colors.AlphaByte | src/SuperColor.ts:174 | 255 for alpha 1, otherwise the rounded alpha times 255 |
| Colors.HexOfBytes | src/SuperColor.ts:173-182 | when the rounded values are bytes, `toHex` is the byte encoding of the rounded channels and the alpha byte |
| Colors.HexOfRoundTrip | src/SuperColor.ts:173-201 | `toHex` is well-formed lower-case hex of the documented lengths, and `hexToRgba` reads back the rounded channels and alpha |
| Colors.HexOfIdempotent | src/SuperColor.ts:173-201 | re-encoding what `hexToRgba` reads from a `toHex` string gives the same string |
| Colors.AlphaByteStable | src/SuperColor.ts:176-199 | the alpha read back from an alpha byte has that same alpha byte |
| Colors.FunctionalForm | src/SuperColor.ts:212-250 | a rendered string starts with the three-letter name, then `(` exactly when there is no alpha argument |
| Colors.HexRecord | src/SuperColor.ts:97-111 | `setHex` has a record to store exactly when the string is well-formed |
| Colors.HexRecordSpec | src/SuperColor.ts:97-111 | that record keeps the decoded channels (in range), alpha and format, and its three spaces agree |
| Colors.SuperColor.constructor | src/SuperColor.ts:34-74 | a parsed string's record, fallback opaque black tagged `hex` when parsing fails, or the given record copied |
| Colors.SuperColor.GetFormat | src/SuperColor.ts:76-78 | returns the stored format |
| Colors.SuperColor.SetFormat | src/SuperColor.ts:80-82 | only the format changes |
| Colors.SuperColor.SetAlpha | src/SuperColor.ts:84-86 | only alpha changes |
| Colors.SuperColor.SetHue | src/SuperColor.ts:88-95 | hue and channels change; the channels become the HSL colour with the stored s and l; nothing else moves |
| Colors.SuperColor.Store | src/SuperColor.ts:101-110 | every field takes the given record's value |
| Colors.SuperColor.SetHex | src/SuperColor.ts:97-111 | succeeds exactly for well-formed hex; on failure nothing changes; on success the decoded record, format kept, all spaces agreeing |
| Colors.SuperColor.SetRgb | src/SuperColor.ts:113-132 | merged channels, HSL and HSV derived from them; alpha and format kept; all spaces agree |
| Colors.SuperColor.SetHsl | src/SuperColor.ts:134-152 | merged HSL, with channels and HSV derived from it; alpha and format kept |
| Colors.SuperColor.SetHsv | src/SuperColor.ts:154-171 | merged s and v; channels from the merged HSV colour; both HSL fields set to its lightness; hue never written |
| Colors.SuperColor.ToHexRoundTrip | src/SuperColor.ts:173-210 | `hexToRgba(toHex())` gives the channels `toRgba` reports, and alpha 1 for an opaque colour |
| Colors.SuperColor.ToHexStable | src/SuperColor.ts:173-201 | after `setHex(toHex())` the colour writes the same hex string again |
| Colors.SuperColor.ToRgba | src/SuperColor.ts:203-210 | whole channels within rounding distance of the stored ones; alpha in hundredths, within 0.005 |
| Colors.SuperColor.ToHsla | src/SuperColor.ts:218-225 | whole hue within rounding distance; s, l and a within 0.005 and already in hundredths (`rd2` leaves them fixed) |
| Colors.SuperColor.ToHsva | src/SuperColor.ts:235-242 | whole hue within rounding distance; s, v and a within 0.005 and already in hundredths (`rd2` leaves them fixed) |
| Colors.SuperColor.AlphaText | src/SuperColor.ts:213-215 | no alpha argument exactly when alpha is 1; otherwise the formatted `toRgba` alpha |
| Colors.SuperColor.RgbaStringForm | src/SuperColor.ts:212-216 | starts `rgb(` exactly when alpha is 1, `rgba(` otherwise |
| Colors.SuperColor.HslaStringForm | src/SuperColor.ts:227-233 | starts `hsl(` exactly when alpha is 1, `hsla(` otherwise |
| Colors.SuperColor.HsvaStringForm | src/SuperColor.ts:244-250 | starts `hsv(` exactly when alpha is 1, `hsva(` otherwise |
| Colors.SuperColor.HslaPercents | src/SuperColor.ts:218-233 | the hue and rounded percentages `toHslaString` prints are those of the record `toHsla` returns |
| Colors.SuperColor.HsvaPercents | src/SuperColor.ts:235-250 | the hue and rounded percentages `toHsvaString` prints are those of the record `toHsva` returns |
| Colors.SuperColor.AlphaTextRounded | src/SuperColor.ts:218-250 | the alpha argument of both renderers is absent exactly for alpha 1 and is otherwise the alpha `toHsla` and `toHsva` report |
| Colors.SuperColor.HslaStringOfHsla | src/SuperColor.ts:218-233 | the whole `toHslaString` text: `hsl(`/`hsla(` with the hue in degrees, s and l as rounded percentages of `toHsla`, and its alpha unless alpha is 1 |
| Colors.SuperColor.HsvaStringOfHsva | src/SuperColor.ts:235-250 | the whole `toHsvaString` text: `hsv(`/`hsva(` with the hue in degrees, s and v as rounded percentages of `toHsva`, and its alpha unless alpha is 1 |
| Colors.SuperColor.RgbaStringOfRgba | src/SuperColor.ts:203-216 | `toRgbaString` prints the channels and alpha that `toRgba` returns |
| Colors.SuperColor.ToStringSpec | src/SuperColor.ts:252-272 | with a truthy hex-name entry (and names allowed) the name; otherwise `toHex` for `hex`, else the renderer of the stored format |

## Left out

- `console.warn` in the constructor's fallback (src/SuperColor.ts:50) is I/O and is not modelled.
- Numbers are exact reals, not IEEE-754 doubles. Floating-point rounding, `NaN` and `Infinity` are not modelled, so the exact round trips are stronger than the source achieves in floating point.
- The regular expressions of `src/constants/Matchers`, with `parseInt(_, 10)` and `parseFloat` on their captures, are not part of this model. Each matcher is a parameter returning converted captures.
- Capture domains (a modelling choice): the rgb captures are typed as bytes, and the hsv captures as a non-negative hue with saturation and value in [0, 1]. The source does not enforce this. `parseFloat` hands the number as written to `hsvToRgbsl` (src/functions/parsing.ts:72-89), and `hsvToRgb` documents s and v as "in [0, 1] or [0, 100]" (src/functions/conversion.ts:75). So the model excludes strings such as `hsv(0, 50%, 50%)`, which reach `hsvToRgb` with s = 50. It also excludes rgb numbers above 255 and negative hues. The conversions are not defined on that data in the model.
- The name tables `SUPER_COLOR_NAMES` and `SUPER_COLOR_HEX_NAMES` are not part of this model. They are parameters (`map<string, string>`). JavaScript's lookup of inherited properties such as `constructor` on those objects is not modelled.
- `Text.ToLower` maps ASCII letters only; full Unicode case mapping is not modelled.
- `fmt` stands for JavaScript's rendering of a fractional number (`${rd2(this.a)}`). It is a parameter, not a definition.
- An explicit `undefined` member in a setter's argument object (which the spread would copy) is not modelled. A patch member is either present with a number or absent.
- The compiled copies under `lib/`, the tests and the package tooling are not part of this model.
- Conversion.RgbToHsl: requires channels in [0, 255] (the domain the source documents at src/functions/conversion.ts:3). Outside that domain the saturation formula can divide by zero, which JavaScript turns into `Infinity` or `NaN`.
- Conversion.RgbToHslsv: requires channels in [0, 255], because it calls `rgbToHsl`.
- Conversion.HsvToRgb: requires a non-negative hue. For a negative hue, `Math.floor` can give a negative sector, which JavaScript's `%` keeps negative (or `-0`), so the lookup can fall outside the tables (`undefined`).
- Conversion.HsvToRgbsl: requires h ≥ 0 and s, v in [0, 1], so that the channels it hands to `rgbToHsl` are in range.
- Conversion.Sector: written as a case split on the sector number. It is equivalent to indexing the three six-entry arrays of src/functions/conversion.ts:86-88.
- Conversion.HsvToRgbsl reproduces the source as written: `sLightness` is set to the lightness (src/functions/conversion.ts:226), not to the HSL saturation. `Conversion.HsvToRgbslPureRed` shows the difference.
- Colors.SuperColor.SetRgb: requires the merged channels to be in [0, 255], for `rgbToHslsv`.
- Colors.SuperColor.SetHsv: requires a non-negative merged hue and merged s, v in [0, 1], for `hsvToRgbsl`.
- Colors.SuperColor.SetHex: the thrown error becomes a `false` result with the state unchanged. This matches the source, where `hexToRgba` throws before any field is written.
- Colors.SuperColor.ToHex: requires the rounded channels and alpha byte to be non-negative. `toString(16)` of a negative number (a leading `-`) is not modelled.
- Colors.SuperColor.ToString: requires the same as `ToHex`, which it calls.
- Colors.SuperColor.ToRgbaString: its two-branch template (`rgb(` vs `rgba(`) is captured by the shared `Functional` helper. The same holds for `ToHslaString` and `ToHsvaString`.
