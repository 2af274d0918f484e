/** The shapes of src/types/index.ts: the format tag and the ten-field colour record. */
module Types {

  /** `SuperColorFormat`: the textual family a colour prefers when rendered. */
  datatype Format = Hex | Hsl | Rgb | Hsv

  /** `SuperColorAttr`: every colour space stored at once, plus alpha and the format tag. */
  datatype ColorAttr = ColorAttr(
    r: real, g: real, b: real,
    h: real, sLightness: real, l: real,
    sValue: real, v: real,
    a: real,
    format: Format)
}
