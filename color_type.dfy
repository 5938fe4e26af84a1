/** The colour types of an image header (png/src/color_type.rs). */
module ColorTypes {
  import opened ByteOrder
  import opened Wrappers
  import opened Errors

  datatype ColorType = Grayscale | Rgb | PaletteIndex | GrayscaleWithAlpha | RgbWithAlpha

  /** `ColorType::try_from(u8)`: the five codes 0, 2, 3, 4 and 6 of section 11.2.2 of the
      PNG Specification. */
  function ColorTypeFromByte(v: u8): (r: Result<ColorType, PngError>)
    ensures r.Ok? <==> v in {0, 2, 3, 4, 6}
    ensures r.Err? ==> r.error == InvalidColorType
  {
    match v
    case 0 => Ok(Grayscale)
    case 2 => Ok(Rgb)
    case 3 => Ok(PaletteIndex)
    case 4 => Ok(GrayscaleWithAlpha)
    case 6 => Ok(RgbWithAlpha)
    case _ => Err(InvalidColorType)
  }

  /** `Into<u8> for ColorType`. */
  function ColorTypeToByte(c: ColorType): (r: u8)
    ensures r in {0, 2, 3, 4, 6}
  {
    match c
    case Grayscale => 0
    case Rgb => 2
    case PaletteIndex => 3
    case GrayscaleWithAlpha => 4
    case RgbWithAlpha => 6
  }

  /** `ColorType::channels`: samples per pixel. */
  function Channels(c: ColorType): (r: u8)
  {
    match c
    case Grayscale => 1
    case Rgb => 3
    case PaletteIndex => 1
    case GrayscaleWithAlpha => 2
    case RgbWithAlpha => 4
  }

  /** `Display for ColorType`. */
  function ColorTypeName(c: ColorType): (r: string)
  {
    match c
    case Grayscale => "Grayscale"
    case Rgb => "RGB"
    case PaletteIndex => "Palette Index"
    case GrayscaleWithAlpha => "Grayscale(with alpha)"
    case RgbWithAlpha => "RGBA"
  }

  /** Decoding an accepted byte and encoding the colour type gives the byte back. */
  lemma ByteRoundTrip(v: u8)
    requires ColorTypeFromByte(v).Ok?
    ensures ColorTypeToByte(ColorTypeFromByte(v).value) == v
  {
  }

  /** Encoding a colour type and decoding the byte gives the colour type back. */
  lemma ColorTypeRoundTrip(c: ColorType)
    ensures ColorTypeFromByte(ColorTypeToByte(c)) == Ok(c)
  {
  }

  /** Channel counts: one for grey and palette indices, two for grey with alpha, three
      for RGB and four for RGB with alpha; an alpha channel adds exactly one. */
  lemma ChannelCounts(c: ColorType)
    ensures 1 <= Channels(c) <= 4
    ensures Channels(GrayscaleWithAlpha) == Channels(Grayscale) + 1
    ensures Channels(RgbWithAlpha) == Channels(Rgb) + 1
    ensures Channels(c) == 1 <==> c == Grayscale || c == PaletteIndex
  {
  }

  /** The display names tell the colour types apart. */
  lemma NamesDistinct(c: ColorType, d: ColorType)
    ensures ColorTypeName(c) == ColorTypeName(d) ==> c == d
  {
  }
}
