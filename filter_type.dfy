/** The per-scanline filter types (png/src/filter_type.rs; section 9.2 of the PNG
    Specification). */
module FilterTypes {
  import opened ByteOrder
  import opened Wrappers
  import opened Errors

  datatype FilterType = None | Sub | Up | Average | Paeth

  /** `FilterType::try_from(u8)`. */
  function FilterTypeFromByte(v: u8): (r: Result<FilterType, PngError>)
    ensures r.Ok? <==> v <= 4
    ensures r.Err? ==> r.error == InvalidFilterType
  {
    match v
    case 0 => Ok(FilterType.None)
    case 1 => Ok(Sub)
    case 2 => Ok(Up)
    case 3 => Ok(Average)
    case 4 => Ok(Paeth)
    case _ => Err(InvalidFilterType)
  }

  /** `Into<u8> for FilterType`. */
  function FilterTypeToByte(t: FilterType): (r: u8)
    ensures r <= 4
  {
    match t
    case None => 0
    case Sub => 1
    case Up => 2
    case Average => 3
    case Paeth => 4
  }

  /** `Display for FilterType`. */
  function FilterTypeName(t: FilterType): (r: string)
  {
    match t
    case None => "None"
    case Sub => "Sub"
    case Up => "Up"
    case Average => "Average"
    case Paeth => "Paeth"
  }

  /** Every byte up to 4 is accepted, and encoding the filter type gives the byte back. */
  lemma ByteRoundTrip(v: u8)
    requires v <= 4
    ensures FilterTypeFromByte(v).Ok? && FilterTypeToByte(FilterTypeFromByte(v).value) == v
  {
  }

  /** Encoding a filter type and decoding the byte gives the filter type back. */
  lemma FilterTypeRoundTrip(t: FilterType)
    ensures FilterTypeFromByte(FilterTypeToByte(t)) == Ok(t)
  {
  }

  /** The display names tell the filter types apart. */
  lemma NamesDistinct(t: FilterType, u: FilterType)
    ensures FilterTypeName(t) == FilterTypeName(u) ==> t == u
  {
  }
}
