/** The two closed enumerations of the PMTiles header and their byte
    decoders, `TryFrom<u8>` for `Compression` and for `TileType`. */
module Types {
  import opened Ints

  /** The compression of the internal directories and metadata, or of the tiles. */
  datatype Compression = Unknown | None | Gzip | Brotli | Zstd

  /** The format of the tiles. */
  datatype TileType = UnknownType | Mvt | Png | Jpeg | WebP | Avif

  /** The declared discriminant of each compression variant: `Unknown = 0x00`, ... */
  function CompressionByte(c: Compression): (b: Byte)
  {
    match c
    case Unknown => 0x00
    case None => 0x01
    case Gzip => 0x02
    case Brotli => 0x03
    case Zstd => 0x04
  }

  /** The declared discriminant of each tile type: `Unknown = 0x00`, `MVT = 0x01`, ... */
  function TileTypeByte(t: TileType): (b: Byte)
  {
    match t
    case UnknownType => 0x00
    case Mvt => 0x01
    case Png => 0x02
    case Jpeg => 0x03
    case WebP => 0x04
    case Avif => 0x05
  }

  /** `Compression::try_from`: accepted exactly on 0..4, and then the byte is
      the discriminant of the variant returned. */
  function CompressionFromByte(b: Byte): (r: Result<Compression, string>)
    ensures r.Ok? <==> b <= 4
    ensures r.Ok? ==> CompressionByte(r.value) == b
    ensures r.Err? ==> r.error == "Invalid compression value"
  {
    match b
    case 0x00 => Ok(Unknown)
    case 0x01 => Ok(None)
    case 0x02 => Ok(Gzip)
    case 0x03 => Ok(Brotli)
    case 0x04 => Ok(Zstd)
    case _ => Err("Invalid compression value")
  }

  /** `TileType::try_from`: accepted exactly on 0..5, and then the byte is the
      discriminant of the variant returned. */
  function TileTypeFromByte(b: Byte): (r: Result<TileType, string>)
    ensures r.Ok? <==> b <= 5
    ensures r.Ok? ==> TileTypeByte(r.value) == b
    ensures r.Err? ==> r.error == "Invalid tile type value"
  {
    match b
    case 0x00 => Ok(UnknownType)
    case 0x01 => Ok(Mvt)
    case 0x02 => Ok(Png)
    case 0x03 => Ok(Jpeg)
    case 0x04 => Ok(WebP)
    case 0x05 => Ok(Avif)
    case _ => Err("Invalid tile type value")
  }

  /** The declared discriminants agree with the decoder: every variant decodes
      back from its own byte. */
  lemma CompressionRoundTrip(c: Compression)
    ensures CompressionByte(c) <= 4
    ensures CompressionFromByte(CompressionByte(c)) == Ok(c)
  {
  }

  lemma TileTypeRoundTrip(t: TileType)
    ensures TileTypeByte(t) <= 5
    ensures TileTypeFromByte(TileTypeByte(t)) == Ok(t)
  {
  }

  /** Distinct accepted bytes decode to distinct variants. */
  lemma CompressionFromByteInjective(a: Byte, b: Byte)
    requires CompressionFromByte(a).Ok? && CompressionFromByte(b).Ok?
    ensures CompressionFromByte(a) == CompressionFromByte(b) ==> a == b
  {
    if CompressionFromByte(a) == CompressionFromByte(b) {
      assert CompressionByte(CompressionFromByte(a).value) == a;
    }
  }

  lemma TileTypeFromByteInjective(a: Byte, b: Byte)
    requires TileTypeFromByte(a).Ok? && TileTypeFromByte(b).Ok?
    ensures TileTypeFromByte(a) == TileTypeFromByte(b) ==> a == b
  {
    if TileTypeFromByte(a) == TileTypeFromByte(b) {
      assert TileTypeByte(TileTypeFromByte(a).value) == a;
    }
  }
}
