/** The fixed 127-byte PMTiles version 3 header and `Header::parse`.
    Every byte of the prologue belongs to exactly one field, so a successful
    parse and the serializer `HeaderBytes` are inverse to each other. */
module Headers {
  import opened Ints
  import opened Types

  const HEADER_SIZE: nat := 127

  /** `b"PMTiles"`. */
  const MAGIC: seq<Byte> := [0x50, 0x4d, 0x54, 0x69, 0x6c, 0x65, 0x73]

  const TWO_31: int := 0x8000_0000

  /** Rust's i32. */
  type I32 = x: int | -TWO_31 <= x < TWO_31

  /** A position as stored: longitude and latitude in units of 10^-7 degree.
      The source divides both by 10^7 in floating point; the model keeps the
      stored integers. */
  datatype Position = Position(lon: I32, lat: I32)

  datatype Header = Header(
    version: Byte,
    rootDirOffset: U64,
    rootDirLength: U64,
    metadataOffset: U64,
    metadataLength: U64,
    leafDirsOffset: U64,
    leafDirsLength: U64,
    tileDataOffset: U64,
    tileDataLength: U64,
    numAddressedTiles: U64,
    numTileEntries: U64,
    numTileContents: U64,
    clustered: Byte,
    internalCompression: Compression,
    tileCompression: Compression,
    tileType: TileType,
    minZoom: Byte,
    maxZoom: Byte,
    minPosition: Position,
    maxPosition: Position,
    centerZoom: Byte,
    centerPosition: Position)

  /** The outcomes of `Header::parse` other than a header: the two
      `InvalidData` errors it returns and the panics of its `expect` calls. */
  datatype HeaderError =
    | TooShort(length: nat)  // "Header too short"
    | InvalidMagic           // "Invalid magic number", whether not UTF-8 or not "PMTiles"
    | Panic(message: string) // an `expect` on a compression or tile type byte

  // ---------------------------------------------------------------------
  // Little-endian integers

  /** The value of `bytes`, least significant byte first. */
  function LeValue(bytes: seq<Byte>): nat
  {
    if bytes == [] then 0 else bytes[0] + 256 * LeValue(bytes[1..])
  }

  /** The n-byte little-endian representation of v (v modulo 256^n). */
  function LeBytes(v: nat, n: nat): (bytes: seq<Byte>)
    ensures |bytes| == n
  {
    if n == 0 then [] else [v % 256] + LeBytes(v / 256, n - 1)
  }

  lemma {:induction false} LeValueBound(bytes: seq<Byte>)
    ensures LeValue(bytes) < Pow2(8 * |bytes|)
    decreases |bytes|
  {
    if bytes != [] {
      LeValueBound(bytes[1..]);
      assert Pow2(8 * |bytes|) == 256 * Pow2(8 * (|bytes| - 1)) by {
        Pow2Add(8, 8 * (|bytes| - 1));
        Pow2Small();
      }
    }
  }

  /** Reading back an n-byte representation gives the value, when it fits. */
  lemma {:induction false} LeValueOfBytes(v: nat, n: nat)
    requires v < Pow2(8 * n)
    ensures LeValue(LeBytes(v, n)) == v
    decreases n
  {
    if n > 0 {
      assert v / 256 < Pow2(8 * (n - 1)) by {
        Pow2Add(8, 8 * (n - 1));
        Pow2Small();
      }
      LeValueOfBytes(v / 256, n - 1);
      assert LeBytes(v, n)[1..] == LeBytes(v / 256, n - 1);
    } else {
      assert Pow2(0) == 1;
    }
  }

  /** Writing back the value of some bytes gives those bytes. */
  lemma {:induction false} LeBytesOfValue(bytes: seq<Byte>)
    ensures LeBytes(LeValue(bytes), |bytes|) == bytes
    decreases |bytes|
  {
    if bytes != [] {
      var v := LeValue(bytes);
      DivModUnique(v, 256, LeValue(bytes[1..]), bytes[0]);
      LeBytesOfValue(bytes[1..]);
    }
  }

  /** `to_u64_le`: `u64::from_le_bytes` of an 8-byte slice. */
  function ToU64Le(bytes: seq<Byte>): (v: U64)
    requires |bytes| == 8
  {
    LeValueBound(bytes);
    Pow2Of64();
    LeValue(bytes)
  }

  /** `i32::from_le_bytes`: the 32-bit two's complement value of 4 bytes. */
  function ToI32Le(bytes: seq<Byte>): (v: I32)
    requires |bytes| == 4
  {
    LeValueBound(bytes);
    Pow2Of32();
    var u := LeValue(bytes);
    if u >= TWO_31 then u - TWO_32 else u
  }

  /** The 4 bytes of an i32 in two's complement, least significant first. */
  function I32Bytes(v: I32): (bytes: seq<Byte>)
    ensures |bytes| == 4
  {
    LeBytes(if v < 0 then v + TWO_32 else v, 4)
  }

  lemma U64RoundTrip(v: U64)
    ensures ToU64Le(LeBytes(v, 8)) == v
  {
    Pow2Of64();
    LeValueOfBytes(v, 8);
  }

  lemma U64BytesRoundTrip(bytes: seq<Byte>)
    requires |bytes| == 8
    ensures LeBytes(ToU64Le(bytes), 8) == bytes
  {
    LeBytesOfValue(bytes);
  }

  lemma I32RoundTrip(v: I32)
    ensures ToI32Le(I32Bytes(v)) == v
  {
    Pow2Of32();
    LeValueOfBytes(if v < 0 then v + TWO_32 else v, 4);
  }

  lemma I32BytesRoundTrip(bytes: seq<Byte>)
    requires |bytes| == 4
    ensures I32Bytes(ToI32Le(bytes)) == bytes
  {
    LeBytesOfValue(bytes);
    LeValueBound(bytes);
    Pow2Of32();
  }

  // ---------------------------------------------------------------------
  // The header

  /** `to_lat_lon` without the division: longitude in bytes 0..4, latitude in 4..8. */
  function ToPosition(bytes: seq<Byte>): (p: Position)
    requires |bytes| == 8
  {
    Position(ToI32Le(bytes[0..4]), ToI32Le(bytes[4..8]))
  }

  function PositionBytes(p: Position): (bytes: seq<Byte>)
    ensures |bytes| == 8
  {
    I32Bytes(p.lon) + I32Bytes(p.lat)
  }

  lemma PositionRoundTrip(p: Position)
    ensures ToPosition(PositionBytes(p)) == p
  {
    var b := PositionBytes(p);
    assert b[0..4] == I32Bytes(p.lon);
    assert b[4..8] == I32Bytes(p.lat);
    I32RoundTrip(p.lon);
    I32RoundTrip(p.lat);
  }

  lemma PositionBytesRoundTrip(bytes: seq<Byte>)
    requires |bytes| == 8
    ensures PositionBytes(ToPosition(bytes)) == bytes
  {
    I32BytesRoundTrip(bytes[0..4]);
    I32BytesRoundTrip(bytes[4..8]);
    assert bytes == bytes[0..4] + bytes[4..8];
  }

  /** The u64 words of a block of 8n bytes, in order: `to_u64_le` of each
      8-byte slice. */
  function ReadWords(bytes: seq<Byte>, n: nat): (words: seq<U64>)
    requires |bytes| == 8 * n
    ensures |words| == n
  {
    if n == 0 then [] else [ToU64Le(bytes[..8])] + ReadWords(bytes[8..], n - 1)
  }

  /** The block of little-endian u64 words. */
  function WordsBytes(words: seq<U64>): (bytes: seq<Byte>)
    ensures |bytes| == 8 * |words|
  {
    if words == [] then [] else LeBytes(words[0], 8) + WordsBytes(words[1..])
  }

  lemma {:induction false} WordsRoundTrip(words: seq<U64>)
    ensures ReadWords(WordsBytes(words), |words|) == words
    decreases |words|
  {
    if words != [] {
      var b := WordsBytes(words);
      assert b[..8] == LeBytes(words[0], 8);
      assert b[8..] == WordsBytes(words[1..]);
      U64RoundTrip(words[0]);
      WordsRoundTrip(words[1..]);
    }
  }

  lemma {:induction false} WordsBytesRoundTrip(bytes: seq<Byte>, n: nat)
    requires |bytes| == 8 * n
    ensures WordsBytes(ReadWords(bytes, n)) == bytes
    decreases n
  {
    if n > 0 {
      var w := ReadWords(bytes, n);
      assert w[1..] == ReadWords(bytes[8..], n - 1);
      U64BytesRoundTrip(bytes[..8]);
      WordsBytesRoundTrip(bytes[8..], n - 1);
      assert bytes == bytes[..8] + bytes[8..];
    }
  }

  /** `Header::parse`: the length check, then the prologue. */
  function ParseHeader(data: seq<Byte>): (r: Result<Header, HeaderError>)
    ensures r == Err(TooShort(|data|)) <==> |data| < HEADER_SIZE
    ensures r == Err(InvalidMagic) <==> |data| >= HEADER_SIZE && data[..7] != MAGIC
    ensures r.Err? && r.error.Panic? <==>
              && |data| >= HEADER_SIZE && data[..7] == MAGIC
              && (data[0x61] > 4 || data[0x62] > 4 || data[0x63] > 5)
  {
    if |data| < HEADER_SIZE then Err(TooShort(|data|))
    else
      var p := data[..HEADER_SIZE];
      assert p[..7] == data[..7];
      ParsePrologue(p)
  }

  /** The rest of `Header::parse`, which reads nothing past byte 126: the magic
      check, then the fields at their fixed offsets, the eleven u64 fields
      being the words of bytes 0x08..0x60 in order. The three `expect` calls
      on the enumeration bytes panic, in this order, on the first byte out of
      range. */
  function ParsePrologue(p: seq<Byte>): (r: Result<Header, HeaderError>)
    requires |p| == HEADER_SIZE
  {
    if p[..7] != MAGIC then Err(InvalidMagic)
    else
      var internalCompression := CompressionFromByte(p[0x61]);
      var tileCompression := CompressionFromByte(p[0x62]);
      var tileType := TileTypeFromByte(p[0x63]);
      if internalCompression.Err? then Err(Panic("invalid compression value"))
      else if tileCompression.Err? then Err(Panic("invalid compression value"))
      else if tileType.Err? then Err(Panic("invalid tile type value"))
      else
        var w := ReadWords(p[0x08..0x60], 11);
        Ok(Header(
          p[0x07],
          w[0], w[1], w[2], w[3], w[4], w[5], w[6], w[7],
          w[8], w[9], w[10],
          p[0x60],
          internalCompression.value, tileCompression.value, tileType.value,
          p[0x64], p[0x65],
          ToPosition(p[0x66..0x6E]), ToPosition(p[0x6E..0x76]),
          p[0x76],
          ToPosition(p[0x77..0x7F])))
  }

  // The serialized header, section by section.

  /** Bytes 0x00..0x08: the magic and the version. */
  function IdentBytes(h: Header): (bytes: seq<Byte>)
    ensures |bytes| == 8
  {
    MAGIC + [h.version]
  }

  /** The eleven u64 fields, serialized at 0x08..0x60: offsets and lengths of
      the four sections of the archive, then the three counts. */
  function Words(h: Header): (words: seq<U64>)
    ensures |words| == 11
  {
    [h.rootDirOffset, h.rootDirLength, h.metadataOffset, h.metadataLength,
     h.leafDirsOffset, h.leafDirsLength, h.tileDataOffset, h.tileDataLength,
     h.numAddressedTiles, h.numTileEntries, h.numTileContents]
  }

  /** Bytes 0x60..0x66: clustering, compressions, tile type and zoom range. */
  function KindBytes(h: Header): (bytes: seq<Byte>)
    ensures |bytes| == 6
  {
    [h.clustered, CompressionByte(h.internalCompression), CompressionByte(h.tileCompression),
     TileTypeByte(h.tileType), h.minZoom, h.maxZoom]
  }

  /** Bytes 0x66..0x7F: the bounds, the center zoom and the center. */
  function BoundsBytes(h: Header): (bytes: seq<Byte>)
    ensures |bytes| == 25
  {
    PositionBytes(h.minPosition) + PositionBytes(h.maxPosition)
    + [h.centerZoom] + PositionBytes(h.centerPosition)
  }

  /** The 127 bytes of a header: the serializer that `ParsePrologue` inverts. */
  function HeaderBytes(h: Header): (bytes: seq<Byte>)
    ensures |bytes| == HEADER_SIZE
  {
    IdentBytes(h) + WordsBytes(Words(h)) + KindBytes(h) + BoundsBytes(h)
  }

  lemma HeaderSections(h: Header)
    ensures HeaderBytes(h)[0x00..0x08] == IdentBytes(h)
    ensures HeaderBytes(h)[0x08..0x60] == WordsBytes(Words(h))
    ensures HeaderBytes(h)[0x60..0x66] == KindBytes(h)
    ensures HeaderBytes(h)[0x66..0x7F] == BoundsBytes(h)
  {
  }

  /** A slice of a section placed at `at` is the same slice of the whole. */
  lemma SubSlice(p: seq<Byte>, at: nat, s: seq<Byte>, c: nat, d: nat)
    requires at + |s| <= |p| && p[at..at + |s|] == s && c <= d <= |s|
    ensures p[at + c..at + d] == s[c..d]
  {
    forall i | 0 <= i < d - c
      ensures p[at + c..at + d][i] == s[c..d][i]
    {
      assert p[at + c..at + d][i] == p[at..at + |s|][c + i];
    }
  }

  /** The identification and the single-byte fields, read back. */
  lemma IdentAndKindsRead(h: Header)
    ensures HeaderBytes(h)[..7] == MAGIC && HeaderBytes(h)[0x07] == h.version
    ensures HeaderBytes(h)[0x60] == h.clustered
    ensures HeaderBytes(h)[0x61] == CompressionByte(h.internalCompression)
    ensures HeaderBytes(h)[0x62] == CompressionByte(h.tileCompression)
    ensures HeaderBytes(h)[0x63] == TileTypeByte(h.tileType)
    ensures HeaderBytes(h)[0x64] == h.minZoom && HeaderBytes(h)[0x65] == h.maxZoom
  {
    var p := HeaderBytes(h);
    HeaderSections(h);
    SubSlice(p, 0x00, IdentBytes(h), 0, 7);
    assert p[0x07] == p[0x00..0x08][7];
    assert p[0x60..0x66][0] == p[0x60];
    assert p[0x60..0x66][1] == p[0x61];
    assert p[0x60..0x66][2] == p[0x62];
    assert p[0x60..0x66][3] == p[0x63];
    assert p[0x60..0x66][4] == p[0x64];
    assert p[0x60..0x66][5] == p[0x65];
  }

  /** The center zoom and the three positions, read back. */
  lemma BoundsRead(h: Header)
    ensures HeaderBytes(h)[0x76] == h.centerZoom
    ensures ToPosition(HeaderBytes(h)[0x66..0x6E]) == h.minPosition
    ensures ToPosition(HeaderBytes(h)[0x6E..0x76]) == h.maxPosition
    ensures ToPosition(HeaderBytes(h)[0x77..0x7F]) == h.centerPosition
  {
    var p, s := HeaderBytes(h), BoundsBytes(h);
    HeaderSections(h);
    assert s[0x00..0x08] == PositionBytes(h.minPosition);
    assert s[0x08..0x10] == PositionBytes(h.maxPosition);
    assert s[0x10] == h.centerZoom;
    assert s[0x11..0x19] == PositionBytes(h.centerPosition);
    assert p[0x76] == p[0x66..0x7F][0x10];
    SubSlice(p, 0x66, s, 0x00, 0x08); PositionRoundTrip(h.minPosition);
    SubSlice(p, 0x66, s, 0x08, 0x10); PositionRoundTrip(h.maxPosition);
    SubSlice(p, 0x66, s, 0x11, 0x19); PositionRoundTrip(h.centerPosition);
  }

  /** Parsing a serialized header, whatever follows it, gives the header back. */
  lemma HeaderRoundTrip(h: Header, rest: seq<Byte>)
    ensures ParseHeader(HeaderBytes(h) + rest) == Ok(h)
  {
    var p := HeaderBytes(h);
    assert (p + rest)[..HEADER_SIZE] == p;
    HeaderSections(h);
    WordsRoundTrip(Words(h));
    IdentAndKindsRead(h);
    BoundsRead(h);
    CompressionRoundTrip(h.internalCompression);
    CompressionRoundTrip(h.tileCompression);
    TileTypeRoundTrip(h.tileType);
  }

  /** The sections of a serialized parsed header are the bytes read. */
  lemma ParsedSections(p: seq<Byte>)
    requires |p| == HEADER_SIZE && ParsePrologue(p).Ok?
    ensures IdentBytes(ParsePrologue(p).value) == p[0x00..0x08]
    ensures WordsBytes(Words(ParsePrologue(p).value)) == p[0x08..0x60]
    ensures KindBytes(ParsePrologue(p).value) == p[0x60..0x66]
  {
    var h := ParsePrologue(p).value;
    assert p[..7] == MAGIC;
    assert Words(h) == ReadWords(p[0x08..0x60], 11);
    WordsBytesRoundTrip(p[0x08..0x60], 11);
  }

  lemma ParsedBounds(p: seq<Byte>)
    requires |p| == HEADER_SIZE && ParsePrologue(p).Ok?
    ensures BoundsBytes(ParsePrologue(p).value) == p[0x66..0x7F]
  {
    PositionBytesRoundTrip(p[0x66..0x6E]);
    PositionBytesRoundTrip(p[0x6E..0x76]);
    PositionBytesRoundTrip(p[0x77..0x7F]);
    assert p[0x76..0x77] == [p[0x76]];
    SliceSplit(p, 0x66, 0x6E, 0x76);
    SliceSplit(p, 0x66, 0x76, 0x77);
    SliceSplit(p, 0x66, 0x77, 0x7F);
  }

  /** A successful parse loses nothing of the first 127 bytes: serializing the
      header gives them back. With `HeaderRoundTrip`, `ParseHeader` is a
      bijection between valid prologues and headers. */
  lemma ParsedHeaderBytes(data: seq<Byte>)
    requires ParseHeader(data).Ok?
    ensures HeaderBytes(ParseHeader(data).value) == data[..HEADER_SIZE]
  {
    var p := data[..HEADER_SIZE];
    ParsedSections(p);
    ParsedBounds(p);
    SliceSplit(p, 0x00, 0x08, 0x60);
    SliceSplit(p, 0x00, 0x60, 0x66);
    SliceSplit(p, 0x00, 0x66, 0x7F);
    assert p[0x00..0x7F] == p;
  }

  /** Only the first 127 bytes matter: inputs that agree on them parse alike. */
  lemma HeaderIgnoresSuffix(a: seq<Byte>, b: seq<Byte>)
    requires |a| >= HEADER_SIZE && |b| >= HEADER_SIZE && a[..HEADER_SIZE] == b[..HEADER_SIZE]
    ensures ParseHeader(a) == ParseHeader(b)
  {
  }

  /** Adjacent slices concatenate. */
  lemma SliceSplit(p: seq<Byte>, a: nat, b: nat, c: nat)
    requires a <= b <= c <= |p|
    ensures p[a..c] == p[a..b] + p[b..c]
  {
  }

  // ---------------------------------------------------------------------
  // The prologue of the unit test `parse_correct_header`

  /** The value of four little-endian bytes, written out. */
  lemma LeValueOfFour(b: seq<Byte>)
    requires |b| == 4
    ensures LeValue(b) == b[0] as nat + 0x100 * b[1] as nat + 0x1_0000 * b[2] as nat
                          + 0x100_0000 * b[3] as nat
  {
    var v3 := LeValue(b[3..]);
    assert v3 == b[3] by {
      assert b[3..][0] == b[3] && b[3..][1..] == [];
      assert LeValue(b[3..][1..]) == LeValue([]) == 0;
    }
    assert b[2..][1..] == b[3..];
    var v2 := LeValue(b[2..]);
    assert v2 == b[2] + 256 * v3;
    assert b[1..][1..] == b[2..];
    var v1 := LeValue(b[1..]);
    assert v1 == b[1] + 256 * v2;
    assert LeValue(b) == b[0] + 256 * v1;
  }

  /** The value of eight little-endian bytes, written out. */
  lemma LeValueOfEight(b: seq<Byte>)
    requires |b| == 8
    ensures LeValue(b) == b[0] as nat + 0x100 * b[1] as nat + 0x1_0000 * b[2] as nat
                          + 0x100_0000 * b[3] as nat + 0x1_0000_0000 * b[4] as nat
                          + 0x100_0000_0000 * b[5] as nat + 0x1_0000_0000_0000 * b[6] as nat
                          + 0x100_0000_0000_0000 * b[7] as nat
  {
    var v4 := LeValue(b[4..]);
    LeValueOfFour(b[4..]);
    assert b[4..][0] == b[4] && b[4..][1] == b[5] && b[4..][2] == b[6] && b[4..][3] == b[7];
    assert b[3..][1..] == b[4..];
    var v3 := LeValue(b[3..]);
    assert v3 == b[3] + 256 * v4;
    assert b[2..][1..] == b[3..];
    var v2 := LeValue(b[2..]);
    assert v2 == b[2] + 256 * v3;
    assert b[1..][1..] == b[2..];
    var v1 := LeValue(b[1..]);
    assert v1 == b[1] + 256 * v2;
    assert LeValue(b) == b[0] + 256 * v1;
  }

  /** Word i of a block is the u64 at byte 8i of the block. */
  lemma {:induction false} ReadWordsAt(bytes: seq<Byte>, n: nat, i: nat)
    requires |bytes| == 8 * n && i < n
    ensures ReadWords(bytes, n)[i] == ToU64Le(bytes[8 * i..8 * i + 8])
    decreases i
  {
    if i == 0 {
      assert bytes[..8] == bytes[0..8];
    } else {
      ReadWordsAt(bytes[8..], n - 1, i - 1);
      assert bytes[8..][8 * (i - 1)..8 * (i - 1) + 8] == bytes[8 * i..8 * i + 8];
    }
  }

  /** The u64 field k of a prologue, from its eight bytes. */
  lemma WordAt(p: seq<Byte>, k: nat, v: nat)
    requires |p| == HEADER_SIZE && k < 11
    requires var at := 8 + 8 * k;
             v == p[at] as nat + 0x100 * p[at + 1] as nat + 0x1_0000 * p[at + 2] as nat
                  + 0x100_0000 * p[at + 3] as nat + 0x1_0000_0000 * p[at + 4] as nat
                  + 0x100_0000_0000 * p[at + 5] as nat + 0x1_0000_0000_0000 * p[at + 6] as nat
                  + 0x100_0000_0000_0000 * p[at + 7] as nat
    ensures ReadWords(p[0x08..0x60], 11)[k] == v
  {
    var at := 8 + 8 * k;
    ReadWordsAt(p[0x08..0x60], 11, k);
    var b := p[at..at + 8];
    SliceOfSlice(p, 0x08, 0x60, 8 * k, 8 * k + 8);
    LeValueOfEight(b);
    assert b[0] == p[at] && b[1] == p[at + 1] && b[2] == p[at + 2] && b[3] == p[at + 3];
    assert b[4] == p[at + 4] && b[5] == p[at + 5] && b[6] == p[at + 6] && b[7] == p[at + 7];
  }

  /** A slice of a slice is a slice. */
  lemma SliceOfSlice(p: seq<Byte>, a: nat, b: nat, c: nat, d: nat)
    requires a <= b <= |p| && c <= d <= b - a
    ensures p[a..b][c..d] == p[a + c..a + d]
  {
    forall i | 0 <= i < d - c
      ensures p[a..b][c..d][i] == p[a + c..a + d][i]
    {
      assert p[a..b][c..d][i] == p[a..b][c + i] == p[a + c + i];
    }
  }

  /** The i32 at `at`, from its four bytes. */
  lemma I32At(p: seq<Byte>, at: nat, v: int)
    requires at + 4 <= |p|
    requires var u := p[at] as nat + 0x100 * p[at + 1] as nat + 0x1_0000 * p[at + 2] as nat
                      + 0x100_0000 * p[at + 3] as nat;
             v == if u >= TWO_31 then u - TWO_32 else u
    ensures ToI32Le(p[at..at + 4]) == v
  {
    LeValueOfFour(p[at..at + 4]);
  }

  /** The position at `at`, from its eight bytes. */
  lemma PositionAt(p: seq<Byte>, at: nat, lon: int, lat: int)
    requires at + 8 <= |p|
    requires var u := p[at] as nat + 0x100 * p[at + 1] as nat + 0x1_0000 * p[at + 2] as nat
                      + 0x100_0000 * p[at + 3] as nat;
             lon == if u >= TWO_31 then u - TWO_32 else u
    requires var u := p[at + 4] as nat + 0x100 * p[at + 5] as nat + 0x1_0000 * p[at + 6] as nat
                      + 0x100_0000 * p[at + 7] as nat;
             lat == if u >= TWO_31 then u - TWO_32 else u
    ensures ToPosition(p[at..at + 8]) == Position(lon, lat)
  {
    I32At(p, at, lon);
    I32At(p, at + 4, lat);
    assert p[at..at + 8][0..4] == p[at..at + 4];
    assert p[at..at + 8][4..8] == p[at + 4..at + 8];
  }

  /** The prologue of the test, row by row as the test writes it. */
  const TEST_HEADER_BYTES: seq<Byte> :=
    [0x50, 0x4d, 0x54, 0x69, 0x6c, 0x65, 0x73, 0x03, 0x7f, 0x00, 0x00, 0x00, 0x00, 0x00, 0x00, 0x00]
    + [0x45, 0x09, 0x00, 0x00, 0x00, 0x00, 0x00, 0x00, 0xc4, 0x09, 0x00, 0x00, 0x00, 0x00, 0x00, 0x00]
    + [0x46, 0x10, 0x00, 0x00, 0x00, 0x00, 0x00, 0x00, 0x0a, 0x1a, 0x00, 0x00, 0x00, 0x00, 0x00, 0x00]
    + [0x8c, 0xd8, 0x57, 0x00, 0x00, 0x00, 0x00, 0x00, 0x96, 0xf2, 0x57, 0x00, 0x00, 0x00, 0x00, 0x00]
    + [0x95, 0x51, 0x3d, 0xef, 0x03, 0x00, 0x00, 0x00, 0x44, 0xfe, 0x2c, 0x00, 0x00, 0x00, 0x00, 0x00]
    + [0x47, 0x27, 0x2c, 0x00, 0x00, 0x00, 0x00, 0x00, 0x03, 0x64, 0x27, 0x00, 0x00, 0x00, 0x00, 0x00]
    + [0x01, 0x02, 0x02, 0x01, 0x04, 0x10, 0x00, 0xb9, 0xb7, 0x48, 0xe8, 0x54, 0x27, 0x0a, 0xee, 0x84]
    + [0x3f, 0x5c, 0x00, 0x0b, 0x6b, 0x1b, 0x10, 0xa2, 0x25, 0xd3, 0x50, 0xbd, 0x92, 0xc2, 0x14]

  /** The header the test expects. The positions are the stored i32 values;
      the test compares them after division by 10^7 (122.0, 17.03498 and so
      on). */
  const TEST_HEADER: Header := Header(
    3, 127, 2373, 2500, 4166, 6666, 5757068, 5763734, 16898675093,
    2948676, 2893639, 2581507,
    1, Gzip, Gzip, Mvt, 4, 16,
    Position(1220000000, 170349800), Position(1547666670, 460000000),
    16, Position(1356015010, 348295869))

  /** The eleven u64 fields of the test prologue, one lemma each (word k is
      at byte 8 + 8k). */
  lemma TestRootDirOffset()
    ensures ReadWords(TEST_HEADER_BYTES[0x08..0x60], 11)[0] == 127
  {
    WordAt(TEST_HEADER_BYTES, 0, 127);
  }

  lemma TestRootDirLength()
    ensures ReadWords(TEST_HEADER_BYTES[0x08..0x60], 11)[1] == 2373
  {
    WordAt(TEST_HEADER_BYTES, 1, 2373);
  }

  lemma TestMetadataOffset()
    ensures ReadWords(TEST_HEADER_BYTES[0x08..0x60], 11)[2] == 2500
  {
    WordAt(TEST_HEADER_BYTES, 2, 2500);
  }

  lemma TestMetadataLength()
    ensures ReadWords(TEST_HEADER_BYTES[0x08..0x60], 11)[3] == 4166
  {
    WordAt(TEST_HEADER_BYTES, 3, 4166);
  }

  lemma TestLeafDirsOffset()
    ensures ReadWords(TEST_HEADER_BYTES[0x08..0x60], 11)[4] == 6666
  {
    WordAt(TEST_HEADER_BYTES, 4, 6666);
  }

  lemma TestLeafDirsLength()
    ensures ReadWords(TEST_HEADER_BYTES[0x08..0x60], 11)[5] == 5757068
  {
    WordAt(TEST_HEADER_BYTES, 5, 5757068);
  }

  lemma TestTileDataOffset()
    ensures ReadWords(TEST_HEADER_BYTES[0x08..0x60], 11)[6] == 5763734
  {
    WordAt(TEST_HEADER_BYTES, 6, 5763734);
  }

  lemma TestTileDataLength()
    ensures ReadWords(TEST_HEADER_BYTES[0x08..0x60], 11)[7] == 16898675093
  {
    WordAt(TEST_HEADER_BYTES, 7, 16898675093);
  }

  lemma TestNumAddressedTiles()
    ensures ReadWords(TEST_HEADER_BYTES[0x08..0x60], 11)[8] == 2948676
  {
    WordAt(TEST_HEADER_BYTES, 8, 2948676);
  }

  lemma TestNumTileEntries()
    ensures ReadWords(TEST_HEADER_BYTES[0x08..0x60], 11)[9] == 2893639
  {
    WordAt(TEST_HEADER_BYTES, 9, 2893639);
  }

  lemma TestNumTileContents()
    ensures ReadWords(TEST_HEADER_BYTES[0x08..0x60], 11)[10] == 2581507
  {
    WordAt(TEST_HEADER_BYTES, 10, 2581507);
  }

  lemma TestMinPosition()
    ensures ToPosition(TEST_HEADER_BYTES[0x66..0x6E]) == Position(1220000000, 170349800)
  {
    PositionAt(TEST_HEADER_BYTES, 0x66, 1220000000, 170349800);
  }

  lemma TestMaxPosition()
    ensures ToPosition(TEST_HEADER_BYTES[0x6E..0x76]) == Position(1547666670, 460000000)
  {
    PositionAt(TEST_HEADER_BYTES, 0x6E, 1547666670, 460000000);
  }

  lemma TestCenterPosition()
    ensures ToPosition(TEST_HEADER_BYTES[0x77..0x7F]) == Position(1356015010, 348295869)
  {
    PositionAt(TEST_HEADER_BYTES, 0x77, 1356015010, 348295869);
  }

  /** `parse_correct_header`: the test prologue parses to the expected header. */
  lemma TestHeaderParses()
    ensures ParseHeader(TEST_HEADER_BYTES) == Ok(TEST_HEADER)
  {
    var p := TEST_HEADER_BYTES;
    assert |p| == HEADER_SIZE && p[..HEADER_SIZE] == p;
    assert p[..7] == MAGIC;
    assert p[0x07] == 3 && p[0x60] == 1 && p[0x64] == 4 && p[0x65] == 16 && p[0x76] == 16;
    assert p[0x61] == 2 && p[0x62] == 2 && p[0x63] == 1;
    assert CompressionFromByte(2) == Ok(Gzip) && TileTypeFromByte(1) == Ok(Mvt);
    TestRootDirOffset();
    TestRootDirLength();
    TestMetadataOffset();
    TestMetadataLength();
    TestLeafDirsOffset();
    TestLeafDirsLength();
    TestTileDataOffset();
    TestTileDataLength();
    TestNumAddressedTiles();
    TestNumTileEntries();
    TestNumTileContents();
    TestMinPosition();
    TestMaxPosition();
    TestCenterPosition();
  }
}
