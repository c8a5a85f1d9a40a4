/** PMTiles directories: `Directory::parse`, `Directory::parse_compressed`
    and `read_varints`. A directory is serialized as the number of entries
    followed by four columns of varints: tile id deltas, run lengths, lengths
    and offsets (an offset stored as 0 after the first entry means "right
    after the previous entry", any other as the offset plus one). */
module Directories {
  import opened Ints
  import opened Protobufs
  import opened TileIds

  datatype DirectoryEntry = DirectoryEntry(
    deltaEncodedTileId: U64,
    tileId: TileId,
    runLength: U64,
    length: U64,
    offset: U64)

  datatype Directory = Directory(entries: seq<DirectoryEntry>)

  /** The ways `Directory::parse` and `parse_compressed` do not return a directory. */
  datatype DirectoryError =
    | InvalidData(cause: VarintError)  // a varint of a column: `io::ErrorKind::InvalidData`
    | Decompress(message: string)      // the gzip decoder fails
    | Panic(message: string)           // the entry count's `expect`, or a u64 addition overflowing

  const COUNT_MESSAGE: string := "Number of entries is encoded as a little-endian varible-width integer"
  const OVERFLOW_MESSAGE: string := "attempt to add with overflow"

  // ---------------------------------------------------------------------
  // read_varints

  /** Varints read one after the other and the number of bytes they take. */
  datatype Varints = Varints(values: seq<U64>, size: nat)

  /** What `read_varints` returns: `count` varints one after the other and the
      number of bytes they take, or the error of the first one that fails.
      Defined as the loop runs: the first `count - 1` varints, then one more
      where they end. */
  function VarintsOf(buffer: seq<Byte>, count: nat): (r: Result<Varints, VarintError>)
    ensures r.Ok? ==> |r.value.values| == count <= r.value.size <= |buffer|
    decreases count, 1
  {
    if count == 0 then Ok(Varints([], 0)) else NextVarint(buffer, count)
  }

  /** One more varint where the first `count - 1` end. */
  function NextVarint(buffer: seq<Byte>, count: nat): (r: Result<Varints, VarintError>)
    requires count > 0
    ensures r.Ok? ==> |r.value.values| == count <= r.value.size <= |buffer|
    decreases count, 0
  {
    match VarintsOf(buffer, count - 1)
    case Err(e) => Err(e)
    case Ok(Varints(values, size)) =>
      match VarintOf(buffer[size..])
      case Err(e) => Err(e)
      case Ok((v, n)) => Ok(Varints(values + [v], size + n))
  }

  /** `read_varints`: the loop with the growing `values` and `size_read`. */
  method ReadVarints(buffer: seq<Byte>, count: U64) returns (r: Result<Varints, VarintError>)
    ensures r == VarintsOf(buffer, count)
  {
    var values: seq<U64> := [];
    var sizeRead: nat := 0;
    for i := 0 to count
      invariant VarintsOf(buffer, i) == Ok(Varints(values, sizeRead))
    {
      var decoded := DecodeVarint(buffer[sizeRead..]);
      if decoded.Err? {
        VarintsErr(buffer, i + 1, count);
        return Err(decoded.error);
      }
      var (value, size) := decoded.value;
      values := values + [value];
      sizeRead := sizeRead + size;
    }
    return Ok(Varints(values, sizeRead));
  }

  /** Once a read of the first `i` varints fails, every longer read fails the same way. */
  lemma {:induction false} VarintsErr(buffer: seq<Byte>, i: nat, count: nat)
    requires i <= count && VarintsOf(buffer, i).Err?
    ensures VarintsOf(buffer, count) == VarintsOf(buffer, i)
    decreases count - i
  {
    if i < count {
      VarintsErr(buffer, i + 1, count);
    }
  }

  /** The varints of `values` one after the other: the inverse of `VarintsOf`. */
  function EncodeVarints(values: seq<U64>): (bytes: seq<Byte>)
    ensures |bytes| >= |values|
  {
    if values == [] then []
    else EncodeVarints(values[..|values| - 1]) + EncodeVarint(values[|values| - 1])
  }

  /** Dropping `a` and then `k` more elements of `a + b` drops `k` elements of `b`. */
  lemma DropAppended(a: seq<Byte>, b: seq<Byte>, k: nat)
    requires k <= |b|
    ensures (a + b)[|a| + k..] == b[k..]
  {
  }

  /** Concatenation regrouped. */
  lemma Reassociate(a: seq<Byte>, b: seq<Byte>, c: seq<Byte>)
    ensures a + b + c == a + (b + c)
  {
  }

  /** One more varint where the first `count - 1` end. */
  lemma VarintsStep(buffer: seq<Byte>, count: nat, values: seq<U64>, size: nat, v: U64, n: nat,
                    all: seq<U64>, total: nat)
    requires count > 0 && VarintsOf(buffer, count - 1) == Ok(Varints(values, size))
    requires VarintOf(buffer[size..]) == Ok((v, n))
    requires all == values + [v] && total == size + n
    ensures VarintsOf(buffer, count) == Ok(Varints(all, total))
  {
  }

  /** The encoding of `values` followed by `rest` is that of all but the last
      value, then the last value's varint followed by `rest`. */
  lemma EncodedSplit(values: seq<U64>, rest: seq<Byte>)
    requires values != []
    ensures var front := EncodeVarints(values[..|values| - 1]);
            var tail := EncodeVarint(values[|values| - 1]) + rest;
            && EncodeVarints(values) + rest == front + tail
            && (EncodeVarints(values) + rest)[|front|..] == tail
            && |EncodeVarints(values)| == |front| + |EncodeVarint(values[|values| - 1])|
  {
    var front := EncodeVarints(values[..|values| - 1]);
    var tail := EncodeVarint(values[|values| - 1]) + rest;
    Reassociate(front, EncodeVarint(values[|values| - 1]), rest);
    DropAppended(front, tail, 0);
  }

  /** Reading back the varints of `values`, whatever follows them. */
  lemma {:induction false} VarintsRoundTrip(values: seq<U64>, rest: seq<Byte>)
    ensures VarintsOf(EncodeVarints(values) + rest, |values|) == Ok(Varints(values, |EncodeVarints(values)|))
    decreases |values|
  {
    if values != [] {
      var init := values[..|values| - 1];
      var last := values[|values| - 1];
      var e := EncodeVarint(last);
      EncodedSplit(values, rest);
      VarintsRoundTrip(init, e + rest);
      VarintRoundTrip(last, rest);
      assert values == init + [last];
      VarintsStep(EncodeVarints(values) + rest, |values|, init, |EncodeVarints(init)|, last, |e|,
                  values, |EncodeVarints(values)|);
    }
  }

  // ---------------------------------------------------------------------
  // From columns to entries

  /** The four columns as read. */
  datatype Columns = Columns(deltas: seq<U64>, runLengths: seq<U64>, lengths: seq<U64>, offsets: seq<U64>)

  predicate Aligned(c: Columns)
  {
    |c.runLengths| == |c.deltas| && |c.lengths| == |c.deltas| && |c.offsets| == |c.deltas|
  }

  /** The sum of `s`. */
  function Sum(s: seq<U64>): nat
  {
    if s == [] then 0 else Sum(s[..|s| - 1]) + s[|s| - 1]
  }

  /** The tile id of entry i: the sum of the deltas up to and including entry i. */
  function TileIdAt(c: Columns, i: nat): nat
    requires i < |c.deltas|
  {
    Sum(c.deltas[..i + 1])
  }

  /** The offset of entry i: right after entry i - 1 when its stored offset is
      0 and it is not the first, else the stored offset minus one, saturating at 0. */
  function OffsetAt(c: Columns, i: nat): nat
    requires Aligned(c) && i < |c.deltas|
  {
    if c.offsets[i] == 0 && i > 0 then OffsetAt(c, i - 1) + c.lengths[i - 1]
    else if c.offsets[i] == 0 then 0
    else c.offsets[i] - 1
  }

  /** Computing entry i adds past the range of u64. */
  predicate Overflows(c: Columns, i: nat)
    requires Aligned(c) && i < |c.deltas|
  {
    TileIdAt(c, i) >= TWO_64 || OffsetAt(c, i) >= TWO_64
  }

  function EntryAt(c: Columns, i: nat): DirectoryEntry
    requires Aligned(c) && i < |c.deltas| && !Overflows(c, i)
  {
    DirectoryEntry(c.deltas[i], TileId(TileIdAt(c, i)), c.runLengths[i], c.lengths[i], OffsetAt(c, i))
  }

  /** The entries the loop of `Directory::parse` builds from the columns, or
      the panic of an addition overflowing u64 at some entry. */
  function EntriesOf(c: Columns): (r: Result<seq<DirectoryEntry>, DirectoryError>)
    requires Aligned(c)
    ensures r.Ok? ==> |r.value| == |c.deltas|
    ensures r.Err? ==> r.error == Panic(OVERFLOW_MESSAGE)
  {
    if exists i | 0 <= i < |c.deltas| :: Overflows(c, i) then Err(Panic(OVERFLOW_MESSAGE))
    else Ok(seq(|c.deltas|, i requires 0 <= i < |c.deltas| => EntryAt(c, i)))
  }

  lemma SumSnoc(s: seq<U64>, i: nat)
    requires i < |s|
    ensures Sum(s[..i + 1]) == Sum(s[..i]) + s[i]
  {
    assert s[..i + 1][..i] == s[..i];
  }

  /** The invariant of the entry loop after i entries. */
  predicate BuiltUpTo(c: Columns, i: nat, entries: seq<DirectoryEntry>, lastTileId: nat, lastOffset: nat, lastLength: nat)
    requires Aligned(c) && i <= |c.deltas|
  {
    && |entries| == i
    && (forall j | 0 <= j < i :: !Overflows(c, j) && entries[j] == EntryAt(c, j))
    && lastTileId == Sum(c.deltas[..i])
    && (i > 0 ==> lastOffset == OffsetAt(c, i - 1) && lastLength == c.lengths[i - 1])
  }

  /** The loop invariant after the last entry gives the entries of `EntriesOf`. */
  lemma EntriesBuilt(c: Columns, entries: seq<DirectoryEntry>, lastTileId: nat, lastOffset: nat, lastLength: nat)
    requires Aligned(c) && BuiltUpTo(c, |c.deltas|, entries, lastTileId, lastOffset, lastLength)
    ensures EntriesOf(c) == Ok(entries)
  {
    assert !exists i | 0 <= i < |c.deltas| :: Overflows(c, i);
    assert entries == seq(|c.deltas|, i requires 0 <= i < |c.deltas| => EntryAt(c, i));
  }

  /** The loop of `Directory::parse` over the columns, with `last_tile_id`,
      `last_offset` and `last_length`; an addition that leaves u64 panics. */
  method BuildEntries(c: Columns) returns (r: Result<seq<DirectoryEntry>, DirectoryError>)
    requires Aligned(c)
    ensures r == EntriesOf(c)
  {
    var entries: seq<DirectoryEntry> := [];
    var lastTileId: U64 := 0;
    var lastOffset: U64 := 0;
    var lastLength: U64 := 0;
    for i := 0 to |c.deltas|
      invariant BuiltUpTo(c, i, entries, lastTileId, lastOffset, lastLength)
    {
      SumSnoc(c.deltas, i);
      if lastTileId + c.deltas[i] >= TWO_64 {
        assert Overflows(c, i);
        return Err(Panic(OVERFLOW_MESSAGE));
      }
      var tileIdValue: U64 := lastTileId + c.deltas[i];
      var actualOffset: U64;
      if c.offsets[i] == 0 && i > 0 {
        if lastOffset + lastLength >= TWO_64 {
          assert Overflows(c, i);
          return Err(Panic(OVERFLOW_MESSAGE));
        }
        actualOffset := lastOffset + lastLength;
      } else {
        actualOffset := if c.offsets[i] == 0 then 0 else c.offsets[i] - 1;
      }
      entries := entries + [DirectoryEntry(c.deltas[i], TileId(tileIdValue), c.runLengths[i], c.lengths[i], actualOffset)];
      lastTileId := tileIdValue;
      lastOffset := actualOffset;
      lastLength := c.lengths[i];
    }
    EntriesBuilt(c, entries, lastTileId, lastOffset, lastLength);
    return Ok(entries);
  }

  // ---------------------------------------------------------------------
  // Directory::parse

  /** One column of `n` varints at `offset`, and the number of bytes it
      takes; a varint that fails is `InvalidData`. */
  function ColumnAt(data: seq<Byte>, offset: nat, n: nat): (r: Result<Varints, DirectoryError>)
    requires offset <= |data|
    ensures r.Ok? ==> |r.value.values| == n && n <= r.value.size && offset + r.value.size <= |data|
    ensures r.Err? ==> r.error.InvalidData?
  {
    match VarintsOf(data[offset..], n)
    case Err(e) => Err(InvalidData(e))
    case Ok(column) => Ok(column)
  }

  /** Reading the four columns one after the other from `data[start..]`. */
  function ColumnsOf(data: seq<Byte>, start: nat, n: nat): (r: Result<Columns, DirectoryError>)
    requires start <= |data|
    ensures r.Ok? ==> Aligned(r.value) && |r.value.deltas| == n
    ensures r.Err? ==> r.error.InvalidData?
  {
    match ColumnAt(data, start, n)
    case Err(e) => Err(e)
    case Ok(Varints(deltas, s1)) =>
      match ColumnAt(data, start + s1, n)
      case Err(e) => Err(e)
      case Ok(Varints(runLengths, s2)) =>
        match ColumnAt(data, start + s1 + s2, n)
        case Err(e) => Err(e)
        case Ok(Varints(lengths, s3)) =>
          match ColumnAt(data, start + s1 + s2 + s3, n)
          case Err(e) => Err(e)
          case Ok(Varints(offsets, _)) => Ok(Columns(deltas, runLengths, lengths, offsets))
  }

  /** What `Directory::parse` returns for `data`. */
  function ParseDirectory(data: seq<Byte>): (r: Result<Directory, DirectoryError>)
    ensures r == Err(Panic(COUNT_MESSAGE)) <==> VarintOf(data).Err?
    ensures r.Ok? ==> |r.value.entries| == VarintOf(data).value.0
    ensures r.Err? ==> !r.error.Decompress?
  {
    match VarintOf(data)
    case Err(_) => Err(Panic(COUNT_MESSAGE))
    case Ok((n, start)) =>
      match ColumnsOf(data, start, n)
      case Err(e) => Err(e)
      case Ok(c) =>
        match EntriesOf(c)
        case Err(e) => Err(e)
        case Ok(entries) => Ok(Directory(entries))
  }

  /** One `read_varints` call of `Directory::parse`, its error turned into `InvalidData`. */
  method ReadColumn(data: seq<Byte>, offset: nat, n: U64) returns (r: Result<Varints, DirectoryError>)
    requires offset <= |data|
    ensures r == ColumnAt(data, offset, n)
  {
    var column := ReadVarints(data[offset..], n);
    if column.Err? {
      return Err(InvalidData(column.error));
    }
    return Ok(column.value);
  }

  /** The four `read_varints` calls of `Directory::parse` with the running
      `offset`, from `start`, where the entry count ends. */
  method ReadColumns(data: seq<Byte>, start: nat, n: U64) returns (r: Result<Columns, DirectoryError>)
    requires start <= |data|
    ensures r == ColumnsOf(data, start, n)
  {
    var offset := start;
    var deltas := ReadColumn(data, offset, n);
    if deltas.Err? {
      return Err(deltas.error);
    }
    offset := offset + deltas.value.size;
    var runLengths := ReadColumn(data, offset, n);
    if runLengths.Err? {
      return Err(runLengths.error);
    }
    offset := offset + runLengths.value.size;
    var lengths := ReadColumn(data, offset, n);
    if lengths.Err? {
      return Err(lengths.error);
    }
    offset := offset + lengths.value.size;
    var offsets := ReadColumn(data, offset, n);
    if offsets.Err? {
      return Err(offsets.error);
    }
    return Ok(Columns(deltas.value.values, runLengths.value.values, lengths.value.values, offsets.value.values));
  }

  /** `Directory::parse`: the entry count, the columns, then the entry loop. */
  method Parse(data: seq<Byte>) returns (r: Result<Directory, DirectoryError>)
    ensures r == ParseDirectory(data)
  {
    var count := DecodeVarint(data);
    if count.Err? {
      return Err(Panic(COUNT_MESSAGE));
    }
    var (n, offset) := count.value;
    var columns := ReadColumns(data, offset, n);
    if columns.Err? {
      return Err(columns.error);
    }
    var entries := BuildEntries(columns.value);
    if entries.Err? {
      return Err(entries.error);
    }
    return Ok(Directory(entries.value));
  }

  // ---------------------------------------------------------------------
  // Directory::parse_compressed

  /** A gzip decoder: the decompressed bytes, or the message of its error. */
  type Gunzip = seq<Byte> -> Result<seq<Byte>, string>

  /** What `Directory::parse_compressed` returns: the error of the decoder, or
      the directory parsed from what it decompresses. */
  function ParseCompressedOf(gunzip: Gunzip, data: seq<Byte>): (r: Result<Directory, DirectoryError>)
    ensures (r.Err? && r.error.Decompress?) <==> gunzip(data).Err?
    ensures gunzip(data).Ok? ==> r == ParseDirectory(gunzip(data).value)
  {
    match gunzip(data)
    case Err(message) => Err(Decompress(message))
    case Ok(raw) => ParseDirectory(raw)
  }

  /** `Directory::parse_compressed`: decompress everything, then parse. */
  method ParseCompressed(gunzip: Gunzip, data: seq<Byte>) returns (r: Result<Directory, DirectoryError>)
    ensures r == ParseCompressedOf(gunzip, data)
  {
    var uncompressed := gunzip(data);
    if uncompressed.Err? {
      return Err(Decompress(uncompressed.error));
    }
    r := Parse(uncompressed.value);
  }

  // ---------------------------------------------------------------------
  // Well-formed entries and the directory serializer

  /** The tile id in front of entry i: 0 before the first. */
  function TileIdBefore(entries: seq<DirectoryEntry>, i: nat): nat
    requires i < |entries|
  {
    if i == 0 then 0 else entries[i - 1].tileId.value
  }

  /** Entry i starts where entry i - 1 ends. */
  predicate Contiguous(entries: seq<DirectoryEntry>, i: nat)
    requires i < |entries|
  {
    i > 0 && entries[i].offset == entries[i - 1].offset + entries[i - 1].length
  }

  /** What the entries of every parsed directory satisfy: each tile id is the
      one before plus the entry's delta, and each offset either follows the
      entry before or can be stored as the offset plus one. */
  predicate WellFormed(entries: seq<DirectoryEntry>)
  {
    forall i {:trigger TileIdBefore(entries, i)} {:trigger Contiguous(entries, i)} | 0 <= i < |entries| ::
      && entries[i].tileId.value == TileIdBefore(entries, i) + entries[i].deltaEncodedTileId
      && (Contiguous(entries, i) || entries[i].offset + 1 < TWO_64)
  }

  /** The offset column value of entry i: 0 when it follows the entry before,
      else the offset plus one. */
  function StoredOffset(entries: seq<DirectoryEntry>, i: nat): U64
    requires WellFormed(entries) && i < |entries|
  {
    if Contiguous(entries, i) then 0 else entries[i].offset + 1
  }

  /** The columns that store `entries`. */
  function ColumnsFor(entries: seq<DirectoryEntry>): (c: Columns)
    requires WellFormed(entries)
    ensures Aligned(c) && |c.deltas| == |entries|
  {
    Columns(
      seq(|entries|, i requires 0 <= i < |entries| => entries[i].deltaEncodedTileId),
      seq(|entries|, i requires 0 <= i < |entries| => entries[i].runLength),
      seq(|entries|, i requires 0 <= i < |entries| => entries[i].length),
      seq(|entries|, i requires 0 <= i < |entries| => StoredOffset(entries, i)))
  }

  lemma {:induction false} TileIdsOfColumns(entries: seq<DirectoryEntry>, i: nat)
    requires WellFormed(entries) && i < |entries|
    ensures TileIdAt(ColumnsFor(entries), i) == entries[i].tileId.value
    decreases i
  {
    var c := ColumnsFor(entries);
    SumSnoc(c.deltas, i);
    assert entries[i].tileId.value == TileIdBefore(entries, i) + entries[i].deltaEncodedTileId;
    if i > 0 {
      TileIdsOfColumns(entries, i - 1);
    } else {
      assert c.deltas[..0] == [];
    }
  }

  lemma {:induction false} OffsetsOfColumns(entries: seq<DirectoryEntry>, i: nat)
    requires WellFormed(entries) && i < |entries|
    ensures OffsetAt(ColumnsFor(entries), i) == entries[i].offset
    decreases i
  {
    if Contiguous(entries, i) {
      OffsetsOfColumns(entries, i - 1);
    }
  }

  /** The entry loop rebuilds well-formed entries from their columns. */
  lemma EntriesOfColumnsFor(entries: seq<DirectoryEntry>)
    requires WellFormed(entries)
    ensures EntriesOf(ColumnsFor(entries)) == Ok(entries)
  {
    var c := ColumnsFor(entries);
    forall i | 0 <= i < |entries|
      ensures !Overflows(c, i) && EntryAt(c, i) == entries[i]
    {
      TileIdsOfColumns(entries, i);
      OffsetsOfColumns(entries, i);
    }
    assert !exists i | 0 <= i < |c.deltas| :: Overflows(c, i);
    assert entries == seq(|c.deltas|, i requires 0 <= i < |c.deltas| => EntryAt(c, i));
  }

  /** Whatever the columns, the entries the loop builds are well formed. */
  lemma EntriesWellFormed(c: Columns)
    requires Aligned(c) && EntriesOf(c).Ok?
    ensures WellFormed(EntriesOf(c).value)
  {
    var entries := EntriesOf(c).value;
    forall i | 0 <= i < |entries|
      ensures entries[i].tileId.value == TileIdBefore(entries, i) + entries[i].deltaEncodedTileId
      ensures Contiguous(entries, i) || entries[i].offset + 1 < TWO_64
    {
      assert !Overflows(c, i) && entries[i] == EntryAt(c, i);
      SumSnoc(c.deltas, i);
      if i > 0 {
        assert !Overflows(c, i - 1) && entries[i - 1] == EntryAt(c, i - 1);
      } else {
        assert c.deltas[..0] == [];
      }
    }
  }

  /** Tile ids never decrease along well-formed entries. */
  lemma {:induction false} TileIdsNonDecreasing(entries: seq<DirectoryEntry>, i: nat, j: nat)
    requires WellFormed(entries) && i <= j < |entries|
    ensures entries[i].tileId.value <= entries[j].tileId.value
    decreases j - i
  {
    if i < j {
      TileIdsNonDecreasing(entries, i, j - 1);
      TileIdStep(entries, j);
    }
  }

  /** In well-formed entries each tile id is the previous one plus its delta. */
  lemma TileIdStep(entries: seq<DirectoryEntry>, j: nat)
    requires WellFormed(entries) && 0 < j < |entries|
    ensures entries[j].tileId.value == entries[j - 1].tileId.value + entries[j].deltaEncodedTileId
  {
    assert TileIdBefore(entries, j) == entries[j - 1].tileId.value;
  }

  /** The four columns, one after the other. */
  function ColumnsBytes(c: Columns): seq<Byte>
  {
    EncodeVarints(c.deltas) + (EncodeVarints(c.runLengths) + (EncodeVarints(c.lengths) + EncodeVarints(c.offsets)))
  }

  /** The bytes of a directory: the number of entries, then its columns. */
  function DirectoryBytes(d: Directory): seq<Byte>
    requires WellFormed(d.entries)
  {
    EncodeVarint(|d.entries|) + ColumnsBytes(ColumnsFor(d.entries))
  }

  /** A column read back from its varints `e`, whatever comes after. */
  lemma ColumnAtEncoded(data: seq<Byte>, offset: nat, n: nat, values: seq<U64>, e: seq<Byte>, rest: seq<Byte>)
    requires n == |values| && e == EncodeVarints(values)
    requires offset <= |data| && data[offset..] == e + rest
    ensures ColumnAt(data, offset, n) == Ok(Varints(values, |e|))
  {
    VarintsRoundTrip(values, rest);
  }

  /** Four columns that read one after the other make `ColumnsOf`. */
  lemma ColumnsOfAt(data: seq<Byte>, start: nat, n: nat, c: Columns, s1: nat, s2: nat, s3: nat, s4: nat)
    requires start + s1 + s2 + s3 <= |data|
    requires ColumnAt(data, start, n) == Ok(Varints(c.deltas, s1))
    requires ColumnAt(data, start + s1, n) == Ok(Varints(c.runLengths, s2))
    requires ColumnAt(data, start + s1 + s2, n) == Ok(Varints(c.lengths, s3))
    requires ColumnAt(data, start + s1 + s2 + s3, n) == Ok(Varints(c.offsets, s4))
    ensures ColumnsOf(data, start, n) == Ok(c)
  {
  }

  /** Where each encoded column starts in the bytes of the columns after `prefix`. */
  lemma Slices(prefix: seq<Byte>, e1: seq<Byte>, e2: seq<Byte>, e3: seq<Byte>, e4: seq<Byte>)
    ensures (prefix + (e1 + (e2 + (e3 + e4))))[|prefix|..] == e1 + (e2 + (e3 + e4))
    ensures (prefix + (e1 + (e2 + (e3 + e4))))[|prefix| + |e1|..] == e2 + (e3 + e4)
    ensures (prefix + (e1 + (e2 + (e3 + e4))))[|prefix| + |e1| + |e2|..] == e3 + e4
    ensures (prefix + (e1 + (e2 + (e3 + e4))))[|prefix| + |e1| + |e2| + |e3|..] == e4 + []
  {
    var t := e1 + (e2 + (e3 + e4));
    DropAppended(prefix, t, |e1|);
    DropAppended(prefix, t, |e1| + |e2|);
    DropAppended(prefix, t, |e1| + |e2| + |e3|);
    DropAppended(e1, e2 + (e3 + e4), |e2|);
    DropAppended(e1, e2 + (e3 + e4), |e2| + |e3|);
    DropAppended(e2, e3 + e4, |e3|);
  }

  /** Four encoded columns, laid out one after the other from `start`, read back. */
  lemma ColumnsAtEncoded(data: seq<Byte>, start: nat, c: Columns, e1: seq<Byte>, e2: seq<Byte>, e3: seq<Byte>, e4: seq<Byte>)
    requires Aligned(c)
    requires e1 == EncodeVarints(c.deltas) && e2 == EncodeVarints(c.runLengths)
    requires e3 == EncodeVarints(c.lengths) && e4 == EncodeVarints(c.offsets)
    requires start + |e1| + |e2| + |e3| + |e4| <= |data|
    requires data[start..] == e1 + (e2 + (e3 + e4))
    requires data[start + |e1|..] == e2 + (e3 + e4)
    requires data[start + |e1| + |e2|..] == e3 + e4
    requires data[start + |e1| + |e2| + |e3|..] == e4 + []
    ensures ColumnsOf(data, start, |c.deltas|) == Ok(c)
  {
    var n := |c.deltas|;
    ColumnAtEncoded(data, start, n, c.deltas, e1, e2 + (e3 + e4));
    ColumnAtEncoded(data, start + |e1|, n, c.runLengths, e2, e3 + e4);
    ColumnAtEncoded(data, start + |e1| + |e2|, n, c.lengths, e3, e4);
    ColumnAtEncoded(data, start + |e1| + |e2| + |e3|, n, c.offsets, e4, []);
    ColumnsOfAt(data, start, n, c, |e1|, |e2|, |e3|, |e4|);
  }

  /** The columns read back from their bytes, whatever comes before. */
  lemma ColumnsRoundTrip(prefix: seq<Byte>, c: Columns)
    requires Aligned(c)
    ensures ColumnsOf(prefix + ColumnsBytes(c), |prefix|, |c.deltas|) == Ok(c)
  {
    var e1, e2, e3, e4 := EncodeVarints(c.deltas), EncodeVarints(c.runLengths), EncodeVarints(c.lengths), EncodeVarints(c.offsets);
    Slices(prefix, e1, e2, e3, e4);
    ColumnsAtEncoded(prefix + ColumnsBytes(c), |prefix|, c, e1, e2, e3, e4);
  }

  /** A well-formed directory with fewer than 2^64 entries parses back from its bytes. */
  lemma DirectoryRoundTrip(d: Directory)
    requires WellFormed(d.entries) && |d.entries| < TWO_64
    ensures ParseDirectory(DirectoryBytes(d)) == Ok(d)
  {
    var c := ColumnsFor(d.entries);
    VarintRoundTrip(|d.entries|, ColumnsBytes(c));
    ColumnsRoundTrip(EncodeVarint(|d.entries|), c);
    EntriesOfColumnsFor(d.entries);
  }

  /** Every directory `Directory::parse` returns is well formed. */
  lemma ParsedWellFormed(data: seq<Byte>)
    requires ParseDirectory(data).Ok?
    ensures WellFormed(ParseDirectory(data).value.entries)
  {
    var (n, start) := VarintOf(data).value;
    EntriesWellFormed(ColumnsOf(data, start, n).value);
  }

  // ---------------------------------------------------------------------
  // The directory of the unit test

  /** Four entries, the second contiguous with the first. */
  const TEST_ENTRIES: seq<DirectoryEntry> := [
    DirectoryEntry(1, TileId(1), 0, 10, 10),
    DirectoryEntry(2, TileId(3), 1, 20, 20),
    DirectoryEntry(3, TileId(6), 0, 30, 50),
    DirectoryEntry(4, TileId(10), 0, 40, 0)
  ]

  /** Their bytes: the count, then deltas, run lengths, lengths and offsets + 1. */
  const TEST_BYTES: seq<Byte> :=
    [4] + ([1, 2, 3, 4] + ([0, 1, 0, 0] + ([10, 20, 30, 40] + [11, 0, 51, 1])))

  /** Values below 128 are stored as one byte each. */
  lemma {:induction false} EncodeSmallVarints(values: seq<U64>)
    requires forall i | 0 <= i < |values| :: values[i] < 128
    ensures EncodeVarints(values) == values
    decreases |values|
  {
    if values != [] {
      EncodeSmallVarints(values[..|values| - 1]);
      assert values[..|values| - 1] + [values[|values| - 1]] == values;
    }
  }

  /** The test entries are well formed, and these are their columns. */
  lemma TestColumns()
    ensures WellFormed(TEST_ENTRIES)
    ensures ColumnsFor(TEST_ENTRIES) == Columns([1, 2, 3, 4], [0, 1, 0, 0], [10, 20, 30, 40], [11, 0, 51, 1])
  {
    assert WellFormed(TEST_ENTRIES);
    var c := ColumnsFor(TEST_ENTRIES);
    assert c.deltas == [1, 2, 3, 4];
    assert c.runLengths == [0, 1, 0, 0];
    assert c.lengths == [10, 20, 30, 40];
    assert c.offsets == [11, 0, 51, 1];
  }

  /** The bytes of the test columns: all values are below 128. */
  lemma TestColumnsBytes()
    ensures ColumnsBytes(Columns([1, 2, 3, 4], [0, 1, 0, 0], [10, 20, 30, 40], [11, 0, 51, 1]))
         == [1, 2, 3, 4] + ([0, 1, 0, 0] + ([10, 20, 30, 40] + [11, 0, 51, 1]))
  {
    EncodeSmallVarints([1, 2, 3, 4]);
    EncodeSmallVarints([0, 1, 0, 0]);
    EncodeSmallVarints([10, 20, 30, 40]);
    EncodeSmallVarints([11, 0, 51, 1]);
  }

  /** The test bytes are the bytes of the test entries. */
  lemma TestBytes()
    ensures WellFormed(TEST_ENTRIES) && DirectoryBytes(Directory(TEST_ENTRIES)) == TEST_BYTES
  {
    TestColumns();
    TestColumnsBytes();
    assert EncodeVarint(4) == [4];
  }

  /** `test_parse_directory`: the test bytes parse to the four test entries. */
  lemma TestDirectoryParses()
    ensures ParseDirectory(TEST_BYTES) == Ok(Directory(TEST_ENTRIES))
  {
    TestBytes();
    DirectoryRoundTrip(Directory(TEST_ENTRIES));
  }
}
