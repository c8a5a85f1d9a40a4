# PMTiles read path

A Dafny model of the read path of the `pmtiles` crate. PMTiles (version 3) is a
single-file archive of map tiles. The crate does the following:

- It reads the 127-byte header: the magic `PMTiles`, a version, eleven
  little-endian u64 offsets, lengths and counts, and the compression,
  tile-type, zoom and position bytes.
- It reads the gzip-compressed root directory and decodes its columns of
  LEB128 varints into directory entries.
- `get(z, x, y)` turns a tile coordinate into a Hilbert-curve tile id and
  looks it up in the root directory. The lookup may go through one leaf
  directory.

Modules follow the source files:

| file | module | source |
|---|---|---|
| `ints.dfy` | `Ints` | shared widths (`Byte`, `U32`, `U64`), powers of two and four, `Result` |
| `protobufs.dfy` | `Protobufs` | `decode_varint` |
| `tileid.dfy` | `TileIds` | `TileId`, `encode`, `xy_to_hilbert`, `decode`, `hilbert_to_xy`, `rotate` |
| `types.dfy` | `Types` | `Compression` and `TileType` with their `try_from` |
| `header.dfy` | `Headers` | `Header::parse`, `to_u64_le`, the raw `to_lat_lon` integers |
| `directory.dfy` | `Directories` | `Directory::parse`, `parse_compressed`, `read_varints`, `DirectoryEntry` |
| `pmtiles.dfy` | `Archive` | `PMTiles::parse` and `PMTiles::get` |

**Pure and imperative code.** The loops of the source are methods with loop
invariants:

- `decode_varint` is `DecodeVarint`.
- `xy_to_hilbert` is `XyToHilbert`, `hilbert_to_xy` is `HilbertToXy`, and
  `decode` is `Decode`.
- `read_varints` is `ReadVarints`.
- The entry loop of `Directory::parse` is `BuildEntries`.
- The `for_each` scans of `get` are `ReadFloor` and `ScanLeaf`, inside `Get`.

Each method is proved equal to a specification function. The properties of
the source are proved as lemmas about those functions:

- round trips against encoders written for the purpose (`EncodeVarint`,
  `HeaderBytes`, `DirectoryBytes`, `Ascend`/`Descend` on the Hilbert curve);
- the error cases as if-and-only-if contracts;
- the unit tests of the crate, as lemmas on their literal vectors.

Straight-line code is written as functions: `Header::parse`, the `try_from`
decoders and `PMTiles::parse`.

**`get` as a trace.** `get` prints rather than returns. It is modelled as the
sequence of `Event`s it causes, in order:

- `ReadTile(start, end)` slices `[start, end)` of the archive.
- `ReadLeafDirectory(start, end)` slices a leaf directory and decompresses it.
- `Panicked(message)` ends the trace. This is an out-of-range slice, an
  addition overflowing in a debug build, a panic inside `Directory::parse`
  of a leaf directory (the `expect` on its entry count, or a tile id sum
  overflowing), which keeps its own message, or the `expect("leaf directory")`
  on a leaf directory whose decompression or columns fail with an error.

**Panics and errors.**

- Rust panics are values: `Panic` in the error types of the parsers, and
  `Panicked` in the trace. They are not preconditions.
- `io::Error` results are `Err` values with the error kind the source uses.
- Widths are explicit. `U64` is `0 <= n < 2^64`, and `usize` is taken to be
  64 bits. `Ints.Pow2` and `Ints.Pow4` stand for `1 << k` and `4u64.pow(k)`.
- Bit operations on values known to lie in separate bit ranges are written
  arithmetically. For example, `|= v << shift` is an addition, and `x & s`
  for a power of two `s` is a digit of `x`.

**Where the format's own description and this code differ, the model follows
the code:**

- Directory tile ids may repeat, because a delta of 0 is accepted. So
  `Directories.WellFormed` asks only for non-decreasing ids.
- An exact match with run length 0 reads nothing.
- `get` reads tile bytes at `entry.offset` as an absolute archive offset. It
  does not add `tile_data_offset`.
- A corrupt leaf directory panics and is not reported as an error. An
  `io::Error` from decompressing or parsing it meets `expect("leaf directory")`;
  a leaf whose entry count does not decode, or whose tile ids overflow, has
  already panicked inside `Directory::parse` with that panic's own message.

## Model

| member | source | states |
|---|---|---|
| Protobufs.VarintOfSpec | pmtiles/src/protobufs.rs:2-21 | `decode_varint` fails with "incomplete" exactly when the input has at most ten bytes and every one of them has its high bit set, the empty input included. It fails with "too long" exactly when there are more than ten bytes and the first ten all have their high bit set. Otherwise it returns `(v, n)` with `n <= 10`: byte `n-1` is the first one with a clear high bit, and `v` is the little-endian sum of the 7-bit groups modulo 2^64. |
| Protobufs.VarintOfComplete | pmtiles/src/protobufs.rs:6-16 | Whenever the bytes hold a varint of value `v` ending at byte `n`, the decoder returns exactly `(v, n)`. This is the converse of `VarintOfSpec`, so the decoder computes the value its groups denote and nothing else. |
| Protobufs.DecodeVarint | pmtiles/src/protobufs.rs:2-21 | The loop with the mutable `result` and `shift` returns exactly `VarintOf(data)`: the same value, length and error. |
| Protobufs.VarintRoundTrip | pmtiles/src/protobufs.rs:6-16 | Decoding the LEB128 encoding of any u64, followed by any bytes, gives back the value and the encoding's length. |
| Protobufs.VarintIgnoresSuffix | pmtiles/src/protobufs.rs:15-16 | Bytes after the terminator do not change the result. |
| Protobufs.VarintSingleByte | pmtiles/src/protobufs.rs:12-16 | A first byte below 0x80 decodes to itself with length 1, whatever follows. |
| Protobufs.VarintDecodes150 | pmtiles/src/protobufs.rs:27-32 | The unit test `decode_150`: `[0x96, 0x01, 0x00]` decodes to `(150, 2)`. |
| Types.CompressionFromByte | pmtiles/src/pmtiles/types.rs:15-24 | `Compression::try_from(b)` succeeds exactly when `b <= 4`. A success carries the variant whose discriminant is `b`. A failure carries "Invalid compression value". |
| Types.CompressionRoundTrip | pmtiles/src/pmtiles/types.rs:4-10 | Every variant decodes from its own discriminant (0x00 to 0x04). |
| Types.CompressionFromByteInjective | pmtiles/src/pmtiles/types.rs:16-23 | Distinct accepted bytes decode to distinct variants. |
| Types.TileTypeFromByte | pmtiles/src/pmtiles/types.rs:46-56 | `TileType::try_from(b)` succeeds exactly when `b <= 5`. A success carries the variant whose discriminant is `b`. A failure carries "Invalid tile type value". |
| Types.TileTypeRoundTrip | pmtiles/src/pmtiles/types.rs:34-41 | Every variant decodes from its own discriminant (0x00 to 0x05). |
| Types.TileTypeFromByteInjective | pmtiles/src/pmtiles/types.rs:47-55 | Distinct accepted bytes decode to distinct variants. |
| TileIds.Rotate | pmtiles/src/tileid.rs:115-146 | With `ry == 1` the point is unchanged. With `ry == 0, rx == 0` x and y are swapped. With `ry == 0, rx == 1` the point becomes `(n-1-y, n-1-x)`. |
| TileIds.RotateInvolution | pmtiles/src/tileid.rs:136-144 | Rotating twice with the same quadrant bits gives back the point. This is what lets `hilbert_to_xy` undo `xy_to_hilbert`. |
| TileIds.XyToHilbert | pmtiles/src/tileid.rs:24-42 | For `z <= 31` and `x, y < 2^z`, the `while` loop over `s` returns the Hilbert distance `HilbertDistance(z, x, y)`, which is below `4^z`. |
| TileIds.HilbertToXy | pmtiles/src/tileid.rs:61-113 | For `d < 4^z`, the loop doubling `s` returns `HilbertPoint(z, d)`, whose coordinates are below `2^z`. |
| TileIds.HilbertPointOfDistance | pmtiles/src/tileid.rs:24-113 | The point of the distance of any `(x, y)` inside the `2^z` grid is `(x, y)` again. |
| TileIds.HilbertAdjacent | pmtiles/src/tileid.rs:61-113 | Locality, as the comment on the rotation promises: for `d + 1 < 4^z`, the points of `d` and `d + 1` are grid neighbours, differing by exactly 1 in exactly one coordinate. |
| TileIds.ConsecutiveAdjacent | pmtiles/src/tileid.rs:24-113 | Any two cells whose Hilbert distances are consecutive are grid neighbours. The proof goes down one level per quadrant: inside a quadrant by induction, across quadrants from the end cell of one to the start cell of the next. |
| TileIds.HilbertDistanceOfPoint | pmtiles/src/tileid.rs:24-113 | The distance of the point of any `d < 4^z` is `d` again, so the curve is a bijection between the grid and `[0, 4^z)`. |
| TileIds.ZoomUnique | pmtiles/src/tileid.rs:45-55 | At most one zoom `z` has `(4^z-1)/3 <= v < (4^(z+1)-1)/3`. |
| TileIds.Encode | pmtiles/src/tileid.rs:16-22 | For `z <= 31` and `x, y < 2^z`, `encode` returns `(4^z-1)/3 + xy_to_hilbert(z, x, y)`. This id lies in the range of zoom `z` and fits in a u64. |
| TileIds.Decode | pmtiles/src/tileid.rs:45-58 | For ids below `(4^32-1)/3`, the loop subtracting `4^z` finds the unique zoom of the id and returns the point of its distance within that zoom. |
| TileIds.TileIdRoundTrip | pmtiles/src/tileid.rs:16-58 | `decode(encode(z, x, y)) == (z, x, y)` for every tile of every zoom up to 31. |
| TileIds.TileCoordinatesRoundTrip | pmtiles/src/tileid.rs:16-58 | `encode(decode(t)) == t` for every id up to the end of zoom 31. |
| TileIds.TestVectorTile0 | pmtiles/src/tileid.rs:155 | Test vector: id 0 is `(0, 0, 0)` both ways. |
| TileIds.TestVectorTile1 | pmtiles/src/tileid.rs:156 | Test vector: id 1 is `(1, 0, 0)` both ways. |
| TileIds.TestVectorTile2 | pmtiles/src/tileid.rs:157 | Test vector: id 2 is `(1, 0, 1)` both ways. |
| TileIds.TestVectorTile3 | pmtiles/src/tileid.rs:158 | Test vector: id 3 is `(1, 1, 1)` both ways. |
| TileIds.TestVectorTile4 | pmtiles/src/tileid.rs:159 | Test vector: id 4 is `(1, 1, 0)` both ways. |
| TileIds.TestVectorTile5 | pmtiles/src/tileid.rs:160 | Test vector: id 5 is `(2, 0, 0)` both ways. |
| TileIds.TestVectorZoom12 | pmtiles/src/tileid.rs:161-172 | Test vector: id 19078479 is `(12, 3423, 1763)` both ways. |
| Headers.U64RoundTrip | pmtiles/src/pmtiles/header.rs:8-11 | `to_u64_le` inverts the 8-byte little-endian encoding of every u64. |
| Headers.PositionRoundTrip | pmtiles/src/pmtiles/header.rs:13-15 | The two raw little-endian i32 values of a position read back from their encoding, including negative ones. |
| Headers.ParseHeader | pmtiles/src/pmtiles/header.rs:48-119 | `Header::parse` fails as follows. It reports "too short" (with the length) exactly when there are fewer than 127 bytes. It reports "invalid magic" exactly when the first seven bytes are not `PMTiles`. It panics exactly when the magic is right and byte 0x61 or 0x62 is above 4 or byte 0x63 is above 5. |
| Headers.HeaderRoundTrip | pmtiles/src/pmtiles/header.rs:48-119 | Parsing the serialized form of any header, followed by any bytes, gives it back. This covers every field at its fixed offset, the words at 0x08 to 0x58 and the three enumeration bytes. |
| Headers.ParsedHeaderBytes | pmtiles/src/pmtiles/header.rs:71-92 | A successful parse keeps all of bytes 0 to 126: serializing the parsed header gives them back. |
| Headers.HeaderIgnoresSuffix | pmtiles/src/pmtiles/header.rs:49-92 | Inputs that agree on their first 127 bytes parse alike. |
| Headers.TestHeaderParses | pmtiles/src/pmtiles/header.rs:146-183 | The test prologue parses to the header the unit test expects: version 3, root directory 127/2373, metadata 2500/4166, leaf directories 6666/5757068, tile data 5763734/16898675093, counts 2948676/2893639/2581507, clustered, Gzip/Gzip/MVT, zooms 4 to 16, center zoom 16, and the raw position integers. |
| Directories.ReadVarints | pmtiles/src/pmtiles/directory.rs:108-119 | `read_varints` returns exactly `VarintsOf(buffer, count)`. That is `count` values read back to back, the bytes they take in total, or the error of the first varint that fails. |
| Directories.VarintsRoundTrip | pmtiles/src/pmtiles/directory.rs:108-119 | Reading `n` varints from the concatenated encodings of `n` u64 values, followed by any bytes, gives back the values and the sum of the encoding lengths. |
| Directories.BuildEntries | pmtiles/src/pmtiles/directory.rs:75-101 | The entry loop returns `EntriesOf(columns)`. Entry `i` has tile id `delta[0] + ... + delta[i]` and is given the offset rule. Delta, run length and length are copied from their columns. The result is the overflow panic when a sum passes 2^64. |
| Directories.ParseDirectory | pmtiles/src/pmtiles/directory.rs:53-105 | `Directory::parse` panics with the `expect` message exactly when the count varint does not decode. A parsed directory has exactly as many entries as the count says. |
| Directories.Parse | pmtiles/src/pmtiles/directory.rs:53-105 | The imperative parse, which reads the count and the four columns back to back with a moving offset and then runs the entry loop, returns `ParseDirectory(data)`. |
| Directories.ParseCompressed | pmtiles/src/pmtiles/directory.rs:45-51 | `parse_compressed` returns the decoder's error exactly when the decoder fails, and otherwise parses what it decompressed. |
| Directories.EntriesWellFormed | pmtiles/src/pmtiles/directory.rs:81-101 | The entries built from any columns satisfy `WellFormed`: each tile id is the one before plus its delta, and each offset follows the entry before or fits the +1 bias. |
| Directories.TileIdsNonDecreasing | pmtiles/src/pmtiles/directory.rs:82-98 | Tile ids of well-formed entries never decrease. |
| Directories.DirectoryRoundTrip | pmtiles/src/pmtiles/directory.rs:53-105 | Parsing the column encoding of any well-formed entry list with fewer than 2^64 entries gives it back. Offsets are stored as 0 when contiguous and as offset plus one otherwise. |
| Directories.ParsedWellFormed | pmtiles/src/pmtiles/directory.rs:53-105 | Every directory that parses is well formed, so its tile ids are non-decreasing. |
| Directories.TestDirectoryParses | pmtiles/src/pmtiles/directory.rs:125-171 | The 17-byte test directory parses to the four entries of the unit test: ids 1, 3, 6 and 10, run lengths 0, 1, 0 and 0, lengths 10 to 40, and offsets 10, 20, 50 and 0. |
| Archive.ParseArchive | pmtiles/src/pmtiles.rs:33-47 | `PMTiles::parse` panics on the `[..127]` slice exactly when the archive is shorter than 127 bytes. It fails with the header's error exactly when the header does not parse. A success holds the parsed header and in-range root directory and metadata slices. Its root directory is what `parse_compressed` makes of `[root_dir_offset, root_dir_offset + root_dir_length)`. |
| Archive.ParsedArchive | pmtiles/src/pmtiles.rs:33-47 | A parsed archive's header serializes back to bytes 0 to 126, and its root directory is well formed. |
| Archive.ArchiveRoundTrip | pmtiles/src/pmtiles.rs:33-47 | An archive laid out as a serialized header, an in-range compressed root directory and in-range metadata parses to exactly those parts. |
| Archive.ParsedParts | pmtiles/src/pmtiles.rs:33-47 | When the header, root directory and metadata each parse from their slices, the archive parses to them. |
| Archive.TileEvent | pmtiles/src/pmtiles.rs:70-72 | Slicing `[offset, offset + length)` reads exactly that range when it lies inside the archive, and panics exactly when it does not. |
| Archive.FloorIsLastBelow | pmtiles/src/pmtiles.rs:64-82 | After a scan that did not stop, there is no floor entry exactly when no entry is below the target. Otherwise the floor is the last entry in iteration order whose tile id is below the target. |
| Archive.FloorIsGreatestBelow | pmtiles/src/pmtiles.rs:76-81 | In a well-formed directory, the floor entry has the greatest tile id below the target. |
| Archive.RootScanReadsMatches | pmtiles/src/pmtiles.rs:65-75 | Every tile read during the root scan is the range of an entry whose id equals the target and whose run length is not 0. Only the last event can be a panic. |
| Archive.LeafReadsMatches | pmtiles/src/pmtiles.rs:95-104 | Every tile read while scanning a leaf directory is the range of a leaf entry whose id equals the target. Only the last event can be a panic. |
| Archive.LeafEventsPrefix | pmtiles/src/pmtiles.rs:95-104 | The leaf scan's trace is a prefix of `MatchReads`, the read of every matching leaf entry in order, and falls short of it only by stopping at a panic. |
| Archive.LeafReadsAll | pmtiles/src/pmtiles.rs:95-104 | When every matching leaf entry's range lies in the archive, the leaf scan reads exactly every matching entry, in order, and does not panic. |
| Archive.RootScanPrefix | pmtiles/src/pmtiles.rs:64-82 | The root scan as written reads a prefix of the exact matches with a nonzero run length, in order; it stops exactly when it panicked, and it falls short of the matches only then. |
| Archive.GetReadsEveryMatch | pmtiles/src/pmtiles.rs:64-111 | When the root matches' ranges lie in the archive, `get` as written reads every exact root match with a nonzero run length, in order, and then follows the floor branch; in particular each such match's tile read is in the trace. |
| Archive.GetIntendedReadsMatch | pmtiles/src/pmtiles.rs:64-75 | With the early return, the first exact root match ends `get`: the trace is empty when its run length is 0, and otherwise exactly the read of its range. |
| Archive.GetReadsFloorTile | pmtiles/src/pmtiles.rs:76-89 | When no root entry equals the target and the last entry below it has run length at least 1, `get` (either version) reads exactly that entry's range. |
| Archive.GetReadsLeafMatches | pmtiles/src/pmtiles.rs:90-104 | When the floor has run length 0 and its leaf directory lies in the archive and parses, `get` reads the leaf directory slice and then every matching leaf entry, in order. |
| Archive.LeafFloor | pmtiles/src/pmtiles.rs:90-94 | A floor entry with run length 0 whose leaf slice lies in the archive reads the slice at `leaf_dirs_offset + offset` and goes on with what `parse_compressed` makes of it: its own panic, the `expect("leaf directory")` panic for an error, or the leaf scan. |
| Archive.LeafCountPanics | pmtiles/src/pmtiles.rs:90-94 | When the decompressed leaf directory's entry count does not decode, `get` reads the leaf slice and then panics with the count `expect` of `Directory::parse` (directory.rs lines 53-55), not with `"leaf directory"`. |
| Archive.NothingBelowReadsNothing | pmtiles/src/pmtiles.rs:108-110 | When every root entry is above the target, `get` reads nothing. |
| Archive.SameEventsWithoutMatch | pmtiles/src/pmtiles.rs:64-83 | When no root entry matches the target exactly, `get` as written and `get` with the intended early return cause the same trace. |
| Archive.ScanLeaf | pmtiles/src/pmtiles.rs:95-104 | The leaf `for_each` causes `LeafEvents`: one read per matching leaf entry, stopping at the first panic. |
| Archive.ReadFloor | pmtiles/src/pmtiles.rs:83-111 | The `match smallest_entry` causes `FloorEvents`. With no floor, nothing. A floor with run length at least 1 reads its range. Otherwise the leaf directory at `leaf_dirs_offset + offset` is read and parsed. A panic inside `Directory::parse` keeps its own message, an error panics with `"leaf directory"`, and a parsed leaf is scanned. |
| Archive.Get | pmtiles/src/pmtiles.rs:57-113 | `get(z, x, y)` looks up `encode(z, x, y)` and causes `GetEvents(…, false)`: the root scan, then the floor branch, even after an exact match. |
| Archive.ExactMatchReadsFloorToo | pmtiles/src/pmtiles.rs:64-83 | For a root directory with entries at ids 1 and 2 and target 2, `get` as written reads the match `[5, 12)` and then the floor entry's `[0, 5)`. The intended version reads `[5, 12)` only. |
| Archive.GetIntended | pmtiles/src/pmtiles.rs:57-113 | The corrected `get`, where an exact match ends the call, causes `GetEvents(…, true)`. |
| Archive.IntendedGetReadsOnce | pmtiles/src/pmtiles.rs:64-75 | With the early return, a target present in the root directory causes at most one event and never a leaf-directory read. |

## Left out

- `PMTiles::open` (a file and a memory map) is left out: the archive is a byte sequence.
- `print_binary`, every `println!`, `print_info` and the `Display` impls are left out: they only produce output.
- The gzip decoder is a function parameter (`Directories.Gunzip`), because it is foreign code.
- `Metadata::parse_compressed` is a parameter (`Archive.MetadataParser`). It is gzip, UTF-8 and JSON validation in foreign crates, and `pmtiles/src/pmtiles/metadata.rs` is not part of this model.
- `to_lat_lon`'s division by 1e7 into `f64` is left out. Positions keep the two raw little-endian i32 values.
- The UTF-8 check of the magic and the comparison with `PMTiles` are merged into `InvalidMagic`. Both fail with `InvalidData`, and the messages are not modelled.
- The `smallest_tile_id` variable of `get` is left out: it is only printed.
- `TileId::new` and `value` are the datatype constructor and field `TileIds.TileId(value)`.
- Memory exhaustion in `Vec::with_capacity` is not modelled.
- `TileIds.Encode`: requires `z <= 31` and `x, y < 2^z`. For `z >= 32` the source panics on `4u64.pow(z)` and on `1u32 << z`. For coordinates outside the grid it either panics on the subtraction in `rotate` or computes from the low bits. Neither case is modelled.
- `TileIds.XyToHilbert`: the same precondition as `Encode`, for the same reason.
- `Archive.Get`: inherits the precondition of `Encode`.
- `Archive.GetIntended`: inherits the precondition of `Encode`.
- `TileIds.Decode`: requires the id to be below `(4^32-1)/3`. For larger ids the loop reaches `4u64.pow(32)`, which overflows and panics in a debug build. This is not modelled.
- `TileIds.HilbertToXy`: requires `d < 4^z`, which `decode` always satisfies. Other inputs are not reached from the modelled core.
- `Directories.BuildEntries`: a u64 sum of tile ids that passes 2^64 is modelled as the debug-build overflow panic; the wrap-around of a release build is not modelled.
- `Archive.FloorEvents`: the leaf offset `leaf_dirs_offset + offset` passing 2^64 is modelled as the debug-build overflow panic; the wrap-around of a release build is not modelled.
- The end of a slice, `offset + length`, overflowing 2^64 panics in the source on the addition. The model reports it as the out-of-range `Panicked` event with the slice message.

## Findings

| source | as written | input that shows it | evidently intended | confidence | as-written member | corrected member |
|---|---|---|---|---|---|---|
| pmtiles/src/pmtiles.rs:64-83 | The `return` after an exact match is inside the `for_each` closure. It leaves only that closure, so the scan goes on and the floor branch still runs after the tile was read. | A root directory with an entry at id 1 (run length 1, range `[0, 5)`) and one at id 2 (run length 1, range `[5, 12)`), and target id 2. `get` reads `[5, 12)` and then `[0, 5)`. | An exact match ends `get` after reading its tile. | high, not executed | Archive.ExactMatchReadsFloorToo | Archive.IntendedGetReadsOnce |
