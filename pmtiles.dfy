/** A PMTiles archive: `PMTiles::parse`, which cuts the header, the root
    directory and the metadata out of the archive bytes, and `PMTiles::get`,
    which looks a tile up in the root directory and at most one leaf
    directory. `get` returns nothing and prints what it reads; the model
    records, in order, each range of the archive it reads and the panic that
    ends it, if any. */
module Archive {
  import opened Ints
  import opened TileIds
  import opened Directories
  import H = Headers
  import Types
  import Protobufs

  /** The bytes of a memory-mapped archive: a Rust slice, shorter than 2^64. */
  type Mapping = s: seq<Byte> | |s| < TWO_64

  /** `Metadata::parse_compressed`, which decompresses and checks the JSON
      metadata, is not part of this model: it is a parameter. */
  type MetadataParser<M> = (seq<Byte>, Types.TileType) -> Result<M, string>

  datatype PMTiles<M> = PMTiles(data: Mapping, header: H.Header, rootDirectory: Directory, metadata: M)

  /** The outcomes of `PMTiles::parse` other than an archive: the errors its
      three parsers return, and the panic of a slice that ends past the data. */
  datatype ArchiveError =
    | InvalidHeader(headerError: H.HeaderError)
    | InvalidRootDirectory(directoryError: DirectoryError)
    | InvalidMetadata(message: string)
    | SliceOutOfRange(end: nat)

  const SLICE_MESSAGE: string := "range end index out of range for slice"
  const LEAF_MESSAGE: string := "leaf directory"

  datatype Option<T> = None | Some(value: T)

  // ---------------------------------------------------------------------
  // PMTiles::parse

  /** `&data[start .. start + length]` with usize bounds. An end past 2^64
      overflows, which panics in a debug build and in a release build wraps
      below the start, which panics too; either way it is past the data. */
  predicate InRange(data: Mapping, start: nat, length: nat)
  {
    start + length <= |data|
  }

  /** The compressed root directory, where the header puts it. */
  function RootDirectoryBytes(data: Mapping, header: H.Header): (bytes: seq<Byte>)
    requires InRange(data, header.rootDirOffset, header.rootDirLength)
    ensures |bytes| == header.rootDirLength
  {
    data[header.rootDirOffset .. header.rootDirOffset + header.rootDirLength]
  }

  /** `PMTiles::parse`: the header from the first 127 bytes, then the root
      directory and the metadata from the ranges the header gives, each
      slice panicking when it ends past the data. */
  function ParseArchive<M>(data: Mapping, gunzip: Gunzip, parseMetadata: MetadataParser<M>)
    : (r: Result<PMTiles<M>, ArchiveError>)
    ensures r.Ok? ==>
              && r.value.data == data
              && |data| >= H.HEADER_SIZE && H.ParseHeader(data[..H.HEADER_SIZE]).Ok?
              && r.value.header == H.ParseHeader(data[..H.HEADER_SIZE]).value
              && InRange(data, r.value.header.rootDirOffset, r.value.header.rootDirLength)
              && InRange(data, r.value.header.metadataOffset, r.value.header.metadataLength)
              && ParseCompressedOf(gunzip, RootDirectoryBytes(data, r.value.header)) == Ok(r.value.rootDirectory)
    ensures r == Err(SliceOutOfRange(H.HEADER_SIZE)) <==> |data| < H.HEADER_SIZE
    ensures r.Err? && r.error.InvalidHeader? <==>
              |data| >= H.HEADER_SIZE && H.ParseHeader(data[..H.HEADER_SIZE]).Err?
  {
    if |data| < H.HEADER_SIZE then Err(SliceOutOfRange(H.HEADER_SIZE))
    else
      match H.ParseHeader(data[..H.HEADER_SIZE])
      case Err(e) => Err(InvalidHeader(e))
      case Ok(header) =>
        var rootStart, rootLength := header.rootDirOffset, header.rootDirLength;
        if !InRange(data, rootStart, rootLength) then Err(SliceOutOfRange(rootStart + rootLength))
        else
          match ParseCompressedOf(gunzip, RootDirectoryBytes(data, header))
          case Err(e) => Err(InvalidRootDirectory(e))
          case Ok(root) =>
            var metadataStart, metadataLength := header.metadataOffset, header.metadataLength;
            if !InRange(data, metadataStart, metadataLength) then
              Err(SliceOutOfRange(metadataStart + metadataLength))
            else
              match parseMetadata(data[metadataStart .. metadataStart + metadataLength], header.tileType)
              case Err(message) => Err(InvalidMetadata(message))
              case Ok(metadata) => Ok(PMTiles(data, header, root, metadata))
  }

  /** What a successful parse keeps: its header is the first 127 bytes, read
      back exactly, and its root directory is well formed. */
  lemma ParsedArchive<M>(data: Mapping, gunzip: Gunzip, parseMetadata: MetadataParser<M>)
    requires ParseArchive(data, gunzip, parseMetadata).Ok?
    ensures H.HeaderBytes(ParseArchive(data, gunzip, parseMetadata).value.header) == data[..H.HEADER_SIZE]
    ensures WellFormed(ParseArchive(data, gunzip, parseMetadata).value.rootDirectory.entries)
  {
    var a := ParseArchive(data, gunzip, parseMetadata).value;
    H.ParsedHeaderBytes(data[..H.HEADER_SIZE]);
    assert data[..H.HEADER_SIZE][..H.HEADER_SIZE] == data[..H.HEADER_SIZE];
    ParsedWellFormed(gunzip(RootDirectoryBytes(data, a.header)).value);
  }

  /** An archive laid out as the header says parses back: the header's bytes
      first, a root directory that decompresses to the bytes of a well-formed
      directory, and metadata the metadata parser accepts. */
  lemma ArchiveRoundTrip<M>(
    data: Mapping, gunzip: Gunzip, parseMetadata: MetadataParser<M>,
    header: H.Header, root: Directory, metadata: M)
    requires |data| >= H.HEADER_SIZE && data[..H.HEADER_SIZE] == H.HeaderBytes(header)
    requires InRange(data, header.rootDirOffset, header.rootDirLength)
    requires InRange(data, header.metadataOffset, header.metadataLength)
    requires WellFormed(root.entries) && |root.entries| < TWO_64
    requires gunzip(RootDirectoryBytes(data, header)) == Ok(DirectoryBytes(root))
    requires parseMetadata(data[header.metadataOffset .. header.metadataOffset + header.metadataLength],
                           header.tileType) == Ok(metadata)
    ensures ParseArchive(data, gunzip, parseMetadata) == Ok(PMTiles(data, header, root, metadata))
  {
    H.HeaderRoundTrip(header, []);
    assert H.HeaderBytes(header) + [] == data[..H.HEADER_SIZE];
    DirectoryRoundTrip(root);
    ParsedParts(data, gunzip, parseMetadata, header, root, metadata);
  }

  /** The three parsers succeeding on their ranges make the archive. */
  lemma ParsedParts<M>(
    data: Mapping, gunzip: Gunzip, parseMetadata: MetadataParser<M>,
    header: H.Header, root: Directory, metadata: M)
    requires |data| >= H.HEADER_SIZE && H.ParseHeader(data[..H.HEADER_SIZE]) == Ok(header)
    requires InRange(data, header.rootDirOffset, header.rootDirLength)
    requires InRange(data, header.metadataOffset, header.metadataLength)
    requires ParseCompressedOf(gunzip, RootDirectoryBytes(data, header)) == Ok(root)
    requires parseMetadata(data[header.metadataOffset .. header.metadataOffset + header.metadataLength],
                           header.tileType) == Ok(metadata)
    ensures ParseArchive(data, gunzip, parseMetadata) == Ok(PMTiles(data, header, root, metadata))
  {
  }

  // ---------------------------------------------------------------------
  // PMTiles::get

  /** What `get` does to the archive that can be seen: a tile's bytes read
      and printed, a leaf directory's bytes read, or a panic, which ends it. */
  datatype Event =
    | ReadTile(start: nat, end: nat)
    | ReadLeafDirectory(start: nat, end: nat)
    | Panicked(message: string)

  /** Reading and printing `&data[start .. start + length]`. */
  function TileEvent(data: Mapping, start: nat, length: nat): (e: Event)
    ensures e == ReadTile(start, start + length) <==> InRange(data, start, length)
    ensures e.Panicked? <==> !InRange(data, start, length)
  {
    if InRange(data, start, length) then ReadTile(start, start + length) else Panicked(SLICE_MESSAGE)
  }

  /** Where the `for_each` over the root entries stands: what it has read,
      the entry in `smallest_entry`, and whether it has stopped. In the source
      only a panic stops it; `returnFromGet` models instead the evident intent
      of the closure's `return`, that an exact match ends `get`. */
  datatype Scan = Scan(events: seq<Event>, floor: Option<DirectoryEntry>, done: bool)

  /** One turn of the closure on `entry`: an exact match with a non-zero run
      length reads the entry's range as an absolute offset into the archive;
      an entry below the target becomes the floor; an entry above is passed. */
  function ScanEntry(data: Mapping, entry: DirectoryEntry, target: nat, s: Scan, returnFromGet: bool): (t: Scan)
    ensures |t.events| <= |s.events| + 1
  {
    if entry.tileId.value == target then
      if entry.runLength == 0 then Scan(s.events, s.floor, returnFromGet)
      else
        var e := TileEvent(data, entry.offset, entry.length);
        Scan(s.events + [e], s.floor, returnFromGet || e.Panicked?)
    else if target < entry.tileId.value then s
    else Scan(s.events, Some(entry), false)
  }

  /** The scan after the first n root entries. */
  function RootScan(data: Mapping, entries: seq<DirectoryEntry>, target: nat, n: nat, returnFromGet: bool): (s: Scan)
    requires n <= |entries|
    ensures s.done ==> |s.events| > 0 || returnFromGet
    decreases n
  {
    if n == 0 then Scan([], None, false)
    else
      var s := RootScan(data, entries, target, n - 1, returnFromGet);
      if s.done then s else ScanEntry(data, entries[n - 1], target, s, returnFromGet)
  }

  /** The `for_each` over the leaf entries after the first n: each entry
      whose tile id is the target is read; a panic ends it. */
  function LeafEvents(data: Mapping, entries: seq<DirectoryEntry>, target: nat, n: nat): (events: seq<Event>)
    requires n <= |entries|
    decreases n
  {
    if n == 0 then []
    else
      var events := LeafEvents(data, entries, target, n - 1);
      if Stopped(events) then events
      else if entries[n - 1].tileId.value == target then
        events + [TileEvent(data, entries[n - 1].offset, entries[n - 1].length)]
      else events
  }

  predicate Stopped(events: seq<Event>)
  {
    |events| > 0 && events[|events| - 1].Panicked?
  }

  /** The `match smallest_entry`: a floor entry with a run length reads its
      range; one without points at a leaf directory at `leaf_dirs_offset` plus
      its offset, which is read, decompressed, parsed and scanned for the
      target, without looking further down. */
  function FloorEvents<M>(a: PMTiles<M>, target: nat, floor: Option<DirectoryEntry>, gunzip: Gunzip)
    : (events: seq<Event>)
  {
    match floor
    case None => []
    case Some(entry) =>
      if entry.runLength >= 1 then [TileEvent(a.data, entry.offset, entry.length)]
      else if a.header.leafDirsOffset + entry.offset >= TWO_64 then [Panicked(OVERFLOW_MESSAGE)]
      else
        var start := a.header.leafDirsOffset + entry.offset;
        if !InRange(a.data, start, entry.length) then [Panicked(SLICE_MESSAGE)]
        else
          [ReadLeafDirectory(start, start + entry.length)] +
          LeafDirectoryEvents(a.data, target, ParseCompressedOf(gunzip, a.data[start .. start + entry.length]))
  }

  /** After a leaf directory is read: a parse that panics itself (the entry
      count's `expect`, an overflowing tile id) ends `get` with its own panic;
      one that returns an error meets the `expect("leaf directory")`; a leaf
      that parses is scanned. */
  function LeafDirectoryEvents(data: Mapping, target: nat, leaf: Result<Directory, DirectoryError>): (events: seq<Event>)
  {
    match leaf
    case Err(Panic(message)) => [Panicked(message)]
    case Err(_) => [Panicked(LEAF_MESSAGE)]
    case Ok(directory) => LeafEvents(data, directory.entries, target, |directory.entries|)
  }

  /** Everything `get` reads for the tile id `target`: the root scan, then,
      unless it stopped, the floor entry's branch. */
  function GetEvents<M>(a: PMTiles<M>, target: nat, gunzip: Gunzip, returnFromGet: bool): (events: seq<Event>)
  {
    var entries := a.rootDirectory.entries;
    var s := RootScan(a.data, entries, target, |entries|, returnFromGet);
    if s.done then s.events else s.events + FloorEvents(a, target, s.floor, gunzip)
  }

  // ---------------------------------------------------------------------
  // What the scans promise

  /** Once stopped, the root scan stays as it is. */
  lemma {:induction false} RootScanDone(data: Mapping, entries: seq<DirectoryEntry>, target: nat, i: nat, n: nat, returnFromGet: bool)
    requires i <= n <= |entries| && RootScan(data, entries, target, i, returnFromGet).done
    ensures RootScan(data, entries, target, n, returnFromGet) == RootScan(data, entries, target, i, returnFromGet)
    decreases n
  {
    if i < n {
      RootScanDone(data, entries, target, i, n - 1, returnFromGet);
    }
  }

  /** Once a panic is read, the leaf scan stays as it is. */
  lemma {:induction false} LeafEventsStopped(data: Mapping, entries: seq<DirectoryEntry>, target: nat, i: nat, n: nat)
    requires i <= n <= |entries| && Stopped(LeafEvents(data, entries, target, i))
    ensures LeafEvents(data, entries, target, n) == LeafEvents(data, entries, target, i)
    decreases n
  {
    if i < n {
      LeafEventsStopped(data, entries, target, i, n - 1);
    }
  }

  /** The floor is the last entry below the target, in the order of the
      entries: none when no entry lies below it. */
  lemma {:induction false} FloorIsLastBelow(data: Mapping, entries: seq<DirectoryEntry>, target: nat, n: nat, returnFromGet: bool)
    requires n <= |entries| && !RootScan(data, entries, target, n, returnFromGet).done
    ensures var floor := RootScan(data, entries, target, n, returnFromGet).floor;
      && (floor.None? <==> forall j | 0 <= j < n :: entries[j].tileId.value >= target)
      && (floor.Some? ==> exists j | 0 <= j < n ::
            && entries[j] == floor.value && entries[j].tileId.value < target
            && forall k | j < k < n :: entries[k].tileId.value >= target)
    decreases n
  {
    if n > 0 {
      var s := RootScan(data, entries, target, n - 1, returnFromGet);
      assert !s.done;
      FloorIsLastBelow(data, entries, target, n - 1, returnFromGet);
      var floor := RootScan(data, entries, target, n, returnFromGet).floor;
      if entries[n - 1].tileId.value < target {
        assert floor == Some(entries[n - 1]);
      } else if s.floor.Some? {
        var j :| 0 <= j < n - 1 && entries[j] == s.floor.value && entries[j].tileId.value < target
                 && forall k | j < k < n - 1 :: entries[k].tileId.value >= target;
        assert forall k | j < k < n :: entries[k].tileId.value >= target;
      }
    }
  }

  /** In a well-formed directory, whose tile ids never decrease, the floor is
      the entry with the greatest tile id below the target. */
  lemma FloorIsGreatestBelow(data: Mapping, entries: seq<DirectoryEntry>, target: nat, returnFromGet: bool)
    requires WellFormed(entries)
    requires var s := RootScan(data, entries, target, |entries|, returnFromGet); !s.done && s.floor.Some?
    ensures var floor := RootScan(data, entries, target, |entries|, returnFromGet).floor.value;
      && floor in entries && floor.tileId.value < target
      && forall k | 0 <= k < |entries| && entries[k].tileId.value < target :: entries[k].tileId.value <= floor.tileId.value
  {
    var n := |entries|;
    FloorIsLastBelow(data, entries, target, n, returnFromGet);
    var floor := RootScan(data, entries, target, n, returnFromGet).floor.value;
    var j :| 0 <= j < n && entries[j] == floor && entries[j].tileId.value < target
             && forall k | j < k < n :: entries[k].tileId.value >= target;
    forall k | 0 <= k < n && entries[k].tileId.value < target
      ensures entries[k].tileId.value <= floor.tileId.value
    {
      TileIdsNonDecreasing(entries, k, j);
    }
  }

  /** The range of `entry` is read. */
  predicate ReadsEntry(e: Event, entry: DirectoryEntry)
  {
    e == ReadTile(entry.offset, entry.offset + entry.length)
  }

  /** `e` reads the range of one of the first n entries whose tile id is the
      target (and, when `rooted`, whose run length is not zero). */
  predicate ReadsMatch(e: Event, entries: seq<DirectoryEntry>, target: nat, n: nat, rooted: bool)
    requires n <= |entries|
  {
    exists j | 0 <= j < n ::
      && entries[j].tileId.value == target && (rooted ==> entries[j].runLength != 0)
      && ReadsEntry(e, entries[j])
  }

  /** Each of `events` reads a match, but for a last one that is the slice
      panic, when `panicked` allows it. */
  predicate ReadsOnlyMatches(events: seq<Event>, entries: seq<DirectoryEntry>, target: nat, n: nat, rooted: bool, panicked: bool)
    requires n <= |entries|
  {
    forall i | 0 <= i < |events| ::
      || ReadsMatch(events[i], entries, target, n, rooted)
      || (i == |events| - 1 && panicked && events[i] == Panicked(SLICE_MESSAGE))
  }

  /** A read of a match among fewer entries is one among more. */
  lemma ReadsMatchMore(e: Event, entries: seq<DirectoryEntry>, target: nat, m: nat, n: nat, rooted: bool)
    requires m <= n <= |entries| && ReadsMatch(e, entries, target, m, rooted)
    ensures ReadsMatch(e, entries, target, n, rooted)
  {
    var j :| 0 <= j < m && entries[j].tileId.value == target && (rooted ==> entries[j].runLength != 0)
             && ReadsEntry(e, entries[j]);
  }

  /** The root scan reads only exact matches with a non-zero run length:
      each event is the range of such an entry, or the panic that ends it. */
  lemma {:induction false} RootScanReadsMatches(data: Mapping, entries: seq<DirectoryEntry>, target: nat, n: nat, returnFromGet: bool)
    requires n <= |entries|
    ensures var s := RootScan(data, entries, target, n, returnFromGet);
      ReadsOnlyMatches(s.events, entries, target, n, true, s.done)
    decreases n
  {
    if n > 0 {
      RootScanReadsMatches(data, entries, target, n - 1, returnFromGet);
      var prev := RootScan(data, entries, target, n - 1, returnFromGet);
      var s := RootScan(data, entries, target, n, returnFromGet);
      var entry := entries[n - 1];
      forall i | 0 <= i < |s.events|
        ensures || ReadsMatch(s.events[i], entries, target, n, true)
                || (i == |s.events| - 1 && s.done && s.events[i] == Panicked(SLICE_MESSAGE))
      {
        if i < |prev.events| {
          assert s.events[i] == prev.events[i];
          if ReadsMatch(prev.events[i], entries, target, n - 1, true) {
            ReadsMatchMore(prev.events[i], entries, target, n - 1, n, true);
          }
        } else if InRange(data, entry.offset, entry.length) {
          assert ReadsEntry(s.events[i], entries[n - 1]);
        }
      }
    }
  }

  /** The leaf scan reads only leaf entries whose tile id is the target, and
      never another directory. */
  lemma {:induction false} LeafReadsMatches(data: Mapping, entries: seq<DirectoryEntry>, target: nat, n: nat)
    requires n <= |entries|
    ensures ReadsOnlyMatches(LeafEvents(data, entries, target, n), entries, target, n, false, true)
    decreases n
  {
    if n > 0 {
      LeafReadsMatches(data, entries, target, n - 1);
      var prev := LeafEvents(data, entries, target, n - 1);
      var events := LeafEvents(data, entries, target, n);
      var entry := entries[n - 1];
      forall i | 0 <= i < |events|
        ensures || ReadsMatch(events[i], entries, target, n, false)
                || (i == |events| - 1 && events[i] == Panicked(SLICE_MESSAGE))
      {
        if i < |prev| {
          assert events[i] == prev[i];
          if ReadsMatch(prev[i], entries, target, n - 1, false) {
            ReadsMatchMore(prev[i], entries, target, n - 1, n, false);
          }
        } else if InRange(data, entry.offset, entry.length) {
          assert ReadsEntry(events[i], entries[n - 1]);
        }
      }
    }
  }

  /** With no entry at or below the target, `get` reads nothing: "not found". */
  lemma NothingBelowReadsNothing<M>(a: PMTiles<M>, target: nat, gunzip: Gunzip, returnFromGet: bool)
    requires forall j | 0 <= j < |a.rootDirectory.entries| :: a.rootDirectory.entries[j].tileId.value > target
    ensures GetEvents(a, target, gunzip, returnFromGet) == []
  {
    var entries := a.rootDirectory.entries;
    NoneBelowScan(a.data, entries, target, |entries|, returnFromGet);
  }

  lemma {:induction false} NoneBelowScan(data: Mapping, entries: seq<DirectoryEntry>, target: nat, n: nat, returnFromGet: bool)
    requires n <= |entries|
    requires forall j | 0 <= j < n :: entries[j].tileId.value > target
    ensures RootScan(data, entries, target, n, returnFromGet) == Scan([], None, false)
    decreases n
  {
    if n > 0 {
      NoneBelowScan(data, entries, target, n - 1, returnFromGet);
    }
  }

  // ---------------------------------------------------------------------
  // What the scans read: every match, up to the first panic

  /** The reference for both scans: in the order of the first n entries, the
      read of every entry whose tile id is the target (and, when `rooted`,
      whose run length is not zero), panics included and nothing stopping. */
  function MatchReads(data: Mapping, entries: seq<DirectoryEntry>, target: nat, n: nat, rooted: bool): (matched: seq<Event>)
    requires n <= |entries|
    decreases n
  {
    if n == 0 then []
    else
      var entry := entries[n - 1];
      MatchReads(data, entries, target, n - 1, rooted) +
      if entry.tileId.value == target && (rooted ==> entry.runLength != 0)
      then [TileEvent(data, entry.offset, entry.length)] else []
  }

  /** Every match among the first n entries is read by the reference. */
  lemma {:induction false} MatchReadsHasMatch(data: Mapping, entries: seq<DirectoryEntry>, target: nat, n: nat, rooted: bool, j: nat)
    requires j < n <= |entries|
    requires entries[j].tileId.value == target && (rooted ==> entries[j].runLength != 0)
    ensures TileEvent(data, entries[j].offset, entries[j].length) in MatchReads(data, entries, target, n, rooted)
    decreases n
  {
    if j < n - 1 {
      MatchReadsHasMatch(data, entries, target, n - 1, rooted, j);
    }
  }

  /** All matches in range: a match never panics. */
  predicate MatchesInRange(data: Mapping, entries: seq<DirectoryEntry>, target: nat, rooted: bool)
  {
    forall j | 0 <= j < |entries| && entries[j].tileId.value == target && (rooted ==> entries[j].runLength != 0) ::
      InRange(data, entries[j].offset, entries[j].length)
  }

  /** The leaf scan reads the reference's events up to and including its
      first panic: it is a prefix of them, and stops short only at a panic. */
  lemma {:induction false} LeafEventsPrefix(data: Mapping, entries: seq<DirectoryEntry>, target: nat, n: nat)
    requires n <= |entries|
    ensures var events, matched := LeafEvents(data, entries, target, n), MatchReads(data, entries, target, n, false);
      events <= matched && (|events| < |matched| ==> Stopped(events))
    decreases n
  {
    if n > 0 {
      LeafEventsPrefix(data, entries, target, n - 1);
    }
  }

  /** With every match in range, the leaf scan reads every match, in order. */
  lemma {:induction false} LeafReadsAll(data: Mapping, entries: seq<DirectoryEntry>, target: nat, n: nat)
    requires n <= |entries| && MatchesInRange(data, entries, target, false)
    ensures LeafEvents(data, entries, target, n) == MatchReads(data, entries, target, n, false)
    ensures !Stopped(LeafEvents(data, entries, target, n))
    decreases n
  {
    if n > 0 {
      LeafReadsAll(data, entries, target, n - 1);
    }
  }

  /** The root scan of `get` as written reads the reference's events up to
      and including its first panic, and stops only there. */
  lemma {:induction false} RootScanPrefix(data: Mapping, entries: seq<DirectoryEntry>, target: nat, n: nat)
    requires n <= |entries|
    ensures var s, matched := RootScan(data, entries, target, n, false), MatchReads(data, entries, target, n, true);
      && s.events <= matched
      && (s.done <==> Stopped(s.events))
      && (|s.events| < |matched| ==> s.done)
    decreases n
  {
    if n > 0 {
      RootScanPrefix(data, entries, target, n - 1);
    }
  }

  /** With every exact match in range, `get` as written reads every exact
      match with a run length, in order, and then takes the floor's branch. */
  lemma GetReadsEveryMatch<M>(a: PMTiles<M>, target: nat, gunzip: Gunzip)
    requires MatchesInRange(a.data, a.rootDirectory.entries, target, true)
    ensures var entries := a.rootDirectory.entries;
      GetEvents(a, target, gunzip, false) ==
        MatchReads(a.data, entries, target, |entries|, true) +
        FloorEvents(a, target, RootScan(a.data, entries, target, |entries|, false).floor, gunzip)
    ensures forall j | 0 <= j < |a.rootDirectory.entries| &&
                       a.rootDirectory.entries[j].tileId.value == target && a.rootDirectory.entries[j].runLength != 0 ::
              ReadTile(a.rootDirectory.entries[j].offset, a.rootDirectory.entries[j].offset + a.rootDirectory.entries[j].length)
                in GetEvents(a, target, gunzip, false)
  {
    var entries := a.rootDirectory.entries;
    var n := |entries|;
    RootReadsAll(a.data, entries, target, n);
    RootScanPrefix(a.data, entries, target, n);
    forall j | 0 <= j < n && entries[j].tileId.value == target && entries[j].runLength != 0
      ensures ReadTile(entries[j].offset, entries[j].offset + entries[j].length) in GetEvents(a, target, gunzip, false)
    {
      MatchReadsHasMatch(a.data, entries, target, n, true, j);
    }
  }

  /** With every exact match in range, the reference reads no panic. */
  lemma {:induction false} RootReadsAll(data: Mapping, entries: seq<DirectoryEntry>, target: nat, n: nat)
    requires n <= |entries| && MatchesInRange(data, entries, target, true)
    ensures !Stopped(RootScan(data, entries, target, n, false).events)
    ensures RootScan(data, entries, target, n, false).events == MatchReads(data, entries, target, n, true)
    decreases n
  {
    if n > 0 {
      RootReadsAll(data, entries, target, n - 1);
      RootScanPrefix(data, entries, target, n - 1);
    }
  }

  /** As intended, the first exact match in the root ends `get`: its range
      is read, and nothing else, unless its run length is zero. */
  lemma GetIntendedReadsMatch<M>(a: PMTiles<M>, target: nat, gunzip: Gunzip, j: nat)
    requires j < |a.rootDirectory.entries| && a.rootDirectory.entries[j].tileId.value == target
    requires forall i | 0 <= i < j :: a.rootDirectory.entries[i].tileId.value != target
    ensures var e := a.rootDirectory.entries[j];
      GetEvents(a, target, gunzip, true) == if e.runLength == 0 then [] else [TileEvent(a.data, e.offset, e.length)]
  {
    var entries := a.rootDirectory.entries;
    IntendedScanStopsAtMatch(a.data, entries, target, j);
    RootScanDone(a.data, entries, target, j + 1, |entries|, true);
  }

  /** Entry j is the last entry below the target, and none equals it. */
  predicate FloorAt(entries: seq<DirectoryEntry>, target: nat, j: nat)
  {
    && j < |entries| && entries[j].tileId.value < target
    && (forall k | j < k < |entries| :: entries[k].tileId.value > target)
    && (forall k | 0 <= k < |entries| :: entries[k].tileId.value != target)
  }

  /** Without an exact match, the scan reads nothing and ends on entry j. */
  lemma FloorScan(data: Mapping, entries: seq<DirectoryEntry>, target: nat, returnFromGet: bool, j: nat)
    requires FloorAt(entries, target, j)
    ensures RootScan(data, entries, target, |entries|, returnFromGet) == Scan([], Some(entries[j]), false)
  {
    NoMatchScan(data, entries, target, |entries|, returnFromGet);
    FloorIsLastBelow(data, entries, target, |entries|, returnFromGet);
  }

  lemma {:induction false} NoMatchScan(data: Mapping, entries: seq<DirectoryEntry>, target: nat, n: nat, returnFromGet: bool)
    requires n <= |entries|
    requires forall k | 0 <= k < n :: entries[k].tileId.value != target
    ensures RootScan(data, entries, target, n, returnFromGet).events == []
    ensures !RootScan(data, entries, target, n, returnFromGet).done
    decreases n
  {
    if n > 0 {
      NoMatchScan(data, entries, target, n - 1, returnFromGet);
    }
  }

  /** Without an exact match, a floor entry with a run length is the tile:
      `get` reads its range and nothing else. */
  lemma GetReadsFloorTile<M>(a: PMTiles<M>, target: nat, gunzip: Gunzip, returnFromGet: bool, j: nat)
    requires FloorAt(a.rootDirectory.entries, target, j) && a.rootDirectory.entries[j].runLength >= 1
    ensures var e := a.rootDirectory.entries[j];
      GetEvents(a, target, gunzip, returnFromGet) == [TileEvent(a.data, e.offset, e.length)]
  {
    FloorScan(a.data, a.rootDirectory.entries, target, returnFromGet, j);
  }

  /** Without an exact match, a floor entry without a run length points at a
      leaf directory: `get` reads it and, once it parses and its matches are
      in range, reads every leaf entry with the target's tile id, in order. */
  lemma GetReadsLeafMatches<M>(a: PMTiles<M>, target: nat, gunzip: Gunzip, returnFromGet: bool, j: nat, leaf: Directory)
    requires FloorAt(a.rootDirectory.entries, target, j) && a.rootDirectory.entries[j].runLength == 0
    requires var e := a.rootDirectory.entries[j]; var start := a.header.leafDirsOffset + e.offset;
      && start < TWO_64 && InRange(a.data, start, e.length)
      && ParseCompressedOf(gunzip, a.data[start .. start + e.length]) == Ok(leaf)
    requires MatchesInRange(a.data, leaf.entries, target, false)
    ensures var e := a.rootDirectory.entries[j]; var start := a.header.leafDirsOffset + e.offset;
      GetEvents(a, target, gunzip, returnFromGet) ==
        [ReadLeafDirectory(start, start + e.length)] + MatchReads(a.data, leaf.entries, target, |leaf.entries|, false)
  {
    var e := a.rootDirectory.entries[j];
    var start := a.header.leafDirsOffset + e.offset;
    FloorScan(a.data, a.rootDirectory.entries, target, returnFromGet, j);
    LeafFloorMatches(a, target, e, gunzip, start, a.data[start .. start + e.length], leaf);
  }

  lemma LeafFloorMatches<M>(a: PMTiles<M>, target: nat, entry: DirectoryEntry, gunzip: Gunzip, start: nat,
                            bytes: seq<Byte>, leaf: Directory)
    requires entry.runLength == 0 && start == a.header.leafDirsOffset + entry.offset < TWO_64
    requires InRange(a.data, start, entry.length) && bytes == a.data[start .. start + entry.length]
    requires ParseCompressedOf(gunzip, bytes) == Ok(leaf) && MatchesInRange(a.data, leaf.entries, target, false)
    ensures FloorEvents(a, target, Some(entry), gunzip) ==
      [ReadLeafDirectory(start, start + entry.length)] + MatchReads(a.data, leaf.entries, target, |leaf.entries|, false)
  {
    LeafFloor(a, target, entry, gunzip, start, bytes);
    LeafReadsAll(a.data, leaf.entries, target, |leaf.entries|);
  }

  /** The floor's branch for a leaf directory that is read. */
  lemma LeafFloor<M>(a: PMTiles<M>, target: nat, entry: DirectoryEntry, gunzip: Gunzip, start: nat, bytes: seq<Byte>)
    requires entry.runLength == 0 && start == a.header.leafDirsOffset + entry.offset < TWO_64
    requires InRange(a.data, start, entry.length) && bytes == a.data[start .. start + entry.length]
    ensures FloorEvents(a, target, Some(entry), gunzip) ==
      [ReadLeafDirectory(start, start + entry.length)] + LeafDirectoryEvents(a.data, target, ParseCompressedOf(gunzip, bytes))
  {
  }

  /** A leaf directory whose entry count is not a varint panics inside
      `Directory::parse`, with the count's own message, before the
      `expect("leaf directory")` is reached. */
  lemma LeafCountPanics<M>(a: PMTiles<M>, target: nat, gunzip: Gunzip, returnFromGet: bool, j: nat, raw: seq<Byte>)
    requires FloorAt(a.rootDirectory.entries, target, j) && a.rootDirectory.entries[j].runLength == 0
    requires var e := a.rootDirectory.entries[j]; var start := a.header.leafDirsOffset + e.offset;
      && start < TWO_64 && InRange(a.data, start, e.length)
      && gunzip(a.data[start .. start + e.length]) == Ok(raw)
    requires Protobufs.VarintOf(raw).Err?
    ensures var e := a.rootDirectory.entries[j]; var start := a.header.leafDirsOffset + e.offset;
      GetEvents(a, target, gunzip, returnFromGet) == [ReadLeafDirectory(start, start + e.length), Panicked(COUNT_MESSAGE)]
  {
    var e := a.rootDirectory.entries[j];
    var start := a.header.leafDirsOffset + e.offset;
    var bytes := a.data[start .. start + e.length];
    FloorScan(a.data, a.rootDirectory.entries, target, returnFromGet, j);
    LeafFloor(a, target, e, gunzip, start, bytes);
    assert ParseCompressedOf(gunzip, bytes) == Err(Panic(COUNT_MESSAGE));
    assert GetEvents(a, target, gunzip, returnFromGet) == FloorEvents(a, target, Some(e), gunzip);
  }

  // ---------------------------------------------------------------------
  // The exact match that does not end `get`

  /** Without an exact match in the root directory, the `return` is never
      reached, and `get` as written and as intended do the same. */
  lemma {:induction false} SameScanWithoutMatch(data: Mapping, entries: seq<DirectoryEntry>, target: nat, n: nat)
    requires n <= |entries|
    requires forall j | 0 <= j < n :: entries[j].tileId.value != target
    ensures RootScan(data, entries, target, n, false) == RootScan(data, entries, target, n, true)
    ensures !RootScan(data, entries, target, n, false).done
    decreases n
  {
    if n > 0 {
      SameScanWithoutMatch(data, entries, target, n - 1);
    }
  }

  lemma SameEventsWithoutMatch<M>(a: PMTiles<M>, target: nat, gunzip: Gunzip)
    requires forall j | 0 <= j < |a.rootDirectory.entries| :: a.rootDirectory.entries[j].tileId.value != target
    ensures GetEvents(a, target, gunzip, false) == GetEvents(a, target, gunzip, true)
  {
    SameScanWithoutMatch(a.data, a.rootDirectory.entries, target, |a.rootDirectory.entries|);
  }

  /** As intended, an exact match in the root ends the lookup: nothing was
      read before it, and at most its own range is read. */
  lemma {:induction false} IntendedScanStopsAtMatch(data: Mapping, entries: seq<DirectoryEntry>, target: nat, n: nat)
    requires n <= |entries|
    ensures var s := RootScan(data, entries, target, n, true);
      && |s.events| <= 1
      && (s.done <==> exists j | 0 <= j < n :: entries[j].tileId.value == target)
      && (!s.done ==> s.events == [])
    decreases n
  {
    if n > 0 {
      IntendedScanStopsAtMatch(data, entries, target, n - 1);
    }
  }

  /** So `get` as intended reads at most one range when the root holds the
      tile id, and never a leaf directory. */
  lemma IntendedGetReadsOnce<M>(a: PMTiles<M>, target: nat, gunzip: Gunzip)
    requires exists j | 0 <= j < |a.rootDirectory.entries| :: a.rootDirectory.entries[j].tileId.value == target
    ensures |GetEvents(a, target, gunzip, true)| <= 1
    ensures forall e | e in GetEvents(a, target, gunzip, true) :: !e.ReadLeafDirectory?
  {
    var entries := a.rootDirectory.entries;
    IntendedScanStopsAtMatch(a.data, entries, target, |entries|);
    RootScanReadsMatches(a.data, entries, target, |entries|, true);
  }

  /** Two tiles stored one after the other, the second looked up: as written,
      `get` reads the second tile, then, the first being the last entry below
      it, the first tile too. */
  const EXAMPLE_ENTRIES: seq<DirectoryEntry> := [
    DirectoryEntry(1, TileId(1), 1, 5, 0),
    DirectoryEntry(1, TileId(2), 1, 7, 5)
  ]

  lemma ExactMatchReadsFloorToo<M>(a: PMTiles<M>, gunzip: Gunzip)
    requires a.rootDirectory.entries == EXAMPLE_ENTRIES && |a.data| >= 12
    ensures GetEvents(a, 2, gunzip, false) == [ReadTile(5, 12), ReadTile(0, 5)]
    ensures GetEvents(a, 2, gunzip, true) == [ReadTile(5, 12)]
  {
    var s1 := RootScan(a.data, EXAMPLE_ENTRIES, 2, 1, false);
    assert s1 == Scan([], Some(EXAMPLE_ENTRIES[0]), false);
    var s2 := RootScan(a.data, EXAMPLE_ENTRIES, 2, 2, false);
    assert s2 == Scan([ReadTile(5, 12)], Some(EXAMPLE_ENTRIES[0]), false);
  }

  // ---------------------------------------------------------------------
  // The methods

  /** `for_each` over the leaf entries, after the leaf directory is parsed. */
  method ScanLeaf(data: Mapping, entries: seq<DirectoryEntry>, target: TileId) returns (events: seq<Event>)
    ensures events == LeafEvents(data, entries, target.value, |entries|)
  {
    events := [];
    for i := 0 to |entries|
      invariant events == LeafEvents(data, entries, target.value, i)
      invariant !Stopped(events)
    {
      var leafEntry := entries[i];
      if leafEntry.tileId.value == target.value {
        if !InRange(data, leafEntry.offset, leafEntry.length) {
          events := events + [Panicked(SLICE_MESSAGE)];
          LeafEventsStopped(data, entries, target.value, i + 1, |entries|);
          return;
        }
        events := events + [ReadTile(leafEntry.offset, leafEntry.offset + leafEntry.length)];
      }
    }
  }

  /** The `match smallest_entry` of `get`. */
  method ReadFloor<M>(a: PMTiles<M>, target: TileId, smallestEntry: Option<DirectoryEntry>, gunzip: Gunzip)
    returns (events: seq<Event>)
    ensures events == FloorEvents(a, target.value, smallestEntry, gunzip)
  {
    match smallestEntry
    case None =>
      events := [];
    case Some(entry) =>
      if entry.runLength >= 1 {
        if !InRange(a.data, entry.offset, entry.length) {
          return [Panicked(SLICE_MESSAGE)];
        }
        events := [ReadTile(entry.offset, entry.offset + entry.length)];
      } else {
        if a.header.leafDirsOffset + entry.offset >= TWO_64 {
          return [Panicked(OVERFLOW_MESSAGE)];
        }
        var offset := a.header.leafDirsOffset + entry.offset;
        if !InRange(a.data, offset, entry.length) {
          return [Panicked(SLICE_MESSAGE)];
        }
        var leafData := a.data[offset .. offset + entry.length];
        events := [ReadLeafDirectory(offset, offset + entry.length)];
        var leaf := ParseCompressed(gunzip, leafData);
        if leaf.Err? {
          if leaf.error.Panic? {
            return events + [Panicked(leaf.error.message)];
          }
          return events + [Panicked(LEAF_MESSAGE)];
        }
        var leafEvents := ScanLeaf(a.data, leaf.value.entries, target);
        events := events + leafEvents;
      }
  }

  /** `PMTiles::get`: the tile id of (z, x, y), the `for_each` over the root
      entries, whose `return` leaves only the closure, then the floor entry. */
  method Get<M>(a: PMTiles<M>, z: nat, x: U32, y: U32, gunzip: Gunzip) returns (events: seq<Event>)
    requires z <= MAX_ZOOM && x < Pow2(z) && y < Pow2(z)
    ensures events == GetEvents(a, TileIdOf(z, x, y), gunzip, false)
  {
    var tileId := Encode(z, x, y);
    var entries := a.rootDirectory.entries;
    events := [];
    var smallestEntry: Option<DirectoryEntry> := None;
    for i := 0 to |entries|
      invariant RootScan(a.data, entries, tileId.value, i, false) == Scan(events, smallestEntry, false)
    {
      var entry := entries[i];
      if entry.tileId.value == tileId.value {
        if entry.runLength != 0 {
          if !InRange(a.data, entry.offset, entry.length) {
            events := events + [Panicked(SLICE_MESSAGE)];
            RootScanDone(a.data, entries, tileId.value, i + 1, |entries|, false);
            return;
          }
          events := events + [ReadTile(entry.offset, entry.offset + entry.length)];
        }
      } else if tileId.value < entry.tileId.value {
      } else if tileId.value > entry.tileId.value {
        smallestEntry := Some(entry);
      }
    }
    var floorEvents := ReadFloor(a, tileId, smallestEntry, gunzip);
    events := events + floorEvents;
  }

  /** `get` with the exact match ending the lookup, as the closure's
      `return` evidently intends. */
  method GetIntended<M>(a: PMTiles<M>, z: nat, x: U32, y: U32, gunzip: Gunzip) returns (events: seq<Event>)
    requires z <= MAX_ZOOM && x < Pow2(z) && y < Pow2(z)
    ensures events == GetEvents(a, TileIdOf(z, x, y), gunzip, true)
  {
    var tileId := Encode(z, x, y);
    var entries := a.rootDirectory.entries;
    var smallestEntry: Option<DirectoryEntry> := None;
    for i := 0 to |entries|
      invariant RootScan(a.data, entries, tileId.value, i, true) == Scan([], smallestEntry, false)
    {
      var entry := entries[i];
      if entry.tileId.value == tileId.value {
        events := [];
        if entry.runLength != 0 {
          events := [TileEvent(a.data, entry.offset, entry.length)];
        }
        RootScanDone(a.data, entries, tileId.value, i + 1, |entries|, true);
        return;
      } else if tileId.value > entry.tileId.value {
        smallestEntry := Some(entry);
      }
    }
    events := ReadFloor(a, tileId, smallestEntry, gunzip);
  }
}
