/**
 * Writing and range-reading one local PMTiles archive: `write_pmtiles_archive` and
 * `read_pmtiles_tile` of crates/genegis-tile/src/pmtiles.rs, the round trip that the dashboard
 * export samples after every write (crates/genegis-analysis/src/dashboard.rs).
 *
 * The compressor is a parameter.  An archive is its header fields followed by the bytes behind
 * the 127-byte header, addressed by absolute offsets.
 */
module PmTilesArchive {
  import opened Common
  import opened HilbertTileId
  import opened PmTilesDirectory

  const HEADER_BYTES: nat := 127
  const ROOT_DIRECTORY_LIMIT: nat := 16_384
  const MAX_RANGE_BYTES: nat := 0x100_0000

  datatype TileEntry = TileEntry(z: nat, x: nat, y: nat, bytes: Bytes)

  datatype Header = Header(rootOffset: nat, rootLength: nat, leafOffset: nat, leafLength: nat, tileOffset: nat,
                           tileLength: nat, compressed: bool, minZoom: nat, maxZoom: nat)

  datatype Archive = Archive(header: Header, body: Bytes)

  /** gzip: `unpack` undoes `pack`, and a packed stream is never empty. */
  datatype Codec = Codec(pack: Bytes -> Bytes, unpack: Bytes -> Option<Bytes>)

  ghost predicate Lossless(codec: Codec) {
    forall b: Bytes :: codec.unpack(codec.pack(b)) == Some(b) && codec.pack(b) != []
  }

  datatype Refusal = NoEntries | EmptyPayload | OutsideGrid | Duplicate

  datatype ReadError = Invalid | NotFound

  // ------------------------------------------------------------------ the writer

  /** A tile identity with its payload as stored. */
  type Stored = (nat, Bytes)

  function Encode(codec: Codec, compress: bool, bytes: Bytes): Bytes {
    if compress then codec.pack(bytes) else bytes
  }

  predicate Acceptable(e: TileEntry) {
    e.bytes != [] && e.z <= 31 && InGrid(e.z, e.x, e.y)
  }

  function StoredTile(codec: Codec, compress: bool, e: TileEntry): Stored
    requires Acceptable(e)
  {
    (TileId(e.z, e.x, e.y), Encode(codec, compress, e.bytes))
  }

  predicate SortedById(tiles: seq<Stored>) {
    forall i, j :: 0 <= i < j < |tiles| ==> tiles[i].0 <= tiles[j].0
  }

  /** Stable insertion behind equal identities. */
  function InsertById(tiles: seq<Stored>, t: Stored): (r: seq<Stored>)
    requires SortedById(tiles)
    ensures SortedById(r) && |r| == |tiles| + 1
    ensures forall u :: u in r <==> u in tiles || u == t
  {
    if tiles == [] || tiles[|tiles| - 1].0 <= t.0 then tiles + [t]
    else
      assert tiles == tiles[..|tiles| - 1] + [tiles[|tiles| - 1]];
      var r := InsertById(tiles[..|tiles| - 1], t);
      assert forall i :: 0 <= i < |r| ==> r[i] in r;
      r + [tiles[|tiles| - 1]]
  }

  function SortTiles(codec: Codec, compress: bool, entries: seq<TileEntry>): (r: seq<Stored>)
    requires forall k :: 0 <= k < |entries| ==> Acceptable(entries[k])
    ensures SortedById(r) && |r| == |entries|
  {
    if entries == [] then []
    else InsertById(SortTiles(codec, compress, entries[..|entries| - 1]),
                    StoredTile(codec, compress, entries[|entries| - 1]))
  }

  lemma {:induction false} SortKeepsTiles(codec: Codec, compress: bool, entries: seq<TileEntry>, t: Stored)
    requires forall k :: 0 <= k < |entries| ==> Acceptable(entries[k])
    ensures t in SortTiles(codec, compress, entries)
            <==> exists k :: 0 <= k < |entries| && StoredTile(codec, compress, entries[k]) == t
    decreases |entries|
  {
    hide StoredTile;
    if entries != [] {
      var init, last := entries[..|entries| - 1], entries[|entries| - 1];
      SortKeepsTiles(codec, compress, init, t);
      if exists k :: 0 <= k < |entries| && StoredTile(codec, compress, entries[k]) == t {
        var k :| 0 <= k < |entries| && StoredTile(codec, compress, entries[k]) == t;
        if k < |init| { assert init[k] == entries[k]; }
      }
      if t in SortTiles(codec, compress, init) {
        var k :| 0 <= k < |init| && StoredTile(codec, compress, init[k]) == t;
        assert StoredTile(codec, compress, entries[k]) == t;
      }
    }
  }

  ghost predicate AdjacentDuplicate(tiles: seq<Stored>) {
    exists i, j :: 0 <= i < j < |tiles| && j == i + 1 && tiles[i].0 == tiles[j].0
  }

  function Payloads(tiles: seq<Stored>): Bytes {
    if tiles == [] then [] else Payloads(tiles[..|tiles| - 1]) + tiles[|tiles| - 1].1
  }

  /** Clustered entries: each payload follows its predecessor's. */
  function DirectoryOf(tiles: seq<Stored>): (r: Directory)
    ensures |r| == |tiles|
  {
    if tiles == [] then []
    else
      var init, last := tiles[..|tiles| - 1], tiles[|tiles| - 1];
      DirectoryOf(init) + [DirectoryEntry(last.0, |Payloads(init)|, |last.1|, 1)]
  }

  function MinZoom(entries: seq<TileEntry>): nat
    requires entries != []
  {
    var z := entries[|entries| - 1].z;
    if |entries| == 1 then z else var m := MinZoom(entries[..|entries| - 1]); if z < m then z else m
  }

  function MaxZoom(entries: seq<TileEntry>): nat
    requires entries != []
  {
    var z := entries[|entries| - 1].z;
    if |entries| == 1 then z else var m := MaxZoom(entries[..|entries| - 1]); if m < z then z else m
  }

  predicate AllAcceptable(entries: seq<TileEntry>) {
    forall k :: 0 <= k < |entries| ==> Acceptable(entries[k])
  }

  /** Tile identities, sizes and offsets all fit in 64 bits. */
  predicate FitsMemory(tiles: seq<Stored>) {
    |tiles| < U64_MODULUS && |Payloads(tiles)| < U64_MODULUS
  }

  lemma {:induction false} DirectoryAt(tiles: seq<Stored>, k: nat)
    requires k < |tiles|
    ensures DirectoryOf(tiles)[k] == DirectoryEntry(tiles[k].0, |Payloads(tiles[..k])|, |tiles[k].1|, 1)
    ensures |Payloads(tiles[..k])| + |tiles[k].1| <= |Payloads(tiles)|
    ensures Payloads(tiles)[|Payloads(tiles[..k])|..|Payloads(tiles[..k])| + |tiles[k].1|] == tiles[k].1
    decreases |tiles|
  {
    var init := tiles[..|tiles| - 1];
    if k < |init| {
      DirectoryAt(init, k);
      assert init[..k] == tiles[..k];
    }
  }

  lemma {:induction false} AreaMonotone(a: nat, b: nat)
    requires a <= b
    ensures Area(a) <= Area(b)
    decreases b
  {
    if a < b {
      AreaMonotone(a, b - 1);
    }
  }

  lemma AreaOf32()
    ensures Area(32) == U64_MODULUS
  {
    assert Area(4) == 256;
    assert Area(8) == 0x1_0000;
    assert Area(12) == 0x100_0000;
    assert Area(16) == 0x1_0000_0000;
    assert Area(20) == 0x100_0000_0000;
    assert Area(24) == 0x1_0000_0000_0000;
    assert Area(28) == 0x100_0000_0000_0000;
  }

  lemma TileIdsFit(z: nat, x: nat, y: nat)
    requires z <= 31 && InGrid(z, x, y)
    ensures TileId(z, x, y) < U64_MODULUS
  {
    hide Distance;
    BaseClosedForm(z + 1);
    AreaMonotone(z + 1, 32);
    AreaOf32();
  }

  /** Ascending identities without adjacent duplicates are strictly ascending. */
  lemma {:induction false} NoDuplicatesAscend(tiles: seq<Stored>, i: nat, j: nat)
    requires SortedById(tiles) && !AdjacentDuplicate(tiles) && i < j < |tiles|
    ensures tiles[i].0 < tiles[j].0
  {
    assert tiles[j - 1].0 != tiles[j].0;
  }

  predicate StoredSane(tiles: seq<Stored>) {
    forall k :: 0 <= k < |tiles| ==> tiles[k].0 < U64_MODULUS && tiles[k].1 != []
  }

  lemma DirectoryWritable(tiles: seq<Stored>)
    requires SortedById(tiles) && !AdjacentDuplicate(tiles) && FitsMemory(tiles) && StoredSane(tiles)
    ensures Writable(DirectoryOf(tiles)) && StrictlyAscending(DirectoryOf(tiles))
  {
    hide Payloads, DirectoryOf;
    forall k | 0 <= k < |tiles| {
      DirectoryAt(tiles, k);
    }
    forall i, j | 0 <= i < j < |tiles| ensures DirectoryOf(tiles)[i].tileId < DirectoryOf(tiles)[j].tileId {
      NoDuplicatesAscend(tiles, i, j);
    }
  }

  lemma SortedSane(codec: Codec, compress: bool, entries: seq<TileEntry>)
    requires AllAcceptable(entries) && Lossless(codec)
    ensures StoredSane(SortTiles(codec, compress, entries))
  {
    hide TileId;
    var tiles := SortTiles(codec, compress, entries);
    forall k | 0 <= k < |tiles| ensures tiles[k].0 < U64_MODULUS && tiles[k].1 != [] {
      assert tiles[k] in tiles;
      SortKeepsTiles(codec, compress, entries, tiles[k]);
      var i :| 0 <= i < |entries| && StoredTile(codec, compress, entries[i]) == tiles[k];
      TileIdsFit(entries[i].z, entries[i].x, entries[i].y);
    }
  }

  /** The root directory as stored. */
  function RootBytes(codec: Codec, tiles: seq<Stored>): Bytes
    requires Writable(DirectoryOf(tiles))
  {
    codec.pack(EncodeDirectory(DirectoryOf(tiles)))
  }

  function Assembled(codec: Codec, compress: bool, entries: seq<TileEntry>, tiles: seq<Stored>,
                     metadata: Bytes): Archive
    requires entries != [] && Writable(DirectoryOf(tiles))
  {
    var root, packedMetadata, data := RootBytes(codec, tiles), codec.pack(metadata), Payloads(tiles);
    Archive(Header(HEADER_BYTES, |root|, 0, 0, HEADER_BYTES + |root| + |packedMetadata|, |data|, compress,
                   MinZoom(entries), MaxZoom(entries)),
            root + packedMetadata + data)
  }

  /** The refusal names what is wrong with the first entry that is not acceptable. */
  ghost predicate FirstRefused(entries: seq<TileEntry>, refusal: Refusal) {
    exists k :: 0 <= k < |entries| && AllAcceptable(entries[..k]) && !Acceptable(entries[k])
                && refusal == if entries[k].bytes == [] then EmptyPayload else OutsideGrid
  }

  lemma NothingSorted(codec: Codec, compress: bool)
    ensures SortTiles(codec, compress, []) == []
  {}

  lemma AcceptableIs(e: TileEntry)
    ensures Acceptable(e) <==> e.bytes != [] && e.z <= 31 && InGrid(e.z, e.x, e.y)
  {}

  lemma {:induction false} SortOneMore(codec: Codec, compress: bool, entries: seq<TileEntry>, k: nat)
    requires k < |entries| && AllAcceptable(entries[..k]) && Acceptable(entries[k])
    ensures AllAcceptable(entries[..k + 1])
    ensures SortTiles(codec, compress, entries[..k + 1])
            == InsertById(SortTiles(codec, compress, entries[..k]),
                          (TileId(entries[k].z, entries[k].x, entries[k].y), Encode(codec, compress, entries[k].bytes)))
  {
    hide TileId, Encode, InsertById, InGrid;
    assert entries[..k + 1][..k] == entries[..k];
  }

  // ------------------------------------------------------------------ duplicates

  function Ids(tiles: seq<Stored>): (r: seq<nat>)
    ensures |r| == |tiles| && forall k :: 0 <= k < |tiles| ==> r[k] == tiles[k].0
  {
    seq(|tiles|, k requires 0 <= k < |tiles| => tiles[k].0)
  }

  function EntryIds(entries: seq<TileEntry>): (r: seq<nat>)
    requires AllAcceptable(entries)
    ensures |r| == |entries|
    ensures forall k :: 0 <= k < |entries| ==> r[k] == TileId(entries[k].z, entries[k].x, entries[k].y)
  {
    seq(|entries|, k requires 0 <= k < |entries| => TileId(entries[k].z, entries[k].x, entries[k].y))
  }

  lemma IdsOfOneMore(tiles: seq<Stored>, t: Stored)
    ensures Ids(tiles + [t]) == Ids(tiles) + [t.0]
  {}

  lemma {:induction false} InsertKeepsIds(tiles: seq<Stored>, t: Stored)
    requires SortedById(tiles)
    ensures multiset(Ids(InsertById(tiles, t))) == multiset(Ids(tiles)) + multiset{t.0}
    decreases |tiles|
  {
    hide Ids;
    if tiles == [] || tiles[|tiles| - 1].0 <= t.0 {
      IdsOfOneMore(tiles, t);
    } else {
      var init, last := tiles[..|tiles| - 1], tiles[|tiles| - 1];
      assert tiles == init + [last];
      InsertKeepsIds(init, t);
      IdsOfOneMore(InsertById(init, t), last);
      IdsOfOneMore(init, last);
    }
  }

  lemma {:induction false} SortKeepsIds(codec: Codec, compress: bool, entries: seq<TileEntry>)
    requires AllAcceptable(entries)
    ensures multiset(Ids(SortTiles(codec, compress, entries))) == multiset(EntryIds(entries))
    decreases |entries|
  {
    hide InsertById, TileId, Encode, InGrid;
    if entries != [] {
      var k := |entries| - 1;
      assert entries[..k + 1] == entries;
      SortKeepsIds(codec, compress, entries[..k]);
      SortOneMore(codec, compress, entries, k);
      var t := (TileId(entries[k].z, entries[k].x, entries[k].y), Encode(codec, compress, entries[k].bytes));
      InsertKeepsIds(SortTiles(codec, compress, entries[..k]), t);
      assert EntryIds(entries) == EntryIds(entries[..k]) + [t.0];
    }
  }

  predicate NoRepeat(s: seq<nat>) {
    forall i, j :: 0 <= i < j < |s| ==> s[i] != s[j]
  }

  lemma {:induction false} NoRepeatIffCounts(s: seq<nat>)
    ensures NoRepeat(s) <==> forall x: nat :: multiset(s)[x] <= 1
  {
    if s != [] {
      var init: seq<nat>, last: nat := s[..|s| - 1], s[|s| - 1];
      assert s == init + [last];
      NoRepeatIffCounts(init);
      assert multiset(s) == multiset(init) + multiset{last};
      assert NoRepeat(s) <==> NoRepeat(init) && last !in init;
      assert last in init <==> multiset(init)[last] >= 1;
      assert forall x: nat :: multiset(s)[x] == multiset(init)[x] + if x == last then 1 else 0;
    }
  }

  /** No two entries name the same tile. */
  predicate DistinctTiles(entries: seq<TileEntry>) {
    forall i, j :: 0 <= i < j < |entries| ==>
      (entries[i].z, entries[i].x, entries[i].y) != (entries[j].z, entries[j].x, entries[j].y)
  }

  /** In identity order equal neighbours betray every repetition. */
  lemma {:induction false} NeighboursBetray(tiles: seq<Stored>)
    requires SortedById(tiles)
    ensures AdjacentDuplicate(tiles) <==> !NoRepeat(Ids(tiles))
  {
    if !NoRepeat(Ids(tiles)) {
      var i, j :| 0 <= i < j < |tiles| && Ids(tiles)[i] == Ids(tiles)[j];
      assert tiles[i].0 <= tiles[i + 1].0 <= tiles[j].0;
    }
  }

  lemma {:induction false} SameIdSameTile(entries: seq<TileEntry>)
    requires AllAcceptable(entries)
    ensures NoRepeat(EntryIds(entries)) <==> DistinctTiles(entries)
  {
    hide TileId;
    forall i, j | 0 <= i < j < |entries| && EntryIds(entries)[i] == EntryIds(entries)[j]
      ensures (entries[i].z, entries[i].x, entries[i].y) == (entries[j].z, entries[j].x, entries[j].y)
    {
      TileIdInjective(entries[i].z, entries[i].x, entries[i].y, entries[j].z, entries[j].x, entries[j].y);
    }
  }

  /** Looking at neighbours in identity order finds exactly the write requests that name a tile twice. */
  lemma {:induction false} DuplicatesAreSameTile(codec: Codec, compress: bool, entries: seq<TileEntry>)
    requires AllAcceptable(entries)
    ensures AdjacentDuplicate(SortTiles(codec, compress, entries)) <==> !DistinctTiles(entries)
  {
    hide TileId, SortTiles, AdjacentDuplicate, Ids;
    NeighboursBetray(SortTiles(codec, compress, entries));
    SortKeepsIds(codec, compress, entries);
    NoRepeatIffCounts(Ids(SortTiles(codec, compress, entries)));
    NoRepeatIffCounts(EntryIds(entries));
    SameIdSameTile(entries);
  }

  /** The first loop: reject bad tiles, otherwise collect identities and stored payloads in order. */
  method IdentifyTiles(codec: Codec, compress: bool, entries: seq<TileEntry>) returns (r: Result<seq<Stored>, Refusal>)
    ensures r.Ok? <==> AllAcceptable(entries)
    ensures r.Ok? ==> r.value == SortTiles(codec, compress, entries)
    ensures r.Err? ==> FirstRefused(entries, r.error)
  {
    hide TileId, Encode, StoredTile, Acceptable, SortTiles, InsertById, InGrid;
    var sorted: seq<Stored> := [];
    NothingSorted(codec, compress);
    for k := 0 to |entries|
      invariant AllAcceptable(entries[..k])
      invariant sorted == SortTiles(codec, compress, entries[..k])
    {
      var e := entries[k];
      AcceptableIs(e);
      if |e.bytes| == 0 {
        return Err(EmptyPayload);
      }
      var tileId := ZxyToTileId(e.z, e.x, e.y);
      if tileId.None? {
        return Err(OutsideGrid);
      }
      SortOneMore(codec, compress, entries, k);
      sorted := InsertById(sorted, (tileId.value, Encode(codec, compress, e.bytes)));
    }
    assert entries[..|entries|] == entries;
    r := Ok(sorted);
  }

  /** The directory loop: running offset, one entry per tile, payloads appended in order. */
  method BuildDirectory(tiles: seq<Stored>) returns (directory: Directory, data: Bytes)
    ensures directory == DirectoryOf(tiles) && data == Payloads(tiles)
  {
    directory, data := [], [];
    var offset := 0;
    for k := 0 to |tiles|
      invariant directory == DirectoryOf(tiles[..k]) && data == Payloads(tiles[..k]) && offset == |data|
    {
      assert tiles[..k + 1][..k] == tiles[..k];
      var (tileId, encoded) := tiles[k];
      directory := directory + [DirectoryEntry(tileId, offset, |encoded|, 1)];
      data := data + encoded;
      offset := offset + |encoded|;
    }
    assert tiles[..|tiles|] == tiles;
  }

  method WriteArchive(codec: Codec, compress: bool, entries: seq<TileEntry>, metadata: Bytes)
    returns (r: Result<Archive, Refusal>)
    requires Lossless(codec)
    requires AllAcceptable(entries) ==> FitsMemory(SortTiles(codec, compress, entries))
    ensures r.Ok? <==> entries != [] && AllAcceptable(entries) && DistinctTiles(entries)
    ensures r.Err? ==>
      if entries == [] then r.error == NoEntries
      else if AllAcceptable(entries) then r.error == Duplicate
      else FirstRefused(entries, r.error)
    ensures r.Ok? ==>
      var tiles := SortTiles(codec, compress, entries);
      Writable(DirectoryOf(tiles)) && r.value == Assembled(codec, compress, entries, tiles, metadata)
  {
    hide SortTiles, Acceptable, Payloads, DirectoryOf, EncodeDirectory, Writable, FirstRefused, DistinctTiles;
    if |entries| == 0 {
      return Err(NoEntries);
    }
    var identified := IdentifyTiles(codec, compress, entries);
    if identified.Err? {
      return Err(identified.error);
    }
    var sorted := identified.value;
    DuplicatesAreSameTile(codec, compress, entries);
    if i :| 0 < i < |sorted| && sorted[i - 1].0 == sorted[i].0 {
      assert AdjacentDuplicate(sorted);
      return Err(Duplicate);
    }
    SortedSane(codec, compress, entries);
    DirectoryWritable(sorted);
    var directory, data := BuildDirectory(sorted);
    var encoded := WriteDirectory(directory);
    var root := codec.pack(encoded);
    var packedMetadata := codec.pack(metadata);
    var tileOffset := HEADER_BYTES + |root| + |packedMetadata|;
    r := Ok(Archive(Header(HEADER_BYTES, |root|, 0, 0, tileOffset, |data|, compress,
                           MinZoom(entries), MaxZoom(entries)),
                    root + packedMetadata + data));
  }

  // ------------------------------------------------------------------ the reader

  /** A byte range behind the header; None for an empty, oversized or overrunning range. */
  function ReadRange(archive: Archive, start: nat, length: nat): Option<Bytes> {
    if length == 0 || length > MAX_RANGE_BYTES || start < HEADER_BYTES
       || start + length > HEADER_BYTES + |archive.body| then None
    else Some(archive.body[start - HEADER_BYTES..start - HEADER_BYTES + length])
  }

  predicate Fits(offset: nat, length: nat, limit: nat) {
    offset + length < U64_MODULUS && offset + length <= limit
  }

  predicate ValidHeader(archive: Archive) {
    var h, size := archive.header, HEADER_BYTES + |archive.body|;
    && h.rootOffset >= HEADER_BYTES && Fits(h.rootOffset, h.rootLength, ROOT_DIRECTORY_LIMIT)
    && h.minZoom <= h.maxZoom
    && Fits(h.tileOffset, h.tileLength, size) && Fits(h.leafOffset, h.leafLength, size)
    && Fits(h.rootOffset, h.rootLength, size)
  }

  /** Unpacking stops at the decompression budget. */
  function Unpacked(codec: Codec, bytes: Bytes): Option<Bytes> {
    match codec.unpack(bytes)
    case None => None
    case Some(plain) => if |plain| > MAX_RANGE_BYTES then None else Some(plain)
  }

  function LoadDirectory(codec: Codec, archive: Archive, start: nat, length: nat): Option<Directory> {
    match ReadRange(archive, start, length)
    case None => None
    case Some(bytes) =>
      match Unpacked(codec, bytes)
      case None => None
      case Some(plain) => DecodeDirectory(plain)
  }

  function SelectTile(archive: Archive, e: DirectoryEntry, tileId: nat): Result<Bytes, ReadError> {
    if e.runLength == 0 || tileId < e.tileId || tileId >= e.tileId + e.runLength then Err(NotFound)
    else
      match ReadRange(archive, archive.header.tileOffset + e.offset, e.length)
      case None => Err(Invalid)
      case Some(bytes) => Ok(bytes)
  }

  /** Header, root directory, at most one leaf directory, then the tile's own range. */
  function ReadTile(codec: Codec, archive: Archive, z: nat, x: nat, y: nat): Result<Bytes, ReadError> {
    var h := archive.header;
    if !ValidHeader(archive) then Err(Invalid)
    else if z < h.minZoom || z > h.maxZoom || z > 31 || !InGrid(z, x, y) then Err(NotFound)
    else
      var tileId := TileId(z, x, y);
      match LoadDirectory(codec, archive, h.rootOffset, h.rootLength)
      case None => Err(Invalid)
      case Some(root) =>
        match FindEntry(root, tileId)
        case None => Err(NotFound)
        case Some(selected) =>
          if selected.runLength > 0 then SelectTile(archive, selected, tileId)
          else
            match LoadDirectory(codec, archive, h.leafOffset + selected.offset, selected.length)
            case None => Err(Invalid)
            case Some(leaf) =>
              match FindEntry(leaf, tileId)
              case None => Err(NotFound)
              case Some(e) => SelectTile(archive, e, tileId)
  }

  /** The payload a consumer gets: the stored range, unpacked when the header says so. */
  function ReadPayload(codec: Codec, archive: Archive, z: nat, x: nat, y: nat): Result<Bytes, ReadError> {
    match ReadTile(codec, archive, z, x, y)
    case Err(error) => Err(error)
    case Ok(bytes) =>
      if !archive.header.compressed then Ok(bytes)
      else
        match Unpacked(codec, bytes)
        case None => Err(Invalid)
        case Some(plain) => Ok(plain)
  }

  /** An entry answers for the run of identities it covers, with the bytes it points to. */
  lemma {:induction false} SelectedBytes(archive: Archive, e: DirectoryEntry, tileId: nat)
    ensures SelectTile(archive, e, tileId) == Err(NotFound) <==> !(e.tileId <= tileId < e.tileId + e.runLength)
    ensures e.tileId <= tileId < e.tileId + e.runLength ==>
      var at := archive.header.tileOffset + e.offset;
      SelectTile(archive, e, tileId)
      == if 127 <= at && 0 < e.length <= 16_777_216 && at + e.length <= 127 + |archive.body|
         then Ok(archive.body[at - 127..at - 127 + e.length]) else Err(Invalid)
  {}

  lemma SameCount(root: Directory, leaves: seq<Directory>)
    requires Heads(root, leaves)
    ensures |root| == |leaves|
  {}

  /**
   * Leaf directories: when every root entry points to a leaf that starts with its identity, the
   * reader answers as if the entries of all leaves stood in the root.
   */
  lemma {:induction false} ReadThroughLeaves(codec: Codec, archive: Archive, z: nat, x: nat, y: nat, root: Directory,
                                             leaves: seq<Directory>)
    requires ValidHeader(archive) && archive.header.minZoom <= z <= archive.header.maxZoom
    requires z <= 31 && InGrid(z, x, y)
    requires LoadDirectory(codec, archive, archive.header.rootOffset, archive.header.rootLength) == Some(root)
    requires Heads(root, leaves) && StrictlyAscending(AllLeaves(leaves))
    requires forall k :: 0 <= k < |root| ==>
      && root[k].runLength == 0
      && LoadDirectory(codec, archive, archive.header.leafOffset + root[k].offset, root[k].length) == Some(leaves[k])
    ensures var tileId := TileId(z, x, y);
            var found := FindEntry(AllLeaves(leaves), tileId);
            ReadTile(codec, archive, z, x, y)
            == if found.None? then Err(NotFound) else SelectTile(archive, found.value, tileId)
  {
    hide ValidHeader, LoadDirectory, FindEntry, AllLeaves, StrictlyAscending, SelectTile, TileId, Heads;
    var k := LeavesLookUpAsOne(root, leaves, TileId(z, x, y));
    SameCount(root, leaves);
  }

  // ------------------------------------------------------------------ the round trip

  /** The archive a successful write produces. */
  ghost predicate Written(codec: Codec, compress: bool, entries: seq<TileEntry>, metadata: Bytes, archive: Archive) {
    && Lossless(codec) && entries != [] && AllAcceptable(entries)
    && var tiles := SortTiles(codec, compress, entries);
       !AdjacentDuplicate(tiles) && FitsMemory(tiles) && Writable(DirectoryOf(tiles))
       && archive == Assembled(codec, compress, entries, tiles, metadata)
       && HEADER_BYTES + |archive.body| < U64_MODULUS
  }

  /** The directory is within the reader's limits, none of which the writer enforces. */
  predicate DirectoryReadable(codec: Codec, tiles: seq<Stored>)
    requires Writable(DirectoryOf(tiles))
  {
    && HEADER_BYTES + |RootBytes(codec, tiles)| <= ROOT_DIRECTORY_LIMIT
    && |EncodeDirectory(DirectoryOf(tiles))| <= MAX_RANGE_BYTES
    && |tiles| <= MAX_ENTRIES
  }

  predicate PayloadReadable(codec: Codec, compress: bool, e: TileEntry) {
    |Encode(codec, compress, e.bytes)| <= MAX_RANGE_BYTES && (compress ==> |e.bytes| <= MAX_RANGE_BYTES)
  }

  lemma {:induction false} ZoomsBound(entries: seq<TileEntry>, k: nat)
    requires k < |entries|
    ensures MinZoom(entries) <= entries[k].z <= MaxZoom(entries)
    decreases |entries|
  {
    if |entries| > 1 {
      ZoomsBound(entries[..|entries| - 1], if k < |entries| - 1 then k else 0);
    }
  }

  lemma {:induction false} ZoomsAttained(entries: seq<TileEntry>)
    requires entries != []
    ensures (exists e <- entries :: e.z == MinZoom(entries)) && (exists e <- entries :: e.z == MaxZoom(entries))
    decreases |entries|
  {
    assert entries == entries[..|entries| - 1] + [entries[|entries| - 1]];
    if |entries| > 1 {
      ZoomsAttained(entries[..|entries| - 1]);
    }
  }

  /**
   * What a written archive holds: behind the 127 bytes of the header the packed directory, the
   * packed metadata and the payloads; no leaf directories; the zooms of its tiles.
   */
  lemma {:induction false} ArchiveForm(codec: Codec, compress: bool, entries: seq<TileEntry>, metadata: Bytes,
                                       archive: Archive)
    requires Written(codec, compress, entries, metadata, archive)
    ensures var tiles, h := SortTiles(codec, compress, entries), archive.header;
            var root, packed := codec.pack(EncodeDirectory(DirectoryOf(tiles))), codec.pack(metadata);
            && archive.body == root + packed + Payloads(tiles)
            && h.rootOffset == 127 && h.rootLength == |root| && h.leafOffset == h.leafLength == 0
            && h.tileOffset == 127 + |root| + |packed| && h.tileLength == |Payloads(tiles)|
            && h.compressed == compress
    ensures forall e <- entries :: archive.header.minZoom <= e.z <= archive.header.maxZoom
    ensures exists e <- entries :: e.z == archive.header.minZoom
    ensures exists e <- entries :: e.z == archive.header.maxZoom
  {
    hide SortTiles, DirectoryOf, EncodeDirectory, Payloads, AdjacentDuplicate, Writable;
    ZoomsAttained(entries);
    forall e | e in entries ensures archive.header.minZoom <= e.z <= archive.header.maxZoom {
      var k :| 0 <= k < |entries| && entries[k] == e;
      ZoomsBound(entries, k);
    }
  }

  /** Every entry is stored once, under its identity, packed if the archive is, in ascending order. */
  lemma {:induction false} TilesStored(codec: Codec, compress: bool, entries: seq<TileEntry>)
    requires AllAcceptable(entries) && DistinctTiles(entries)
    ensures var tiles := SortTiles(codec, compress, entries);
            && |tiles| == |entries| && (forall i, j :: 0 <= i < j < |tiles| ==> tiles[i].0 < tiles[j].0)
            && forall e <- entries ::
                 (TileId(e.z, e.x, e.y), if compress then codec.pack(e.bytes) else e.bytes) in tiles
  {
    hide TileId, AdjacentDuplicate, DistinctTiles;
    var tiles := SortTiles(codec, compress, entries);
    DuplicatesAreSameTile(codec, compress, entries);
    forall i, j | 0 <= i < j < |tiles| ensures tiles[i].0 < tiles[j].0 {
      NoDuplicatesAscend(tiles, i, j);
    }
    forall e | e in entries
      ensures (TileId(e.z, e.x, e.y), if compress then codec.pack(e.bytes) else e.bytes) in tiles
    {
      var k :| 0 <= k < |entries| && entries[k] == e;
      SortKeepsTiles(codec, compress, entries, StoredTile(codec, compress, e));
    }
  }

  /** The reader's limits in bytes and entries. */
  lemma {:induction false} ReadableMeans(codec: Codec, compress: bool, tiles: seq<Stored>, e: TileEntry)
    requires Writable(DirectoryOf(tiles))
    ensures DirectoryReadable(codec, tiles)
            <==> && |codec.pack(EncodeDirectory(DirectoryOf(tiles)))| <= 16_257
                 && |EncodeDirectory(DirectoryOf(tiles))| <= 16_777_216 && |tiles| <= 1_000_000
    ensures PayloadReadable(codec, compress, e)
            <==> if compress then |codec.pack(e.bytes)| <= 16_777_216 && |e.bytes| <= 16_777_216
                 else |e.bytes| <= 16_777_216
  {
    hide DirectoryOf, EncodeDirectory, Writable;
  }

  lemma {:induction false} RootLoads(codec: Codec, compress: bool, entries: seq<TileEntry>, metadata: Bytes,
                                     archive: Archive)
    requires Written(codec, compress, entries, metadata, archive)
    ensures var tiles := SortTiles(codec, compress, entries);
            && (ValidHeader(archive) <==> HEADER_BYTES + |RootBytes(codec, tiles)| <= ROOT_DIRECTORY_LIMIT)
            && (ValidHeader(archive) ==>
                  LoadDirectory(codec, archive, archive.header.rootOffset, archive.header.rootLength)
                  == if DirectoryReadable(codec, tiles) then Some(DirectoryOf(tiles)) else None)
  {
    hide SortTiles, DirectoryOf, EncodeDirectory, DecodeDirectory, Payloads, AdjacentDuplicate, Writable;
    var tiles := SortTiles(codec, compress, entries);
    var root := RootBytes(codec, tiles);
    ZoomsBound(entries, 0);
    assert archive.body[..|root|] == root;
    DirectoryRoundTrip(DirectoryOf(tiles));
  }

  lemma {:induction false} TileRangeLoads(codec: Codec, compress: bool, entries: seq<TileEntry>, metadata: Bytes,
                                          archive: Archive, k: nat)
    requires Written(codec, compress, entries, metadata, archive)
    requires k < |SortTiles(codec, compress, entries)|
    ensures var tiles := SortTiles(codec, compress, entries);
            var e := DirectoryOf(tiles)[k];
            && e.tileId == tiles[k].0 && e.runLength == 1
            && ReadRange(archive, archive.header.tileOffset + e.offset, e.length)
               == if 0 < |tiles[k].1| <= MAX_RANGE_BYTES then Some(tiles[k].1) else None
  {
    hide SortTiles, DirectoryOf, EncodeDirectory, Payloads, AdjacentDuplicate, Writable;
    var tiles := SortTiles(codec, compress, entries);
    DirectoryAt(tiles, k);
    var front := RootBytes(codec, tiles) + codec.pack(metadata);
    assert archive.body == front + Payloads(tiles);
    var at := |Payloads(tiles[..k])|;
    assert archive.body[|front| + at..|front| + at + |tiles[k].1|] == Payloads(tiles)[at..at + |tiles[k].1|];
  }

  /** The directory lookup answers a stored identity with its own entry. */
  lemma {:induction false} StoredIsFound(tiles: seq<Stored>, k: nat)
    requires SortedById(tiles) && !AdjacentDuplicate(tiles) && FitsMemory(tiles) && StoredSane(tiles) && k < |tiles|
    ensures FindEntry(DirectoryOf(tiles), tiles[k].0) == Some(DirectoryOf(tiles)[k])
  {
    hide DirectoryOf, FindEntry, Payloads;
    DirectoryWritable(tiles);
    var directory := DirectoryOf(tiles);
    DirectoryAt(tiles, k);
    FindEntryIsNearest(directory, tiles[k].0);
    assert directory[k].tileId == tiles[k].0;
  }

  /** The identity of an absent tile selects an entry that does not cover it. */
  lemma {:induction false} AbsentIsNotFound(archive: Archive, tiles: seq<Stored>, tileId: nat)
    requires SortedById(tiles) && !AdjacentDuplicate(tiles) && FitsMemory(tiles) && StoredSane(tiles)
    requires forall k :: 0 <= k < |tiles| ==> tiles[k].0 != tileId
    ensures match FindEntry(DirectoryOf(tiles), tileId)
            case None => true
            case Some(e) => e.runLength > 0 && SelectTile(archive, e, tileId) == Err(NotFound)
  {
    hide DirectoryOf, FindEntry, Payloads;
    DirectoryWritable(tiles);
    var directory := DirectoryOf(tiles);
    FindEntryIsNearest(directory, tileId);
    if FindEntry(directory, tileId).Some? {
      var j :| 0 <= j < |directory| && directory[j] == FindEntry(directory, tileId).value;
      DirectoryAt(tiles, j);
    }
  }

  /**
   * Reading back what was written: a written tile's payload comes back byte for byte exactly
   * when the directory and that payload are within the reader's limits.
   */
  lemma {:induction false} WrittenTileReadsBack(codec: Codec, compress: bool, entries: seq<TileEntry>,
                                                metadata: Bytes, archive: Archive, e: TileEntry)
    requires Written(codec, compress, entries, metadata, archive) && e in entries
    ensures ReadPayload(codec, archive, e.z, e.x, e.y) == Ok(e.bytes)
            <==> DirectoryReadable(codec, SortTiles(codec, compress, entries)) && PayloadReadable(codec, compress, e)
  {
    hide SortTiles, DirectoryOf, EncodeDirectory, Payloads, AdjacentDuplicate, Writable, TileId, ValidHeader;
    hide ReadRange, LoadDirectory, FindEntry;
    var tiles := SortTiles(codec, compress, entries);
    var i :| 0 <= i < |entries| && entries[i] == e;
    var stored := StoredTile(codec, compress, e);
    SortKeepsTiles(codec, compress, entries, stored);
    var k :| 0 <= k < |tiles| && tiles[k] == stored;
    SortedSane(codec, compress, entries);
    StoredIsFound(tiles, k);
    RootLoads(codec, compress, entries, metadata, archive);
    TileRangeLoads(codec, compress, entries, metadata, archive, k);
    ZoomsBound(entries, i);
  }

  /** A tile that was not written is reported missing, never answered with another tile's bytes. */
  lemma {:induction false} UnwrittenTileIsMissing(codec: Codec, compress: bool, entries: seq<TileEntry>,
                                                  metadata: Bytes, archive: Archive,
                               z: nat, x: nat, y: nat)
    requires Written(codec, compress, entries, metadata, archive)
    requires DirectoryReadable(codec, SortTiles(codec, compress, entries))
    requires forall k :: 0 <= k < |entries| ==> (entries[k].z, entries[k].x, entries[k].y) != (z, x, y)
    ensures ReadTile(codec, archive, z, x, y) == Err(NotFound)
  {
    hide SortTiles, DirectoryOf, EncodeDirectory, Payloads, AdjacentDuplicate, Writable, TileId, ValidHeader;
    hide ReadRange, LoadDirectory, FindEntry;
    RootLoads(codec, compress, entries, metadata, archive);
    if z <= 31 && InGrid(z, x, y) {
      var tiles := SortTiles(codec, compress, entries);
      SortedSane(codec, compress, entries);
      forall k | 0 <= k < |tiles| ensures tiles[k].0 != TileId(z, x, y) {
        assert tiles[k] in tiles;
        SortKeepsTiles(codec, compress, entries, tiles[k]);
        var i :| 0 <= i < |entries| && StoredTile(codec, compress, entries[i]) == tiles[k];
        if tiles[k].0 == TileId(z, x, y) {
          TileIdInjective(entries[i].z, entries[i].x, entries[i].y, z, x, y);
        }
      }
      AbsentIsNotFound(archive, tiles, TileId(z, x, y));
    }
  }
}
