/**
 * Archives that the writer of crates/genegis-tile/src/pmtiles.rs produces and its reader refuses.
 *
 * No compressor helps: packing is reversible, so it cannot make every directory short.
 */
module PmTilesLimits {
  import opened Common
  import opened HilbertTileId
  import opened PmTilesDirectory
  import opened PmTilesArchive

  // ------------------------------------------------------------------ counting

  function Appended<T(==)>(strings: set<seq<T>>, x: T): set<seq<T>> {
    set s | s in strings :: s + [x]
  }

  /** All bit strings of a length. */
  function BitStrings(n: nat): set<seq<bool>> {
    if n == 0 then {[]}
    else Appended(BitStrings(n - 1), false) + Appended(BitStrings(n - 1), true)
  }

  lemma {:induction false} AppendedHolds<T>(strings: set<seq<T>>, x: T, s: seq<T>)
    ensures s in Appended(strings, x) <==> s != [] && s[|s| - 1] == x && s[..|s| - 1] in strings
  {
    if s in Appended(strings, x) {
      var r :| r in strings && s == r + [x];
      assert s[..|s| - 1] == r;
    }
    if s != [] && s[|s| - 1] == x {
      assert s == s[..|s| - 1] + [x];
    }
  }

  lemma {:induction false} BitStringsAre(n: nat, s: seq<bool>)
    ensures s in BitStrings(n) <==> |s| == n
  {
    if n > 0 {
      var zeros, ones := Appended(BitStrings(n - 1), false), Appended(BitStrings(n - 1), true);
      assert s in BitStrings(n) <==> s in zeros || s in ones;
      AppendedHolds(BitStrings(n - 1), false, s);
      AppendedHolds(BitStrings(n - 1), true, s);
      if s != [] {
        BitStringsAre(n - 1, s[..|s| - 1]);
        assert s[|s| - 1] == true || s[|s| - 1] == false;
      }
    }
  }

  lemma {:induction false} AppendedSize<T>(strings: set<seq<T>>, x: T)
    ensures |Appended(strings, x)| == |strings|
    decreases |strings|
  {
    if strings == {} {
      assert Appended(strings, x) == {};
    } else {
      var s :| s in strings;
      AppendedSize(strings - {s}, x);
      assert Appended(strings, x) == Appended(strings - {s}, x) + {s + [x]};
      assert s + [x] !in Appended(strings - {s}, x) by {
        forall r | r in strings - {s} ensures r + [x] != s + [x] {
          assert (r + [x])[..|r|] == r && (s + [x])[..|s|] == s;
        }
      }
    }
  }

  lemma {:induction false} BitStringsSize(n: nat)
    ensures |BitStrings(n)| == Pow2(n)
  {
    if n > 0 {
      BitStringsSize(n - 1);
      var strings := BitStrings(n - 1);
      AppendedSize(strings, false);
      AppendedSize(strings, true);
      var zeros, ones := Appended(strings, false), Appended(strings, true);
      forall s | s in zeros ensures s !in ones {
        assert s[|s| - 1] == false;
      }
      assert zeros * ones == {};
    }
  }

  /** Every string followed by every one of the first c bytes. */
  function Extended(strings: set<Bytes>, c: nat): set<Bytes>
    requires c <= 256
  {
    if c == 0 then {} else Extended(strings, c - 1) + Appended<Byte>(strings, c - 1)
  }

  /** All byte strings of a length, and up to a length. */
  function ByteStrings(n: nat): set<Bytes> {
    if n == 0 then {[]} else Extended(ByteStrings(n - 1), 256)
  }

  function ByteStringsUpTo(n: nat): set<Bytes> {
    if n == 0 then ByteStrings(0) else ByteStringsUpTo(n - 1) + ByteStrings(n)
  }

  lemma {:induction false} ExtendedHolds(strings: set<Bytes>, c: nat, s: Bytes, x: Byte)
    requires s in strings && x < c <= 256
    ensures s + [x] in Extended(strings, c)
    decreases c
  {
    if x < c - 1 {
      ExtendedHolds(strings, c - 1, s, x);
    }
  }

  lemma UnionSize<T>(a: set<T>, b: set<T>)
    ensures |a + b| <= |a| + |b|
  {
    assert |a + b| + |a * b| == |a| + |b|;
  }

  lemma OneMoreTime(c: nat, n: nat)
    requires c > 0
    ensures (c - 1) * n + n == c * n
  {}

  lemma {:induction false} ExtendedSize(strings: set<Bytes>, c: nat)
    requires c <= 256
    ensures |Extended(strings, c)| <= c * |strings|
  {
    hide Appended;
    if c > 0 {
      ExtendedSize(strings, c - 1);
      AppendedSize<Byte>(strings, c - 1);
      UnionSize(Extended(strings, c - 1), Appended<Byte>(strings, c - 1));
      OneMoreTime(c, |strings|);
    }
  }

  lemma {:induction false} ByteStringsHold(s: Bytes)
    ensures s in ByteStrings(|s|)
    decreases |s|
  {
    if s != [] {
      hide Extended;
      var init, last := s[..|s| - 1], s[|s| - 1];
      ByteStringsHold(init);
      ExtendedHolds(ByteStrings(|s| - 1), 256, init, last);
      assert s == init + [last];
    }
  }

  lemma {:induction false} ByteStringsUpToHold(n: nat, s: Bytes)
    requires |s| <= n
    ensures s in ByteStringsUpTo(n)
    decreases n
  {
    hide ByteStrings;
    if |s| == n {
      ByteStringsHold(s);
    } else {
      ByteStringsUpToHold(n - 1, s);
    }
  }

  lemma {:induction false} TimesPow2(a: nat, b: nat)
    ensures Pow2(a + b) == Pow2(a) * Pow2(b)
  {
    Pow2Splits(b, a + b);
  }

  lemma {:induction false} ByteStringsSize(n: nat)
    ensures |ByteStrings(n)| <= Pow2(8 * n)
  {
    hide Extended;
    if n > 0 {
      ByteStringsSize(n - 1);
      ExtendedSize(ByteStrings(n - 1), 256);
      TimesPow2(8, 8 * (n - 1));
      assert 8 + 8 * (n - 1) == 8 * n;
      assert Pow2(8) == 256 by { assert Pow2(4) == 16; }
    }
  }

  lemma {:induction false} LargerPower(a: nat, b: nat)
    requires a <= b
    ensures Pow2(a) <= Pow2(b)
    decreases b
  {
    if a < b {
      LargerPower(a, b - 1);
    }
  }

  lemma {:induction false} ByteStringsUpToSize(n: nat)
    ensures |ByteStringsUpTo(n)| <= Pow2(8 * n + 1)
  {
    hide ByteStrings;
    ByteStringsSize(n);
    if n > 0 {
      ByteStringsUpToSize(n - 1);
      Doubles(8 * n + 1);
      LargerPower(8 * (n - 1) + 1, 8 * n);
    }
  }

  // ------------------------------------------------------------------ not everything packs short

  /** Different bit strings give different byte strings. */
  ghost predicate Injective(f: seq<bool> -> Bytes, n: nat) {
    forall s, r :: |s| == |r| == n && f(s) == f(r) ==> s == r
  }

  lemma {:induction false} ImageSize(f: seq<bool> -> Bytes, strings: set<seq<bool>>, n: nat)
    requires Injective(f, n) && forall s <- strings :: |s| == n
    ensures |set s | s in strings :: f(s)| == |strings|
    decreases |strings|
  {
    if strings == {} {
      assert (set s | s in strings :: f(s)) == {};
    } else {
      var s :| s in strings;
      ImageSize(f, strings - {s}, n);
      assert (set r | r in strings :: f(r)) == (set r | r in strings - {s} :: f(r)) + {f(s)};
    }
  }

  lemma {:induction false} SubsetIsSmaller<T>(a: set<T>, b: set<T>)
    requires a <= b
    ensures |a| <= |b|
    decreases |a|
  {
    if a != {} {
      var x :| x in a;
      SubsetIsSmaller(a - {x}, b - {x});
    }
  }

  /** Bit strings of enough bits cannot all be told apart in so many bytes. */
  lemma {:induction false} SomeImageIsLong(f: seq<bool> -> Bytes, n: nat, limit: nat) returns (s: seq<bool>)
    requires Injective(f, n) && n > 8 * limit + 1
    ensures |s| == n && |f(s)| > limit
  {
    hide BitStrings, ByteStringsUpTo, Injective, Pow2;
    if forall r :: |r| == n ==> |f(r)| <= limit {
      var strings := BitStrings(n);
      forall r | r in strings ensures |r| == n && f(r) in ByteStringsUpTo(limit) {
        BitStringsAre(n, r);
        ByteStringsUpToHold(limit, f(r));
      }
      var image := set r | r in strings :: f(r);
      ImageSize(f, strings, n);
      SubsetIsSmaller(image, ByteStringsUpTo(limit));
      BitStringsSize(n);
      ByteStringsUpToSize(limit);
      LargerPower(8 * limit + 2, n);
      Doubles(8 * limit + 2);
      assert false;
    }
    s :| |s| == n && |f(s)| > limit;
  }

  // ------------------------------------------------------------------ the archives

  /** The packed form of up to 4 GiB stays below a tebibyte. */
  ghost predicate Modest(codec: Codec) {
    forall b: Bytes :: |b| <= 0x1_0000_0000 ==> |codec.pack(b)| < 0x100_0000_0000
  }

  /** One marker byte in front: such codecs exist. */
  const VERBATIM: Codec :=
    Codec((b: Bytes) => [1] + b, (b: Bytes) => if b == [] then None else Some(b[1..]))

  lemma VerbatimLossless()
    ensures Lossless(VERBATIM) && Modest(VERBATIM)
  {}

  lemma {:induction false} DirectoryLength(tiles: seq<Stored>)
    ensures |DirectoryOf(tiles)| == |tiles|
  {}

  lemma {:induction false} PayloadsBounded(tiles: seq<Stored>)
    requires forall k :: 0 <= k < |tiles| ==> |tiles[k].1| <= 0x100_0000_0000
    ensures |Payloads(tiles)| <= 0x100_0000_0000 * |tiles|
  {
    if tiles != [] {
      PayloadsBounded(tiles[..|tiles| - 1]);
    }
  }

  lemma {:induction false} StoredBytesModest(codec: Codec, compress: bool, e: TileEntry)
    requires Modest(codec) && Acceptable(e) && |e.bytes| <= 0x1_0000_0000
    ensures |StoredTile(codec, compress, e).1| <= 0x100_0000_0000
  {
    hide TileId;
  }

  /** Up to two hundred thousand tiles are written, with any modest codec. */
  lemma {:induction false} ModestWritten(codec: Codec, compress: bool, entries: seq<TileEntry>)
    returns (archive: Archive)
    requires Lossless(codec) && Modest(codec)
    requires AllAcceptable(entries) && DistinctTiles(entries) && 0 < |entries| <= 200_000
    requires forall e <- entries :: |e.bytes| <= 0x1_0000_0000
    ensures Written(codec, compress, entries, [], archive)
  {
    hide SortTiles, DirectoryOf, EncodeDirectory, Payloads, AdjacentDuplicate, Writable, DistinctTiles, Acceptable;
    hide StoredTile;
    var tiles := SortTiles(codec, compress, entries);
    DuplicatesAreSameTile(codec, compress, entries);
    forall k | 0 <= k < |tiles| ensures |tiles[k].1| <= 0x100_0000_0000 {
      assert tiles[k] in tiles;
      SortKeepsTiles(codec, compress, entries, tiles[k]);
      var i :| 0 <= i < |entries| && StoredTile(codec, compress, entries[i]) == tiles[k];
      StoredBytesModest(codec, compress, entries[i]);
    }
    PayloadsBounded(tiles);
    SortedSane(codec, compress, entries);
    DirectoryWritable(tiles);
    DirectoryLength(tiles);
    EncodedLength(DirectoryOf(tiles));
    archive := Assembled(codec, compress, entries, tiles, []);
  }

  /** One tile of more than 16 MiB is written and cannot be read, whatever the codec. */
  lemma {:induction false} LargePayloadUnreadable(codec: Codec, compress: bool) returns (e: TileEntry, archive: Archive)
    requires Lossless(codec) && Modest(codec)
    ensures Written(codec, compress, [e], [], archive)
    ensures ReadPayload(codec, archive, e.z, e.x, e.y) != Ok(e.bytes)
  {
    hide Written, ReadPayload, DirectoryReadable, Lossless, Modest;
    e := TileEntry(0, 0, 0, seq(MAX_RANGE_BYTES + 1, _ => 0));
    archive := ModestWritten(codec, compress, [e]);
    WrittenTileReadsBack(codec, compress, [e], [], archive, e);
  }

  /** With a codec that never shrinks, no tile of an archive of 4065 tiles or more can be read. */
  lemma {:induction false} LargeDirectoryUnreadable(codec: Codec, compress: bool, entries: seq<TileEntry>,
                                                    metadata: Bytes, archive: Archive, e: TileEntry)
    requires Written(codec, compress, entries, metadata, archive) && e in entries
    requires (forall b: Bytes :: |codec.pack(b)| >= |b|) && |entries| >= 4065
    ensures ReadPayload(codec, archive, e.z, e.x, e.y) != Ok(e.bytes)
  {
    hide SortTiles, DirectoryOf, EncodeDirectory, Payloads, AdjacentDuplicate, Writable, Assembled, ReadPayload;
    WrittenTileReadsBack(codec, compress, entries, metadata, archive, e);
    DirectoryLength(SortTiles(codec, compress, entries));
    EncodedLength(DirectoryOf(SortTiles(codec, compress, entries)));
  }

  // A choice of tiles for every bit string: column k of one row, one byte each.

  function Column(k: nat): TileEntry {
    TileEntry(17, k, 0, [0])
  }

  function Chosen(bits: seq<bool>): seq<TileEntry> {
    if bits == [] then []
    else
      var k := |bits| - 1;
      Chosen(bits[..k]) + if bits[k] then [Column(k)] else []
  }

  lemma {:induction false} ChosenHolds(bits: seq<bool>, k: nat)
    ensures Column(k) in Chosen(bits) <==> k < |bits| && bits[k]
  {
    if bits != [] {
      ChosenHolds(bits[..|bits| - 1], k);
    }
  }

  lemma {:induction false} ChosenSound(bits: seq<bool>)
    ensures |Chosen(bits)| <= |bits|
    ensures forall e <- Chosen(bits) :: e == Column(e.x) && e.x < |bits|
    ensures forall i, j :: 0 <= i < j < |Chosen(bits)| ==> Chosen(bits)[i].x < Chosen(bits)[j].x
  {
    if bits != [] {
      ChosenSound(bits[..|bits| - 1]);
      var before := Chosen(bits[..|bits| - 1]);
      forall i | 0 <= i < |before| ensures before[i].x < |bits| - 1 {
        assert before[i] in before;
      }
    }
  }

  lemma SideOf17()
    ensures Pow2(17) == 131072
  {
    assert Pow2(4) == 16;
    assert Pow2(8) == 256;
    assert Pow2(12) == 4096;
    assert Pow2(16) == 65536;
  }

  lemma {:induction false} ChosenAcceptable(bits: seq<bool>)
    requires |bits| <= 131072
    ensures AllAcceptable(Chosen(bits)) && DistinctTiles(Chosen(bits))
    ensures forall e <- Chosen(bits) :: |e.bytes| <= 0x1_0000_0000
  {
    hide Chosen, Pow2;
    ChosenSound(bits);
    SideOf17();
    forall k | 0 <= k < |Chosen(bits)| ensures Acceptable(Chosen(bits)[k]) {
      assert Chosen(bits)[k] in Chosen(bits);
    }
  }

  lemma {:induction false} WrittenIsWritable(codec: Codec, compress: bool, entries: seq<TileEntry>, archive: Archive)
    requires Written(codec, compress, entries, [], archive)
    ensures AllAcceptable(entries) && Writable(DirectoryOf(SortTiles(codec, compress, entries)))
  {}

  lemma {:induction false} ChosenWritable(codec: Codec, compress: bool, bits: seq<bool>)
    requires Lossless(codec) && Modest(codec) && 0 < |bits| <= 131072 && bits[|bits| - 1]
    ensures AllAcceptable(Chosen(bits)) && Chosen(bits) != []
    ensures var tiles := SortTiles(codec, compress, Chosen(bits));
            0 < |tiles| <= |bits| && Writable(DirectoryOf(tiles)) && |DirectoryOf(tiles)| == |tiles|
  {
    hide Chosen, Written, Lossless, Modest;
    ChosenAcceptable(bits);
    ChosenSound(bits);
    ChosenHolds(bits, |bits| - 1);
    var archive := ModestWritten(codec, compress, Chosen(bits));
    WrittenIsWritable(codec, compress, Chosen(bits), archive);
    DirectoryLength(SortTiles(codec, compress, Chosen(bits)));
  }

  /** The root directory that the choice is written with; only modest lossless codecs are of interest. */
  ghost function ChosenRoot(codec: Codec, compress: bool, bits: seq<bool>): Bytes {
    if Lossless(codec) && Modest(codec) && 0 < |bits| <= 131072 && bits[|bits| - 1] then
      ChosenWritable(codec, compress, bits);
      RootBytes(codec, SortTiles(codec, compress, Chosen(bits)))
    else []
  }

  /** A directory tells which columns were chosen. */
  lemma {:induction false} DirectoryTellsColumn(codec: Codec, compress: bool, bits: seq<bool>, k: nat)
    requires k < |bits| <= 131072 && AllAcceptable(Chosen(bits)) && InGrid(17, k, 0)
    ensures (exists d <- DirectoryOf(SortTiles(codec, compress, Chosen(bits))) :: d.tileId == TileId(17, k, 0))
            <==> bits[k]
  {
    hide Chosen, SortTiles, DirectoryOf, TileId, Pow2, InGrid, Payloads;
    var entries := Chosen(bits);
    var tiles := SortTiles(codec, compress, entries);
    var directory := DirectoryOf(tiles);
    DirectoryLength(tiles);
    ChosenHolds(bits, k);
    ChosenSound(bits);
    if bits[k] {
      var stored := StoredTile(codec, compress, Column(k));
      var i :| 0 <= i < |entries| && entries[i] == Column(k);
      SortKeepsTiles(codec, compress, entries, stored);
      var t :| 0 <= t < |tiles| && tiles[t] == stored;
      DirectoryAt(tiles, t);
      assert directory[t] in directory && directory[t].tileId == TileId(17, k, 0);
    }
    if d :| d in directory && d.tileId == TileId(17, k, 0) {
      var t :| 0 <= t < |directory| && directory[t] == d;
      DirectoryAt(tiles, t);
      assert tiles[t] in tiles;
      SortKeepsTiles(codec, compress, entries, tiles[t]);
      var i :| 0 <= i < |entries| && StoredTile(codec, compress, entries[i]) == tiles[t];
      assert entries[i] in entries;
      TileIdInjective(entries[i].z, entries[i].x, entries[i].y, 17, k, 0);
    }
  }

  lemma {:induction false} RootTellsBits(codec: Codec, compress: bool, s: seq<bool>, r: seq<bool>)
    requires Lossless(codec) && Modest(codec) && |s| == |r| && 0 < |s| <= 131072 && s[|s| - 1] && r[|r| - 1]
    requires ChosenRoot(codec, compress, s) == ChosenRoot(codec, compress, r)
    ensures s == r
  {
    hide Chosen, SortTiles, DirectoryOf, EncodeDirectory, DecodeDirectory, Writable, Modest, Pow2, TileId;
    ChosenWritable(codec, compress, s);
    ChosenWritable(codec, compress, r);
    var ds := DirectoryOf(SortTiles(codec, compress, Chosen(s)));
    var dr := DirectoryOf(SortTiles(codec, compress, Chosen(r)));
    assert codec.pack(EncodeDirectory(ds)) == codec.pack(EncodeDirectory(dr));
    assert codec.unpack(codec.pack(EncodeDirectory(ds))) == Some(EncodeDirectory(ds));
    assert codec.unpack(codec.pack(EncodeDirectory(dr))) == Some(EncodeDirectory(dr));
    DirectoryRoundTrip(ds);
    DirectoryRoundTrip(dr);
    assert ds == dr;
    SideOf17();
    forall k | 0 <= k < |s| ensures s[k] == r[k] {
      DirectoryTellsColumn(codec, compress, s, k);
      DirectoryTellsColumn(codec, compress, r, k);
    }
  }

  /**
   * Whatever lossless codec compresses the directory, some archive is written of which no tile
   * can be read: there are more choices of tiles than root directories that the reader accepts.
   */
  lemma {:induction false} UnreadableArchive(codec: Codec, compress: bool)
    returns (entries: seq<TileEntry>, archive: Archive)
    requires Lossless(codec) && Modest(codec)
    ensures entries != [] && Written(codec, compress, entries, [], archive)
    ensures forall e <- entries :: ReadPayload(codec, archive, e.z, e.x, e.y) != Ok(e.bytes)
  {
    hide Written, Chosen, Lossless, Modest, ReadPayload, SortTiles, DirectoryOf, EncodeDirectory, Writable;
    var limit := ROOT_DIRECTORY_LIMIT - HEADER_BYTES;
    var n := 8 * limit + 2;
    var f: seq<bool> -> Bytes := bits => ChosenRoot(codec, compress, bits + [true]);
    forall s, r | |s| == |r| == n && f(s) == f(r) ensures s == r {
      RootTellsBits(codec, compress, s + [true], r + [true]);
      assert s == (s + [true])[..n] && r == (r + [true])[..n];
    }
    var s := SomeImageIsLong(f, n, limit);
    var bits := s + [true];
    ChosenAcceptable(bits);
    ChosenSound(bits);
    ChosenWritable(codec, compress, bits);
    entries := Chosen(bits);
    archive := ModestWritten(codec, compress, entries);
    forall e | e in entries ensures ReadPayload(codec, archive, e.z, e.x, e.y) != Ok(e.bytes) {
      WrittenTileReadsBack(codec, compress, entries, [], archive, e);
    }
  }
}
