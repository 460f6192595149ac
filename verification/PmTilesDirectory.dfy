/**
 * PMTiles version 3 directories: variable-length integers, `encode_directory`,
 * `decode_directory` and `find_entry` of crates/genegis-tile/src/pmtiles.rs.
 */
module PmTilesDirectory {
  import opened Common

  type Byte = n: int | 0 <= n < 256

  type Bytes = seq<Byte>

  const U64_MODULUS: nat := 0x1_0000_0000_0000_0000

  type U64 = n: int | 0 <= n < U64_MODULUS

  // ------------------------------------------------------------------ variable-length integers

  /** Seven bits at a time, least significant first; the top bit says that more follow. */
  function Varint(value: nat): (bytes: Bytes)
    ensures bytes != []
  {
    if value < 128 then [value] else [value % 128 + 128] + Varint(value / 128)
  }

  /** The number that groups of seven bits stand for, least significant first. */
  function GroupValue(bytes: Bytes): nat {
    if bytes == [] then 0 else bytes[0] % 128 + 128 * GroupValue(bytes[1..])
  }

  /** The written form: groups that add up to the number, marked but for the last, and no more than needed. */
  lemma {:induction false} VarintForm(value: nat)
    ensures var bytes := Varint(value);
            && GroupValue(bytes) == value
            && (forall k :: 0 <= k < |bytes| - 1 ==> bytes[k] >= 128)
            && bytes[|bytes| - 1] < 128 && (|bytes| > 1 ==> bytes[|bytes| - 1] > 0)
    decreases value
  {
    if value < 128 {
      assert GroupValue([value][1..]) == 0;
    } else {
      VarintForm(value / 128);
      var rest := Varint(value / 128);
      assert Varint(value) == [value % 128 + 128] + rest && Varint(value)[1..] == rest;
      if |rest| == 1 {
        assert GroupValue(rest[1..]) == 0;
      }
    }
  }

  method PushVarint(buffer: Bytes, value: U64) returns (r: Bytes)
    ensures r == buffer + Varint(value)
  {
    r := buffer;
    var rest: nat := value;
    while true
      invariant r + Varint(rest) == buffer + Varint(value)
      decreases rest
    {
      var low := rest % 128;
      var next := rest / 128;
      if next == 0 {
        r := r + [low];
        return;
      }
      assert r + ([low + 128] + Varint(next)) == (r + [low + 128]) + Varint(next);
      r := r + [low + 128];
      rest := next;
    }
  }

  function Pow128(i: nat): (r: nat)
    ensures r >= 1
  {
    if i == 0 then 1 else 128 * Pow128(i - 1)
  }

  /** Read on from group i; bits shifted past 64 are lost, and an eleventh group is an error. */
  function ReadGroups(bytes: Bytes, cursor: nat, i: nat, value: nat): (r: Option<(nat, nat)>)
    ensures r.Some? ==> cursor < r.value.1 <= |bytes|
    decreases 10 - i
  {
    if i >= 10 || cursor >= |bytes| then None
    else
      var byte := bytes[cursor];
      var next := value + (byte % 128) * Pow128(i) % U64_MODULUS;
      if byte < 128 then Some((next, cursor + 1)) else ReadGroups(bytes, cursor + 1, i + 1, next)
  }

  function ReadVarint(bytes: Bytes, cursor: nat): (r: Option<(nat, nat)>)
    ensures r.Some? ==> cursor < r.value.1 <= |bytes|
  {
    ReadGroups(bytes, cursor, 0, 0)
  }

  lemma TenGroups()
    ensures Pow128(10) > U64_MODULUS
  {
    assert Pow128(2) == 16384;
    assert Pow128(4) == 0x1000_0000;
    assert Pow128(6) == 0x400_0000_0000;
    assert Pow128(8) == 0x100_0000_0000_0000;
  }

  lemma {:induction false} Pow128Monotone(i: nat, j: nat)
    requires i <= j
    ensures Pow128(i) <= Pow128(j)
    decreases j
  {
    if i < j {
      Pow128Monotone(i, j - 1);
    }
  }

  lemma NonNegative(a: nat, b: nat)
    ensures a * b >= 0
  {}

  /** The low group and the rest of a number, each shifted to its place. */
  lemma GroupSplit(v: nat, p: nat)
    ensures v * p == (v % 128) * p + (v / 128) * (128 * p)
    ensures 0 <= (v % 128) * p <= v * p
  {
    var low, rest := v % 128, v / 128;
    assert (low + 128 * rest) * p == low * p + rest * (128 * p);
    NonNegative(rest, 128 * p);
    NonNegative(low, p);
  }

  lemma GroupsBelowTen(v: nat, i: nat)
    requires v * Pow128(i) < U64_MODULUS && v > 0
    ensures i < 10
  {
    if i >= 10 {
      TenGroups();
      Pow128Monotone(10, i);
      AtLeastOnce(v, Pow128(i));
    }
  }

  lemma ReadOneGroup(bytes: Bytes, cursor: nat, i: nat, value: nat, shifted: nat)
    requires i < 10 && cursor < |bytes|
    requires shifted == (bytes[cursor] % 128) * Pow128(i) < U64_MODULUS
    ensures ReadGroups(bytes, cursor, i, value)
            == if bytes[cursor] < 128 then Some((value + shifted, cursor + 1))
               else ReadGroups(bytes, cursor + 1, i + 1, value + shifted)
  {
    assert shifted % U64_MODULUS == shifted;
  }

  lemma {:induction false} GroupsRoundTrip(before: Bytes, v: nat, after: Bytes, i: nat, value: nat)
    requires v * Pow128(i) < U64_MODULUS && (i == 0 || v > 0)
    ensures ReadGroups(before + Varint(v) + after, |before|, i, value)
            == Some((value + v * Pow128(i), |before| + |Varint(v)|))
    decreases v
  {
    hide ReadGroups;
    var bytes, p := before + Varint(v) + after, Pow128(i);
    if v > 0 { GroupsBelowTen(v, i); }
    GroupSplit(v, p);
    var low, rest := v % 128, v / 128;
    if v < 128 {
      assert bytes[|before|] == v;
      ReadOneGroup(bytes, |before|, i, value, low * p);
    } else {
      assert bytes[|before|] == low + 128;
      ReadOneGroup(bytes, |before|, i, value, low * p);
      assert bytes == (before + [low + 128]) + Varint(rest) + after;
      assert Pow128(i + 1) == 128 * p;
      GroupsRoundTrip(before + [low + 128], rest, after, i + 1, value + low * p);
    }
  }

  /** Every 64-bit number is read back, wherever it stands in the buffer. */
  lemma {:induction false} VarintRoundTrip(before: Bytes, v: U64, after: Bytes)
    ensures ReadVarint(before + Varint(v) + after, |before|) == Some((v, |before| + |Varint(v)|))
  {
    GroupsRoundTrip(before, v, after, 0, 0);
  }

  // ------------------------------------------------------------------ columns of integers

  function Varints(words: seq<nat>): Bytes {
    if words == [] then [] else Varint(words[0]) + Varints(words[1..])
  }

  function ReadColumn(bytes: Bytes, cursor: nat, n: nat): (r: Option<(seq<nat>, nat)>)
    ensures r.Some? ==> |r.value.0| == n
    decreases n
  {
    if n == 0 then Some(([], cursor))
    else
      match ReadVarint(bytes, cursor)
      case None => None
      case Some((word, next)) =>
        match ReadColumn(bytes, next, n - 1)
        case None => None
        case Some((words, end)) => Some(([word] + words, end))
  }

  predicate AllU64(words: seq<nat>) {
    forall k :: 0 <= k < |words| ==> words[k] < U64_MODULUS
  }

  lemma Regroup(before: Bytes, first: Bytes, rest: Bytes, after: Bytes)
    ensures before + (first + rest) + after == before + first + (rest + after) == (before + first) + rest + after
  {}

  lemma {:induction false} ReadFirst(bytes: Bytes, cursor: nat, word: nat, next: nat, words: seq<nat>, end: nat)
    requires ReadVarint(bytes, cursor) == Some((word, next)) && ReadColumn(bytes, next, |words|) == Some((words, end))
    ensures ReadColumn(bytes, cursor, |words| + 1) == Some(([word] + words, end))
  {
    hide ReadVarint;
  }

  lemma {:induction false} NothingRead(bytes: Bytes, cursor: nat)
    ensures Varints([]) == [] && ReadColumn(bytes, cursor, 0) == Some(([], cursor))
  {}

  lemma {:induction false} VarintsFirst(words: seq<nat>)
    requires words != []
    ensures Varints(words) == Varint(words[0]) + Varints(words[1..])
  {
    hide Varint;
  }

  lemma U64Tail(words: seq<nat>)
    requires AllU64(words) && words != []
    ensures words[0] < U64_MODULUS && AllU64(words[1..])
  {}

  lemma {:induction false} ColumnRoundTrip(before: Bytes, words: seq<nat>, after: Bytes)
    requires AllU64(words)
    ensures ReadColumn(before + Varints(words) + after, |before|, |words|)
            == Some((words, |before| + |Varints(words)|))
    decreases |words|
  {
    hide *;
    if words == [] {
      NothingRead(before + Varints(words) + after, |before|);
    } else {
      var rest := words[1..];
      var column, first := Varints(rest), before + Varint(words[0]);
      U64Tail(words);
      VarintsFirst(words);
      VarintRoundTrip(before, words[0], column + after);
      Regroup(before, Varint(words[0]), column, after);
      ColumnRoundTrip(first, rest, after);
      ReadFirst(before + Varints(words) + after, |before|, words[0], |first|, rest, |first| + |column|);
      assert words == [words[0]] + rest;
    }
  }

  lemma {:induction false} VarintsSplit(a: seq<nat>, b: seq<nat>)
    ensures Varints(a + b) == Varints(a) + Varints(b)
    decreases |a|
  {
    hide Varint;
    if a == [] {
      assert a + b == b;
    } else {
      VarintsSplit(a[1..], b);
      HeadAndTail(a, b);
      AppendAssociates(Varint(a[0]), Varints(a[1..]), Varints(b));
    }
  }

  // ------------------------------------------------------------------ directories

  datatype DirectoryEntry = DirectoryEntry(tileId: nat, offset: nat, length: nat, runLength: nat)

  type Directory = seq<DirectoryEntry>

  function RunLengths(entries: Directory): (r: seq<nat>)
    ensures |r| == |entries|
  {
    if entries == [] then [] else RunLengths(entries[..|entries| - 1]) + [entries[|entries| - 1].runLength]
  }

  function Lengths(entries: Directory): (r: seq<nat>)
    ensures |r| == |entries|
  {
    if entries == [] then [] else Lengths(entries[..|entries| - 1]) + [entries[|entries| - 1].length]
  }

  /** Zero stands for an entry that follows its predecessor directly. */
  function OffsetWord(entries: Directory, k: nat): nat
    requires k < |entries|
  {
    if k > 0 && entries[k - 1].offset + entries[k - 1].length == entries[k].offset then 0
    else entries[k].offset + 1
  }

  function OffsetWords(entries: Directory): (r: seq<nat>)
    ensures |r| == |entries|
  {
    if entries == [] then []
    else OffsetWords(entries[..|entries| - 1]) + [OffsetWord(entries, |entries| - 1)]
  }

  /** What the writer hands over: ascending identities, non-empty tiles, 64-bit numbers. */
  predicate Writable(entries: Directory) {
    && |entries| < U64_MODULUS
    && (forall k :: 0 <= k < |entries| ==>
          && entries[k].tileId < U64_MODULUS && entries[k].runLength < U64_MODULUS
          && 0 < entries[k].length < U64_MODULUS && entries[k].offset + entries[k].length < U64_MODULUS)
    && (forall j, k :: 0 <= j < k < |entries| ==> entries[j].tileId <= entries[k].tileId)
  }

  function Deltas(entries: Directory): (r: seq<nat>)
    requires Writable(entries)
    ensures |r| == |entries|
  {
    if entries == [] then []
    else
      var k := |entries| - 1;
      Deltas(entries[..k]) + [entries[k].tileId - if k == 0 then 0 else entries[k - 1].tileId]
  }

  function EncodeDirectory(entries: Directory): Bytes
    requires Writable(entries)
  {
    Varint(|entries|) + Varints(Deltas(entries)) + Varints(RunLengths(entries))
    + Varints(Lengths(entries)) + Varints(OffsetWords(entries))
  }

  const MAX_ENTRIES: nat := 1_000_000

  function TileIds(deltas: seq<nat>): (ids: seq<nat>)
    ensures |ids| == |deltas|
  {
    if deltas == [] then []
    else
      var before := TileIds(deltas[..|deltas| - 1]);
      before + [deltas[|deltas| - 1] + if before == [] then 0 else before[|before| - 1]]
  }

  /** Undo the sentinel; None for a leading zero or an overflowing offset. */
  function Offsets(words: seq<nat>, lengths: seq<nat>): (r: Option<seq<nat>>)
    requires |words| == |lengths|
    ensures r.Some? ==> |r.value| == |words|
  {
    if words == [] then Some([])
    else
      var k := |words| - 1;
      match Offsets(words[..k], lengths[..k])
      case None => None
      case Some(before) =>
        if words[k] == 0 && k > 0 then
          var offset := before[k - 1] + lengths[k - 1];
          if offset < U64_MODULUS then Some(before + [offset]) else None
        else if words[k] > 0 then Some(before + [words[k] - 1])
        else None
  }

  function Assemble(ids: seq<nat>, offsets: seq<nat>, lengths: seq<nat>, runs: seq<nat>): (r: Directory)
    requires |ids| == |offsets| == |lengths| == |runs|
    ensures |r| == |ids|
  {
    if ids == [] then []
    else
      var k := |ids| - 1;
      Assemble(ids[..k], offsets[..k], lengths[..k], runs[..k])
      + [DirectoryEntry(ids[k], offsets[k], lengths[k], runs[k])]
  }

  /** Four columns behind a count; anything left over is an error. */
  function DecodeDirectory(bytes: Bytes): Option<Directory> {
    match ReadVarint(bytes, 0)
    case None => None
    case Some((count, c0)) =>
      if count == 0 || count > MAX_ENTRIES then None
      else
        match ReadColumn(bytes, c0, count)
        case None => None
        case Some((deltas, c1)) =>
          match ReadColumn(bytes, c1, count)
          case None => None
          case Some((runs, c2)) =>
            match ReadColumn(bytes, c2, count)
            case None => None
            case Some((lengths, c3)) =>
              match ReadColumn(bytes, c3, count)
              case None => None
              case Some((words, c4)) =>
                var ids, offsets := TileIds(deltas), Offsets(words, lengths);
                if !AllU64(ids) || 0 in lengths || offsets.None? || c4 != |bytes| then None
                else Some(Assemble(ids, offsets.value, lengths, runs))
  }

  lemma {:induction false} ColumnsFit(entries: Directory)
    requires Writable(entries)
    ensures AllU64(Deltas(entries)) && AllU64(RunLengths(entries)) && AllU64(Lengths(entries))
    ensures AllU64(OffsetWords(entries)) && 0 !in Lengths(entries)
    decreases |entries|
  {
    if entries != [] {
      ColumnsFit(entries[..|entries| - 1]);
    }
  }

  lemma NoIds()
    ensures Deltas([]) == [] && TileIds([]) == [] && AllU64([])
  {}

  lemma {:induction false} LastDelta(entries: Directory)
    requires Writable(entries) && entries != []
    ensures var k := |entries| - 1;
            && Writable(entries[..k]) && entries[k].tileId < U64_MODULUS
            && (k > 0 ==> entries[k - 1].tileId <= entries[k].tileId)
            && Deltas(entries)
               == Deltas(entries[..k]) + [entries[k].tileId - if k == 0 then 0 else entries[k - 1].tileId]
  {}

  lemma {:induction false} LastId(deltas: seq<nat>)
    requires deltas != []
    ensures var k := |deltas| - 1;
            var before := TileIds(deltas[..k]);
            TileIds(deltas) == before + [deltas[k] + if before == [] then 0 else before[k - 1]]
  {}

  lemma {:induction false} IdsOfOneMore(deltas: seq<nat>, delta: nat)
    ensures TileIds(deltas + [delta])
            == TileIds(deltas) + [delta + if deltas == [] then 0 else TileIds(deltas)[|deltas| - 1]]
  {
    hide TileIds;
    InitAndLast(deltas, delta);
    LastId(deltas + [delta]);
  }

  lemma OneMoreU64(words: seq<nat>, word: nat)
    requires AllU64(words) && word < U64_MODULUS
    ensures AllU64(words + [word])
  {}

  lemma WritablePrefix(entries: Directory)
    requires Writable(entries) && entries != []
    ensures Writable(entries[..|entries| - 1])
  {}

  lemma {:induction false} IdsRestored(entries: Directory)
    requires Writable(entries)
    ensures var ids := TileIds(Deltas(entries));
            AllU64(ids) && (entries != [] ==> ids[|ids| - 1] == entries[|entries| - 1].tileId)
    decreases |entries|
  {
    hide *;
    if entries == [] {
      NoIds();
    } else {
      var k := |entries| - 1;
      var init := entries[..k];
      WritablePrefix(entries);
      IdsRestored(init);
      LastDelta(entries);
      var delta := entries[k].tileId - if k == 0 then 0 else entries[k - 1].tileId;
      IdsOfOneMore(Deltas(init), delta);
      assert k > 0 ==> init[k - 1] == entries[k - 1];
      OneMoreU64(TileIds(Deltas(init)), entries[k].tileId);
    }
  }

  lemma NoOffsets()
    ensures Offsets(OffsetWords([]), Lengths([])) == Some([])
  {}

  lemma {:induction false} LastColumns(entries: Directory)
    requires entries != []
    ensures var k := |entries| - 1;
            && OffsetWords(entries)[..k] == OffsetWords(entries[..k])
            && OffsetWords(entries)[k] == OffsetWord(entries, k)
            && Lengths(entries)[..k] == Lengths(entries[..k]) && Lengths(entries)[k] == entries[k].length
  {
    hide OffsetWord;
  }

  lemma {:induction false} OffsetsOfOneMore(words: seq<nat>, lengths: seq<nat>)
    requires |words| == |lengths| > 0
    requires var k := |words| - 1;
             Offsets(words[..k], lengths[..k]).Some?
    ensures var k := |words| - 1;
            var before := Offsets(words[..k], lengths[..k]).value;
            Offsets(words, lengths)
            == if words[k] == 0 && k > 0 then
                 if before[k - 1] + lengths[k - 1] < U64_MODULUS
                 then Some(before + [before[k - 1] + lengths[k - 1]]) else None
               else if words[k] > 0 then Some(before + [words[k] - 1])
               else None
  {
    hide U64_MODULUS;
  }

  lemma {:induction false} OffsetsRestored(entries: Directory)
    requires Writable(entries)
    ensures var offsets := Offsets(OffsetWords(entries), Lengths(entries));
            offsets.Some? && (entries != [] ==> offsets.value[|entries| - 1] == entries[|entries| - 1].offset)
    decreases |entries|
  {
    hide OffsetWords, Lengths, Offsets;
    NoOffsets();
    if entries != [] {
      var k := |entries| - 1;
      var init := entries[..k];
      OffsetsRestored(init);
      LastColumns(entries);
      if k > 0 {
        LastColumns(init);
        assert Lengths(entries)[k - 1] == Lengths(init)[k - 1];
      }
      OffsetsOfOneMore(OffsetWords(entries), Lengths(entries));
    }
  }

  lemma {:induction false} AssembleStep(ids: seq<nat>, offsets: seq<nat>, lengths: seq<nat>, runs: seq<nat>)
    requires |ids| == |offsets| == |lengths| == |runs| > 0
    ensures var k := |ids| - 1;
            Assemble(ids, offsets, lengths, runs)
            == Assemble(ids[..k], offsets[..k], lengths[..k], runs[..k])
               + [DirectoryEntry(ids[k], offsets[k], lengths[k], runs[k])]
  {}

  lemma NothingAssembled()
    ensures Assemble([], [], [], []) == []
  {}

  lemma {:induction false} ColumnPrefixes(entries: Directory)
    requires Writable(entries) && entries != []
    requires Offsets(OffsetWords(entries), Lengths(entries)).Some?
    ensures var k := |entries| - 1;
            var init := entries[..k];
            && TileIds(Deltas(entries))[..k] == TileIds(Deltas(init))
            && Lengths(entries)[..k] == Lengths(init) && RunLengths(entries)[..k] == RunLengths(init)
            && Lengths(entries)[k] == entries[k].length && RunLengths(entries)[k] == entries[k].runLength
            && Offsets(OffsetWords(init), Lengths(init)).Some?
            && Offsets(OffsetWords(entries), Lengths(entries)).value[..k]
               == Offsets(OffsetWords(init), Lengths(init)).value
  {
    hide OffsetWord;
    var k := |entries| - 1;
    assert Deltas(entries)[..k] == Deltas(entries[..k]);
    assert OffsetWords(entries)[..k] == OffsetWords(entries[..k]);
    assert Lengths(entries)[..k] == Lengths(entries[..k]);
  }

  /** The four columns say everything about the directory. */
  lemma {:induction false} ColumnsAssemble(entries: Directory)
    requires Writable(entries)
    ensures Offsets(OffsetWords(entries), Lengths(entries)).Some? && AllU64(TileIds(Deltas(entries)))
    ensures Assemble(TileIds(Deltas(entries)), Offsets(OffsetWords(entries), Lengths(entries)).value,
                     Lengths(entries), RunLengths(entries)) == entries
    decreases |entries|
  {
    hide *;
    IdsRestored(entries);
    OffsetsRestored(entries);
    NothingAssembled();
    if entries != [] {
      var k := |entries| - 1;
      var init := entries[..k];
      WritablePrefix(entries);
      ColumnsAssemble(init);
      ColumnPrefixes(entries);
      AssembleStep(TileIds(Deltas(entries)), Offsets(OffsetWords(entries), Lengths(entries)).value,
                   Lengths(entries), RunLengths(entries));
      assert entries == init + [entries[k]];
    }
  }

  lemma EncodedColumns(entries: Directory)
    requires Writable(entries)
    ensures |entries| < U64_MODULUS
    ensures EncodeDirectory(entries)
            == Varint(|entries|) + Varints(Deltas(entries)) + Varints(RunLengths(entries))
               + Varints(Lengths(entries)) + Varints(OffsetWords(entries))
  {}

  lemma {:induction false} ColumnsAt(entries: Directory, k: nat)
    requires Writable(entries) && k < |entries|
    ensures Deltas(entries)[k] == entries[k].tileId - if k == 0 then 0 else entries[k - 1].tileId
    ensures RunLengths(entries)[k] == entries[k].runLength && Lengths(entries)[k] == entries[k].length
    ensures OffsetWords(entries)[k]
            == if k > 0 && entries[k].offset == entries[k - 1].offset + entries[k - 1].length then 0
               else entries[k].offset + 1
    decreases |entries|
  {
    var last := |entries| - 1;
    if k < last {
      WritablePrefix(entries);
      ColumnsAt(entries[..last], k);
    }
  }

  /**
   * What a directory looks like on disk: the count, then four columns, of identity steps, run
   * lengths, sizes, and offsets plus one with zero for an entry that follows its predecessor.
   */
  lemma {:induction false} DirectoryForm(entries: Directory) returns (columns: seq<seq<nat>>)
    requires Writable(entries)
    ensures |columns| == 4 && forall c :: 0 <= c < 4 ==> |columns[c]| == |entries|
    ensures EncodeDirectory(entries)
            == Varint(|entries|) + Varints(columns[0]) + Varints(columns[1]) + Varints(columns[2]) + Varints(columns[3])
    ensures forall k :: 0 <= k < |entries| ==>
      && columns[0][k] == entries[k].tileId - (if k == 0 then 0 else entries[k - 1].tileId)
      && columns[1][k] == entries[k].runLength && columns[2][k] == entries[k].length
      && columns[3][k] == (if k > 0 && entries[k].offset == entries[k - 1].offset + entries[k - 1].length then 0
                           else entries[k].offset + 1)
  {
    hide Writable, Varints, Varint;
    columns := [Deltas(entries), RunLengths(entries), Lengths(entries), OffsetWords(entries)];
    forall k | 0 <= k < |entries| {
      ColumnsAt(entries, k);
    }
  }

  lemma DecodeColumns(bytes: Bytes, n: nat, c0: nat, deltas: seq<nat>, c1: nat, runs: seq<nat>, c2: nat,
                      lengths: seq<nat>, c3: nat, words: seq<nat>)
    requires |deltas| == |runs| == |lengths| == |words| == n
    requires ReadVarint(bytes, 0) == Some((n, c0))
    requires ReadColumn(bytes, c0, n) == Some((deltas, c1)) && ReadColumn(bytes, c1, n) == Some((runs, c2))
    requires ReadColumn(bytes, c2, n) == Some((lengths, c3)) && ReadColumn(bytes, c3, n) == Some((words, |bytes|))
    requires AllU64(TileIds(deltas)) && 0 !in lengths && Offsets(words, lengths).Some?
    ensures DecodeDirectory(bytes)
            == if 0 < n <= MAX_ENTRIES
               then Some(Assemble(TileIds(deltas), Offsets(words, lengths).value, lengths, runs))
               else None
  {}

  /**
   * Round trip of a directory: it is read back exactly when it has between one and a million
   * entries; the writer has no such limit.
   */
  lemma DirectoryRoundTrip(entries: Directory)
    requires Writable(entries)
    ensures DecodeDirectory(EncodeDirectory(entries))
            == if 0 < |entries| <= MAX_ENTRIES then Some(entries) else None
  {
    hide *;
    var n := |entries|;
    var count, ids, runs := Varint(n), Varints(Deltas(entries)), Varints(RunLengths(entries));
    var lengths, words := Varints(Lengths(entries)), Varints(OffsetWords(entries));
    var bytes := count + ids + runs + lengths + words;
    EncodedColumns(entries);
    VarintRoundTrip([], n, ids + runs + lengths + words);
    assert [] + count + (ids + runs + lengths + words) == bytes;
    ColumnsFit(entries);
    ColumnRoundTrip(count, Deltas(entries), runs + lengths + words);
    assert count + ids + (runs + lengths + words) == bytes;
    ColumnRoundTrip(count + ids, RunLengths(entries), lengths + words);
    assert (count + ids) + runs + (lengths + words) == bytes;
    ColumnRoundTrip(count + ids + runs, Lengths(entries), words);
    ColumnRoundTrip(count + ids + runs + lengths, OffsetWords(entries), []);
    assert (count + ids + runs + lengths) + words + [] == bytes;
    ColumnsAssemble(entries);
    DecodeColumns(bytes, n, |count|, Deltas(entries), |count + ids|, RunLengths(entries), |count + ids + runs|,
                  Lengths(entries), |count + ids + runs + lengths|, OffsetWords(entries));
  }

  // ------------------------------------------------------------------ encoded sizes

  lemma {:induction false} VarintLength(v: nat, groups: nat)
    requires groups >= 1 && v < Pow128(groups)
    ensures 1 <= |Varint(v)| <= groups
    decreases v
  {
    if v >= 128 {
      VarintLength(v / 128, groups - 1);
    }
  }

  lemma {:induction false} ColumnLength(words: seq<nat>)
    requires AllU64(words)
    ensures |words| <= |Varints(words)| <= 10 * |words|
  {
    hide Varint, Pow128;
    if words != [] {
      TenGroups();
      VarintLength(words[0], 10);
      ColumnLength(words[1..]);
    }
  }

  /** A directory takes at least four bytes an entry. */
  lemma {:induction false} EncodedLength(entries: Directory)
    requires Writable(entries)
    ensures 1 + 4 * |entries| <= |EncodeDirectory(entries)| <= 10 + 40 * |entries|
  {
    hide Varint, Varints, Pow128, Deltas, RunLengths, Lengths, OffsetWords;
    TenGroups();
    VarintLength(|entries|, 10);
    ColumnsFit(entries);
    ColumnLength(Deltas(entries));
    ColumnLength(RunLengths(entries));
    ColumnLength(Lengths(entries));
    ColumnLength(OffsetWords(entries));
  }

  // ------------------------------------------------------------------ lookup

  /** The last of the leading entries whose identity does not exceed the tile's. */
  function FindEntry(entries: Directory, tileId: nat): Option<DirectoryEntry> {
    if entries == [] || entries[0].tileId > tileId then None
    else
      match FindEntry(entries[1..], tileId)
      case None => Some(entries[0])
      case Some(e) => Some(e)
  }

  predicate StrictlyAscending(entries: Directory) {
    forall j, k :: 0 <= j < k < |entries| ==> entries[j].tileId < entries[k].tileId
  }

  /** On strictly ascending identities the lookup answers the nearest entry at or below the tile. */
  lemma {:induction false} FindEntryIsNearest(entries: Directory, tileId: nat)
    requires StrictlyAscending(entries)
    ensures FindEntry(entries, tileId).None? <==> forall k :: 0 <= k < |entries| ==> tileId < entries[k].tileId
    ensures FindEntry(entries, tileId).Some? ==>
      exists k :: 0 <= k < |entries| && entries[k] == FindEntry(entries, tileId).value
                  && entries[k].tileId <= tileId && (k + 1 < |entries| ==> tileId < entries[k + 1].tileId)
    decreases |entries|
  {
    if entries != [] && entries[0].tileId <= tileId {
      var rest := entries[1..];
      FindEntryIsNearest(rest, tileId);
      match FindEntry(rest, tileId)
      case None =>
        if rest != [] { assert tileId < rest[0].tileId; }
        assert entries[0] == FindEntry(entries, tileId).value;
      case Some(e) =>
        var k :| 0 <= k < |rest| && rest[k] == e && rest[k].tileId <= tileId
                 && (k + 1 < |rest| ==> tileId < rest[k + 1].tileId);
        assert entries[k + 1] == e;
        if k + 1 < |rest| { assert entries[k + 2] == rest[k + 1]; }
    }
  }

  // ------------------------------------------------------------------ leaf directories

  function AllLeaves(leaves: seq<Directory>): Directory {
    if leaves == [] then [] else leaves[0] + AllLeaves(leaves[1..])
  }

  /** The root has one entry for each leaf, under the leaf's first identity. */
  predicate Heads(root: Directory, leaves: seq<Directory>) {
    |root| == |leaves| && forall k :: 0 <= k < |leaves| ==> leaves[k] != [] && root[k].tileId == leaves[k][0].tileId
  }

  lemma {:induction false} FindEntryInFront(a: Directory, b: Directory, tileId: nat)
    requires StrictlyAscending(a + b) && (b != [] ==> tileId < b[0].tileId)
    ensures FindEntry(a + b, tileId) == FindEntry(a, tileId)
    decreases |a|
  {
    if a == [] {
      assert a + b == b;
    } else {
      HeadAndTail(a, b);
      FindEntryInFront(a[1..], b, tileId);
    }
  }

  lemma {:induction false} FindEntryBehind(a: Directory, b: Directory, tileId: nat)
    requires StrictlyAscending(a + b) && b != [] && b[0].tileId <= tileId
    ensures FindEntry(a + b, tileId) == FindEntry(b, tileId) && FindEntry(b, tileId).Some?
    decreases |a|
  {
    if a == [] {
      assert a + b == b;
    } else {
      HeadAndTail(a, b);
      assert (a + b)[|a|] == b[0];
      FindEntryBehind(a[1..], b, tileId);
    }
  }

  lemma {:induction false} LeavesStart(leaves: seq<Directory>)
    requires leaves != [] && forall k :: 0 <= k < |leaves| ==> leaves[k] != []
    ensures AllLeaves(leaves) != [] && AllLeaves(leaves)[0] == leaves[0][0]
  {}

  lemma AscendingParts(a: Directory, b: Directory)
    requires StrictlyAscending(a + b)
    ensures StrictlyAscending(a) && StrictlyAscending(b)
  {
    assert forall k :: 0 <= k < |b| ==> (a + b)[|a| + k] == b[k];
    assert forall k :: 0 <= k < |a| ==> (a + b)[k] == a[k];
  }

  /** Looking into the leaf that the root selects answers like one directory of all the leaves' entries. */
  lemma {:induction false} LeavesLookUpAsOne(root: Directory, leaves: seq<Directory>, tileId: nat)
    returns (k: nat)
    requires Heads(root, leaves) && StrictlyAscending(AllLeaves(leaves))
    ensures FindEntry(root, tileId).None? <==> FindEntry(AllLeaves(leaves), tileId).None?
    ensures FindEntry(root, tileId).Some? ==>
      && k < |leaves| && FindEntry(root, tileId) == Some(root[k])
      && FindEntry(leaves[k], tileId) == FindEntry(AllLeaves(leaves), tileId)
    decreases |leaves|
  {
    k := 0;
    if leaves != [] {
      var rest := AllLeaves(leaves[1..]);
      HeadAndTail(leaves[0], rest);
      AscendingParts(leaves[0], rest);
      var j := LeavesLookUpAsOne(root[1..], leaves[1..], tileId);
      if |leaves| > 1 {
        LeavesStart(leaves[1..]);
      }
      if |leaves| > 1 && root[1].tileId <= tileId {
        assert (leaves[0] + rest)[|leaves[0]|] == rest[0];
        FindEntryBehind(leaves[0], rest, tileId);
        k := j + 1;
      } else {
        FindEntryInFront(leaves[0], rest, tileId);
      }
    }
  }

  // ------------------------------------------------------------------ the loops

  method ParseVarint(bytes: Bytes, cursor0: nat) returns (r: Option<(nat, nat)>)
    ensures r == ReadVarint(bytes, cursor0)
  {
    hide Pow128;
    var value: nat, cursor: nat := 0, cursor0;
    for i := 0 to 10
      invariant ReadGroups(bytes, cursor, i, value) == ReadVarint(bytes, cursor0)
    {
      if cursor >= |bytes| {
        return None;
      }
      var byte := bytes[cursor];
      cursor := cursor + 1;
      value := value + (byte % 128) * Pow128(i) % U64_MODULUS;
      if byte < 128 {
        return Some((value, cursor));
      }
    }
    return None;
  }

  /** A column is what has been read so far and what the rest of it reads. */
  ghost predicate ReadSoFar(bytes: Bytes, cursor0: nat, n: nat, words: seq<nat>, cursor: nat) {
    |words| <= n
    && var rest := ReadColumn(bytes, cursor, n - |words|);
       ReadColumn(bytes, cursor0, n) == if rest.None? then None else Some((words + rest.value.0, rest.value.1))
  }

  lemma NothingReadYet(bytes: Bytes, cursor: nat, n: nat)
    ensures ReadSoFar(bytes, cursor, n, [], cursor)
  {
    if ReadColumn(bytes, cursor, n).Some? {
      assert [] + ReadColumn(bytes, cursor, n).value.0 == ReadColumn(bytes, cursor, n).value.0;
    }
  }

  /** One more number, or the end of the column's chances. */
  lemma {:induction false} ReadOneMore(bytes: Bytes, cursor0: nat, n: nat, words: seq<nat>, cursor: nat)
    requires ReadSoFar(bytes, cursor0, n, words, cursor) && |words| < n
    ensures var read := ReadVarint(bytes, cursor);
            if read.None? then ReadColumn(bytes, cursor0, n).None?
            else ReadSoFar(bytes, cursor0, n, words + [read.value.0], read.value.1)
  {
    hide ReadVarint;
    match ReadVarint(bytes, cursor)
    case None =>
    case Some((word, next)) =>
      var rest := ReadColumn(bytes, next, n - |words| - 1);
      if rest.Some? {
        AppendAssociates(words, [word], rest.value.0);
      }
  }

  lemma {:induction false} AllRead(bytes: Bytes, cursor0: nat, n: nat, words: seq<nat>, cursor: nat)
    requires ReadSoFar(bytes, cursor0, n, words, cursor) && |words| == n
    ensures ReadColumn(bytes, cursor0, n) == Some((words, cursor))
  {
    assert words + [] == words;
  }

  // Each loop stores its column into the entries.

  function WithIds(entries: Directory, ids: seq<nat>): (r: Directory)
    requires |ids| <= |entries|
    ensures |r| == |entries|
  {
    seq(|entries|, k requires 0 <= k < |entries| => if k < |ids| then entries[k].(tileId := ids[k]) else entries[k])
  }

  function WithRuns(entries: Directory, runs: seq<nat>): (r: Directory)
    requires |runs| <= |entries|
    ensures |r| == |entries|
  {
    seq(|entries|, k requires 0 <= k < |entries| =>
          if k < |runs| then entries[k].(runLength := runs[k]) else entries[k])
  }

  function WithLengths(entries: Directory, lengths: seq<nat>): (r: Directory)
    requires |lengths| <= |entries|
    ensures |r| == |entries|
  {
    seq(|entries|, k requires 0 <= k < |entries| =>
          if k < |lengths| then entries[k].(length := lengths[k]) else entries[k])
  }

  function WithOffsets(entries: Directory, offsets: seq<nat>): (r: Directory)
    requires |offsets| <= |entries|
    ensures |r| == |entries|
  {
    seq(|entries|, k requires 0 <= k < |entries| =>
          if k < |offsets| then entries[k].(offset := offsets[k]) else entries[k])
  }

  /** A column that overflows stays overflowing, whatever follows. */
  lemma {:induction false} OverflowStays(words: seq<nat>, rest: seq<nat>)
    requires !AllU64(TileIds(words))
    ensures !AllU64(TileIds(words + rest))
    decreases |rest|
  {
    hide TileIds;
    if rest == [] {
      assert words + rest == words;
    } else {
      var init, last := rest[..|rest| - 1], rest[|rest| - 1];
      OverflowStays(words, init);
      AppendAssociates(words, init, [last]);
      assert rest == init + [last];
      IdsOfOneMore(words + init, last);
      var before := TileIds(words + init);
      var k :| 0 <= k < |before| && before[k] >= U64_MODULUS;
      assert TileIds(words + rest)[k] == before[k];
    }
  }

  lemma RefusedWhole(bytes: Bytes, cursor0: nat, n: nat, words: seq<nat>, cursor: nat)
    requires ReadSoFar(bytes, cursor0, n, words, cursor) && !AllU64(TileIds(words))
    ensures ReadColumn(bytes, cursor0, n).Some? ==> !AllU64(TileIds(ReadColumn(bytes, cursor0, n).value.0))
  {
    hide AllU64, TileIds;
    var rest := ReadColumn(bytes, cursor, n - |words|);
    if rest.Some? {
      OverflowStays(words, rest.value.0);
    }
  }

  method ReadIds(bytes: Bytes, cursor0: nat, entries0: Directory) returns (r: Option<(Directory, nat)>)
    ensures var column := ReadColumn(bytes, cursor0, |entries0|);
            r == if column.None? || !AllU64(TileIds(column.value.0)) then None
                 else Some((WithIds(entries0, TileIds(column.value.0)), column.value.1))
  {
    hide ReadVarint, ReadColumn, TileIds, ReadSoFar;
    var entries, cursor, lastId: nat := entries0, cursor0, 0;
    ghost var words: seq<nat> := [];
    NothingReadYet(bytes, cursor0, |entries0|);
    NoIds();
    for k := 0 to |entries|
      invariant |words| == k && ReadSoFar(bytes, cursor0, |entries0|, words, cursor)
      invariant AllU64(TileIds(words)) && lastId == if k == 0 then 0 else TileIds(words)[k - 1]
      invariant |entries| == |entries0| && entries == WithIds(entries0, TileIds(words))
    {
      ReadOneMore(bytes, cursor0, |entries0|, words, cursor);
      var read := ParseVarint(bytes, cursor);
      if read.None? {
        return None;
      }
      IdsOfOneMore(words, read.value.0);
      words := words + [read.value.0];
      if lastId + read.value.0 >= U64_MODULUS {
        assert TileIds(words)[k] >= U64_MODULUS;
        RefusedWhole(bytes, cursor0, |entries0|, words, read.value.1);
        return None;
      }
      lastId, cursor := lastId + read.value.0, read.value.1;
      entries := entries[k := entries[k].(tileId := lastId)];
    }
    AllRead(bytes, cursor0, |entries0|, words, cursor);
    r := Some((entries, cursor));
  }

  method ReadRuns(bytes: Bytes, cursor0: nat, entries0: Directory) returns (r: Option<(Directory, nat)>)
    ensures var column := ReadColumn(bytes, cursor0, |entries0|);
            r == if column.None? then None else Some((WithRuns(entries0, column.value.0), column.value.1))
  {
    hide ReadVarint, ReadColumn, ReadSoFar;
    var entries, cursor := entries0, cursor0;
    ghost var words: seq<nat> := [];
    NothingReadYet(bytes, cursor0, |entries0|);
    for k := 0 to |entries|
      invariant |words| == k && ReadSoFar(bytes, cursor0, |entries0|, words, cursor)
      invariant |entries| == |entries0| && entries == WithRuns(entries0, words)
    {
      ReadOneMore(bytes, cursor0, |entries0|, words, cursor);
      var read := ParseVarint(bytes, cursor);
      if read.None? {
        return None;
      }
      words, cursor := words + [read.value.0], read.value.1;
      entries := entries[k := entries[k].(runLength := read.value.0)];
    }
    AllRead(bytes, cursor0, |entries0|, words, cursor);
    r := Some((entries, cursor));
  }

  method ReadLengths(bytes: Bytes, cursor0: nat, entries0: Directory) returns (r: Option<(Directory, nat)>)
    ensures var column := ReadColumn(bytes, cursor0, |entries0|);
            r == if column.None? || 0 in column.value.0 then None
                 else Some((WithLengths(entries0, column.value.0), column.value.1))
  {
    hide ReadVarint, ReadColumn;
    var entries, cursor := entries0, cursor0;
    ghost var words: seq<nat> := [];
    NothingReadYet(bytes, cursor0, |entries0|);
    for k := 0 to |entries|
      invariant |words| == k && ReadSoFar(bytes, cursor0, |entries0|, words, cursor) && 0 !in words
      invariant |entries| == |entries0| && entries == WithLengths(entries0, words)
    {
      ReadOneMore(bytes, cursor0, |entries0|, words, cursor);
      var read := ParseVarint(bytes, cursor);
      if read.None? {
        return None;
      }
      words, cursor := words + [read.value.0], read.value.1;
      entries := entries[k := entries[k].(length := read.value.0)];
      if entries[k].length == 0 {
        return None;
      }
    }
    AllRead(bytes, cursor0, |entries0|, words, cursor);
    r := Some((entries, cursor));
  }

  /** An offset that cannot be restored spoils the column, whatever follows. */
  lemma {:induction false} FailureStays(words: seq<nat>, lengths: seq<nat>, k: nat)
    requires |words| == |lengths| && k <= |words| && Offsets(words[..k], lengths[..k]).None?
    ensures Offsets(words, lengths).None?
    decreases |words|
  {
    if k == |words| {
      assert words[..k] == words && lengths[..k] == lengths;
    } else {
      var n := |words| - 1;
      assert words[..n][..k] == words[..k] && lengths[..n][..k] == lengths[..k];
      FailureStays(words[..n], lengths[..n], k);
    }
  }

  lemma NoOffsetsYet(lengths: seq<nat>)
    ensures Offsets([], lengths[..0]) == Some([])
  {}

  lemma {:induction false} LengthAt(entries: Directory, k: nat)
    requires k < |entries|
    ensures Lengths(entries)[k] == entries[k].length
    decreases |entries|
  {
    if k < |entries| - 1 {
      LengthAt(entries[..|entries| - 1], k);
    }
  }

  /** What one turn of the offset loop finds, in terms of the entries. */
  lemma {:induction false} OffsetStep(words: seq<nat>, entries: Directory, k: nat, encoded: nat, offsets: seq<nat>)
    requires |words| == |offsets| == k < |entries| && Offsets(words, Lengths(entries)[..k]) == Some(offsets)
    ensures Offsets(words + [encoded], Lengths(entries)[..k + 1])
            == if encoded == 0 && k > 0 then
                 if offsets[k - 1] + entries[k - 1].length < U64_MODULUS
                 then Some(offsets + [offsets[k - 1] + entries[k - 1].length]) else None
               else if encoded > 0 then Some(offsets + [encoded - 1])
               else None
  {
    hide Offsets, Lengths;
    var more, lengths := words + [encoded], Lengths(entries)[..k + 1];
    InitAndLast(words, encoded);
    assert lengths[..k] == Lengths(entries)[..k];
    OffsetsOfOneMore(more, lengths);
    if k > 0 {
      LengthAt(entries, k - 1);
    }
  }

  lemma SpoiledWhole(bytes: Bytes, cursor0: nat, n: nat, words: seq<nat>, cursor: nat, lengths: seq<nat>)
    requires ReadSoFar(bytes, cursor0, n, words, cursor) && |lengths| == n && Offsets(words, lengths[..|words|]).None?
    ensures ReadColumn(bytes, cursor0, n).Some? ==> Offsets(ReadColumn(bytes, cursor0, n).value.0, lengths).None?
  {
    hide Offsets;
    var rest := ReadColumn(bytes, cursor, n - |words|);
    if rest.Some? {
      var all := words + rest.value.0;
      assert all[..|words|] == words;
      FailureStays(all, lengths, |words|);
    }
  }

  method ReadOffsets(bytes: Bytes, cursor0: nat, entries0: Directory) returns (r: Option<(Directory, nat)>)
    ensures var column := ReadColumn(bytes, cursor0, |entries0|);
            r == if column.None? || Offsets(column.value.0, Lengths(entries0)).None? then None
                 else Some((WithOffsets(entries0, Offsets(column.value.0, Lengths(entries0)).value), column.value.1))
  {
    hide ReadVarint, ReadColumn, Offsets, Lengths, ReadSoFar;
    var entries, cursor := entries0, cursor0;
    ghost var words: seq<nat>, lengths := [], Lengths(entries0);
    ghost var offsets: seq<nat> := [];
    NothingReadYet(bytes, cursor0, |entries0|);
    NoOffsetsYet(lengths);
    for k := 0 to |entries|
      invariant |words| == |offsets| == k && ReadSoFar(bytes, cursor0, |entries0|, words, cursor)
      invariant Offsets(words, lengths[..k]) == Some(offsets)
      invariant |entries| == |entries0| && entries == WithOffsets(entries0, offsets)
    {
      ReadOneMore(bytes, cursor0, |entries0|, words, cursor);
      var read := ParseVarint(bytes, cursor);
      if read.None? {
        return None;
      }
      var encoded, next := read.value.0, read.value.1;
      OffsetStep(words, entries0, k, encoded, offsets);
      words := words + [encoded];
      var offset;
      if encoded == 0 && k > 0 {
        offset := entries[k - 1].offset + entries[k - 1].length;
        if offset >= U64_MODULUS {
          SpoiledWhole(bytes, cursor0, |entries0|, words, next, lengths);
          return None;
        }
      } else if encoded > 0 {
        offset := encoded - 1;
      } else {
        SpoiledWhole(bytes, cursor0, |entries0|, words, next, lengths);
        return None;
      }
      entries := entries[k := entries[k].(offset := offset)];
      offsets, cursor := offsets + [offset], next;
    }
    AllRead(bytes, cursor0, |entries0|, words, cursor);
    assert lengths[..|entries0|] == lengths;
    r := Some((entries, cursor));
  }

  lemma {:induction false} AssembleAt(ids: seq<nat>, offsets: seq<nat>, lengths: seq<nat>, runs: seq<nat>, k: nat)
    requires |ids| == |offsets| == |lengths| == |runs| && k < |ids|
    ensures Assemble(ids, offsets, lengths, runs)[k] == DirectoryEntry(ids[k], offsets[k], lengths[k], runs[k])
    decreases |ids|
  {
    hide Assemble;
    AssembleStep(ids, offsets, lengths, runs);
    var n := |ids| - 1;
    if k < n {
      AssembleAt(ids[..n], offsets[..n], lengths[..n], runs[..n], k);
    }
  }

  /** Storing the four columns one after the other assembles the directory. */
  lemma ColumnsStored(blank: Directory, ids: seq<nat>, runs: seq<nat>, lengths: seq<nat>, offsets: seq<nat>)
    requires |blank| == |ids| == |runs| == |lengths| == |offsets|
    ensures WithOffsets(WithLengths(WithRuns(WithIds(blank, ids), runs), lengths), offsets)
            == Assemble(ids, offsets, lengths, runs)
  {
    hide Assemble;
    forall k | 0 <= k < |blank|
      ensures Assemble(ids, offsets, lengths, runs)[k] == DirectoryEntry(ids[k], offsets[k], lengths[k], runs[k])
    {
      AssembleAt(ids, offsets, lengths, runs, k);
    }
  }

  lemma LengthsStored(entries: Directory, lengths: seq<nat>)
    requires |lengths| == |entries|
    ensures Lengths(WithLengths(entries, lengths)) == lengths
  {
    hide Lengths;
    var stored := WithLengths(entries, lengths);
    forall k | 0 <= k < |entries| ensures Lengths(stored)[k] == lengths[k] {
      LengthAt(stored, k);
    }
  }

  method ParseDirectory(bytes: Bytes) returns (r: Option<Directory>)
    ensures r == DecodeDirectory(bytes)
  {
    hide ReadVarint, ReadColumn, TileIds, Offsets, Assemble, Lengths, WithIds, WithRuns, WithLengths, WithOffsets;
    hide AllU64;
    var header := ParseVarint(bytes, 0);
    if header.None? || header.value.0 == 0 || header.value.0 > MAX_ENTRIES {
      return None;
    }
    var count := header.value.0;
    var blank := seq(count, _ => DirectoryEntry(0, 0, 0, 0));
    var ids := ReadIds(bytes, header.value.1, blank);
    if ids.None? {
      return None;
    }
    var runs := ReadRuns(bytes, ids.value.1, ids.value.0);
    if runs.None? {
      return None;
    }
    var lengths := ReadLengths(bytes, runs.value.1, runs.value.0);
    if lengths.None? {
      return None;
    }
    ghost var column := ReadColumn(bytes, runs.value.1, count).value.0;
    LengthsStored(runs.value.0, column);
    var offsets := ReadOffsets(bytes, lengths.value.1, lengths.value.0);
    if offsets.None? || offsets.value.1 != |bytes| {
      return None;
    }
    ColumnsStored(blank, TileIds(ReadColumn(bytes, header.value.1, count).value.0),
                  ReadColumn(bytes, ids.value.1, count).value.0, column,
                  Offsets(ReadColumn(bytes, lengths.value.1, count).value.0, column).value);
    r := Some(offsets.value.0);
  }

  // ------------------------------------------------------------------ the writing loops

  lemma VarintsOfOneMore(words: seq<nat>, word: nat)
    ensures Varints(words + [word]) == Varints(words) + Varint(word)
  {
    VarintsSplit(words, [word]);
    assert [word][1..] == [];
    assert Varint(word) + [] == Varint(word);
  }

  /** One number more behind a column. */
  method PushOneMore(buffer0: Bytes, buffer: Bytes, ghost words: seq<nat>, word: U64) returns (r: Bytes)
    requires buffer == buffer0 + Varints(words)
    ensures r == buffer0 + Varints(words + [word])
  {
    hide Varints, Varint;
    VarintsOfOneMore(words, word);
    r := PushVarint(buffer, word);
    AppendAssociates(buffer0, Varints(words), Varint(word));
  }

  lemma WritablePrefixes(entries: Directory, k: nat)
    requires Writable(entries) && k <= |entries|
    ensures Writable(entries[..k])
    ensures forall i :: 0 <= i < |entries| ==>
      entries[i].runLength < U64_MODULUS && entries[i].length < U64_MODULUS && entries[i].offset + 1 < U64_MODULUS
  {}

  method PushIds(buffer: Bytes, entries: Directory) returns (r: Bytes)
    requires Writable(entries)
    ensures r == buffer + Varints(Deltas(entries))
  {
    hide Varints, Deltas, Writable;
    r := buffer;
    var lastId: nat := 0;
    NoIds();
    NothingRead([], 0);
    WritablePrefixes(entries, 0);
    assert entries[..0] == [];
    for k := 0 to |entries|
      invariant Writable(entries[..k]) && r == buffer + Varints(Deltas(entries[..k]))
      invariant lastId == if k == 0 then 0 else entries[k - 1].tileId
    {
      WritablePrefixes(entries, k + 1);
      assert entries[..k + 1][..k] == entries[..k];
      LastDelta(entries[..k + 1]);
      r := PushOneMore(buffer, r, Deltas(entries[..k]), entries[k].tileId - lastId);
      lastId := entries[k].tileId;
    }
    assert entries[..|entries|] == entries;
  }

  method PushRuns(buffer: Bytes, entries: Directory) returns (r: Bytes)
    requires Writable(entries)
    ensures r == buffer + Varints(RunLengths(entries))
  {
    hide Varints, Writable;
    r := buffer;
    NothingRead([], 0);
    WritablePrefixes(entries, 0);
    for k := 0 to |entries|
      invariant r == buffer + Varints(RunLengths(entries[..k]))
    {
      assert entries[..k + 1][..k] == entries[..k];
      r := PushOneMore(buffer, r, RunLengths(entries[..k]), entries[k].runLength);
    }
    assert entries[..|entries|] == entries;
  }

  method PushLengths(buffer: Bytes, entries: Directory) returns (r: Bytes)
    requires Writable(entries)
    ensures r == buffer + Varints(Lengths(entries))
  {
    hide Varints, Writable;
    r := buffer;
    NothingRead([], 0);
    WritablePrefixes(entries, 0);
    for k := 0 to |entries|
      invariant r == buffer + Varints(Lengths(entries[..k]))
    {
      assert entries[..k + 1][..k] == entries[..k];
      r := PushOneMore(buffer, r, Lengths(entries[..k]), entries[k].length);
    }
    assert entries[..|entries|] == entries;
  }

  method PushOffsets(buffer: Bytes, entries: Directory) returns (r: Bytes)
    requires Writable(entries)
    ensures r == buffer + Varints(OffsetWords(entries))
  {
    hide Varints, Writable;
    r := buffer;
    NothingRead([], 0);
    WritablePrefixes(entries, 0);
    for k := 0 to |entries|
      invariant r == buffer + Varints(OffsetWords(entries[..k]))
    {
      assert entries[..k + 1][..k] == entries[..k];
      var word;
      if k == 0 {
        word := entries[k].offset + 1;
      } else if entries[k - 1].offset + entries[k - 1].length == entries[k].offset {
        word := 0;
      } else {
        word := entries[k].offset + 1;
      }
      assert word == OffsetWord(entries[..k + 1], k);
      r := PushOneMore(buffer, r, OffsetWords(entries[..k]), word);
    }
    assert entries[..|entries|] == entries;
  }

  method WriteDirectory(entries: Directory) returns (buffer: Bytes)
    requires Writable(entries)
    ensures buffer == EncodeDirectory(entries)
  {
    hide Varint, Varints, Writable, Deltas, RunLengths, Lengths, OffsetWords;
    EncodedColumns(entries);
    buffer := PushVarint([], |entries|);
    buffer := PushIds(buffer, entries);
    buffer := PushRuns(buffer, entries);
    buffer := PushLengths(buffer, entries);
    buffer := PushOffsets(buffer, entries);
  }
}
