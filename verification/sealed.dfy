/** The bytes of a finished packfile, as a function of its items and settings, and what a reader
  finds in them. */
module SealedFile {
  import opened Bytes
  import opened Results
  import opened Environment
  import opened Intpack
  import opened Index
  import opened Records
  import opened Chunks
  import opened ContentHashing
  import opened FileFormat

  datatype Settings = Settings(format: Format, itemsPerRecord: nat, hashing: bool)
  {
    predicate Valid() { itemsPerRecord > 0 }
  }

  ghost predicate NoneEmpty(chunks: seq<seq<Item>>)
  {
    forall i :: 0 <= i < |chunks| ==> |chunks[i]| > 0
  }

  /** The records of a list of chunks. */
  ghost function RecordsOf(env: Env, s: Settings, chunks: seq<seq<Item>>): (rs: seq<seq<byte>>)
    requires NoneEmpty(chunks)
    ensures |rs| == |chunks|
  {
    seq(|chunks|, i requires 0 <= i < |chunks| => RecordBytes(env, s.format, s.itemsPerRecord, chunks[i]))
  }

  /** Start of each record and, last, the end of the data section. */
  ghost function OffsetsOf(records: seq<seq<byte>>): (os: seq<int>)
    ensures |os| == |records| + 1
  {
    seq(|records| + 1, i requires 0 <= i <= |records| => |Flatten(records[..i])|)
  }

  ghost function TrailerOf(s: Settings, recordCount: nat, total: nat, hash: Digest, indexSize: nat, appDataSize: nat): RawTrailer
  {
    RawTrailer(MAGIC, VERSION, FlagsOf(s.format, s.hashing),
               recordCount % TWO32, total % TWO32, s.itemsPerRecord % TWO32,
               indexSize % TWO32, appDataSize % TWO32, hash, GROUP_SIZE)
  }

  ghost function AppSection(appData: seq<byte>): seq<byte>
  {
    if |appData| % TWO32 > 0 then appData else []
  }

  /** What follows the records: index, application data, trailer. */
  ghost function TailBytes(env: Env, s: Settings, recordCount: nat, total: nat, hash: Digest,
                           index: seq<byte>, appData: seq<byte>): seq<byte>
  {
    index + AppSection(appData)
      + TrailerBytes(env, TrailerOf(s, recordCount, total, hash, |index|, |appData|))
  }

  /** The file made of given records, or the error that stops Finish. */
  ghost function Layout(env: Env, s: Settings, records: seq<seq<byte>>, total: nat, hash: Digest,
                        appData: seq<byte>): Result<seq<byte>>
  {
    if total > MAX_UINT32 then Err(TooManyItems)
    else
      match EncodedIndex(env.crc, OffsetsOf(records))
      case Err(e) => Err(e)
      case Ok(index) => Ok(Flatten(records) + TailBytes(env, s, |records|, total, hash, index, appData))
  }

  ghost function HashField(env: Env, s: Settings, items: seq<Item>): (h: Digest)
    requires s.Valid()
  {
    if s.hashing then ContentHash(env, s.itemsPerRecord, items) else NO_HASH
  }

  /** The finished file of an item list: no trace of how it was written. */
  ghost function FileOf(env: Env, s: Settings, items: seq<Item>, appData: seq<byte>): Result<seq<byte>>
    requires s.Valid()
  {
    Layout(env, s, RecordsOf(env, s, ChunksOf(items, s.itemsPerRecord)), |items|, HashField(env, s, items), appData)
  }

  // ---------------------------------------------------------------- reading records and items

  lemma {:induction false} OffsetsMonotone(os: seq<int>, i: nat, j: nat)
    requires ValidOffsets(os) && i <= j < |os|
    ensures os[i] <= os[j]
    decreases j - i
  {
    if i < j {
      OffsetsMonotone(os, i, j - 1);
      assert RecordFits(os, j - 1);
    }
  }

  /** The bytes of record r of an opened file. */
  ghost function RecordAt(o: Opened, file: seq<byte>, r: nat): seq<byte>
    requires o.Sound(file) && r + 1 < |o.offsets|
  {
    OffsetsMonotone(o.offsets, 0, r);
    OffsetsMonotone(o.offsets, r, r + 1);
    OffsetsMonotone(o.offsets, r + 1, |o.offsets| - 1);
    file[o.offsets[r]..o.offsets[r + 1]]
  }

  ghost function RecordOf(env: Env, o: Opened, file: seq<byte>, r: nat): Result<Decoded>
    requires o.Sound(file) && r + 1 < |o.offsets|
    requires RecordInRange(o.totalItems, o.itemsPerRecord, r)
  {
    DecodedRecord(env, o.format, o.totalItems, o.itemsPerRecord, r, RecordAt(o, file, r))
  }

  /** What reading one position yields. In a file accepted without the cross-check a position can
    lie beyond the records; indexing the offsets then panics. */
  ghost function ItemOf(env: Env, o: Opened, file: seq<byte>, position: int): Result<Item>
    requires o.Sound(file)
  {
    if position < 0 || position >= o.totalItems then Err(OutOfRange)
    else
      PositionResolves(o.totalItems, o.itemsPerRecord, position);
      var r := position / o.itemsPerRecord;
      if r + 1 >= |o.offsets| then Err(Panic)
      else
        match RecordOf(env, o, file, r)
        case Err(e) => Err(e)
        case Ok(d) =>
          DecodedPartition(env, o.format, o.totalItems, o.itemsPerRecord, r, RecordAt(o, file, r));
          Ok(d.ItemAt(position % o.itemsPerRecord))
  }

  // ---------------------------------------------------------------- reads that panic

  /** No record that holds a position makes the decoder write past its offsets. */
  lemma PositionsDecodeSafely(env: Env, o: Opened, file: seq<byte>, position: nat)
    requires o.Sound(file) && position < o.totalItems && position / o.itemsPerRecord + 1 < |o.offsets|
    ensures RecordInRange(o.totalItems, o.itemsPerRecord, position / o.itemsPerRecord)
    ensures RecordOf(env, o, file, position / o.itemsPerRecord) != Err(Panic)
  {
    hide DecodedRecord, ValidOffsets, RecordAt, OpenPayload;
    PositionResolves(o.totalItems, o.itemsPerRecord, position);
    var r := position / o.itemsPerRecord;
    PanicsExactly(env, o.format, o.totalItems, o.itemsPerRecord, r, RecordAt(o, file, r));
  }

  lemma UncheckedAccepted(env: Env, file: seq<byte>)
    requires OpenedFile(env, file).Ok? && StoredItemsPerRecord(file) == 0
    ensures OpenedFile(env, file).value.itemsPerRecord == 1 && |OpenedFile(env, file).value.offsets| == 1
  {
  }

  lemma NoRecordsPanics(env: Env, o: Opened, file: seq<byte>)
    requires o.Sound(file) && o.totalItems > 0 && o.itemsPerRecord == 1 && |o.offsets| == 1
    ensures ItemOf(env, o, file, 0) == Err(Panic)
  {
    hide RecordOf;
  }

  lemma CompletePanicsNever(env: Env, o: Opened, file: seq<byte>, p: int)
    requires o.Sound(file) && o.Complete()
    ensures ItemOf(env, o, file, p) != Err(Panic)
  {
    hide RecordOf, Opened.Sound;
    if 0 <= p < o.totalItems {
      PositionResolves(o.totalItems, o.itemsPerRecord, p);
      PositionsDecodeSafely(env, o, file, p);
    }
  }

  lemma SomePanic(env: Env, o: Opened, file: seq<byte>)
    requires o.Sound(file) && (o.Complete() || (o.totalItems > 0 && o.itemsPerRecord == 1 && |o.offsets| == 1))
    ensures (exists p: int :: ItemOf(env, o, file, p) == Err(Panic)) <==> !o.Complete()
  {
    hide ItemOf, Opened.Sound, Opened.Complete;
    if o.Complete() {
      forall p: int ensures ItemOf(env, o, file, p) != Err(Panic) {
        CompletePanicsNever(env, o, file, p);
      }
    } else {
      NoRecordsPanics(env, o, file);
    }
  }

  /** Reading some position of an accepted file panics exactly when the trailer stores no items for each
    record and yet claims items: the file is accepted without records, so the offsets cover none. */
  lemma ReadPanicsExactly(env: Env, file: seq<byte>)
    requires OpenedFile(env, file).Ok?
    ensures |file| >= TRAILER_SIZE && OpenedFile(env, file).value.Sound(file)
    ensures var o := OpenedFile(env, file).value;
      (exists p: int :: ItemOf(env, o, file, p) == Err(Panic)) <==> StoredItemsPerRecord(file) == 0 && o.totalItems > 0
  {
    AcceptedSound(env, file);
    AcceptedComplete(env, file);
    hide ItemOf, StoredItemsPerRecord, Opened.Sound, Opened.Complete;
    if StoredItemsPerRecord(file) == 0 {
      UncheckedAccepted(env, file);
    }
    hide OpenedFile;
    SomePanic(env, OpenedFile(env, file).value, file);
  }

  /** The file that claims one item and stores no records and no items for each record. */
  ghost function UncheckedFile(env: Env): seq<byte>
  {
    PutLE(env.crc([]), 4) + TrailerBytes(env, RawTrailer(MAGIC, VERSION, 0, 0, 1, 0, 4, 0, NO_HASH, GROUP_SIZE))
  }

  /** The index of no records is a bare checksum. */
  lemma EmptyIndex(env: Env)
    ensures DecodedIndex(env.crc, PutLE(env.crc([]), 4), 0, 0) == Ok([0])
  {
    assert Deltas([0]) == [];
    GroupsBytesNone([]);
    assert IndexPayload([]) == [] by { assert GroupCount(0) == 0; }
    assert IndexBytes(env.crc, []) == [] + PutLE(env.crc([]), 4);
    hide DecodedIndex;
    IndexRoundTrip(env.crc, [0]);
  }

  /** Such a file is accepted, and reading its one position panics. */
  lemma AcceptedAndPanics(env: Env)
    ensures OpenedFile(env, UncheckedFile(env)).Ok? && OpenedFile(env, UncheckedFile(env)).value.totalItems == 1
    ensures OpenedFile(env, UncheckedFile(env)).value.Sound(UncheckedFile(env))
    ensures ItemOf(env, OpenedFile(env, UncheckedFile(env)).value, UncheckedFile(env), 0) == Err(Panic)
  {
    hide TrailerBytes, ParseTrailer, U32At, NO_HASH, ItemOf, Opened.Sound;
    var f := UncheckedFile(env);
    var t := RawTrailer(MAGIC, VERSION, 0, 0, 1, 0, 4, 0, NO_HASH, GROUP_SIZE);
    TrailerRoundTrip(env, t);
    assert f[|f| - TRAILER_SIZE..] == TrailerBytes(env, t);
    assert f[0..4] == PutLE(env.crc([]), 4);
    EmptyIndex(env);
    AcceptedSound(env, f);
    NoRecordsPanics(env, OpenedFile(env, f).value, f);
  }

  /** A record never decodes to the error for a position out of range. */
  lemma DecodeErrors(env: Env, format: Format, totalItems: nat, itemsPerRecord: int, recordIdx: int, data: seq<byte>)
    requires RecordInRange(totalItems, itemsPerRecord, recordIdx)
    ensures DecodedRecord(env, format, totalItems, itemsPerRecord, recordIdx, data) != Err(OutOfRange)
  {
    hide Unpacked, ItemsInRecord;
  }

  /** An item is what the sizes cut out of the payload: it begins behind all items before it. */
  lemma ItemLaw(d: Decoded, i: nat)
    requires d.Fits() && i < |d.sizes|
    ensures Sum(d.sizes[..i]) + d.sizes[i] <= |d.payload|
    ensures |d.ItemAt(i)| == d.sizes[i]
    ensures forall j :: 0 <= j < d.sizes[i] ==> d.ItemAt(i)[j] == d.payload[Sum(d.sizes[..i]) + j]
  {
    SumMonotone(d.sizes, i + 1, |d.sizes|);
    SumNext(d.sizes, i);
    assert d.sizes[..|d.sizes|] == d.sizes;
    hide Sum;
  }

  /** A position is refused as out of range exactly when it is not one of the items; of any other position the
    record, found by division, decides, and the item is the part of it that the sizes cut out. */
  lemma PositionLaw(env: Env, o: Opened, file: seq<byte>, position: int)
    requires o.Sound(file) && o.Complete()
    ensures ItemOf(env, o, file, position) == Err(OutOfRange) <==> position < 0 || position >= o.totalItems
    ensures 0 <= position < o.totalItems ==>
      var k := o.itemsPerRecord;
      var r, i := position / k, position % k;
      && 0 <= r && r + 1 < |o.offsets| && RecordInRange(o.totalItems, k, r)
      && 0 <= o.offsets[r] <= o.offsets[r + 1] <= |file|
      && var d := DecodedRecord(env, o.format, o.totalItems, k, r, file[o.offsets[r]..o.offsets[r + 1]]);
      && (d.Err? ==> ItemOf(env, o, file, position) == Err(d.error))
      && (d.Ok? ==>
            d.value.Fits() && i < |d.value.sizes| && ItemOf(env, o, file, position) == Ok(d.value.ItemAt(i)))
  {
    assert o.offsets[0] == 0;
    hide DecodedRecord, ItemsInRecord, ValidOffsets, Decoded.Fits, Decoded.ItemAt, RecordCount;
    if 0 <= position < o.totalItems {
      PositionResolves(o.totalItems, o.itemsPerRecord, position);
      var r, i: nat := position / o.itemsPerRecord, position % o.itemsPerRecord;
      OffsetsMonotone(o.offsets, 0, r);
      OffsetsMonotone(o.offsets, r, r + 1);
      OffsetsMonotone(o.offsets, r + 1, |o.offsets| - 1);
      assert RecordAt(o, file, r) == file[o.offsets[r]..o.offsets[r + 1]];
      DecodeErrors(env, o.format, o.totalItems, o.itemsPerRecord, r, RecordAt(o, file, r));
      var d := DecodedRecord(env, o.format, o.totalItems, o.itemsPerRecord, r, RecordAt(o, file, r));
      if d.Ok? {
        DecodedPartition(env, o.format, o.totalItems, o.itemsPerRecord, r, RecordAt(o, file, r));
      }
    }
  }

  // ---------------------------------------------------------------- round trip

  lemma OffsetsOfAt(records: seq<seq<byte>>, i: nat)
    requires i <= |records|
    ensures OffsetsOf(records)[i] == |Flatten(records[..i])|
  {
  }

  lemma WrittenOffsets(records: seq<seq<byte>>)
    requires !HasLargeDelta(OffsetsOf(records))
    ensures ValidOffsets(OffsetsOf(records))
    ensures OffsetsOf(records)[|records|] == |Flatten(records)|
  {
    hide Flatten;
    FlattenNone();
    assert records[..0] == [] && records[..|records|] == records;
    forall j | 0 <= j < |records| ensures RecordFits(OffsetsOf(records), j) {
      FlattenNext(records, j);
      assert !IsLargeDelta(OffsetsOf(records), j);
    }
  }

  /** Where the tail sections of a laid-out file lie. */
  lemma TailParts(env: Env, s: Settings, data: seq<byte>, recordCount: nat, total: nat, hash: Digest,
                  index: seq<byte>, appData: seq<byte>)
    requires |appData| < TWO32 && |index| < TWO32
    ensures var f := data + TailBytes(env, s, recordCount, total, hash, index, appData);
      && |f| == |data| + |index| + |appData| + TRAILER_SIZE
      && f[|f| - TRAILER_SIZE..] == TrailerBytes(env, TrailerOf(s, recordCount, total, hash, |index|, |appData|))
      && f[|data|..|data| + |index|] == index
      && f[|data| + |index|..|data| + |index| + |appData|] == appData
      && f[..|data|] == data
  {
    hide TrailerBytes;
    SmallMod(|appData|, TWO32);
    assert AppSection(appData) == appData;
  }

  /** Every trailer that is written passes the checks made on opening, and says what it was written for. */
  lemma TrailerPasses(env: Env, s: Settings, recordCount: nat, total: nat, hash: Digest, indexSize: nat, appDataSize: nat)
    ensures var t := ParseTrailer(TrailerBytes(env, TrailerOf(s, recordCount, total, hash, indexSize, appDataSize)));
      && TrailerFault(t) == None && FormatOf(t.flags) == s.format && HasHash(t.flags) == s.hashing
      && t.recordCount == recordCount % TWO32 && t.totalItems == total % TWO32
      && t.itemsPerRecord == s.itemsPerRecord % TWO32 && t.contentHash == hash
  {
    hide TrailerBytes, ParseTrailer;
    TrailerRoundTrip(env, TrailerOf(s, recordCount, total, hash, indexSize, appDataSize));
    FlagsRoundTrip(s.format, s.hashing);
  }

  /** A finished file is accepted and opens to the settings, offsets and data it was written with. */
  lemma LayoutOpens(env: Env, s: Settings, records: seq<seq<byte>>, total: nat, hash: Digest, appData: seq<byte>)
    requires env.Valid() && s.Valid() && s.itemsPerRecord < TWO32 && |appData| < TWO32
    requires Layout(env, s, records, total, hash, appData).Ok?
    requires |IndexBytes(env.crc, Deltas(OffsetsOf(records)))| < TWO32
    requires |records| == RecordCount(total, s.itemsPerRecord)
    ensures OpenedFile(env, Layout(env, s, records, total, hash, appData).value)
      == Ok(Opened(s.format, s.hashing, if s.hashing then hash else NO_HASH,
                   OffsetsOf(records), appData, total, s.itemsPerRecord))
  {
    hide IndexBytes, DecodedIndex, TrailerBytes, ParseTrailer, U32At, FlagsOf, FormatOf, HasHash, UnknownFlag,
      Flatten, TailBytes, Deltas, RecordCount, OffsetsOf, NO_HASH, Env.Valid;
    var offsets := OffsetsOf(records);
    var index := IndexBytes(env.crc, Deltas(offsets));
    var data := Flatten(records);
    assert Layout(env, s, records, total, hash, appData)
      == Ok(data + TailBytes(env, s, |records|, total, hash, index, appData));
    var f := data + TailBytes(env, s, |records|, total, hash, index, appData);
    var t := TrailerOf(s, |records|, total, hash, |index|, |appData|);
    TailParts(env, s, data, |records|, total, hash, index, appData);
    TrailerRoundTrip(env, t);
    FlagsRoundTrip(s.format, s.hashing);
    WrittenOffsets(records);
    IndexRoundTrip(env.crc, offsets);
    assert t == RawTrailer(MAGIC, VERSION, FlagsOf(s.format, s.hashing), |records|, total,
                           s.itemsPerRecord, |index|, |appData|, hash, GROUP_SIZE);
    assert |f| - TRAILER_SIZE - t.appDataSize - t.indexSize == |data|;
  }

  lemma SliceOfPrefix(data: seq<byte>, tail: seq<byte>, a: nat, b: nat)
    requires a <= b <= |data|
    ensures (data + tail)[a..b] == data[a..b]
  {
  }

  /** Record r of a finished file is the r-th record written. */
  lemma LayoutRecord(env: Env, s: Settings, records: seq<seq<byte>>, tail: seq<byte>, o: Opened, r: nat)
    requires r < |records| && o.offsets == OffsetsOf(records)
    requires o.Sound(Flatten(records) + tail)
    ensures RecordAt(o, Flatten(records) + tail, r) == records[r]
  {
    hide Flatten, Opened.Sound, OffsetsOf;
    FlattenItem(records, r);
    OffsetsOfAt(records, r);
    OffsetsOfAt(records, r + 1);
    SliceOfPrefix(Flatten(records), tail, |Flatten(records[..r])|, |Flatten(records[..r + 1])|);
  }

  /** The items of the record that holds position i. */
  ghost function RecordItems(s: Settings, items: seq<Item>, i: nat): seq<Item>
    requires s.Valid() && i < |items|
  {
    ChunkItem(items, s.itemsPerRecord, i);
    ChunksOf(items, s.itemsPerRecord)[i / s.itemsPerRecord]
  }

  /** What can be written and read back at all: narrowed sizes do not overflow. */
  ghost predicate Writable(env: Env, s: Settings, items: seq<Item>, appData: seq<byte>)
    requires s.Valid()
  {
    && s.itemsPerRecord < TWO32
    && Small(items) && |Flatten(items)| < TWO63
    && |appData| < TWO32
    && FileOf(env, s, items, appData).Ok?
    && |IndexBytes(env.crc, Deltas(OffsetsOf(RecordsOf(env, s, ChunksOf(items, s.itemsPerRecord)))))| < TWO32
  }

  ghost function OpenedOf(env: Env, s: Settings, items: seq<Item>, appData: seq<byte>): Opened
    requires s.Valid() && s.itemsPerRecord < TWO32 && |items| <= MAX_UINT32
  {
    Opened(s.format, s.hashing, HashField(env, s, items),
           OffsetsOf(RecordsOf(env, s, ChunksOf(items, s.itemsPerRecord))), appData, |items|, s.itemsPerRecord)
  }

  /** Whole-file round trip, opening: the finished file of any items is accepted, with the same
    total, format, hash and application data. */
  lemma FileOpens(env: Env, s: Settings, items: seq<Item>, appData: seq<byte>)
    requires env.Valid() && s.Valid() && Writable(env, s, items, appData)
    ensures |items| <= MAX_UINT32
    ensures OpenedFile(env, FileOf(env, s, items, appData).value) == Ok(OpenedOf(env, s, items, appData))
    ensures OpenedOf(env, s, items, appData).Sound(FileOf(env, s, items, appData).value)
    ensures OpenedOf(env, s, items, appData).Complete()
  {
    hide RecordsOf, OffsetsOf, IndexBytes, Deltas, OpenedFile, ContentHash, Flatten, Env.Valid, ChunksOf, Opened.Sound;
    var records := RecordsOf(env, s, ChunksOf(items, s.itemsPerRecord));
    ChunkCount(items, s.itemsPerRecord);
    LayoutOpens(env, s, records, |items|, HashField(env, s, items), appData);
    AcceptedSound(env, FileOf(env, s, items, appData).value);
  }

  lemma NoRecords(k: nat)
    requires k > 0
    ensures RecordCount(0, k) == 0
  {
    SmallMod(k - 1, k);
  }

  /** Record r of a finished file decodes to its items exactly when it is not an Uncompressed
    record without a single payload byte. */
  lemma FileRecord(env: Env, s: Settings, items: seq<Item>, appData: seq<byte>, r: nat)
    requires env.Valid() && s.Valid() && Writable(env, s, items, appData)
    requires |items| <= MAX_UINT32 && r < RecordCount(|items|, s.itemsPerRecord)
    ensures |items| > 0 && r < |ChunksOf(items, s.itemsPerRecord)|
    ensures OpenedOf(env, s, items, appData).Sound(FileOf(env, s, items, appData).value)
    ensures var chunk := ChunksOf(items, s.itemsPerRecord)[r];
      RecordOf(env, OpenedOf(env, s, items, appData), FileOf(env, s, items, appData).value, r)
      == if s.format.Uncompressed? && Flatten(chunk) == [] then Err(ShortCrc)
         else Ok(Decoded(SizesOf(chunk), Flatten(chunk)))
  {
    hide IndexBytes, Deltas, OpenedFile, ContentHash, Flatten, ChunksOf, Opened.Sound, DecodedRecord, RecordBytes,
      TailBytes, SizesOf, ItemsInRecord, Small, RecordAt;
    var k := s.itemsPerRecord;
    var chunks := ChunksOf(items, k);
    var records := RecordsOf(env, s, chunks);
    var o := OpenedOf(env, s, items, appData);
    FileOpens(env, s, items, appData);
    ChunkCount(items, k);
    ConcatChunks(items, k);
    NoRecords(k);
    var index := EncodedIndex(env.crc, OffsetsOf(records)).value;
    var tail := TailBytes(env, s, |records|, |items|, HashField(env, s, items), index, appData);
    LayoutRecord(env, s, records, tail, o, r);
    ChunkSize(items, k, r);
    ChunksKeep(items, k);
    RecordRoundTrip(env, s.format, |items|, k, r, chunks[r]);
  }

  /** Whole-file round trip, items: position i of a finished file reads as item i exactly when its
    record is not an Uncompressed one made of empty items only; such a record is refused. */
  lemma FileRoundTrip(env: Env, s: Settings, items: seq<Item>, appData: seq<byte>, i: nat)
    requires env.Valid() && s.Valid() && Writable(env, s, items, appData) && i < |items|
    ensures |items| <= MAX_UINT32
    ensures OpenedOf(env, s, items, appData).Sound(FileOf(env, s, items, appData).value)
    ensures ItemOf(env, OpenedOf(env, s, items, appData), FileOf(env, s, items, appData).value, i)
      == if s.format.Uncompressed? && Flatten(RecordItems(s, items, i)) == [] then Err(ShortCrc) else Ok(items[i])
  {
    hide IndexBytes, Deltas, OpenedFile, ContentHash, Flatten, ChunksOf, Opened.Sound, FileOf, RecordOf, Small,
      RecordsOf, OffsetsOf, SizesOf, Env.Valid;
    var k := s.itemsPerRecord;
    FileOpens(env, s, items, appData);
    PositionResolves(|items|, k, i);
    FileRecord(env, s, items, appData, i / k);
    ChunkItem(items, k, i);
    ChunksKeep(items, k);
    ItemRoundTrip(RecordItems(s, items, i), i % k);
  }

  /** The law as the format's users state it: with a payload byte in every record, everything
    written is read back. */
  lemma FileReadsBack(env: Env, s: Settings, items: seq<Item>, appData: seq<byte>)
    requires env.Valid() && s.Valid() && Writable(env, s, items, appData)
    requires s.format.Uncompressed? ==>
      forall i :: 0 <= i < |items| ==> |Flatten(RecordItems(s, items, i))| > 0
    ensures OpenedFile(env, FileOf(env, s, items, appData).value).Ok?
    ensures var o := OpenedFile(env, FileOf(env, s, items, appData).value).value;
      && o.totalItems == |items| && o.format == s.format && o.appData == appData
      && o.Sound(FileOf(env, s, items, appData).value)
      && forall i :: 0 <= i < |items| ==> ItemOf(env, o, FileOf(env, s, items, appData).value, i) == Ok(items[i])
  {
    hide FileOf, OpenedFile, RecordItems, ItemOf, Opened.Sound, Flatten, RecordsOf, OffsetsOf;
    FileOpens(env, s, items, appData);
    var o := OpenedOf(env, s, items, appData);
    forall i | 0 <= i < |items|
      ensures ItemOf(env, o, FileOf(env, s, items, appData).value, i) == Ok(items[i])
    {
      FileRoundTrip(env, s, items, appData, i);
    }
  }
}
