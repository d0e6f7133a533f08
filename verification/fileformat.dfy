/** The file layout: records, offset index, application data, 64-byte trailer; and opening a file
  of any bytes from its tail. */
module FileFormat {
  import opened Bytes
  import opened Results
  import opened Environment
  import opened Intpack
  import opened Index
  import opened Records

  const MAGIC := 0x534C4348
  const VERSION := 1
  const TRAILER_SIZE := 64
  const SPECULATIVE_SIZE := 256 * 1024

  // ---------------------------------------------------------------- trailer

  /** The trailer as stored, before validation. */
  datatype RawTrailer = RawTrailer(
    magic: uint32, version: byte, flags: byte,
    recordCount: uint32, totalItems: uint32, itemsPerRecord: uint32,
    indexSize: uint32, appDataSize: uint32,
    contentHash: Digest, groupSize: uint16)

  function U32At(tb: seq<byte>, at: nat): uint32
    requires at + 4 <= |tb|
  {
    Get32(tb[at..at + 4])
  }

  function U16At(tb: seq<byte>, at: nat): uint16
    requires at + 2 <= |tb|
  {
    tb[at] as int + 256 * (tb[at + 1] as int)
  }

  function ParseTrailer(tb: seq<byte>): (t: RawTrailer)
    requires |tb| == TRAILER_SIZE
  {
    RawTrailer(U32At(tb, 0), tb[4], tb[5], U32At(tb, 6), U32At(tb, 10), U32At(tb, 14),
               U32At(tb, 18), U32At(tb, 22), tb[26..58], U16At(tb, 58))
  }

  /** The first 60 bytes of a trailer. */
  function TrailerBody(t: RawTrailer): (body: seq<byte>)
    ensures |body| == 60
  {
    PutLE(t.magic, 4) + [t.version, t.flags]
      + PutLE(t.recordCount, 4) + PutLE(t.totalItems, 4) + PutLE(t.itemsPerRecord, 4)
      + PutLE(t.indexSize, 4) + PutLE(t.appDataSize, 4) + t.contentHash
      + [t.groupSize % 256, t.groupSize / 256]
  }

  function TrailerBytes(env: Env, t: RawTrailer): (tb: seq<byte>)
    ensures |tb| == TRAILER_SIZE
  {
    TrailerBody(t) + PutLE(env.crc(TrailerBody(t)), 4)
  }

  lemma Get32At(s: seq<byte>, at: nat, v: uint32)
    requires at + 4 <= |s| && s[at..at + 4] == PutLE(v, 4)
    ensures U32At(s, at) == v
  {
    LEPut32(v);
  }

  lemma BodyFields(t: RawTrailer, body: seq<byte>)
    requires body == TrailerBody(t)
    ensures body[0..4] == PutLE(t.magic, 4) && body[4] == t.version && body[5] == t.flags
    ensures body[6..10] == PutLE(t.recordCount, 4) && body[10..14] == PutLE(t.totalItems, 4)
    ensures body[14..18] == PutLE(t.itemsPerRecord, 4) && body[18..22] == PutLE(t.indexSize, 4)
    ensures body[22..26] == PutLE(t.appDataSize, 4) && body[26..58] == t.contentHash
    ensures body[58] == t.groupSize % 256 && body[59] == t.groupSize / 256
  {
    hide PutLE;
  }

  /** A trailer parses back to the fields it was built from, and its checksum is the one stored. */
  lemma TrailerRoundTrip(env: Env, t: RawTrailer)
    ensures ParseTrailer(TrailerBytes(env, t)) == t
    ensures U32At(TrailerBytes(env, t), 60) == env.crc(TrailerBytes(env, t)[..60])
  {
    hide PutLE, LE, U32At, TrailerBody;
    var tb, body := TrailerBytes(env, t), TrailerBody(t);
    BodyFields(t, body);
    assert tb[..60] == body;
    assert tb[60..64] == PutLE(env.crc(body), 4);
    assert forall i, j :: 0 <= i <= j <= 60 ==> tb[i..j] == body[i..j];
    Get32At(tb, 0, t.magic);
    Get32At(tb, 6, t.recordCount);
    Get32At(tb, 10, t.totalItems);
    Get32At(tb, 14, t.itemsPerRecord);
    Get32At(tb, 18, t.indexSize);
    Get32At(tb, 22, t.appDataSize);
    Get32At(tb, 60, env.crc(body));
  }

  // ---------------------------------------------------------------- flags

  function FlagsOf(format: Format, hashing: bool): byte
  {
    (if format.Compressed? then 0 else 1) + (if hashing then 2 else 0) + (if format.Raw? then 4 else 0)
  }

  predicate NoCompression(flags: byte) { flags % 2 == 1 }
  predicate HasHash(flags: byte) { flags / 2 % 2 == 1 }
  predicate NoCrc(flags: byte) { flags / 4 % 2 == 1 }
  predicate UnknownFlag(flags: byte) { flags >= 8 }

  function FormatOf(flags: byte): Format
  {
    if !NoCompression(flags) then Compressed else if NoCrc(flags) then Raw else Uncompressed
  }

  lemma FlagsRoundTrip(format: Format, hashing: bool)
    ensures FormatOf(FlagsOf(format, hashing)) == format
    ensures HasHash(FlagsOf(format, hashing)) == hashing && !UnknownFlag(FlagsOf(format, hashing))
    ensures var flags := FlagsOf(format, hashing);
      && (flags % 2 == 1 <==> !format.Compressed?) && (flags / 2 % 2 == 1 <==> hashing)
      && (flags / 4 % 2 == 1 <==> format.Raw?) && flags < 8
  {
  }

  // ---------------------------------------------------------------- opening

  const NO_HASH: Digest := [0, 0, 0, 0, 0, 0, 0, 0, 0, 0, 0, 0, 0, 0, 0, 0,
                             0, 0, 0, 0, 0, 0, 0, 0, 0, 0, 0, 0, 0, 0, 0, 0]

  /** The result of opening a file. */
  datatype Opened = Opened(
    format: Format, hasContentHash: bool, contentHash: Digest,
    offsets: seq<int>, appData: seq<byte>, totalItems: uint32, itemsPerRecord: uint32)
  {
    /** What holds of every accepted file, crafted or not. */
    ghost predicate Sound(file: seq<byte>)
    {
      && ValidOffsets(offsets) && offsets[|offsets| - 1] <= |file|
      && itemsPerRecord > 0
    }

    /** Every position resolves to a record the offsets cover. */
    ghost predicate Complete()
    {
      itemsPerRecord > 0 && RecordCount(totalItems, itemsPerRecord) == |offsets| - 1
    }
  }

  /** The first thing wrong with a trailer, before anything else is read. */
  function TrailerFault(t: RawTrailer): Option<Error>
  {
    if t.magic != MAGIC then Some(Magic)
    else if t.version != VERSION then Some(Version)
    else if t.groupSize != GROUP_SIZE then Some(Error.GroupSize)
    else if UnknownFlag(t.flags) then Some(UnknownFlags)
    else None
  }

  /** The opened file, once offsets and application data are known. */
  function Assembled(t: RawTrailer, offsets: seq<int>, appData: seq<byte>): Result<Opened>
  {
    if t.itemsPerRecord == 0 && t.recordCount > 0 then Err(BadItemsPerRecord)
    else if t.itemsPerRecord > 0 && RecordCount(t.totalItems, t.itemsPerRecord) != t.recordCount then
      Err(RecordCountMismatch)
    else
      Ok(Opened(FormatOf(t.flags), HasHash(t.flags), if HasHash(t.flags) then t.contentHash else NO_HASH,
                offsets, appData, t.totalItems, if t.itemsPerRecord == 0 then 1 else t.itemsPerRecord))
  }

  /** What opening a file of any bytes yields. */
  ghost function OpenedFile(env: Env, file: seq<byte>): Result<Opened>
  {
    var fileSize := |file|;
    if fileSize < TRAILER_SIZE then Err(Size)
    else
      var tb := file[fileSize - TRAILER_SIZE..];
      var t := ParseTrailer(tb);
      if TrailerFault(t).Some? then Err(TrailerFault(t).value)
      else
        var indexBase := fileSize - TRAILER_SIZE - t.appDataSize - t.indexSize;
        if indexBase < 0 then Err(Size)
        else if env.crc(tb[..60]) != U32At(tb, 60) then Err(Checksum)
        else
          match DecodedIndex(env.crc, file[indexBase..indexBase + t.indexSize], t.recordCount, indexBase)
          case Err(e) => Err(e)
          case Ok(offsets) =>
            Assembled(t, offsets, file[indexBase + t.indexSize..indexBase + t.indexSize + t.appDataSize])
  }

  function ExpectedRecords(totalItems: uint32, itemsPerRecord: uint32): (n: nat)
    requires itemsPerRecord > 0
    ensures n == RecordCount(totalItems, itemsPerRecord)
  {
    if totalItems == 0 then
      SmallMod(itemsPerRecord - 1, itemsPerRecord);
      0
    else RecordCount(totalItems, itemsPerRecord)
  }

  lemma SliceTail(s: seq<byte>, from: nat, n: nat)
    requires from + n <= |s|
    ensures s[from..][|s[from..]| - n..] == s[|s| - n..]
  {
  }

  /** The speculative read: the last bytes of the file, and the trailer at their end. */
  method ReadSpeculative(file: seq<byte>, readOk: int -> bool) returns (ok: bool, speculativeBuf: seq<byte>, tb: seq<byte>)
    requires |file| >= TRAILER_SIZE
    ensures ok == readOk(|file| - Min(SPECULATIVE_SIZE, |file|))
    ensures |speculativeBuf| == Min(SPECULATIVE_SIZE, |file|)
    ensures speculativeBuf == file[|file| - |speculativeBuf|..] && tb == file[|file| - TRAILER_SIZE..]
  {
    var fileSize := |file|;
    var speculativeSize := Min(SPECULATIVE_SIZE, fileSize);
    var speculativeOff := fileSize - speculativeSize;
    ok := readOk(speculativeOff);
    speculativeBuf := file[speculativeOff..speculativeOff + speculativeSize];
    assert speculativeBuf == file[speculativeOff..];
    tb := speculativeBuf[|speculativeBuf| - TRAILER_SIZE..];
    SliceTail(file, speculativeOff, TRAILER_SIZE);
  }

  /** The checks doOpen makes on the trailer alone. */
  method CheckTrailer(t: RawTrailer) returns (fault: Option<Error>)
    ensures fault == TrailerFault(t)
  {
    if t.magic != MAGIC {
      return Some(Magic);
    }
    if t.version != VERSION {
      return Some(Version);
    }
    if t.groupSize != GROUP_SIZE {
      return Some(Error.GroupSize);
    }
    if UnknownFlag(t.flags) {
      return Some(UnknownFlags);
    }
    fault := None;
  }

  /** The end of doOpen: cross-checks the counts and sets the fields of the reader. */
  method Assemble(t: RawTrailer, offsets: seq<int>, appData: seq<byte>) returns (r: Result<Opened>)
    ensures r == Assembled(t, offsets, appData)
  {
    hide RecordCount, FormatOf, HasHash, NO_HASH, ExpectedRecords;
    var hasContentHash := HasHash(t.flags);
    var contentHash := if hasContentHash then t.contentHash else NO_HASH;
    var itemsPerRecord := t.itemsPerRecord;
    if itemsPerRecord <= 0 && t.recordCount > 0 {
      return Err(BadItemsPerRecord);
    }
    if itemsPerRecord > 0 {
      var expectedRecords := ExpectedRecords(t.totalItems, itemsPerRecord);
      if expectedRecords != t.recordCount {
        return Err(RecordCountMismatch);
      }
    }
    if itemsPerRecord == 0 {
      itemsPerRecord := 1;
    }
    r := Ok(Opened(FormatOf(t.flags), hasContentHash, contentHash, offsets, appData, t.totalItems, itemsPerRecord));
  }

  /** The index and application data: from the speculative buffer when it holds the whole tail,
    else from a second read. Both branches extract the same bytes. */
  method ReadTail(file: seq<byte>, speculativeBuf: seq<byte>, indexBase: nat, indexSize: nat, appDataSize: nat,
                  readOk: int -> bool)
    returns (ok: bool, indexBuf: seq<byte>, appData: seq<byte>)
    requires TRAILER_SIZE <= |speculativeBuf| <= |file| && speculativeBuf == file[|file| - |speculativeBuf|..]
    requires indexBase + indexSize + appDataSize + TRAILER_SIZE == |file|
    ensures ok <==> indexSize + appDataSize + TRAILER_SIZE <= |speculativeBuf| || indexSize + appDataSize == 0 || readOk(indexBase)
    ensures indexBuf == file[indexBase..indexBase + indexSize]
    ensures appData == file[indexBase + indexSize..indexBase + indexSize + appDataSize]
  {
    var tailSize := indexSize + appDataSize + TRAILER_SIZE;
    ok, appData := true, [];
    if tailSize <= |speculativeBuf| {
      var tailStart := |speculativeBuf| - tailSize;
      indexBuf := speculativeBuf[tailStart..tailStart + indexSize];
      if appDataSize > 0 {
        var adStart := tailStart + indexSize;
        appData := speculativeBuf[adStart..adStart + appDataSize];
      }
    } else {
      var readSize := indexSize + appDataSize;
      ok := readSize == 0 || readOk(indexBase);
      var buf := file[indexBase..indexBase + readSize];
      indexBuf := buf[..indexSize];
      if appDataSize > 0 {
        appData := buf[indexSize..indexSize + appDataSize];
      }
    }
  }

  /** One of the reads that opening asks for is refused: that of the last 256 KiB, or, when index and
    application data do not fit in them, that of these two. */
  ghost predicate OpenRefused(file: seq<byte>, readOk: int -> bool)
  {
    |file| >= TRAILER_SIZE
    && var first := Min(262144, |file|);
    || !readOk(|file| - first)
    || (var t := ParseTrailer(file[|file| - TRAILER_SIZE..]);
        var size := t.indexSize + t.appDataSize;
        && TrailerFault(t) == None && first < size + TRAILER_SIZE <= |file| && size > 0
        && !readOk(|file| - TRAILER_SIZE - size))
  }

  /** doOpen: reads the tail speculatively and falls back to a second read when index and
    application data do not fit in it; `readOk` decides which reads succeed. */
  method Open(env: Env, file: seq<byte>, readOk: int -> bool) returns (r: Result<Opened>)
    requires |file| < TWO63
    ensures r == if OpenRefused(file, readOk) then Err(Io) else OpenedFile(env, file)
  {
    hide DecodedIndex, ParseTrailer, U32At, TrailerFault, Assembled;
    var fileSize := |file|;
    if fileSize < TRAILER_SIZE {
      return Err(Size);
    }
    var ok, speculativeBuf, tb := ReadSpeculative(file, readOk);
    if !ok {
      return Err(Io);
    }
    var t := ParseTrailer(tb);
    var storedCRC := U32At(tb, 60);
    var fault := CheckTrailer(t);
    if fault.Some? {
      return Err(fault.value);
    }
    var indexSize, appDataSize := t.indexSize, t.appDataSize;
    var indexBase := fileSize - TRAILER_SIZE - appDataSize - indexSize;
    if indexBase < 0 {
      return Err(Size);
    }
    var indexBuf, appData;
    ok, indexBuf, appData := ReadTail(file, speculativeBuf, indexBase, indexSize, appDataSize, readOk);
    if !ok {
      return Err(Io);
    }

    if env.crc(tb[..60]) != storedCRC {
      return Err(Checksum);
    }
    var decoded := DecodeIndex(env.crc, indexBuf, t.recordCount, indexBase);
    if decoded.Err? {
      return Err(decoded.error);
    }
    r := Assemble(t, decoded.value, appData);
  }

  // ---------------------------------------------------------------- what an accepted file guarantees

  ghost function StoredItemsPerRecord(file: seq<byte>): uint32
    requires |file| >= TRAILER_SIZE
  {
    ParseTrailer(file[|file| - TRAILER_SIZE..]).itemsPerRecord
  }

  /** Offsets of every accepted file run from 0 upward and stay inside the data section. */
  lemma AcceptedSound(env: Env, file: seq<byte>)
    requires OpenedFile(env, file).Ok?
    ensures OpenedFile(env, file).value.Sound(file)
  {
    hide DecodedIndex, FormatOf, HasHash, UnknownFlag, ValidOffsets, ParseTrailer, U32At, NO_HASH, RecordCount;
    var t := ParseTrailer(file[|file| - TRAILER_SIZE..]);
    var indexBase := |file| - TRAILER_SIZE - t.appDataSize - t.indexSize;
    DecodedOffsets(env.crc, file[indexBase..indexBase + t.indexSize], t.recordCount, indexBase);
  }

  /** The records of an accepted file cover every position exactly when the stored items-per-record
    is positive or the file claims no items: with a stored 0 the cross-check is skipped. */
  lemma AcceptedComplete(env: Env, file: seq<byte>)
    requires OpenedFile(env, file).Ok?
    ensures |file| >= TRAILER_SIZE
    ensures OpenedFile(env, file).value.Complete()
      <==> StoredItemsPerRecord(file) > 0 || OpenedFile(env, file).value.totalItems == 0
  {
    hide DecodedIndex, FormatOf, HasHash, UnknownFlag;
    var o := OpenedFile(env, file).value;
    if StoredItemsPerRecord(file) == 0 {
      DivUnique(o.totalItems, 1, o.totalItems, 0);
    }
  }

  ghost function ItemsBefore(totalItems: nat, k: nat, r: nat): nat
    requires k > 0 && r <= RecordCount(totalItems, k) && totalItems > 0
  {
    if r == 0 then 0 else ItemsBefore(totalItems, k, r - 1) + ItemsInRecord(totalItems, k, r - 1)
  }

  lemma {:induction false} ItemsBeforeIs(totalItems: nat, k: nat, r: nat)
    requires k > 0 && totalItems > 0 && r <= RecordCount(totalItems, k)
    ensures r < RecordCount(totalItems, k) ==> ItemsBefore(totalItems, k, r) == r * k
    ensures r == RecordCount(totalItems, k) > 0 ==> ItemsBefore(totalItems, k, r) == totalItems
  {
    if r > 0 {
      ItemsBeforeIs(totalItems, k, r - 1);
      RecordSpan(totalItems, k, r - 1);
      MulDistrib(r, 1, k);
    }
  }

  /** The item counts of all records add up to the total. */
  lemma ItemsAddUp(totalItems: nat, k: nat)
    requires k > 0 && totalItems > 0
    ensures ItemsBefore(totalItems, k, RecordCount(totalItems, k)) == totalItems
  {
    PositionResolves(totalItems, k, 0);
    ItemsBeforeIs(totalItems, k, RecordCount(totalItems, k));
  }
}
