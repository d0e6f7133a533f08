/** Reading an opened file: point lookup, coalesced range scan and content verification. */
module Reader {
  import opened Bytes
  import opened Results
  import opened Environment
  import opened Intpack
  import opened Index
  import opened Records
  import opened RecordDecoder
  import opened FileFormat
  import opened SealedFile

  const READ_BUF_SIZE := 0x10_0000

  /** A pooled decoder configured for a file; whatever it decoded before is still in its buffers. */
  method Configure(rd: Decoder, o: Opened)
    requires rd.Valid()
    modifies rd`format, rd`totalItems, rd`itemsPerRecord
    ensures rd.Valid()
    ensures rd.format == o.format && rd.totalItems == o.totalItems && rd.itemsPerRecord == o.itemsPerRecord
  {
    rd.format, rd.totalItems, rd.itemsPerRecord := o.format, o.totalItems, o.itemsPerRecord;
  }

  /** The read that a point lookup asks for is refused. */
  ghost predicate ReadRefused(o: Opened, position: int, readOk: int -> bool)
    requires o.itemsPerRecord > 0
  {
    0 <= position < o.totalItems && position / o.itemsPerRecord + 1 < |o.offsets|
    && (DivNonneg(position, o.itemsPerRecord); !readOk(o.offsets[position / o.itemsPerRecord]))
  }

  lemma RecordBounds(o: Opened, file: seq<byte>, r: nat)
    requires o.Sound(file) && r + 1 < |o.offsets|
    ensures 0 <= o.offsets[r] <= o.offsets[r + 1] <= |file|
    ensures RecordAt(o, file, r) == file[o.offsets[r]..o.offsets[r + 1]]
  {
    OffsetsMonotone(o.offsets, 0, r);
    OffsetsMonotone(o.offsets, r, r + 1);
    OffsetsMonotone(o.offsets, r + 1, |o.offsets| - 1);
  }

  lemma DecodedPartitionIfOk(env: Env, o: Opened, r: nat, record: seq<byte>)
    requires o.totalItems > 0 && RecordInRange(o.totalItems, o.itemsPerRecord, r)
    ensures var d := DecodedRecord(env, o.format, o.totalItems, o.itemsPerRecord, r, record);
      d.Ok? ==> d.value.Fits() && |d.value.sizes| == ItemsInRecord(o.totalItems, o.itemsPerRecord, r)
  {
    if DecodedRecord(env, o.format, o.totalItems, o.itemsPerRecord, r, record).Ok? {
      DecodedPartition(env, o.format, o.totalItems, o.itemsPerRecord, r, record);
    }
  }

  /** ReadItem: the item at a position, independent of the pooled decoder's past; `readOk` decides which
    reads succeed. */
  method ReadItem(env: Env, o: Opened, file: seq<byte>, position: int, rd: Decoder, readOk: int -> bool) returns (r: Result<Item>)
    requires env.Valid() && o.Sound(file) && |file| < TWO63 && rd.Valid()
    modifies rd, rd.decompressed.arr, rd.sizes.arr, rd.offsets.arr
    ensures rd.Valid()
    ensures r == if ReadRefused(o, position, readOk) then Err(Io) else ItemOf(env, o, file, position)
  {
    hide Env.Valid, DecodedRecord, ValidOffsets, RecordCount, ItemsInRecord, Decoded.ItemAt, Decoder.Loaded;
    if position < 0 || position >= o.totalItems {
      return Err(OutOfRange);
    }
    PositionResolves(o.totalItems, o.itemsPerRecord, position);
    var recordIdx, localIdx := position / o.itemsPerRecord, position % o.itemsPerRecord;
    Configure(rd, o);
    if recordIdx + 1 >= |o.offsets| {
      return Err(Panic);
    }
    ghost var record := RecordAt(o, file, recordIdx);
    var start, end := o.offsets[recordIdx], o.offsets[recordIdx + 1];
    RecordBounds(o, file, recordIdx);
    if !readOk(start) {
      return Err(Io);
    }
    var scratch := file[start..end];
    DecodedPartitionIfOk(env, o, recordIdx, scratch);
    var err := rd.Decode(env, scratch, recordIdx);
    if err.Some? {
      return Err(err.value);
    }
    r := Ok(rd.Item(localIdx));
  }

  // ---------------------------------------------------------------- range scan

  /** One step of the iterator: an item or an error. */
  datatype Yield = Yielded(item: Item) | Failed(error: Error)

  /** What a scan of positions [from, end) yields when every read succeeds and the consumer takes
    everything: the items in order, ending at the first record that does not decode. */
  ghost function RangeYields(env: Env, o: Opened, file: seq<byte>, from: nat, end: nat): seq<Yield>
    requires o.Sound(file)
    decreases end - from
  {
    if from >= end then []
    else
      match ItemOf(env, o, file, from)
      case Err(e) => [Failed(e)]
      case Ok(item) => [Yielded(item)] + RangeYields(env, o, file, from + 1, end)
  }

  function Cut<T>(s: seq<T>, n: nat): seq<T>
  {
    if n <= |s| then s[..n] else s
  }

  /** Position p of record r, counted inside the record. */
  lemma LocalPosition(k: nat, r: nat, i: nat)
    requires i < k
    ensures r * k >= 0 && (r * k + i) / k == r && (r * k + i) % k == i
  {
    MulNonneg(r, k);
    DivUnique(r * k + i, k, r, i);
  }

  /** What a position inside record r reads as, from the decoded record. */
  lemma ItemInRecord(env: Env, o: Opened, file: seq<byte>, r: nat, i: nat)
    requires o.Sound(file) && o.totalItems > 0 && r + 1 < |o.offsets|
    requires RecordInRange(o.totalItems, o.itemsPerRecord, r) && i < ItemsInRecord(o.totalItems, o.itemsPerRecord, r)
    ensures r * o.itemsPerRecord >= 0
    ensures RecordOf(env, o, file, r).Err? ==>
      ItemOf(env, o, file, r * o.itemsPerRecord + i) == Err(RecordOf(env, o, file, r).error)
    ensures RecordOf(env, o, file, r).Ok? ==>
      var d := RecordOf(env, o, file, r).value;
      d.Fits() && i < |d.sizes| && ItemOf(env, o, file, r * o.itemsPerRecord + i) == Ok(d.ItemAt(i))
  {
    hide DecodedRecord, Opened.Sound, Decoded.ItemAt, RecordAt;
    RecordSpan(o.totalItems, o.itemsPerRecord, r);
    LocalPosition(o.itemsPerRecord, r, i);
    DecodedPartitionIfOk(env, o, r, RecordAt(o, file, r));
  }

  /** One range scan: an opened file, positions [start, end), and a consumer that breaks off after
    accepting `stop` yields. */
  datatype Scan = Scan(env: Env, o: Opened, file: seq<byte>, start: nat, end: nat, stop: nat)
  {
    ghost predicate Valid()
    {
      && env.Valid() && o.Sound(file) && o.Complete() && |file| < TWO63
      && start <= end <= o.totalItems
    }

    ghost function All(): seq<Yield>
      requires o.Sound(file)
    {
      RangeYields(env, o, file, start, end)
    }

    /** `out` has been yielded and accepted, `at` is the next position. */
    ghost predicate Progress(out: seq<Yield>, at: nat)
      requires o.Sound(file)
    {
      && start <= at <= end
      && out + RangeYields(env, o, file, at, end) == All()
      && |out| == at - start <= stop
      && (forall i :: 0 <= i < |out| ==> out[i].Yielded?)
    }

    /** The scan has ended: all was yielded, or an error, or the consumer broke off. */
    ghost predicate Ended(out: seq<Yield>)
      requires o.Sound(file)
    {
      out == Cut(All(), stop + 1)
    }

    /** The scan has ended on a refused read, after yielding items of the scan only. */
    ghost predicate Refused(out: seq<Yield>)
      requires o.Sound(file)
    {
      |out| > 0 && out[|out| - 1] == Failed(Io) && Progress(out[..|out| - 1], start + |out| - 1)
    }
  }

  lemma RangeStep(s: Scan, at: nat)
    requires s.o.Sound(s.file) && at < s.end
    ensures RangeYields(s.env, s.o, s.file, at, s.end) ==
      match ItemOf(s.env, s.o, s.file, at)
      case Err(e) => [Failed(e)]
      case Ok(item) => [Yielded(item)] + RangeYields(s.env, s.o, s.file, at + 1, s.end)
  {
  }

  lemma CutFull<T>(all: seq<T>, front: seq<T>, rest: seq<T>, n: nat)
    requires all == front + rest && |front| <= n && (|front| == n || rest == [])
    ensures Cut(all, n) == front
  {
  }

  lemma YieldItem(s: Scan, out: seq<Yield>, at: nat, item: Item)
    requires s.o.Sound(s.file) && s.Progress(out, at) && at < s.end
    requires ItemOf(s.env, s.o, s.file, at) == Ok(item)
    ensures if |out| + 1 <= s.stop then s.Progress(out + [Yielded(item)], at + 1) else s.Ended(out + [Yielded(item)])
  {
    RangeStep(s, at);
    hide ItemOf, Opened.Sound, RangeYields, Cut;
    var rest := RangeYields(s.env, s.o, s.file, at + 1, s.end);
    assert out + ([Yielded(item)] + rest) == (out + [Yielded(item)]) + rest;
    if |out| + 1 > s.stop {
      CutFull(s.All(), out + [Yielded(item)], rest, s.stop + 1);
    }
  }

  lemma YieldError(s: Scan, out: seq<Yield>, at: nat, e: Error)
    requires s.o.Sound(s.file) && s.Progress(out, at) && at < s.end
    requires ItemOf(s.env, s.o, s.file, at) == Err(e)
    ensures s.Ended(out + [Failed(e)])
  {
    RangeStep(s, at);
    hide ItemOf, Opened.Sound, RangeYields, Cut;
    assert out + [Failed(e)] == (out + [Failed(e)]) + [];
    CutFull(s.All(), out + [Failed(e)], [], s.stop + 1);
  }

  /** Yielding what position `at` reads as continues the scan or ends it. */
  lemma YieldStep(s: Scan, out: seq<Yield>, at: nat)
    requires s.o.Sound(s.file) && s.Progress(out, at) && at < s.end
    ensures ItemOf(s.env, s.o, s.file, at).Ok? ==>
      var out' := out + [Yielded(ItemOf(s.env, s.o, s.file, at).value)];
      if |out'| <= s.stop then s.Progress(out', at + 1) else s.Ended(out')
    ensures ItemOf(s.env, s.o, s.file, at).Err? ==>
      s.Ended(out + [Failed(ItemOf(s.env, s.o, s.file, at).error)])
  {
    hide ItemOf, Opened.Sound, RangeYields, Scan.Progress, Scan.Ended;
    if ItemOf(s.env, s.o, s.file, at).Ok? {
      YieldItem(s, out, at, ItemOf(s.env, s.o, s.file, at).value);
    } else {
      YieldError(s, out, at, ItemOf(s.env, s.o, s.file, at).error);
    }
  }

  lemma ScanDone(s: Scan, out: seq<Yield>)
    requires s.o.Sound(s.file) && s.Progress(out, s.end)
    ensures s.Ended(out)
  {
    assert out + [] == out;
  }

  lemma ScanStart(s: Scan)
    requires s.Valid()
    ensures s.Progress([], s.start)
  {
    assert [] + s.All() == s.All();
  }

  lemma ScanRefused(s: Scan, out: seq<Yield>, at: nat)
    requires s.o.Sound(s.file) && s.Progress(out, at)
    ensures s.Refused(out + [Failed(Io)])
  {
    hide RangeYields, Opened.Sound;
    assert (out + [Failed(Io)])[..|out|] == out;
  }

  /** The next position after record r, within the scanned range. */
  function AfterRecord(o: Opened, r: nat, end: nat): nat
    requires o.itemsPerRecord > 0
  {
    MulNonneg(r + 1, o.itemsPerRecord);
    Min(end, (r + 1) * o.itemsPerRecord)
  }

  /** `at` is the position where the scan enters record r. */
  ghost predicate Enters(s: Scan, r: nat, at: nat)
    requires s.o.itemsPerRecord > 0
  {
    && r + 1 < |s.o.offsets| && at < s.end
    && r * s.o.itemsPerRecord <= at < AfterRecord(s.o, r, s.end)
  }

  /** The arrays of a pooled decoder after a call: kept or freshly allocated. */
  twostate predicate Reused(rd: Decoder)
    reads rd
  {
    && (rd.decompressed.arr == old(rd.decompressed.arr) || fresh(rd.decompressed.arr))
    && (rd.sizes.arr == old(rd.sizes.arr) || fresh(rd.sizes.arr))
    && (rd.offsets.arr == old(rd.offsets.arr) || fresh(rd.offsets.arr))
  }

  ghost predicate Configured(rd: Decoder, o: Opened)
    reads rd
  {
    rd.Valid() && rd.format == o.format && rd.totalItems == o.totalItems && rd.itemsPerRecord == o.itemsPerRecord
  }

  /** What a scan has done so far: the reads it asked for, each with its offset and size, and the records
    it decoded. */
  datatype Log = Log(fetched: seq<(int, int)>, decoded: seq<nat>)

  /** The reads follow one another from byte lo to byte hi: nothing is left out or read twice. */
  ghost predicate Tiles(fetched: seq<(int, int)>, lo: int, hi: int)
  {
    if |fetched| == 0 then lo == hi
    else
      var last := fetched[|fetched| - 1];
      last.0 + last.1 == hi && Tiles(fetched[..|fetched| - 1], lo, last.0)
  }

  lemma TilesNext(fetched: seq<(int, int)>, lo: int, mid: int, size: int)
    requires Tiles(fetched, lo, mid)
    ensures Tiles(fetched + [(mid, size)], lo, mid + size)
  {
    assert (fetched + [(mid, size)])[..|fetched|] == fetched;
  }

  /** The last of the first n positions of the scan lies in record r. */
  ghost predicate LastIn(s: Scan, n: nat, r: nat)
    requires s.o.itemsPerRecord > 0
  {
    n > 0 && (s.start + n - 1) / s.o.itemsPerRecord == r
  }

  lemma LastInRecord(s: Scan, n: nat, r: nat)
    requires s.o.itemsPerRecord > 0 && n > 0
    requires r * s.o.itemsPerRecord <= s.start + n - 1 < (r + 1) * s.o.itemsPerRecord
    ensures LastIn(s, n, r)
  {
    var k := s.o.itemsPerRecord;
    MulDistrib(r, 1, k);
    DivUnique(s.start + n - 1, k, r, s.start + n - 1 - r * k);
  }

  lemma ProgressCount(s: Scan, out: seq<Yield>, at: nat)
    requires s.o.Sound(s.file) && s.Progress(out, at)
    ensures |out| == at - s.start && at <= s.end
  {
  }

  /** The item loop of yieldRecord, over a record already decoded. */
  method YieldItems(s: Scan, r: nat, out0: seq<Yield>, at0: nat, rd: Decoder)
    returns (out: seq<Yield>, at: nat, go: bool)
    requires s.o.Sound(s.file) && s.o.Complete() && s.o.totalItems > 0
    requires r + 1 < |s.o.offsets| && RecordInRange(s.o.totalItems, s.o.itemsPerRecord, r)
    requires RecordOf(s.env, s.o, s.file, r).Ok?
    requires r * s.o.itemsPerRecord <= at0 <= s.end
    requires s.Progress(out0, at0)
    requires rd.Valid() && rd.Loaded() && rd.View() == RecordOf(s.env, s.o, s.file, r).value
    requires rd.sizes.len == ItemsInRecord(s.o.totalItems, s.o.itemsPerRecord, r)
    requires at0 <= Min(s.end, r * s.o.itemsPerRecord + rd.sizes.len)
    ensures go ==> at == Min(s.end, r * s.o.itemsPerRecord + rd.sizes.len) && s.Progress(out, at)
    ensures !go ==> s.Ended(out)
    ensures if go then |out| == at - s.start
            else |out| == at - s.start + 1 && at0 <= at < r * s.o.itemsPerRecord + rd.sizes.len
  {
    hide RecordCount, ItemsInRecord, Decoded.ItemAt, Decoder.Loaded, ItemOf, Scan.Progress, Scan.Ended, RecordOf,
      RangeYields, ValidOffsets;
    var recStart := r * s.o.itemsPerRecord;
    out, at := out0, at0;
    ProgressCount(s, out, at);
    var lo := at - recStart;
    var hi := Min(rd.sizes.len, s.end - recStart);
    for i := lo to hi
      invariant at == recStart + i <= s.end && |out| == at - s.start
      invariant s.Progress(out, at)
    {
      ItemInRecord(s.env, s.o, s.file, r, i);
      YieldStep(s, out, at);
      out := out + [Yielded(rd.Item(i))];
      if |out| > s.stop {
        return out, at, false;
      }
      at := at + 1;
    }
    go := true;
  }

  lemma RecordEnd(o: Opened, r: nat, end: nat)
    requires o.Complete() && end <= o.totalItems && r + 1 < |o.offsets| && o.totalItems > 0
    requires r * o.itemsPerRecord <= end
    ensures AfterRecord(o, r, end)
      == Min(end, r * o.itemsPerRecord + ItemsInRecord(o.totalItems, o.itemsPerRecord, r))
    ensures RecordInRange(o.totalItems, o.itemsPerRecord, r)
  {
    RecordSpan(o.totalItems, o.itemsPerRecord, r);
    MulDistrib(r + 1, 1, o.itemsPerRecord);
  }

  /** yieldRecord: decodes record r and yields its items inside the range. The scan goes on only
    when all of them were accepted. */
  method YieldRecord(s: Scan, recData: seq<byte>, r: nat, out0: seq<Yield>, at0: nat, rd: Decoder, ghost log0: Log)
    returns (out: seq<Yield>, at: nat, go: bool, ghost log: Log)
    requires s.Valid() && Enters(s, r, at0) && recData == RecordAt(s.o, s.file, r)
    requires s.Progress(out0, at0)
    requires Configured(rd, s.o)
    modifies rd`decompressed, rd`sizes, rd`offsets, rd.decompressed.arr, rd.sizes.arr, rd.offsets.arr
    ensures Configured(rd, s.o) && Reused(rd)
    ensures go ==> at == AfterRecord(s.o, r, s.end) && s.Progress(out, at)
    ensures !go ==> s.Ended(out)
    ensures log == log0.(decoded := log0.decoded + [r]) && LastIn(s, |out|, r)
  {
    hide Env.Valid, DecodedRecord, ValidOffsets, RecordCount, ItemsInRecord, Decoded.ItemAt, Decoder.Loaded, ItemOf,
      Scan.Progress, Scan.Ended, RecordAt, RangeYields, LastIn;
    var o := s.o;
    ProgressCount(s, out0, at0);
    MulDistrib(r, 1, o.itemsPerRecord);
    assert at0 < (r + 1) * o.itemsPerRecord;
    LastInRecord(s, at0 + 1 - s.start, r);
    RecordBounds(o, s.file, r);
    RecordSpan(o.totalItems, o.itemsPerRecord, r);
    DecodedPartitionIfOk(s.env, o, r, recData);
    RecordEnd(o, r, s.end);
    ItemInRecord(s.env, o, s.file, r, at0 - r * o.itemsPerRecord);
    hide AfterRecord;
    var err := rd.Decode(s.env, recData, r);
    log := log0.(decoded := log0.decoded + [r]);
    if err.Some? {
      YieldStep(s, out0, at0);
      return out0 + [Failed(err.value)], at0, false, log;
    }
    out, at, go := YieldItems(s, r, out0, at0, rd);
    LastInRecord(s, |out|, r);
  }

  /** file.ReadAt into the start of a buffer; the host may refuse. */
  method ReadAt(file: seq<byte>, off: nat, size: nat, buf: array<byte>, readOk: int -> bool, ghost log0: Log)
    returns (ok: bool, ghost log: Log)
    requires size <= buf.Length && off + size <= |file|
    modifies buf
    ensures ok == readOk(off)
    ensures ok ==> buf[..size] == file[off..off + size]
    ensures log == log0.(fetched := log0.fetched + [(off, size)])
  {
    log := log0.(fetched := log0.fetched + [(off, size)]);
    ok := readOk(off);
    if ok {
      forall i | 0 <= i < size {
        buf[i] := file[off + i];
      }
    }
  }

  /** The batch starting at record `first`: as many consecutive records, up to `last`, as fit in
    the buffer together; at least one. */
  method BatchEnd(o: Opened, ghost file: seq<byte>, first: nat, last: nat, bufSize: nat) returns (batchEnd: nat)
    requires o.Sound(file) && first <= last && last + 1 < |o.offsets|
    ensures first < batchEnd <= last + 1
    ensures batchEnd == first + 1 || o.offsets[batchEnd] - o.offsets[first] <= bufSize
    ensures batchEnd == last + 1 || o.offsets[batchEnd + 1] - o.offsets[first] > bufSize
  {
    batchEnd := first + 1;
    while batchEnd <= last && o.offsets[batchEnd + 1] - o.offsets[first] <= bufSize
      invariant first < batchEnd <= last + 1
      invariant batchEnd == first + 1 || o.offsets[batchEnd] - o.offsets[first] <= bufSize
    {
      batchEnd := batchEnd + 1;
    }
  }

  /** Where the scan stands when it is about to enter record r, or has passed the last one. */
  ghost predicate AtRecord(s: Scan, last: nat, r: nat, at: nat)
    requires s.o.itemsPerRecord > 0
  {
    && (r <= last ==> Enters(s, r, at))
    && (r > last ==> at == s.end)
  }

  /** The record of the first position scanned. */
  ghost predicate IsFirst(s: Scan, first: nat)
    requires s.o.itemsPerRecord > 0
  {
    first == s.start / s.o.itemsPerRecord
  }

  /** The record of the last position scanned. */
  ghost predicate IsLast(s: Scan, last: nat)
    requires s.o.itemsPerRecord > 0 && s.start < s.end
  {
    last == (s.end - 1) / s.o.itemsPerRecord
  }

  /** The scan of a non-empty range begins in its first record. */
  lemma FirstRecord(s: Scan)
    requires s.Valid() && s.start < s.end
    ensures var k := s.o.itemsPerRecord;
      && 0 <= s.start / k <= (s.end - 1) / k && (s.end - 1) / k + 1 < |s.o.offsets|
      && AtRecord(s, (s.end - 1) / k, s.start / k, s.start)
  {
    var k := s.o.itemsPerRecord;
    PositionResolves(s.o.totalItems, k, s.start);
    PositionResolves(s.o.totalItems, k, s.end - 1);
    MulDistrib(s.start / k + 1, 1, k);
    var a, b := s.start / k, (s.end - 1) / k;
    if a > b {
      MulUpTo(b + 1, a, k);
      MulDistrib(b + 1, 1, k);
    }
  }

  /** After record r the scan enters record r + 1, or is done. */
  lemma NextRecord(s: Scan, r: nat)
    requires s.Valid() && s.start < s.end && r <= (s.end - 1) / s.o.itemsPerRecord
    ensures AtRecord(s, (s.end - 1) / s.o.itemsPerRecord, r + 1, AfterRecord(s.o, r, s.end))
  {
    var k := s.o.itemsPerRecord;
    var last := (s.end - 1) / k;
    PositionResolves(s.o.totalItems, k, s.end - 1);
    MulNonneg(r + 1, k);
    if r < last {
      MulUpTo(r + 1, last, k);
      MulDistrib(r + 2, 1, k);
      PositionResolves(s.o.totalItems, k, s.end - 1);
    } else {
      MulDistrib(last + 1, 1, k);
    }
  }

  /** Record j inside a buffer that holds the records from `first` on. */
  lemma BufferedRecord(s: Scan, first: nat, j: nat, batchEnd: nat, data: seq<byte>)
    requires s.o.Sound(s.file) && first <= j < batchEnd && batchEnd < |s.o.offsets|
    requires 0 <= s.o.offsets[first] <= s.o.offsets[batchEnd] <= |s.file|
    requires data == s.file[s.o.offsets[first]..s.o.offsets[batchEnd]]
    ensures var lo, hi := s.o.offsets[j] - s.o.offsets[first], s.o.offsets[j + 1] - s.o.offsets[first];
      0 <= lo <= hi <= |data| && data[lo..hi] == RecordAt(s.o, s.file, j)
  {
    OffsetsMonotone(s.o.offsets, first, j);
    OffsetsMonotone(s.o.offsets, j + 1, batchEnd);
    RecordBounds(s.o, s.file, j);
  }

  /** Records from, from + 1, ..., n of them. */
  ghost function Consecutive(from: nat, n: nat): (r: seq<nat>)
    ensures |r| == n
  {
    if n == 0 then [] else Consecutive(from, n - 1) + [from + n - 1]
  }

  lemma {:induction false} ConsecutiveJoin(from: nat, m: nat, n: nat)
    ensures Consecutive(from, m) + Consecutive(from + m, n) == Consecutive(from, m + n)
  {
    if n == 0 {
      assert Consecutive(from, m) + [] == Consecutive(from, m);
    } else {
      ConsecutiveJoin(from, m, n - 1);
      assert Consecutive(from, m) + (Consecutive(from + m, n - 1) + [from + m + n - 1])
        == (Consecutive(from, m) + Consecutive(from + m, n - 1)) + [from + m + n - 1];
    }
  }

  lemma BatchBounds(s: Scan, first: nat, batchEnd: nat)
    requires s.o.Sound(s.file) && first < batchEnd < |s.o.offsets|
    ensures 0 <= s.o.offsets[first] <= s.o.offsets[batchEnd] <= |s.file|
  {
    OffsetsMonotone(s.o.offsets, 0, first);
    OffsetsMonotone(s.o.offsets, first, batchEnd);
    OffsetsMonotone(s.o.offsets, batchEnd, |s.o.offsets| - 1);
  }

  /** One record of a batch. */
  method ScanRecord(s: Scan, last: nat, recData: seq<byte>, r: nat, out0: seq<Yield>, at0: nat, rd: Decoder, ghost log0: Log)
    returns (out: seq<Yield>, at: nat, go: bool, ghost log: Log)
    requires s.Valid() && s.start < s.end && IsLast(s, last)
    requires r <= last && AtRecord(s, last, r, at0) && s.Progress(out0, at0)
    requires r + 1 < |s.o.offsets| && recData == RecordAt(s.o, s.file, r)
    requires Configured(rd, s.o)
    modifies rd`decompressed, rd`sizes, rd`offsets, rd.decompressed.arr, rd.sizes.arr, rd.offsets.arr
    ensures Configured(rd, s.o) && Reused(rd)
    ensures go ==> AtRecord(s, last, r + 1, at) && s.Progress(out, at)
    ensures !go ==> s.Ended(out)
    ensures log == log0.(decoded := log0.decoded + [r]) && LastIn(s, |out|, r)
  {
    hide Env.Valid, ValidOffsets, RecordCount, Scan.Progress, Scan.Ended, RecordAt, RangeYields, AfterRecord, Enters, LastIn;
    out, at, go, log := YieldRecord(s, recData, r, out0, at0, rd, log0);
    NextRecord(s, r);
  }

  /** The records of a batch, out of the bytes read, until one of them ends the scan. */
  method ScanRecords(s: Scan, last: nat, first: nat, batchEnd: nat, readBuf: seq<byte>, out0: seq<Yield>, at0: nat, rd: Decoder,
                     ghost log0: Log)
    returns (out: seq<Yield>, at: nat, go: bool, ghost log: Log, ghost n: nat)
    requires s.Valid() && s.start < s.end && IsLast(s, last) && last + 1 < |s.o.offsets|
    requires first < batchEnd <= last + 1 && AtRecord(s, last, first, at0)
    requires s.Progress(out0, at0)
    requires 0 <= s.o.offsets[first] <= s.o.offsets[batchEnd] <= |s.file|
    requires readBuf == s.file[s.o.offsets[first]..s.o.offsets[batchEnd]]
    requires Configured(rd, s.o)
    modifies rd`decompressed, rd`sizes, rd`offsets, rd.decompressed.arr, rd.sizes.arr, rd.offsets.arr
    ensures Configured(rd, s.o) && Reused(rd)
    ensures go ==> AtRecord(s, last, batchEnd, at) && s.Progress(out, at) && n == batchEnd - first
    ensures !go ==> s.Ended(out)
    ensures log.fetched == log0.fetched
    ensures 0 < n <= batchEnd - first && log.decoded == log0.decoded + Consecutive(first, n)
    ensures LastIn(s, |out|, first + n - 1)
  {
    hide Env.Valid, ValidOffsets, RecordCount, Scan.Progress, Scan.Ended, RecordAt, RangeYields, AfterRecord, Enters,
      LastIn, AtRecord, Opened.Complete, IsLast;
    out, at, go, log, n := out0, at0, true, log0, 0;
    for j := first to batchEnd
      invariant AtRecord(s, last, j, at) && s.Progress(out, at) && go
      invariant Configured(rd, s.o) && Reused(rd)
      invariant n == j - first && log.decoded == log0.decoded + Consecutive(first, n)
      invariant log.fetched == log0.fetched
      invariant n > 0 ==> LastIn(s, |out|, first + n - 1)
    {
      BufferedRecord(s, first, j, batchEnd, readBuf);
      var lo := s.o.offsets[j] - s.o.offsets[first];
      var hi := s.o.offsets[j + 1] - s.o.offsets[first];
      out, at, go, log := ScanRecord(s, last, readBuf[lo..hi], j, out, at, rd, log);
      assert log0.decoded + Consecutive(first, n) + [j] == log0.decoded + Consecutive(first, n + 1);
      n := n + 1;
      if !go {
        return;
      }
    }
  }

  lemma ConsecutiveNone(from: nat)
    ensures Consecutive(from, 0) == []
  {
  }

  /** One batch of a scan: one read, then records [first, batchEnd) decoded from its buffer, each once and
    in order, until one of them ends the scan. */
  method ScanBatch(s: Scan, last: nat, first: nat, batchEnd: nat, out0: seq<Yield>, at0: nat, rd: Decoder,
                   buf: array<byte>, readOk: int -> bool, ghost log0: Log)
    returns (out: seq<Yield>, at: nat, go: bool, ioFailed: bool, ghost log: Log, ghost n: nat)
    requires s.Valid() && s.start < s.end && IsLast(s, last) && last + 1 < |s.o.offsets|
    requires first < batchEnd <= last + 1 && AtRecord(s, last, first, at0)
    requires s.Progress(out0, at0)
    requires s.o.offsets[batchEnd] - s.o.offsets[first] <= buf.Length
    requires Configured(rd, s.o)
    requires buf != rd.decompressed.arr && buf as object != rd.sizes.arr && buf as object != rd.offsets.arr
    modifies rd`decompressed, rd`sizes, rd`offsets, rd.decompressed.arr, rd.sizes.arr, rd.offsets.arr, buf
    ensures Configured(rd, s.o) && Reused(rd)
    ensures buf != rd.decompressed.arr && buf as object != rd.sizes.arr && buf as object != rd.offsets.arr
    ensures go ==> !ioFailed && AtRecord(s, last, batchEnd, at) && s.Progress(out, at) && n == batchEnd - first
    ensures !go && !ioFailed ==> s.Ended(out)
    ensures ioFailed ==> !go && s.Refused(out) && |out| == |out0| + 1 && n == 0
    ensures ioFailed <==> !readOk(s.o.offsets[first])
    ensures log.fetched == log0.fetched + [(s.o.offsets[first], s.o.offsets[batchEnd] - s.o.offsets[first])]
    ensures n <= batchEnd - first && log.decoded == log0.decoded + Consecutive(first, n)
    ensures !ioFailed ==> n > 0 && LastIn(s, |out|, first + n - 1)
  {
    hide Env.Valid, ValidOffsets, RecordCount, Scan.Progress, Scan.Ended, Scan.Refused, RecordAt, RangeYields, AfterRecord, Enters,
      LastIn, AtRecord, Opened.Complete, IsLast, Consecutive;
    ConsecutiveNone(first);
    out, at, go, n := out0, at0, true, 0;
    BatchBounds(s, first, batchEnd);
    var batchBytes := s.o.offsets[batchEnd] - s.o.offsets[first];
    var ok;
    ok, log := ReadAt(s.file, s.o.offsets[first], batchBytes, buf, readOk, log0);
    ioFailed := !ok;
    if !ok {
      ScanRefused(s, out, at);
      return out + [Failed(Io)], at, false, true, log, 0;
    }
    out, at, go, log, n := ScanRecords(s, last, first, batchEnd, buf[..batchBytes], out, at, rd, log);
  }

  /** A record larger than the buffer is a batch by itself. */
  lemma OversizeBatch(s: Scan, first: nat, batchEnd: nat, bufSize: nat)
    requires s.o.Sound(s.file) && first < batchEnd < |s.o.offsets|
    requires s.o.offsets[first + 1] - s.o.offsets[first] > bufSize
    requires batchEnd == first + 1 || s.o.offsets[batchEnd] - s.o.offsets[first] <= bufSize
    ensures batchEnd == first + 1 && s.o.offsets[first + 1] - s.o.offsets[first] >= 0
  {
    OffsetsMonotone(s.o.offsets, first + 1, batchEnd);
  }

  ghost predicate LoggedFrom(s: Scan, first: nat, last: int, log: Log, n: nat, readEnd: nat)
    requires s.o.itemsPerRecord > 0
  {
    && first <= readEnd < |s.o.offsets| && readEnd <= last + 1
    && Tiles(log.fetched, s.o.offsets[first], s.o.offsets[readEnd])
    && log.decoded == Consecutive(first, |log.decoded|) && |log.decoded| <= readEnd - first
    && (if n == 0 then log.decoded == [] else |log.decoded| > 0 && LastIn(s, n, first + |log.decoded| - 1))
  }

  /** The log of a scan that has touched n positions, its last read ending before record readEnd: the reads
    follow one another without overlap, and the records decoded are those of the positions touched, each
    once and in order. */
  ghost predicate ScanLogged(s: Scan, log: Log, n: nat, readEnd: nat)
    requires s.o.itemsPerRecord > 0 && s.start < s.end
  {
    DivNonneg(s.start, s.o.itemsPerRecord);
    LoggedFrom(s, s.start / s.o.itemsPerRecord, (s.end - 1) / s.o.itemsPerRecord, log, n, readEnd)
  }

  /** Reads that were granted. */
  predicate AllOk(fetched: seq<(int, int)>, readOk: int -> bool)
  {
    forall i :: 0 <= i < |fetched| ==> readOk(fetched[i].0)
  }

  lemma TilesNone(lo: int)
    ensures Tiles([], lo, lo)
  {
  }

  /** One batch more in the log. */
  lemma BatchLogged(s: Scan, from: nat, last: int, before: Log, after: Log, yielded: nat, now: nat, first: nat, batchEnd: nat,
                    n: nat, ioFailed: bool)
    requires s.o.itemsPerRecord > 0 && first < batchEnd < |s.o.offsets| && batchEnd <= last + 1
    requires LoggedFrom(s, from, last, before, yielded, first) && |before.decoded| == first - from
    requires after.fetched == before.fetched + [(s.o.offsets[first], s.o.offsets[batchEnd] - s.o.offsets[first])]
    requires n <= batchEnd - first && after.decoded == before.decoded + Consecutive(first, n)
    requires if ioFailed then n == 0 && now == yielded + 1 else n > 0 && LastIn(s, now, first + n - 1)
    ensures LoggedFrom(s, from, last, after, if ioFailed then now - 1 else now, batchEnd)
  {
    ConsecutiveJoin(from, first - from, n);
    ConsecutiveNone(first);
    assert before.decoded + [] == before.decoded;
    TilesNext(before.fetched, s.o.offsets[from], s.o.offsets[first], s.o.offsets[batchEnd] - s.o.offsets[first]);
    hide LastIn, Tiles, Consecutive;
  }

  lemma ScanBatchLogged(s: Scan, from: nat, last: nat, before: Log, after: Log, yielded: nat, now: nat, first: nat, batchEnd: nat, n: nat,
                        ioFailed: bool)
    requires s.o.itemsPerRecord > 0 && s.start < s.end && first < batchEnd < |s.o.offsets|
    requires IsFirst(s, from) && IsLast(s, last) && batchEnd <= last + 1
    requires ScanLogged(s, before, yielded, first) && |before.decoded| == first - from
    requires after.fetched == before.fetched + [(s.o.offsets[first], s.o.offsets[batchEnd] - s.o.offsets[first])]
    requires n <= batchEnd - first && after.decoded == before.decoded + Consecutive(first, n)
    requires if ioFailed then n == 0 && now == yielded + 1 else n > 0 && LastIn(s, now, first + n - 1)
    ensures ScanLogged(s, after, if ioFailed then now - 1 else now, batchEnd)
  {
    hide LoggedFrom, Consecutive, LastIn;
    BatchLogged(s, from, last, before, after, yielded, now, first, batchEnd, n,
                ioFailed);
  }

  /** One turn of the outer loop of ReadRange: the batch from record `first` on, in the shared buffer, or a
    record too large for it in a buffer of its own. */
  method NextBatch(s: Scan, from: nat, last: nat, first: nat, out0: seq<Yield>, at0: nat, rd: Decoder, buf: array<byte>,
                   readOk: int -> bool, ghost log0: Log)
    returns (out: seq<Yield>, at: nat, go: bool, ioFailed: bool, ghost log: Log, batchEnd: nat)
    requires s.Valid() && s.start < s.end && IsFirst(s, from) && IsLast(s, last) && last + 1 < |s.o.offsets|
    requires first <= last && AtRecord(s, last, first, at0) && s.Progress(out0, at0)
    requires ScanLogged(s, log0, |out0|, first) && |log0.decoded| == first - from
    requires AllOk(log0.fetched, readOk)
    requires Configured(rd, s.o)
    requires buf != rd.decompressed.arr && buf as object != rd.sizes.arr && buf as object != rd.offsets.arr
    modifies rd`decompressed, rd`sizes, rd`offsets, rd.decompressed.arr, rd.sizes.arr, rd.offsets.arr, buf
    ensures Configured(rd, s.o) && Reused(rd)
    ensures buf != rd.decompressed.arr && buf as object != rd.sizes.arr && buf as object != rd.offsets.arr
    ensures first < batchEnd <= last + 1
    ensures go ==> !ioFailed && AtRecord(s, last, batchEnd, at) && s.Progress(out, at)
    ensures go ==> |log.decoded| == batchEnd - from
    ensures !go && !ioFailed ==> s.Ended(out)
    ensures ioFailed ==> !go && s.Refused(out) && |out| > 0
    ensures ScanLogged(s, log, if ioFailed then |out| - 1 else |out|, batchEnd)
    ensures !ioFailed ==> AllOk(log.fetched, readOk)
    ensures ioFailed ==> |log.fetched| > 0 && !readOk(log.fetched[|log.fetched| - 1].0)
  {
    hide Env.Valid, ValidOffsets, RecordCount, Scan.Progress, Scan.Refused, Scan.Ended, RecordAt, RangeYields, AfterRecord,
      Enters, Opened.Complete, LastIn, ScanLogged, Consecutive, IsFirst, IsLast, AtRecord;
    var o := s.o;
    batchEnd := BatchEnd(o, s.file, first, last, buf.Length);
    var recBytes := o.offsets[first + 1] - o.offsets[first];
    ghost var n;
    if recBytes > buf.Length {
      OversizeBatch(s, first, batchEnd, buf.Length);
      var oneOff := new byte[recBytes](i => 0);
      out, at, go, ioFailed, log, n := ScanBatch(s, last, first, first + 1, out0, at0, rd, oneOff, readOk, log0);
    } else {
      out, at, go, ioFailed, log, n := ScanBatch(s, last, first, batchEnd, out0, at0, rd, buf, readOk, log0);
    }
    ScanBatchLogged(s, from, last, log0, log, |out0|, |out|, first, batchEnd, n, ioFailed);
  }

  lemma NothingLogged(s: Scan, from: nat, last: nat)
    requires s.Valid() && s.start < s.end && IsFirst(s, from) && IsLast(s, last)
    requires from <= last && last + 1 < |s.o.offsets|
    ensures ScanLogged(s, Log([], []), 0, from)
  {
    TilesNone(s.o.offsets[from]);
    ConsecutiveNone(from);
  }

  /** Behind the last record all positions have been passed. */
  lemma AtEnd(s: Scan, last: nat, at: nat)
    requires s.Valid() && AtRecord(s, last, last + 1, at)
    ensures at == s.end
  {
  }

  lemma NothingRead(readOk: int -> bool)
    ensures AllOk([], readOk)
  {
  }

  /** The outer loop of ReadRange. */
  method ScanAll(s: Scan, from: nat, last: nat, rd: Decoder, buf: array<byte>, readOk: int -> bool)
    returns (out: seq<Yield>, ioFailed: bool, ghost log: Log, ghost readEnd: nat)
    requires s.Valid() && s.start < s.end && IsFirst(s, from) && IsLast(s, last)
    requires from <= last && last + 1 < |s.o.offsets| && AtRecord(s, last, from, s.start) && s.Progress([], s.start)
    requires Configured(rd, s.o)
    requires buf != rd.decompressed.arr && buf as object != rd.sizes.arr && buf as object != rd.offsets.arr
    modifies rd`decompressed, rd`sizes, rd`offsets, rd.decompressed.arr, rd.sizes.arr, rd.offsets.arr, buf
    ensures Configured(rd, s.o)
    ensures !ioFailed ==> s.Ended(out) && AllOk(log.fetched, readOk)
    ensures ioFailed ==> s.Refused(out) && |out| > 0 && |log.fetched| > 0 && !readOk(log.fetched[|log.fetched| - 1].0)
    ensures ScanLogged(s, log, if ioFailed then |out| - 1 else |out|, readEnd)
  {
    hide Env.Valid, ValidOffsets, RecordCount, Scan.Progress, Scan.Refused, Scan.Ended, RecordAt, RangeYields, AfterRecord,
      Enters, Opened.Complete, LastIn, ScanLogged, IsFirst, IsLast, AtRecord, AllOk;
    NothingLogged(s, from, last);
    NothingRead(readOk);
    out, ioFailed, log, readEnd := [], false, Log([], []), from;
    var at, batchStart, go := s.start, from, true;
    while batchStart <= last
      invariant from <= batchStart <= last + 1 && !ioFailed && readEnd == batchStart
      invariant AtRecord(s, last, batchStart, at) && s.Progress(out, at)
      invariant Configured(rd, s.o) && Reused(rd)
      invariant buf != rd.decompressed.arr && buf as object != rd.sizes.arr && buf as object != rd.offsets.arr
      invariant |log.decoded| == batchStart - from && ScanLogged(s, log, |out|, readEnd) && AllOk(log.fetched, readOk)
    {
      out, at, go, ioFailed, log, batchStart := NextBatch(s, from, last, batchStart, out, at, rd, buf, readOk, log);
      readEnd := batchStart;
      if !go {
        return;
      }
    }
    AtEnd(s, last, at);
    ScanDone(s, out);
  }

  /** ReadRange: yields the items of positions [start, start + count) in order, reading batches of
    records into one 1 MiB buffer, or a record larger than that into a buffer of its own. The
    consumer accepts `stop` yields and then breaks off; `readOk` decides which reads succeed. No byte is
    read twice, no record is decoded twice, and none is decoded without a position of it being touched. */
  method ReadRange(env: Env, o: Opened, file: seq<byte>, start: nat, count: nat, rd: Decoder, stop: nat, readOk: int -> bool)
    returns (out: seq<Yield>, ioFailed: bool, ghost log: Log, ghost readEnd: nat)
    requires env.Valid() && o.Sound(file) && o.Complete() && |file| < TWO63
    requires start + count <= o.totalItems
    requires rd.Valid()
    modifies rd, rd.decompressed.arr, rd.sizes.arr, rd.offsets.arr
    ensures rd.Valid()
    ensures !ioFailed ==> out == Cut(RangeYields(env, o, file, start, start + count), stop + 1)
    ensures ioFailed ==> Scan(env, o, file, start, start + count, stop).Refused(out)
    ensures !ioFailed ==> AllOk(log.fetched, readOk)
    ensures ioFailed ==> |log.fetched| > 0 && !readOk(log.fetched[|log.fetched| - 1].0)
    ensures count == 0 ==> log == Log([], [])
    ensures count > 0 ==>
      ScanLogged(Scan(env, o, file, start, start + count, stop), log, if ioFailed then |out| - 1 else |out|, readEnd)
  {
    hide Env.Valid, ValidOffsets, RecordCount, Scan.Progress, Scan.Refused, RecordAt, RangeYields, AfterRecord, Enters,
      Opened.Complete, ScanLogged, AtRecord;
    out, ioFailed, log, readEnd := [], false, Log([], []), 0;
    var s := Scan(env, o, file, start, start + count, stop);
    ScanStart(s);
    if count == 0 {
      ScanDone(s, out);
      return;
    }
    Configure(rd, o);
    FirstRecord(s);
    var firstRecord := start / o.itemsPerRecord;
    var lastRecord := (start + count - 1) / o.itemsPerRecord;
    var buf := new byte[READ_BUF_SIZE](i => 0);
    out, ioFailed, log, readEnd := ScanAll(s, firstRecord, lastRecord, rd, buf, readOk);
  }
}
