/** Content verification, and what range scans and verification find in a finished file. */
module Verification {
  import opened Bytes
  import opened Results
  import opened Environment
  import opened Index
  import opened Records
  import opened RecordDecoder
  import opened Chunks
  import opened ContentHashing
  import opened FileFormat
  import opened SealedFile
  import opened Reader

  /** The items of a scan that yielded no error. */
  ghost function ItemsOf(ys: seq<Yield>): (items: seq<Item>)
    requires forall i :: 0 <= i < |ys| ==> ys[i].Yielded?
    ensures |items| == |ys|
  {
    seq(|ys|, i requires 0 <= i < |ys| => ys[i].item)
  }

  ghost predicate AllYielded(ys: seq<Yield>)
  {
    forall i :: 0 <= i < |ys| ==> ys[i].Yielded?
  }

  ghost function FirstError(ys: seq<Yield>): Error
    requires !AllYielded(ys)
  {
    if ys[0].Failed? then ys[0].error
    else
      assert exists i :: 1 <= i < |ys| && ys[i].Failed?;
      assert forall i :: 1 <= i < |ys| ==> ys[i] == ys[1..][i - 1];
      FirstError(ys[1..])
  }

  /** What Verify returns for an opened file: nil, the error of the first bad record, or a mismatch. */
  ghost function VerifyOutcome(env: Env, o: Opened, file: seq<byte>): Option<Error>
    requires o.Sound(file)
  {
    if !o.hasContentHash then None
    else
      var ys := RangeYields(env, o, file, 0, o.totalItems);
      if !AllYielded(ys) then Some(FirstError(ys))
      else if ContentHash(env, o.itemsPerRecord, ItemsOf(ys)) != o.contentHash then Some(HashMismatch)
      else None
  }

  lemma {:induction false} FirstErrorAt(ys: seq<Yield>, i: nat)
    requires i < |ys| && ys[i].Failed? && forall j :: 0 <= j < i ==> ys[j].Yielded?
    ensures !AllYielded(ys) && FirstError(ys) == ys[i].error
  {
    if i > 0 {
      FirstErrorAt(ys[1..], i - 1);
    }
  }

  lemma {:induction false} YieldsLength(env: Env, o: Opened, file: seq<byte>, from: nat, end: nat)
    requires o.Sound(file) && from <= end
    ensures |RangeYields(env, o, file, from, end)| <= end - from
    decreases end - from
  {
    hide ItemOf, Opened.Sound;
    if from < end { YieldsLength(env, o, file, from + 1, end); }
  }

  /** A refused scan ends in the refusal, and only there. */
  lemma RefusedEnds(s: Scan, out: seq<Yield>)
    requires s.o.Sound(s.file) && s.Refused(out)
    ensures !AllYielded(out) && FirstError(out) == Io
  {
    hide RangeYields, Opened.Sound;
    assert forall i :: 0 <= i < |out| - 1 ==> out[..|out| - 1][i] == out[i];
    FirstErrorAt(out, |out| - 1);
  }

  /** n items fill whole records. */
  predicate RecordEnds(n: nat, itemsPerRecord: nat)
    requires itemsPerRecord > 0
  {
    n % itemsPerRecord == 0
  }

  /** The context has not ended at any record boundary within the first n items. */
  ghost predicate NeverCancelled(n: nat, itemsPerRecord: nat, cancelled: nat -> bool)
    requires itemsPerRecord > 0
  {
    forall m: nat :: 0 < m <= n && RecordEnds(m, itemsPerRecord) ==> !cancelled(m)
  }

  /** The loop ends at yield i with this error: the yield is one, or the context has ended behind it. */
  ghost predicate StopsAt(out: seq<Yield>, i: nat, itemsPerRecord: nat, cancelled: nat -> bool, e: Error)
    requires itemsPerRecord > 0
  {
    && i < |out| && AllYielded(out[..i]) && NeverCancelled(i, itemsPerRecord, cancelled)
    && if out[i].Failed? then e == out[i].error
       else e == Cancelled && RecordEnds(i + 1, itemsPerRecord) && cancelled(i + 1)
  }

  /** The loop of Verify: the content hash of what a scan yields, unless it yields an error or the context
    ends at a record boundary. */
  method HashYields(env: Env, itemsPerRecord: nat, out: seq<Yield>, cancelled: nat -> bool) returns (r: Result<Digest>)
    requires itemsPerRecord > 0
    ensures r.Ok? ==> AllYielded(out) && r.value == ContentHash(env, itemsPerRecord, ItemsOf(out))
    ensures r.Ok? ==> NeverCancelled(|out|, itemsPerRecord, cancelled)
    ensures r.Err? ==> exists i :: StopsAt(out, i, itemsPerRecord, cancelled, r.error)
    ensures r.Err? ==>
      (!AllYielded(out) && r.error == FirstError(out)) || (r.error == Cancelled && exists n :: cancelled(n))
  {
    hide ContentHasher.Valid, ContentHasher.Items, ContentHash, FirstError, RecordEnds, Flatten;
    var hasher := new ContentHasher(env, itemsPerRecord);
    for i := 0 to |out|
      invariant forall j :: 0 <= j < i ==> out[j].Yielded?
      invariant NeverCancelled(i, itemsPerRecord, cancelled)
      invariant hasher.Valid(env) && hasher.chunkSize == itemsPerRecord && hasher.Items() == ItemsOf(out[..i])
    {
      if out[i].Failed? {
        FirstErrorAt(out, i);
        assert StopsAt(out, i, itemsPerRecord, cancelled, out[i].error);
        return Err(out[i].error);
      }
      FlattenOne(out[i].item);
      hasher.Add(env, [out[i].item]);
      assert ItemsOf(out[..i + 1]) == ItemsOf(out[..i]) + [out[i].item];
      if RecordEnds(i + 1, itemsPerRecord) && cancelled(i + 1) {
        assert StopsAt(out, i, itemsPerRecord, cancelled, Cancelled);
        return Err(Cancelled);
      }
    }
    assert out[..|out|] == out;
    var computed := hasher.Sum(env);
    r := Ok(computed);
  }

  /** The position has been read, and gave the item yielded. */
  ghost predicate ReadAs(env: Env, o: Opened, file: seq<byte>, position: nat, y: Yield)
    requires o.Sound(file)
  {
    y.Yielded? && |y.item| < TWO32 && ItemOf(env, o, file, position) == Ok(y.item)
  }

  lemma ItemAtSmall(d: Decoded, j: nat)
    requires d.Fits() && j < |d.sizes|
    ensures |d.ItemAt(j)| < TWO32
  {
    SumNext(d.sizes, j);
    SumMonotone(d.sizes, j + 1, |d.sizes|);
    assert d.sizes[..|d.sizes|] == d.sizes;
    hide Sum;
  }

  /** No item that is read has 2^32 bytes: its size was stored in four. */
  lemma ReadIsSmall(env: Env, o: Opened, file: seq<byte>, i: nat)
    requires o.Sound(file) && ItemOf(env, o, file, i).Ok?
    ensures |ItemOf(env, o, file, i).value| < TWO32
  {
    hide DecodedRecord, RecordAt, ItemsInRecord, RecordCount, Decoded.Fits, Decoded.ItemAt, ValidOffsets;
    assert i < o.totalItems;
    PositionResolves(o.totalItems, o.itemsPerRecord, i);
    var r, j: nat := i / o.itemsPerRecord, i % o.itemsPerRecord;
    var d := RecordOf(env, o, file, r).value;
    assert DecodedRecord(env, o.format, o.totalItems, o.itemsPerRecord, r, RecordAt(o, file, r)) == Ok(d);
    DecodedPartition(env, o.format, o.totalItems, o.itemsPerRecord, r, RecordAt(o, file, r));
    ItemAtSmall(d, j);
  }

  lemma YieldedAt(ys: seq<Yield>, n: nat, tail: seq<Yield>)
    requires AllYielded(ys) && n <= |ys| && ys[n..] == tail && |tail| > 0
    ensures n < |ys| && ys[n] == tail[0] && tail[0].Yielded? && ys[n + 1..] == tail[1..]
  {
  }

  /** One more position of a scan without an error. */
  lemma ReadStep(env: Env, o: Opened, file: seq<byte>, ys: seq<Yield>, n: nat)
    requires o.Sound(file) && AllYielded(ys) && n < o.totalItems
    requires n <= |ys| && ys[n..] == RangeYields(env, o, file, n, o.totalItems)
    ensures n < |ys| && ReadAs(env, o, file, n, ys[n])
    ensures ys[n + 1..] == RangeYields(env, o, file, n + 1, o.totalItems)
  {
    hide Opened.Sound, ItemOf, RangeYields, AllYielded;
    RangeStep(Scan(env, o, file, n, o.totalItems, 0), n);
    YieldedAt(ys, n, RangeYields(env, o, file, n, o.totalItems));
    ReadIsSmall(env, o, file, n);
  }

  /** A scan of the whole file without an error has read every position. */
  lemma {:induction false} ScanReads(env: Env, o: Opened, file: seq<byte>, ys: seq<Yield>, n: nat)
    requires o.Sound(file) && ys == RangeYields(env, o, file, 0, o.totalItems) && AllYielded(ys) && n <= o.totalItems
    ensures n <= |ys| && ys[n..] == RangeYields(env, o, file, n, o.totalItems)
    ensures forall i :: 0 <= i < n ==> ReadAs(env, o, file, i, ys[i])
  {
    hide Opened.Sound, ReadAs, RangeYields, AllYielded;
    if n > 0 {
      ScanReads(env, o, file, ys, n - 1);
      ReadStep(env, o, file, ys, n - 1);
    }
  }

  /** Verify: streams every item through a content hasher and compares with the stored hash. `readOk`
    decides which reads succeed, `cancelled` whether the context has ended after so many items. */
  method Verify(env: Env, o: Opened, file: seq<byte>, rd: Decoder, readOk: int -> bool, cancelled: nat -> bool)
    returns (r: Option<Error>)
    requires env.Valid() && o.Sound(file) && o.Complete() && |file| < TWO63 && rd.Valid()
    modifies rd, rd.decompressed.arr, rd.sizes.arr, rd.offsets.arr
    ensures r == None ==> VerifyOutcome(env, o, file) == None
    ensures r == None && o.hasContentHash ==> NeverCancelled(o.totalItems, o.itemsPerRecord, cancelled)
    ensures r == VerifyOutcome(env, o, file)
      || (r == Some(Io) && exists off :: !readOk(off))
      || (r == Some(Cancelled) && exists n :: cancelled(n))
  {
    hide Env.Valid, Opened.Complete, ValidOffsets, RangeYields, ContentHash, Scan.Refused, ScanLogged, FirstError, ItemsOf;
    if !o.hasContentHash {
      return None;
    }
    var out, ioFailed, log, _ := ReadRange(env, o, file, 0, o.totalItems, rd, o.totalItems, readOk);
    YieldsLength(env, o, file, 0, o.totalItems);
    if ioFailed {
      ghost var off: int := log.fetched[|log.fetched| - 1].0;
      assert !readOk(off);
      RefusedEnds(Scan(env, o, file, 0, o.totalItems, o.totalItems), out);
    }
    var computed := HashYields(env, o.itemsPerRecord, out, cancelled);
    if computed.Err? {
      return Some(computed.error);
    }
    ScanReads(env, o, file, out, o.totalItems);
    r := if computed.value != o.contentHash then Some(HashMismatch) else None;
  }

  // ---------------------------------------------------------------- finished files

  /** Position i lies in a record the reader accepts. */
  ghost predicate Readable(s: Settings, items: seq<Item>, i: nat)
    requires s.Valid() && i < |items|
  {
    s.format.Uncompressed? ==> |Flatten(RecordItems(s, items, i))| > 0
  }

  ghost predicate AllReadable(s: Settings, items: seq<Item>, from: nat, end: nat)
    requires s.Valid() && end <= |items|
  {
    forall i :: from <= i < end ==> Readable(s, items, i)
  }

  ghost function YieldAll(items: seq<Item>): (ys: seq<Yield>)
    ensures |ys| == |items|
  {
    seq(|items|, i requires 0 <= i < |items| => Yielded(items[i]))
  }

  lemma EmptyScan(env: Env, o: Opened, file: seq<byte>, at: nat)
    requires o.Sound(file)
    ensures RangeYields(env, o, file, at, at) == [] == YieldAll([])
  {
    hide Opened.Sound;
  }

  lemma YieldAllStep(items: seq<Item>, from: nat, end: nat)
    requires from < end <= |items|
    ensures YieldAll(items[from..end]) == [Yielded(items[from])] + YieldAll(items[from + 1..end])
  {
  }

  lemma FailsLater(head: Yield, rest: seq<Yield>)
    requires head.Yielded? && !AllYielded(rest)
    ensures !AllYielded([head] + rest) && FirstError([head] + rest) == FirstError(rest)
  {
    var ys := [head] + rest;
    var i :| 0 <= i < |rest| && !rest[i].Yielded?;
    assert ys[i + 1] == rest[i] && ys[1..] == rest;
  }

  /** Every position reads as its item, or is refused because its record has no payload byte. */
  ghost predicate ReadsAsWritten(env: Env, s: Settings, items: seq<Item>, o: Opened, f: seq<byte>)
    requires s.Valid() && o.Sound(f)
  {
    forall i :: 0 <= i < |items| ==> ItemOf(env, o, f, i) == if Readable(s, items, i) then Ok(items[i]) else Err(ShortCrc)
  }

  /** What a scan of positions from .. end - 1 yields then. */
  ghost predicate ScansAsWritten(env: Env, s: Settings, items: seq<Item>, o: Opened, f: seq<byte>, from: nat, end: nat)
    requires s.Valid() && o.Sound(f) && from <= end <= |items|
  {
    var ys := RangeYields(env, o, f, from, end);
    && (AllReadable(s, items, from, end) ==> ys == YieldAll(items[from..end]))
    && (!AllReadable(s, items, from, end) ==> !AllYielded(ys) && FirstError(ys) == ShortCrc)
  }

  lemma {:induction false} ScanAsWritten(env: Env, s: Settings, items: seq<Item>, o: Opened, f: seq<byte>, from: nat, end: nat)
    requires s.Valid() && o.Sound(f) && ReadsAsWritten(env, s, items, o, f) && from <= end <= |items|
    ensures ScansAsWritten(env, s, items, o, f, from, end)
    decreases end - from
  {
    hide Opened.Sound, ItemOf, Readable, YieldAll, FirstError, RangeYields;
    if from == end {
      EmptyScan(env, o, f, from);
    } else {
      RangeStep(Scan(env, o, f, from, end, 0), from);
      if Readable(s, items, from) {
        ScanAsWritten(env, s, items, o, f, from + 1, end);
        if AllReadable(s, items, from + 1, end) {
          YieldAllStep(items, from, end);
        } else {
          FailsLater(Yielded(items[from]), RangeYields(env, o, f, from + 1, end));
        }
      } else {
        FirstErrorAt([Failed(ShortCrc)], 0);
      }
    }
  }

  /** Scanning a finished file yields exactly the items of the range, in order, when their records
    are readable, and otherwise ends in the refusal of the first record that is not. */
  lemma FileScan(env: Env, s: Settings, items: seq<Item>, appData: seq<byte>, from: nat, end: nat)
    requires env.Valid() && s.Valid() && Writable(env, s, items, appData) && from <= end <= |items|
    ensures |items| <= MAX_UINT32
    ensures OpenedOf(env, s, items, appData).Sound(FileOf(env, s, items, appData).value)
    ensures ScansAsWritten(env, s, items, OpenedOf(env, s, items, appData), FileOf(env, s, items, appData).value, from, end)
  {
    hide FileOf, OpenedOf, Opened.Sound, ItemOf, RecordItems, Env.Valid, Flatten, RecordsOf, OffsetsOf, ChunksOf,
      IndexBytes, Deltas, Small, ScansAsWritten, OpenedFile;
    FileOpens(env, s, items, appData);
    var o, f := OpenedOf(env, s, items, appData), FileOf(env, s, items, appData).value;
    forall i | 0 <= i < |items|
      ensures ItemOf(env, o, f, i) == if Readable(s, items, i) then Ok(items[i]) else Err(ShortCrc)
    {
      FileRoundTrip(env, s, items, appData, i);
    }
    ScanAsWritten(env, s, items, o, f, from, end);
  }

  lemma YieldedItems(items: seq<Item>)
    ensures AllYielded(YieldAll(items)) && ItemsOf(YieldAll(items)) == items
  {
  }

  /** Verify accepts every file the writer seals with hashing on, exactly when each of its records
    can be read at all; a record of empty items only, written Uncompressed, makes it fail. */
  lemma VerifyAccepts(env: Env, s: Settings, items: seq<Item>, appData: seq<byte>)
    requires env.Valid() && s.Valid() && Writable(env, s, items, appData)
    ensures |items| <= MAX_UINT32
    ensures OpenedOf(env, s, items, appData).Sound(FileOf(env, s, items, appData).value)
    ensures VerifyOutcome(env, OpenedOf(env, s, items, appData), FileOf(env, s, items, appData).value)
      == if !s.hashing || AllReadable(s, items, 0, |items|) then None else Some(ShortCrc)
  {
    hide FileOf, Opened.Sound, ItemOf, RecordItems, Env.Valid, Flatten, RangeYields, ContentHash, RecordsOf, OffsetsOf,
      ChunksOf, FirstError, IndexBytes, Small, Readable;
    FileOpens(env, s, items, appData);
    FileScan(env, s, items, appData, 0, |items|);
    assert items[0..|items|] == items;
    YieldedItems(items);
    hide Writable, YieldAll, ItemsOf, NO_HASH;
  }

  // ---------------------------------------------------------------- what an accepted hash means

  /** The items read from an opened file are `items`. */
  ghost predicate HoldsItems(env: Env, o: Opened, file: seq<byte>, items: seq<Item>)
    requires o.Sound(file)
  {
    |items| == o.totalItems && forall i :: 0 <= i < |items| ==> ItemOf(env, o, file, i) == Ok(items[i])
  }

  /** Two different strings with one SHA-256 value, each hashed for one of the item lists. */
  ghost predicate Collision(env: Env, k: nat, a: seq<Item>, b: seq<Item>, x: seq<byte>, y: seq<byte>)
    requires k > 0
  {
    x != y && env.sha(x) == env.sha(y) && IsPreimage(env, k, a, x) && IsPreimage(env, k, b, y)
  }

  /** What nil from Verify means: any accepted file that stores the content hash and itemsPerRecord sealed
    for `items` holds these items, whatever its bytes, or the lemma returns two strings that collide. */
  lemma VerifyBinds(env: Env, o: Opened, file: seq<byte>, s: Settings, items: seq<Item>)
    returns (found: seq<Item>, x: seq<byte>, y: seq<byte>)
    requires o.Sound(file) && s.Valid() && Small(items)
    requires o.hasContentHash && s.hashing && o.itemsPerRecord == s.itemsPerRecord
    requires o.contentHash == HashField(env, s, items) && VerifyOutcome(env, o, file) == None
    ensures HoldsItems(env, o, file, found)
    ensures found == items || Collision(env, s.itemsPerRecord, found, items, x, y)
  {
    hide ItemOf, Opened.Sound, RangeYields, ContentHash, IsPreimage;
    var ys := RangeYields(env, o, file, 0, o.totalItems);
    found := ItemsOf(ys);
    ScanReads(env, o, file, ys, o.totalItems);
    EmptyScan(env, o, file, o.totalItems);
    assert |ys| == o.totalItems && forall i :: 0 <= i < |ys| ==> ReadAs(env, o, file, i, ys[i]);
    x, y := HashBindsContent(env, s.itemsPerRecord, found, items);
  }

  lemma {:induction false} ScanHolds(env: Env, o: Opened, file: seq<byte>, items: seq<Item>, from: nat)
    requires o.Sound(file) && HoldsItems(env, o, file, items) && from <= |items|
    ensures RangeYields(env, o, file, from, o.totalItems) == YieldAll(items[from..])
    decreases |items| - from
  {
    hide Opened.Sound, ItemOf, RangeYields, YieldAll;
    if from == |items| {
      EmptyScan(env, o, file, from);
      assert items[from..] == [];
    } else {
      RangeStep(Scan(env, o, file, from, o.totalItems, 0), from);
      ScanHolds(env, o, file, items, from + 1);
      YieldAllStep(items, from, |items|);
      assert items[from..|items|] == items[from..] && items[from + 1..|items|] == items[from + 1..];
    }
  }

  lemma {:induction false} ScanFails(env: Env, o: Opened, file: seq<byte>, from: nat, i: nat, e: Error)
    requires o.Sound(file) && from <= i < o.totalItems && ItemOf(env, o, file, i) == Err(e)
    requires forall j :: from <= j < i ==> ItemOf(env, o, file, j).Ok?
    ensures var ys := RangeYields(env, o, file, from, o.totalItems); !AllYielded(ys) && FirstError(ys) == e
    decreases i - from
  {
    hide Opened.Sound, ItemOf, RangeYields, FirstError;
    RangeStep(Scan(env, o, file, from, o.totalItems, 0), from);
    if from == i {
      FirstErrorAt([Failed(e)], 0);
    } else {
      ScanFails(env, o, file, from + 1, i, e);
      FailsLater(Yielded(ItemOf(env, o, file, from).value), RangeYields(env, o, file, from + 1, o.totalItems));
    }
  }

  /** Of a file with a hash whose positions all read, Verify reports a mismatch exactly when the content hash
    of its items is not the stored one. */
  lemma VerifyDecides(env: Env, o: Opened, file: seq<byte>, items: seq<Item>)
    requires o.Sound(file) && o.hasContentHash && HoldsItems(env, o, file, items)
    ensures VerifyOutcome(env, o, file)
      == if ContentHash(env, o.itemsPerRecord, items) == o.contentHash then None else Some(HashMismatch)
  {
    hide Opened.Sound, ItemOf, RangeYields, ContentHash;
    ScanHolds(env, o, file, items, 0);
    assert items[0..] == items;
    YieldedItems(items);
    hide YieldAll, ItemsOf;
  }

  /** Otherwise it reports the error of the first position that does not read. */
  lemma VerifyFails(env: Env, o: Opened, file: seq<byte>, i: nat, e: Error)
    requires o.Sound(file) && o.hasContentHash && i < o.totalItems && ItemOf(env, o, file, i) == Err(e)
    requires forall j :: 0 <= j < i ==> ItemOf(env, o, file, j).Ok?
    ensures VerifyOutcome(env, o, file) == Some(e)
  {
    hide Opened.Sound, ItemOf, RangeYields, ContentHash, FirstError;
    ScanFails(env, o, file, 0, i, e);
  }

  lemma OneEmptyRecord(env: Env, s: Settings)
    requires s == Settings(Uncompressed, 1, false)
    ensures NoneEmpty([[[]]])
    ensures |RecordsOf(env, s, [[[]]])| == 1 && OffsetsOf(RecordsOf(env, s, [[[]]])) == [0, 4]
  {
    hide PutLE, Flatten;
    FlattenOne([]);
    FlattenNone();
    var records := RecordsOf(env, s, [[[]]]);
    assert records[0] == [] + PutLE(env.crc([]), 4) + [];
    FlattenOne(records[0]);
    assert records == [records[0]];
    assert records[..0] == [] && records[..1] == records;
  }

  /** The refusal is real: one empty item, written Uncompressed one per record, is accepted by the
    writer and by opening, and cannot be read. */
  lemma EmptyRecordRefused(env: Env)
    requires env.Valid()
    ensures var s, items: seq<Item> := Settings(Uncompressed, 1, false), [[]];
      && Writable(env, s, items, [])
      && OpenedOf(env, s, items, []).Sound(FileOf(env, s, items, []).value)
      && ItemOf(env, OpenedOf(env, s, items, []), FileOf(env, s, items, []).value, 0) == Err(ShortCrc)
  {
    hide IndexBytes, Flatten, ItemOf, RecordsOf, OffsetsOf, Opened.Sound, Env.Valid, OpenedOf;
    var s, items: seq<Item> := Settings(Uncompressed, 1, false), [[]];
    assert ChunksOf(items, 1) == [[[]]];
    OneEmptyRecord(env, s);
    FlattenOne([]);
    var records := RecordsOf(env, s, [[[]]]);
    IndexSizeBounds(env.crc, Deltas(OffsetsOf(records)));
    FileRoundTrip(env, s, items, [], 0);
    ChunkItem(items, 1, 0);
  }
}
