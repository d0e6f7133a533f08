/** The serial writer: items accumulate into records, records go to the file, Finish seals it.
  Every call into the operating system or the compressor may fail. */
module PackWriter {
  import opened Bytes
  import opened Results
  import opened Environment
  import opened Intpack
  import opened Index
  import opened Records
  import opened Chunks
  import opened ContentHashing
  import opened FileFormat
  import opened SealedFile
  import Lifecycle

  /** The next call on a host with this script succeeds. */
  predicate Succeeds(script: seq<Option<nat>>)
  {
    |script| == 0 || script[0].None?
  }

  /** The script after one more call. */
  function AfterCall(script: seq<Option<nat>>): seq<Option<nat>>
  {
    if |script| == 0 then [] else script[1..]
  }

  datatype OpKind = OpenOp | WriteOp | SyncOp | CloseOp | RemoveOp | CompressOp

  /** A call made, and whether it went well. */
  datatype Op = Op(kind: OpKind, ok: bool)

  /** The error the caller of a failed operation gets to see. */
  function ErrorOf(kind: OpKind): Error
  {
    if kind.CompressOp? then Zstd else Io
  }

  /** The calls made meanwhile explain the outcome: without an error all went well, and an error is that of
    the last call, the only one that failed. */
  ghost predicate Explains(before: seq<Op>, after: seq<Op>, e: Option<Error>)
  {
    && before <= after
    && (e.None? ==> forall i :: |before| <= i < |after| ==> after[i].ok)
    && (e.Some? ==>
          && |before| < |after| && !after[|after| - 1].ok && e.value == ErrorOf(after[|after| - 1].kind)
          && forall i :: |before| <= i < |after| - 1 ==> after[i].ok)
  }

  lemma ExplainsOne(before: seq<Op>, op: Op)
    ensures Explains(before, before + [op], if op.ok then None else Some(ErrorOf(op.kind)))
    ensures Explains(before, before, None)
  {
  }

  lemma ExplainsOn(a: seq<Op>, b: seq<Op>, c: seq<Op>, e: Option<Error>)
    requires Explains(a, b, None) && Explains(b, c, e)
    ensures Explains(a, c, e)
  {
    assert forall i :: 0 <= i < |b| ==> c[i] == b[i];
  }

  /** The last two calls: everything is on disk, and the file is closed. */
  ghost predicate SyncedAndClosed(calls: seq<Op>)
  {
    |calls| >= 2 && calls[|calls| - 2..] == [Op(SyncOp, true), Op(CloseOp, true)]
  }

  /** What Finish reports: nil exactly when there is a file to write and every call went well, the last two of
    them a sync and a close; otherwise why there is no such file, or the failure of the last call. */
  ghost predicate Sealed(file: Result<seq<byte>>, before: seq<Op>, after: seq<Op>, e: Option<Error>)
  {
    if e.None? then file.Ok? && Explains(before, after, None) && SyncedAndClosed(after)
    else (file == Err(e.value) && Explains(before, after, None)) || Explains(before, after, e)
  }

  lemma SealedEarly(file: Result<seq<byte>>, before: seq<Op>, after: seq<Op>, e: Option<Error>)
    requires Explains(before, after, e) && e.Some?
    ensures Sealed(file, before, after, e)
  {
  }

  lemma SealedOn(file: Result<seq<byte>>, a: seq<Op>, b: seq<Op>, c: seq<Op>, e: Option<Error>)
    requires Explains(a, b, None) && Sealed(file, b, c, e)
    ensures Sealed(file, a, c, e)
  {
    hide Explains;
    if Explains(b, c, None) {
      ExplainsOn(a, b, c, None);
    }
    if Explains(b, c, e) {
      ExplainsOn(a, b, c, e);
    }
  }

  /** The operating system and the compressor as the writer sees them. `script` decides the
    outcome of each coming call: None succeeds, Some(n) fails, a write after n bytes. */
  class Host {
    var contents: seq<byte>
    var present: bool
    var script: seq<Option<nat>>
    var calls: seq<Op>          // made so far

    ghost predicate Reliable()
      reads this
    {
      forall i :: 0 <= i < |script| ==> script[i].None?
    }

    /** The file just created. */
    constructor (script: seq<Option<nat>>)
      ensures contents == [] && present && this.script == script && calls == []
    {
      contents, present, this.script, calls := [], true, script, [];
    }

    method Next(kind: OpKind) returns (outcome: Option<nat>)
      modifies this`script, this`calls
      ensures outcome.None? == Succeeds(old(script)) && script == AfterCall(old(script))
      ensures calls == old(calls) + [Op(kind, outcome.None?)]
      ensures old(Reliable()) ==> outcome.None? && Reliable()
    {
      if |script| == 0 {
        outcome := None;
      } else {
        outcome := script[0];
        script := script[1..];
      }
      calls := calls + [Op(kind, outcome.None?)];
    }

    /** os.File.Write: appends a prefix of the data, all of it on success. */
    method Write(data: seq<byte>) returns (n: nat, ok: bool)
      modifies this`script, this`calls, this`contents
      ensures n <= |data| && contents == old(contents) + data[..n]
      ensures ok ==> n == |data|
      ensures calls == old(calls) + [Op(WriteOp, ok)]
      ensures old(Reliable()) ==> ok && Reliable()
    {
      var outcome := Next(WriteOp);
      if outcome.Some? {
        n := Min(outcome.value, |data|);
        ok := false;
      } else {
        n := |data|;
        ok := true;
      }
      contents := contents + data[..n];
    }

    /** Any call with no effect on the contents: sync, close, compressor start. */
    method Try(kind: OpKind) returns (ok: bool)
      modifies this`script, this`calls
      ensures calls == old(calls) + [Op(kind, ok)]
      ensures ok == Succeeds(old(script)) && script == AfterCall(old(script))
      ensures old(Reliable()) ==> ok && Reliable()
    {
      var outcome := Next(kind);
      ok := outcome.None?;
    }

    /** os.Remove */
    method Remove() returns (ok: bool)
      modifies this`script, this`calls, this`present
      ensures calls == old(calls) + [Op(RemoveOp, ok)]
      ensures ok == Succeeds(old(script)) && script == AfterCall(old(script))
      ensures present == (old(present) && !ok)
      ensures old(Reliable()) ==> ok && Reliable()
    {
      ok := Try(RemoveOp);
      present := present && !ok;
    }

    /** zstd.Compressor.Encode; empty input needs no compressor and cannot fail. */
    method Compress(env: Env, data: seq<byte>) returns (r: Option<seq<byte>>)
      modifies this`script, this`calls
      ensures r.Some? ==> r.value == env.Encode(data)
      ensures |data| == 0 ==> r.Some?
      ensures calls == if |data| == 0 then old(calls) else old(calls) + [Op(CompressOp, r.Some?)]
      ensures old(Reliable()) ==> r.Some? && Reliable()
    {
      if |data| == 0 {
        return Some([]);
      }
      var ok := Try(CompressOp);
      r := if ok then Some(env.Encode(data)) else None;
    }
  }

  const DEFAULT_ITEMS_PER_RECORD := 128

  /** resolveItemsPerRecord */
  function ResolveItemsPerRecord(requested: int): (r: Result<nat>)
    ensures r.Ok? ==> r.value > 0
    ensures requested > 0 ==> r == Ok(requested)
    ensures requested == 0 ==> r == Ok(128)
    ensures requested < 0 <==> r == Err(BadItemsPerRecord)
  {
    if requested == 0 then Ok(DEFAULT_ITEMS_PER_RECORD)
    else if requested < 0 then Err(BadItemsPerRecord)
    else Ok(requested)
  }

  // ---------------------------------------------------------------- the data section grows

  lemma RecordsSnoc(env: Env, s: Settings, chunks: seq<seq<Item>>, c: seq<Item>)
    requires NoneEmpty(chunks) && |c| > 0
    ensures NoneEmpty(chunks + [c])
    ensures RecordsOf(env, s, chunks + [c])
      == RecordsOf(env, s, chunks) + [RecordBytes(env, s.format, s.itemsPerRecord, c)]
  {
    hide RecordBytes;
  }

  lemma OffsetsSnoc(records: seq<seq<byte>>, r: seq<byte>)
    ensures OffsetsOf(records + [r]) == OffsetsOf(records) + [|Flatten(records)| + |r|]
    ensures Flatten(records + [r]) == Flatten(records) + r
    ensures OffsetsOf(records)[|records|] == |Flatten(records)|
  {
    hide Flatten, OffsetsOf;
    var all := records + [r];
    FlattenSnoc(records, r);
    OffsetsOfAt(records, |records|);
    OffsetsOfAt(all, |all|);
    assert all[..|all|] == all && records[..|records|] == records;
    forall i | 0 <= i <= |records| ensures OffsetsOf(all)[i] == OffsetsOf(records)[i] {
      assert all[..i] == records[..i];
      OffsetsOfAt(all, i);
      OffsetsOfAt(records, i);
    }
  }

  lemma OffsetsNone(env: Env, s: Settings)
    ensures RecordsOf(env, s, []) == [] && OffsetsOf([]) == [0]
  {
    FlattenNone();
  }

  lemma SizesNone()
    ensures SizesOf([]) == []
  {
  }

  lemma SizesSnoc(items: seq<Item>, item: Item)
    ensures SizesOf(items + [item]) == SizesOf(items) + [|item| % TWO32]
  {
  }

  lemma EmptyAppended(s: seq<byte>)
    ensures s + [] == s
  {
  }

  /** Three writes behind the data make the tail. */
  lemma TailJoined(env: Env, s: Settings, data: seq<byte>, recordCount: nat, total: nat, hash: Digest,
                   index: seq<byte>, appData: seq<byte>)
    ensures data + index + AppSection(appData)
      + TrailerBytes(env, TrailerOf(s, recordCount, total, hash, |index|, |appData|))
      == data + TailBytes(env, s, recordCount, total, hash, index, appData)
  {
    hide TrailerBytes, AppSection;
  }

  class Writer {
    const host: Host
    const settings: Settings

    var pos: nat
    var offsets: seq<int>
    var buf: seq<byte>
    var sizes: seq<uint32>
    var total: nat
    const hasher: ContentHasher?

    var err: Option<Error>
    var closed: bool
    var fileClosed: bool

    ghost var blocks: seq<seq<Item>>   // items of the records written
    ghost var pending: seq<Item>       // items in buf
    ghost var finished: bool           // Finish returned nil

    /** The items appended so far. */
    ghost function Items(): seq<Item>
      reads `blocks, `pending
    {
      Concat(blocks) + pending
    }

    ghost function State(): Lifecycle.Life
      reads this, host
    {
      Lifecycle.Life(err, closed, fileClosed, Lifecycle.Absent, host.present, finished, false)
    }

    /** The records written so far are the data section, and the offsets are theirs. */
    ghost predicate DataValid(env: Env)
      reads `pos, `offsets, `blocks, host`contents
    {
      && settings.Valid() && NoneEmpty(blocks)
      && host.contents == Flatten(RecordsOf(env, settings, blocks))
      && pos == |host.contents|
      && offsets + [pos] == OffsetsOf(RecordsOf(env, settings, blocks))
    }

    ghost predicate PendingValid()
      reads `buf, `sizes, `pending
    {
      buf == Flatten(pending) && sizes == SizesOf(pending)
    }

    /** The hasher, present when hashing is on, has been given these items. */
    ghost predicate HasherHolds(env: Env, items: seq<Item>)
      reads hasher
    {
      && (settings.hashing <==> hasher != null)
      && (hasher != null ==>
            hasher.Valid(env) && hasher.chunkSize == settings.itemsPerRecord && hasher.Items() == items)
    }

    /** What holds of a writer that has not failed and is not closed. */
    ghost predicate Valid(env: Env)
      reads this, host, hasher
    {
      && DataValid(env) && PendingValid() && HasherHolds(env, Items())
      && |pending| < settings.itemsPerRecord
      && (forall b :: b in blocks ==> |b| == settings.itemsPerRecord)
      && total == |Items()|
      && !finished
    }

    /** Create, in the serial mode, on a file just created. */
    constructor (env: Env, host: Host, settings: Settings)
      requires settings.Valid() && host.contents == []
      ensures Valid(env) && Items() == [] && this.host == host && this.settings == settings
      ensures State() == Lifecycle.Created(false).(present := host.present)
      ensures hasher != null ==> fresh(hasher)
    {
      this.host, this.settings := host, settings;
      pos, offsets, buf, sizes, total := 0, [], [], [], 0;
      err, closed, fileClosed := None, false, false;
      blocks, pending, finished := [], [], false;
      if settings.hashing {
        var h := new ContentHasher(env, settings.itemsPerRecord);
        hasher := h;
      } else {
        hasher := null;
      }
      new;
      FlattenNone();
      OffsetsNone(env, settings);
    }

    /** writeBlock: appends a record to the file. */
    method WriteBlock(data: seq<byte>) returns (e: Option<Error>)
      modifies this`offsets, this`pos, this`err, host`contents, host`script, host`calls
      ensures e == None ==> offsets == old(offsets) + [old(pos)] && pos == old(pos) + |data|
      ensures e == None ==> err == old(err)
      ensures e.Some? ==> err == e && offsets == old(offsets) + [old(pos)]
      ensures old(pos) <= pos <= old(pos) + |data|
      ensures host.contents == old(host.contents) + data[..pos - old(pos)]
      ensures Explains(old(host.calls), host.calls, e)
      ensures old(host.Reliable()) ==> e == None && host.Reliable()
    {
      offsets := offsets + [pos];
      var n, ok := host.Write(data);
      ExplainsOne(old(host.calls), Op(WriteOp, ok));
      hide Explains;
      pos := pos + n;
      if !ok {
        err := Some(Io);
        return err;
      }
      e := None;
    }

    /** buildBlock: takes the payload and the size index out of the buffers. */
    method BuildBlock(env: Env) returns (payload: seq<byte>, forIndex: seq<byte>)
      requires PendingValid() && |pending| > 0
      modifies this`buf, this`sizes
      ensures payload == Flatten(pending)
      ensures forIndex == if settings.itemsPerRecord > 1 then ForIndex(env, SizesOf(pending)) else []
      ensures buf == [] && sizes == []
    {
      forIndex := [];
      if settings.itemsPerRecord > 1 {
        var encoded := EncodeGroup(sizes);
        forIndex := encoded + PutLE(env.crc(encoded), 4);
      }
      payload := buf;
      buf, sizes := [], [];
    }

    /** The payload in the form of the format, with the size index behind it. */
    method FormatBlock(env: Env, payload: seq<byte>, forIndex: seq<byte>) returns (block: seq<byte>, e: Option<Error>)
      modifies host`script, host`calls
      ensures e.None? ==> block == FormatPayload(env, settings.format, payload) + forIndex
      ensures Explains(old(host.calls), host.calls, e)
      ensures old(host.Reliable()) ==> e.None? && host.Reliable()
    {
      hide PutLE, Explains, Host.Reliable;
      ExplainsOne(host.calls, Op(CompressOp, true));
      ExplainsOne(host.calls, Op(CompressOp, false));
      block, e := [], None;
      match settings.format {
        case Compressed =>
          var compressed := host.Compress(env, payload);
          if compressed.None? {
            return [], Some(Zstd);
          }
          block := compressed.value + forIndex;
        case Uncompressed =>
          block := payload + PutLE(env.crc(payload), 4) + forIndex;
        case Raw =>
          block := payload + forIndex;
      }
    }

    /** flush, serial path: the pending items become a record of the file. */
    method Flush(env: Env) returns (e: Option<Error>)
      requires DataValid(env) && PendingValid() && |pending| > 0
      modifies this`buf, this`sizes, this`offsets, this`pos, this`err, this`blocks, this`pending,
        host`contents, host`script, host`calls
      ensures e == None ==> DataValid(env) && PendingValid() && err == old(err)
      ensures e == None ==> blocks == old(blocks) + [old(pending)] && pending == []
      ensures e.Some? ==> err == e || err == old(err)
      ensures Explains(old(host.calls), host.calls, e)
      ensures old(host.Reliable()) ==> e == None && host.Reliable()
    {
      hide Flatten, SizesOf, ForIndex, PutLE, RecordsOf, OffsetsOf, Explains, Host.Reliable, FormatPayload;
      var payload, forIndex := BuildBlock(env);
      ghost var chunk := pending;
      var block;
      block, e := FormatBlock(env, payload, forIndex);
      if e.Some? {
        return;
      }
      assert block == RecordBytes(env, settings.format, settings.itemsPerRecord, chunk);
      ghost var calls := host.calls;
      e := WriteBlock(block);
      ExplainsOn(old(host.calls), calls, host.calls, e);
      if e == None {
        RecordsSnoc(env, settings, blocks, chunk);
        OffsetsSnoc(RecordsOf(env, settings, blocks), block);
        blocks, pending := blocks + [chunk], [];
        FlattenNone();
        SizesNone();
      }
    }

    /** The first half of AppendItem: the item joins the hash and the pending record. */
    method Accumulate(env: Env, parts: seq<seq<byte>>)
      requires PendingValid() && HasherHolds(env, Items())
      modifies this`buf, this`sizes, this`pending, hasher
      ensures PendingValid() && HasherHolds(env, Items())
      ensures pending == old(pending) + [Flatten(parts)]
      ensures Items() == old(Items()) + [Flatten(parts)]
    {
      hide Flatten, SizesOf, Concat, ContentHasher.Valid, ContentHasher.Items;
      var itemLength := TotalLength(parts);
      ghost var item := Flatten(parts);
      if hasher != null {
        hasher.Add(env, parts);
      }
      buf := AppendParts(buf, parts);
      sizes := sizes + [itemLength % TWO32];
      FlattenSnoc(pending, item);
      SizesSnoc(pending, item);
      ghost var before := Items();
      pending := pending + [item];
      assert Items() == before + [item];
    }

    /** AppendItem: the parts form one item; a call without parts adds nothing. */
    method AppendItem(env: Env, parts: seq<seq<byte>>) returns (e: Option<Error>, ghost call: Lifecycle.Call)
      requires err.None? && !closed ==> Valid(env)
      modifies this`buf, this`sizes, this`offsets, this`pos, this`err, this`total, this`blocks, this`pending,
        host`contents, host`script, host`calls, hasher
      ensures call.AppendItem? && State() == Lifecycle.Step(old(State()), call)
      ensures e == Lifecycle.Returned(old(State()), call)
      ensures err.None? && !closed ==> Valid(env)
      ensures old(err).Some? ==> e == old(err)
      ensures old(err).None? && old(closed) ==> e == Some(Error.Closed)
      ensures e.None? ==> !old(closed) && Items() == old(Items()) + if |parts| == 0 then [] else [Flatten(parts)]
      ensures old(err).None? && !old(closed) ==> Explains(old(host.calls), host.calls, e)
      ensures old(err.None? && !closed && host.Reliable()) ==> e.None? && host.Reliable()
    {
      hide Flatten, Host.Reliable, Valid, Items;
      call := Lifecycle.AppendItem(Lifecycle.Nothing);
      if err.Some? {
        return err, call;
      }
      if closed {
        return Some(Error.Closed), call;
      }
      if |parts| == 0 {
        return None, call;
      }
      ghost var flush;
      e, flush := AppendOpen(env, parts);
      call := Lifecycle.AppendItem(flush);
    }

    /** AppendItem on a writer that has not failed and is not closed. */
    method AppendOpen(env: Env, parts: seq<seq<byte>>) returns (e: Option<Error>, ghost flush: Lifecycle.Flush)
      requires err.None? && Valid(env)
      modifies this`buf, this`sizes, this`offsets, this`pos, this`err, this`total, this`blocks, this`pending,
        host`contents, host`script, host`calls, hasher
      ensures e.None? ==> !flush.FlushFailed? && err.None? && Valid(env) && Items() == old(Items()) + [Flatten(parts)]
      ensures e.Some? ==> err == e && flush == Lifecycle.FlushFailed(e.value)
      ensures Explains(old(host.calls), host.calls, e)
      ensures old(host.Reliable()) ==> e.None? && host.Reliable()
    {
      hide Flatten, SizesOf, RecordsOf, OffsetsOf, Concat, ContentHasher.Valid, ContentHasher.Items, Host.Reliable,
        DataValid, HasherHolds;
      flush := Lifecycle.Nothing;
      Accumulate(env, parts);
      if |sizes| == settings.itemsPerRecord {
        ghost var chunk, items := pending, Items();
        e := Flush(env);
        if e.Some? {
          err := e;
          return e, Lifecycle.FlushFailed(e.value);
        }
        flush := Lifecycle.Flushed;
        ConcatSnoc(old(blocks), chunk);
        assert Items() == items;
      }
      total := total + 1;
      e := None;
    }

    /** Finish: flushes the last record and writes index, application data and trailer. */
    method Finish(env: Env, appData: seq<byte>) returns (e: Option<Error>, ghost call: Lifecycle.Call)
      requires err.None? && !closed ==> Valid(env)
      modifies this, host`contents, host`script, host`calls, hasher
      ensures call.Finish? && State() == Lifecycle.Step(old(State()), call) && e == Lifecycle.Returned(old(State()), call)
      ensures e.None? ==> FileOf(env, settings, old(Items()), appData) == Ok(host.contents)
      ensures old(err).Some? ==> e == old(err)
      ensures old(err).None? && old(closed) ==> e == Some(Error.Closed)
      ensures old(err).None? && !old(closed) ==>
        Sealed(FileOf(env, settings, old(Items()), appData), old(host.calls), host.calls, e)
      ensures old(err.None? && !closed && host.Reliable()) && FileOf(env, settings, old(Items()), appData).Ok? ==>
        e.None?
    {
      hide Flatten, SizesOf, RecordsOf, OffsetsOf, Concat, FileOf, ContentHasher.Valid, ContentHasher.Items, Host.Reliable,
        ChunksOf, DataValid, HasherHolds, Explains, Sealed, SyncedAndClosed;
      call := Lifecycle.Finish(Lifecycle.Nothing, None, None);
      if err.Some? {
        return err, call;
      }
      if closed {
        return Some(Error.Closed), call;
      }
      ghost var items, last := Items(), Lifecycle.Nothing;
      e, last := FlushLast(env);
      if e.Some? {
        SealedEarly(FileOf(env, settings, items, appData), old(host.calls), host.calls, e);
        return e, Lifecycle.Finish(last, None, None);
      }
      ghost var calls := host.calls;
      e := Seal(env, items, appData);
      SealedOn(FileOf(env, settings, items, appData), old(host.calls), calls, host.calls, e);
      if e.Some? {
        err := e;
        return e, Lifecycle.Finish(last, None, e);
      }
      fileClosed, closed, finished := true, true, true;
      call := Lifecycle.Finish(last, None, None);
    }

    /** The first part of Finish: a partial record, if any, is flushed, and the records are complete. */
    method FlushLast(env: Env) returns (e: Option<Error>, ghost last: Lifecycle.Flush)
      requires err.None? && Valid(env)
      modifies this`buf, this`sizes, this`offsets, this`pos, this`err, this`blocks, this`pending,
        host`contents, host`script, host`calls
      ensures e.None? ==> !last.FlushFailed? && err.None? && DataValid(env) && HasherHolds(env, old(Items()))
      ensures e.None? ==> blocks == ChunksOf(old(Items()), settings.itemsPerRecord)
      ensures e.Some? ==> err == e && last == Lifecycle.FlushFailed(e.value)
      ensures Explains(old(host.calls), host.calls, e)
      ensures old(host.Reliable()) ==> e.None? && host.Reliable()
    {
      hide Flatten, SizesOf, RecordsOf, OffsetsOf, Concat, ContentHasher.Valid, ContentHasher.Items, Host.Reliable,
        ChunksOf, DataValid, HasherHolds;
      last := Lifecycle.Nothing;
      e := None;
      ChunksOfBlocks(blocks, pending, settings.itemsPerRecord);
      assert blocks + [] == blocks;
      if |sizes| > 0 {
        e := Flush(env);
        if e.Some? {
          err := e;
          return e, Lifecycle.FlushFailed(e.value);
        }
        last := Lifecycle.Flushed;
      }
    }

    /** The hash stored in the trailer: of all items, or zeros. */
    method FinalHash(env: Env, ghost items: seq<Item>) returns (hash: Digest)
      requires settings.Valid() && HasherHolds(env, items)
      modifies hasher
      ensures hash == HashField(env, settings, items)
    {
      hide ContentHash, ContentHasher.Valid, ContentHasher.Items, NO_HASH;
      if settings.hashing {
        hash := hasher.Sum(env);
      } else {
        hash := NO_HASH;
      }
    }

    /** The part of Finish after all records are written. */
    method Seal(env: Env, ghost items: seq<Item>, appData: seq<byte>) returns (e: Option<Error>)
      requires DataValid(env) && HasherHolds(env, items) && total == |items|
      requires blocks == ChunksOf(items, settings.itemsPerRecord)
      modifies this`offsets, host`contents, host`script, host`calls, hasher
      ensures e.None? ==> FileOf(env, settings, items, appData) == Ok(host.contents)
      ensures Sealed(FileOf(env, settings, items, appData), old(host.calls), host.calls, e)
      ensures old(host.Reliable()) && FileOf(env, settings, items, appData).Ok? ==> e.None?
    {
      hide Flatten, RecordsOf, OffsetsOf, EncodedIndex, HashField, ChunksOf, Host.Reliable, TailBytes, ContentHasher.Valid,
        ContentHasher.Items;
      ghost var records := RecordsOf(env, settings, blocks);
      ghost var data := host.contents;
      assert FileOf(env, settings, items, appData)
        == Layout(env, settings, records, |items|, HashField(env, settings, items), appData);
      if total > MAX_UINT32 {
        return Some(TooManyItems);
      }
      offsets := offsets + [pos];
      var hash := FinalHash(env, items);
      var index := EncodeIndex(env.crc, offsets);
      if index.Err? {
        return Some(index.error);
      }
      e := WriteTail(env, index.value, |offsets| - 1, hash, appData);
    }

    /** file.Write of a section of the tail; all calls since `start` went well. */
    method Append(data: seq<byte>, ghost start: seq<Op>) returns (e: Option<Error>)
      requires Explains(start, host.calls, None)
      modifies host`contents, host`script, host`calls
      ensures e.None? ==> host.contents == old(host.contents) + data
      ensures Explains(start, host.calls, e)
      ensures old(host.Reliable()) ==> e.None? && host.Reliable()
    {
      var n, ok := host.Write(data);
      e := if ok then None else Some(Io);
      ExplainsOne(old(host.calls), Op(WriteOp, ok));
      hide Explains;
      ExplainsOn(start, old(host.calls), host.calls, e);
    }

    /** The end of Finish: everything goes to disk, then the file is closed. */
    method SyncAndClose(ghost start: seq<Op>) returns (e: Option<Error>)
      requires Explains(start, host.calls, None)
      modifies host`script, host`calls
      ensures Explains(start, host.calls, e) && (e.None? ==> SyncedAndClosed(host.calls))
      ensures old(host.Reliable()) ==> e.None? && host.Reliable()
    {
      hide Explains;
      var ok := host.Try(SyncOp);
      ExplainsOne(old(host.calls), Op(SyncOp, ok));
      ghost var synced := host.calls;
      if !ok {
        ExplainsOn(start, old(host.calls), synced, Some(Io));
        return Some(Io);
      }
      ExplainsOn(start, old(host.calls), synced, None);
      ok := host.Try(CloseOp);
      e := if ok then None else Some(Io);
      ExplainsOne(synced, Op(CloseOp, ok));
      ExplainsOn(start, synced, host.calls, e);
    }

    /** Writes index, application data and trailer, then syncs and closes the file. */
    method WriteTail(env: Env, index: seq<byte>, recordCount: nat, hash: Digest, appData: seq<byte>)
      returns (e: Option<Error>)
      modifies host`contents, host`script, host`calls
      ensures e.None? ==>
        host.contents == old(host.contents) + TailBytes(env, settings, recordCount, total, hash, index, appData)
      ensures Explains(old(host.calls), host.calls, e) && (e.None? ==> SyncedAndClosed(host.calls))
      ensures old(host.Reliable()) ==> e.None?
    {
      ghost var start := host.calls;
      ExplainsOne(start, Op(WriteOp, true));
      hide TrailerBytes, FlagsOf, Explains, SyncedAndClosed, Host.Reliable, TailBytes;
      var indexSize := |index| % TWO32;
      e := Append(index, start);
      if e.Some? {
        return;
      }
      var appDataSize := |appData| % TWO32;
      if appDataSize > 0 {
        e := Append(appData, start);
        if e.Some? {
          return;
        }
      }
      EmptyAppended(old(host.contents) + index);
      var trailer := TrailerBytes(env, RawTrailer(
        MAGIC, VERSION, FlagsOf(settings.format, settings.hashing), recordCount % TWO32, total % TWO32,
        settings.itemsPerRecord % TWO32, indexSize, appDataSize, hash, GROUP_SIZE));
      e := Append(trailer, start);
      if e.Some? {
        return;
      }
      TailJoined(env, settings, old(host.contents), recordCount, total, hash, index, appData);
      e := SyncAndClose(start);
    }

    /** Close: closes the file, if Finish has not, and removes it unless Finish completed. The failure of
      either call is reported. */
    method Close() returns (e: Option<Error>, ghost call: Lifecycle.Call)
      modifies this`closed, host`script, host`calls, host`present
      ensures call.Close? && State() == Lifecycle.Step(old(State()), call)
      ensures old(closed) ==> e.None?
      ensures !old(closed) ==>
        var last := if old(fileClosed) then old(host.script) else AfterCall(old(host.script));
        && call.removed == Succeeds(last)
        && e == if (old(fileClosed) || Succeeds(old(host.script))) && Succeeds(last) then None else Some(Io)
      ensures !old(closed) ==> |host.calls| > 0 && host.calls[|host.calls| - 1] == Op(RemoveOp, call.removed)
      ensures host.present == (old(host.present) && (old(closed) || !call.removed))
      ensures old(host.Reliable()) ==> e.None? && call.removed
      ensures host.contents == old(host.contents)
    {
      if closed {
        return None, Lifecycle.Close(true);
      }
      closed := true;
      var closeOk := true;
      if !fileClosed {
        closeOk := host.Try(CloseOp);
      }
      var removed := host.Remove();
      e := if closeOk && removed then None else Some(Io);
      call := Lifecycle.Close(removed);
    }
  }

  /** Create, in the serial mode: settles the items of a record, opens the file, and starts with no items.
    `host` is the file if it can be opened. */
  method Create(env: Env, host: Host, itemsPerRecord: int, format: Format, hashing: bool) returns (r: Result<Writer>)
    requires host.contents == []
    modifies host`script, host`calls
    ensures itemsPerRecord < 0 ==> r == Err(BadItemsPerRecord) && host.script == old(host.script)
    ensures r.Ok? ==> r.value.Valid(env) && r.value.Items() == [] && r.value.host == host && fresh(r.value)
    ensures r.Ok? ==> r.value.settings == Settings(format, if itemsPerRecord == 0 then 128 else itemsPerRecord, hashing)
    ensures r.Ok? ==> r.value.State() == Lifecycle.Created(false).(present := host.present)
    ensures itemsPerRecord >= 0 ==> host.calls == old(host.calls) + [Op(OpenOp, r.Ok?)]
    ensures old(host.Reliable()) ==> host.Reliable() && (itemsPerRecord >= 0 ==> r.Ok?)
    ensures r.Ok? && r.value.hasher != null ==> fresh(r.value.hasher)
    ensures itemsPerRecord >= 0 ==> (r.Ok? <==> Succeeds(old(host.script))) && (r.Err? ==> r == Err(Io))
  {
    hide Writer.Valid, Writer.Items, Host.Reliable;
    var resolved := ResolveItemsPerRecord(itemsPerRecord);
    if resolved.Err? {
      return Err(resolved.error);
    }
    var ok := host.Try(OpenOp);
    if !ok {
      return Err(Io);
    }
    var w := new Writer(env, host, Settings(format, resolved.value, hashing));
    r := Ok(w);
  }

  // ---------------------------------------------------------------- a whole session

  /** Any number of AppendItem calls on a host that never fails. */
  method AppendAll(env: Env, w: Writer, items: seq<Item>)
    requires w.err.None? && !w.closed && w.Valid(env) && w.host.Reliable()
    modifies w`buf, w`sizes, w`offsets, w`pos, w`err, w`total, w`blocks, w`pending,
      w.host`contents, w.host`script, w.host`calls, w.hasher
    ensures w.err.None? && !w.closed && w.Valid(env) && w.host.Reliable()
    ensures w.Items() == old(w.Items()) + items
  {
    hide Writer.Valid, Writer.Items, Host.Reliable, Flatten;
    assert items[..0] == [];
    for i := 0 to |items|
      invariant w.err.None? && !w.closed && w.Valid(env) && w.host.Reliable()
      invariant w.Items() == old(w.Items()) + items[..i]
    {
      FlattenOne(items[i]);
      var e, _ := w.AppendItem(env, [items[i]]);
      assert items[..i + 1] == items[..i] + [items[i]];
    }
    assert items[..|items|] == items;
  }

  /** A session on a host that never fails: whatever the layout allows is written and sealed, and
    the file holds exactly its layout. */
  method WriteAll(env: Env, s: Settings, items: seq<Item>, appData: seq<byte>) returns (file: Result<seq<byte>>)
    requires s.Valid()
    ensures file.Ok? ==> file == FileOf(env, s, items, appData)
    ensures FileOf(env, s, items, appData).Ok? ==> file.Ok?
  {
    var host := new Host([]);
    assert host.Reliable();
    hide FileOf, Writer.Valid, Writer.Items, Host.Reliable, Flatten;
    var w := new Writer(env, host, s);
    AppendAll(env, w, items);
    assert [] + items == items;
    var e, _ := w.Finish(env, appData);
    file := if e.None? then Ok(host.contents) else Err(e.value);
  }
}
