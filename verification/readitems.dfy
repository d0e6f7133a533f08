/** The concurrent part of a scattered read: workers claim batches from an atomic counter, read
  and decode them, and call back for every position. A run is any interleaving of the workers'
  atomic actions; the environment decides cancellation, failed reads and failing callbacks. */
module ReadItemsProtocol {
  import opened Bytes
  import opened Results
  import opened Environment
  import opened Intpack
  import opened Index
  import opened Records
  import opened FileFormat
  import opened SealedFile
  import opened Reader
  import opened Batches

  /** What the workers share and do not change. */
  datatype Config = Config(env: Env, o: Opened, file: seq<byte>, positions: seq<nat>, batches: seq<Batch>, maxPerBatch: nat)
  {
    /** The request is valid and split as SplitBatches splits it. */
    ghost predicate Valid()
    {
      && o.Sound(file) && o.Complete()
      && |positions| > 0 && ValidPositions(positions, o.totalItems)
      && |batches| > 0 && batches[0].idxStart == 0 && batches[|batches| - 1].idxEnd == |positions|
      && Chained(batches)
      && (forall b :: b in batches ==> GoodBatch(positions, o, maxPerBatch, b))
    }

    /** The bytes a worker reads for a batch. */
    ghost function BatchData(b: Batch): seq<byte>
      requires o.Sound(file) && b.firstRecord <= b.lastRecord && b.lastRecord + 1 < |o.offsets|
    {
      OffsetsMonotone(o.offsets, 0, b.firstRecord);
      OffsetsMonotone(o.offsets, b.firstRecord, b.lastRecord + 1);
      OffsetsMonotone(o.offsets, b.lastRecord + 1, |o.offsets| - 1);
      file[o.offsets[b.firstRecord]..o.offsets[b.lastRecord + 1]]
    }
  }

  /** A worker between two atomic actions. */
  datatype Worker =
    | Top                              // about to take a batch number
    | Claimed(bi: nat)                 // about to compare it with the end and load `cancelled`
    | Ready(bi: nat)                   // about to look at the context
    | Reading(bi: nat)                 // about to read the batch
    | Serving(bi: nat, at: nat, prev: Option<nat>, buf: seq<byte>, d: Decoded)  // about to serve position index `at`
    | Failing(error: Error)            // about to record the error, once
    | Cancelling                       // about to store `cancelled`
    | Exited

  datatype State = State(
    nextBatch: nat, cancelled: bool, firstErr: Option<Error>, workers: seq<Worker>,
    delivered: seq<nat>,               // position indices passed to the callback, in order
    items: seq<Item>)                  // what was passed with them

  /** What the environment decides about one action. */
  datatype Event = Proceed | Fail(error: Error)

  /** Position index `at` of a batch, its record cut out of the batch's bytes. */
  ghost function Cutout(c: Config, bi: nat, buf: seq<byte>, r: nat): seq<byte>
    requires bi < |c.batches| && c.batches[bi].firstRecord < |c.o.offsets| && r + 1 < |c.o.offsets|
  {
    var lo := c.o.offsets[r] - c.o.offsets[c.batches[bi].firstRecord];
    var hi := c.o.offsets[r + 1] - c.o.offsets[c.batches[bi].firstRecord];
    if 0 <= lo <= hi <= |buf| then buf[lo..hi] else []
  }

  /** Local state of a worker that holds a batch. */
  ghost predicate WorkerOk(c: Config, w: Worker)
    requires c.Valid()
  {
    match w
    case Ready(bi) => bi < |c.batches|
    case Reading(bi) => bi < |c.batches|
    case Serving(bi, at, prev, buf, d) =>
      && bi < |c.batches| && c.batches[bi] in c.batches
      && c.batches[bi].idxStart <= at <= c.batches[bi].idxEnd
      && buf == c.BatchData(c.batches[bi])
      && (prev.Some? ==>
            prev.value + 1 < |c.o.offsets| && RecordInRange(c.o.totalItems, c.o.itemsPerRecord, prev.value)
            && RecordOf(c.env, c.o, c.file, prev.value) == Ok(d))
    case _ => true
  }

  /** The record a serving worker uses for its next position: the one it has, or a fresh decode. */
  ghost function Decoding(c: Config, w: Worker): Result<Decoded>
    requires c.Valid() && w.Serving? && WorkerOk(c, w) && w.at < c.batches[w.bi].idxEnd
  {
    assert GoodBatch(c.positions, c.o, c.maxPerBatch, c.batches[w.bi]);
    var r := Rec(c.positions, c.o.itemsPerRecord, w.at);
    if w.prev == Some(r) then Ok(w.d)
    else
      RecCovered(c.positions, c.o, w.at);
      DecodedRecord(c.env, c.o.format, c.o.totalItems, c.o.itemsPerRecord, r, Cutout(c, w.bi, w.buf, r))
  }

  /** decoder.Item of the loaded record. */
  ghost function ItemFrom(d: Decoded, i: nat): Item
  {
    if d.Fits() && i < |d.sizes| then d.ItemAt(i) else []
  }

  ghost function ServeNext(c: Config, s: State, w: nat, ev: Event): State
    requires c.Valid() && w < |s.workers| && s.workers[w].Serving? && WorkerOk(c, s.workers[w])
    requires s.workers[w].at < c.batches[s.workers[w].bi].idxEnd
  {
    var wk := s.workers[w];
    assert GoodBatch(c.positions, c.o, c.maxPerBatch, c.batches[wk.bi]);
    match Decoding(c, wk)
    case Err(e) => s.(workers := s.workers[w := Failing(e)])
    case Ok(d) =>
      var item := ItemFrom(d, c.positions[wk.at] % c.o.itemsPerRecord);
      var next := if ev.Fail? then Failing(ev.error)
                  else Serving(wk.bi, wk.at + 1, Some(Rec(c.positions, c.o.itemsPerRecord, wk.at)), wk.buf, d);
      s.(workers := s.workers[w := next], delivered := s.delivered + [wk.at], items := s.items + [item])
  }

  /** One atomic action of worker w. */
  ghost function Step(c: Config, s: State, w: nat, ev: Event): State
    requires c.Valid() && w < |s.workers| && WorkerOk(c, s.workers[w])
  {
    match s.workers[w]
    case Top => s.(nextBatch := s.nextBatch + 1, workers := s.workers[w := Claimed(s.nextBatch)])
    case Claimed(bi) =>
      s.(workers := s.workers[w := if bi >= |c.batches| || s.cancelled then Exited else Ready(bi)])
    case Ready(bi) =>
      s.(workers := s.workers[w := if ev.Fail? then Failing(ev.error) else Reading(bi)])
    case Reading(bi) =>
      assert c.batches[bi] in c.batches;
      assert GoodBatch(c.positions, c.o, c.maxPerBatch, c.batches[bi]);
      s.(workers := s.workers[w :=
        if ev.Fail? then Failing(ev.error)
        else Serving(bi, c.batches[bi].idxStart, None, c.BatchData(c.batches[bi]), Decoded([], []))])
    case Serving(bi, at, _, _, _) =>
      if at == c.batches[bi].idxEnd then s.(workers := s.workers[w := Top]) else ServeNext(c, s, w, ev)
    case Failing(e) =>
      s.(firstErr := if s.firstErr.None? then Some(e) else s.firstErr, workers := s.workers[w := Cancelling])
    case Cancelling => s.(cancelled := true, workers := s.workers[w := Exited])
    case Exited => s
  }

  // ---------------------------------------------------------------- invariant

  function Held(w: Worker): Option<nat>
  {
    match w
    case Claimed(bi) => Some(bi)
    case Ready(bi) => Some(bi)
    case Reading(bi) => Some(bi)
    case Serving(bi, _, _, _, _) => Some(bi)
    case _ => None
  }

  /** No two workers hold one batch, and every held batch has been given out. */
  ghost predicate ClaimsDistinct(s: State)
  {
    && (forall i :: 0 <= i < |s.workers| && Held(s.workers[i]).Some? ==> Held(s.workers[i]).value < s.nextBatch)
    && (forall i, j :: 0 <= i < j < |s.workers| && Held(s.workers[i]).Some? ==> Held(s.workers[i]) != Held(s.workers[j]))
  }

  ghost predicate NoneOf(delivered: seq<nat>, from: nat, end: nat)
  {
    forall k :: from <= k < end ==> k !in delivered
  }

  ghost predicate AllOf(delivered: seq<nat>, from: nat, end: nat)
  {
    forall k :: from <= k < end ==> k in delivered
  }

  /** How much of its batch a worker has delivered: nothing before serving, then a prefix. */
  ghost predicate Served(c: Config, delivered: seq<nat>, w: Worker)
  {
    && (Held(w).Some? && Held(w).value < |c.batches| && !w.Serving? ==>
          NoneOf(delivered, c.batches[Held(w).value].idxStart, c.batches[Held(w).value].idxEnd))
    && (w.Serving? && w.bi < |c.batches| ==>
          AllOf(delivered, c.batches[w.bi].idxStart, w.at) && NoneOf(delivered, w.at, c.batches[w.bi].idxEnd))
  }

  /** Nothing has failed so far. */
  ghost predicate Clean(s: State)
  {
    s.firstErr.None? && forall i :: 0 <= i < |s.workers| ==> !s.workers[i].Failing? && !s.workers[i].Cancelling?
  }

  ghost predicate HeldBySome(s: State, b: nat)
  {
    exists i :: 0 <= i < |s.workers| && Held(s.workers[i]) == Some(b)
  }

  ghost predicate RightDelivery(c: Config, k: nat, item: Item)
    requires c.Valid()
  {
    k < |c.positions| && ItemOf(c.env, c.o, c.file, c.positions[k]) == Ok(item)
  }

  /** Delivered indices are distinct and each came with the item at its position. */
  ghost predicate DeliveriesRight(c: Config, s: State)
    requires c.Valid()
  {
    && |s.items| == |s.delivered|
    && (forall i, j :: 0 <= i < j < |s.delivered| ==> s.delivered[i] != s.delivered[j])
    && (forall i :: 0 <= i < |s.delivered| ==> RightDelivery(c, s.delivered[i], s.items[i]))
  }

  ghost predicate WorkersOk(c: Config, s: State)
    requires c.Valid()
  {
    forall i :: 0 <= i < |s.workers| ==> WorkerOk(c, s.workers[i]) && Served(c, s.delivered, s.workers[i])
  }

  /** Batches not given out have not been touched; while nothing has failed, batches given out and
    no longer held are complete, and workers leave only when all batches are given out. */
  ghost predicate BatchesTracked(c: Config, s: State)
  {
    && (forall b :: s.nextBatch <= b < |c.batches| ==>
          NoneOf(s.delivered, c.batches[b].idxStart, c.batches[b].idxEnd))
    && (Clean(s) ==> forall b :: 0 <= b < s.nextBatch && b < |c.batches| && !HeldBySome(s, b) ==>
          AllOf(s.delivered, c.batches[b].idxStart, c.batches[b].idxEnd))
    && (Clean(s) ==> forall i :: 0 <= i < |s.workers| && s.workers[i].Exited? ==> s.nextBatch >= |c.batches|)
  }

  ghost predicate Inv(c: Config, s: State)
    requires c.Valid()
  {
    && ClaimsDistinct(s) && WorkersOk(c, s) && DeliveriesRight(c, s) && BatchesTracked(c, s)
    && (s.cancelled ==> s.firstErr.Some?)
    && (forall i :: 0 <= i < |s.workers| && s.workers[i].Cancelling? ==> s.firstErr.Some?)
  }

  ghost predicate Initial(s: State)
  {
    && s.nextBatch == 0 && !s.cancelled && s.firstErr.None? && s.delivered == [] && s.items == []
    && forall i :: 0 <= i < |s.workers| ==> s.workers[i].Top?
  }

  lemma InitialInv(c: Config, s: State)
    requires c.Valid() && Initial(s)
    ensures Inv(c, s)
  {
  }

  // ---------------------------------------------------------------- the served position

  /** A position index belongs to one batch only. */
  lemma IndexInOneBatch(c: Config, a: nat, b: nat, k: nat)
    requires c.Valid() && a < |c.batches| && b < |c.batches| && a != b
    requires c.batches[a].idxStart <= k < c.batches[a].idxEnd
    ensures !(c.batches[b].idxStart <= k < c.batches[b].idxEnd)
  {
    forall x | x in c.batches ensures x.idxStart < x.idxEnd && x.firstRecord <= x.lastRecord {
      assert GoodBatch(c.positions, c.o, c.maxPerBatch, x);
    }
    if a < b { ChainOrder(c.batches, a, b); } else { ChainOrder(c.batches, b, a); }
  }

  lemma SubSlice(s: seq<byte>, a: nat, b: nat, e: nat, d: nat)
    requires a <= b <= e <= d <= |s|
    ensures s[a..d][b - a..e - a] == s[b..e]
  {
    var t, u := s[a..d][b - a..e - a], s[b..e];
    assert |t| == |u|;
    assert forall k :: 0 <= k < e - b ==> t[k] == s[b + k] && u[k] == s[b + k];
  }

  /** The slice of the batch's buffer is exactly the record in the file. */
  lemma CutoutIsRecord(c: Config, bi: nat, r: nat)
    requires c.Valid() && bi < |c.batches| && c.batches[bi] in c.batches
    requires c.batches[bi].firstRecord <= r <= c.batches[bi].lastRecord
    ensures c.batches[bi].lastRecord + 1 < |c.o.offsets|
    ensures Cutout(c, bi, c.BatchData(c.batches[bi]), r) == RecordAt(c.o, c.file, r)
  {
    hide Opened.Complete, ValidPositions, Chained, RecordAt, Requested;
    var b := c.batches[bi];
    assert GoodBatch(c.positions, c.o, c.maxPerBatch, b);
    hide GoodBatch, Config.Valid;
    OffsetsMonotone(c.o.offsets, b.firstRecord, r);
    OffsetsMonotone(c.o.offsets, r + 1, b.lastRecord + 1);
    RecordBounds(c.o, c.file, r);
    RecordBounds(c.o, c.file, b.firstRecord);
    RecordBounds(c.o, c.file, b.lastRecord);
    hide Opened.Sound;
    SubSlice(c.file, c.o.offsets[b.firstRecord], c.o.offsets[r], c.o.offsets[r + 1], c.o.offsets[b.lastRecord + 1]);
  }

  /** Whatever record the worker uses, the item it passes on is the one at the position. */
  lemma ServedItemRight(c: Config, w: Worker)
    requires c.Valid() && w.Serving? && WorkerOk(c, w) && w.at < c.batches[w.bi].idxEnd
    ensures w.at < |c.positions|
    ensures Decoding(c, w).Ok? ==>
      RightDelivery(c, w.at, ItemFrom(Decoding(c, w).value, c.positions[w.at] % c.o.itemsPerRecord))
    ensures Decoding(c, w).Ok? ==>
      var r := Rec(c.positions, c.o.itemsPerRecord, w.at);
      r + 1 < |c.o.offsets| && RecordInRange(c.o.totalItems, c.o.itemsPerRecord, r)
        && RecordOf(c.env, c.o, c.file, r) == Ok(Decoding(c, w).value)
  {
    hide DecodedRecord, Cutout, RecordAt, ItemsInRecord, RecordCount, ValidOffsets, Decoded.ItemAt, Chained;
    assert GoodBatch(c.positions, c.o, c.maxPerBatch, c.batches[w.bi]);
    var k := c.o.itemsPerRecord;
    var r := Rec(c.positions, k, w.at);
    PositionResolves(c.o.totalItems, k, c.positions[w.at]);
    RecCovered(c.positions, c.o, w.at);
    CutoutIsRecord(c, w.bi, r);
    DecodedPartitionIfOk(c.env, c.o, r, RecordAt(c.o, c.file, r));
  }

  // ---------------------------------------------------------------- every action keeps the invariant

  ghost function Moved(s: State, w: nat, x: Worker): State
    requires w < |s.workers|
  {
    s.(workers := s.workers[w := x])
  }

  lemma CleanMoved(s: State, w: nat, x: Worker)
    requires w < |s.workers|
    ensures Clean(Moved(s, w, x)) && !s.workers[w].Failing? && !s.workers[w].Cancelling? ==> Clean(s)
    ensures Clean(Moved(s, w, x)) ==> !x.Failing? && !x.Cancelling?
  {
    var t := Moved(s, w, x);
    if Clean(t) {
      assert t.workers[w] == x;
      forall i | 0 <= i < |s.workers| && i != w
        ensures !s.workers[i].Failing? && !s.workers[i].Cancelling?
      {
        assert t.workers[i] == s.workers[i];
      }
    }
  }

  /** A batch held by another worker, or kept by this one, is still held. */
  lemma HeldMoved(s: State, w: nat, x: Worker, b: nat)
    requires w < |s.workers| && HeldBySome(s, b)
    requires Held(s.workers[w]) != Some(b) || Held(x) == Some(b)
    ensures HeldBySome(Moved(s, w, x), b)
  {
    var i :| 0 <= i < |s.workers| && Held(s.workers[i]) == Some(b);
    var t := Moved(s, w, x);
    assert t.workers[w] == x && (i != w ==> t.workers[i] == s.workers[i]);
  }

  /** A worker goes on with the batch it holds, or holds none before and after. */
  lemma KeepBatch(c: Config, s: State, w: nat, x: Worker)
    requires c.Valid() && Inv(c, s) && w < |s.workers|
    requires Held(x) == Held(s.workers[w])
    requires !s.workers[w].Failing? && !s.workers[w].Cancelling? && !x.Exited? && !x.Cancelling?
    requires WorkerOk(c, x) && Served(c, s.delivered, x)
    ensures Inv(c, Moved(s, w, x))
  {
    hide Config.Valid, WorkerOk, Served, RightDelivery, AllOf, NoneOf, Held, HeldBySome;
    var t := Moved(s, w, x);
    CleanMoved(s, w, x);
    forall b | HeldBySome(s, b) ensures HeldBySome(t, b) {
      HeldMoved(s, w, x, b);
    }
    assert forall i :: 0 <= i < |s.workers| ==> t.workers[i] == if i == w then x else s.workers[i];
  }

  /** A worker gives up its batch: because it failed, because there was no such batch, or because
    the batch is complete. */
  lemma DropBatch(c: Config, s: State, w: nat, x: Worker)
    requires c.Valid() && Inv(c, s) && w < |s.workers|
    requires Held(s.workers[w]).Some? && Held(x).None? && WorkerOk(c, x)
    requires var bi := Held(s.workers[w]).value;
      || x.Failing?
      || (x.Exited? && (bi >= |c.batches| || s.firstErr.Some?))
      || (x.Top? && bi < |c.batches| && AllOf(s.delivered, c.batches[bi].idxStart, c.batches[bi].idxEnd))
    ensures Inv(c, Moved(s, w, x))
  {
    hide Config.Valid, WorkerOk, RightDelivery, AllOf, NoneOf, HeldBySome;
    var t := Moved(s, w, x);
    var bi := Held(s.workers[w]).value;
    CleanMoved(s, w, x);
    forall b | HeldBySome(s, b) && b != bi ensures HeldBySome(t, b) {
      HeldMoved(s, w, x, b);
    }
    assert forall i :: 0 <= i < |s.workers| ==> t.workers[i] == if i == w then x else s.workers[i];
  }

  lemma HeldWitness(s: State, w: nat, b: nat)
    requires w < |s.workers| && Held(s.workers[w]) == Some(b)
    ensures HeldBySome(s, b)
  {
  }

  lemma SameHolders(s: State, t: State, b: nat)
    requires s.workers == t.workers && HeldBySome(s, b)
    ensures HeldBySome(t, b)
  {
  }

  /** A worker takes the next batch number. */
  lemma TakeBatch(c: Config, s: State, w: nat)
    requires c.Valid() && Inv(c, s) && w < |s.workers| && s.workers[w].Top?
    ensures Inv(c, Step(c, s, w, Proceed))
  {
    hide Config.Valid, RightDelivery, AllOf, NoneOf, HeldBySome;
    var x := Claimed(s.nextBatch);
    var t := Step(c, s, w, Proceed);
    assert t == Moved(s, w, x).(nextBatch := s.nextBatch + 1);
    CleanMoved(s, w, x);
    assert t.workers[w] == x && Held(t.workers[w]) == Some(s.nextBatch);
    HeldWitness(t, w, s.nextBatch);
    forall b | HeldBySome(s, b) ensures HeldBySome(t, b) {
      HeldMoved(s, w, x, b);
      SameHolders(Moved(s, w, x), t, b);
    }
    assert forall i :: 0 <= i < |s.workers| ==> t.workers[i] == if i == w then x else s.workers[i];
  }

  /** Recording an error and storing the flag: from here on the state is not clean. */
  lemma RecordError(c: Config, s: State, w: nat)
    requires c.Valid() && Inv(c, s) && w < |s.workers|
    requires s.workers[w].Failing? || (s.workers[w].Cancelling? && s.firstErr.Some?)
    ensures Inv(c, Step(c, s, w, Proceed))
  {
    hide Config.Valid, RightDelivery, AllOf, NoneOf, HeldBySome;
    var t := Step(c, s, w, Proceed);
    assert forall i :: 0 <= i < |s.workers| && i != w ==> t.workers[i] == s.workers[i];
    assert t.firstErr.Some? && !Clean(t);
  }

  /** Appending one index to what was delivered. */
  lemma DeliverOne(delivered: seq<nat>, k: nat, from: nat, end: nat)
    ensures AllOf(delivered, from, end) ==> AllOf(delivered + [k], from, end)
    ensures NoneOf(delivered, from, end) && !(from <= k < end) ==> NoneOf(delivered + [k], from, end)
    ensures AllOf(delivered, from, k) && k >= from ==> AllOf(delivered + [k], from, k + 1)
  {
  }

  /** The state after a delivery, before the worker moves on. */
  ghost function Delivered(s: State, k: nat, item: Item): State
  {
    s.(delivered := s.delivered + [k], items := s.items + [item])
  }

  /** What a delivery by worker w means for another worker. */
  lemma OthersServed(c: Config, s: State, w: nat, i: nat)
    requires c.Valid() && Inv(c, s) && w < |s.workers| && i < |s.workers| && i != w
    requires s.workers[w].Serving? && s.workers[w].at < c.batches[s.workers[w].bi].idxEnd
    ensures Served(c, s.delivered + [s.workers[w].at], s.workers[i])
  {
    hide AllOf, NoneOf, HeldBySome, RightDelivery;
    var wk, x := s.workers[w], s.workers[i];
    assert WorkerOk(c, wk) && WorkerOk(c, x) && Served(c, s.delivered, x);
    if Held(x).Some? && Held(x).value < |c.batches| {
      var b := Held(x).value;
      assert b != wk.bi;
      IndexInOneBatch(c, wk.bi, b, wk.at);
      DeliverOne(s.delivered, wk.at, c.batches[b].idxStart, c.batches[b].idxEnd);
      if x.Serving? {
        DeliverOne(s.delivered, wk.at, c.batches[b].idxStart, x.at);
        DeliverOne(s.delivered, wk.at, x.at, c.batches[b].idxEnd);
      }
    }
  }

  /** A delivery: the index is new, and the item is right. */
  lemma DeliveryRight(c: Config, s: State, w: nat, item: Item, x: Worker)
    requires c.Valid() && Inv(c, s) && w < |s.workers|
    requires s.workers[w].Serving? && s.workers[w].at < c.batches[s.workers[w].bi].idxEnd
    requires RightDelivery(c, s.workers[w].at, item)
    ensures DeliveriesRight(c, Moved(Delivered(s, s.workers[w].at, item), w, x))
  {
    hide RightDelivery;
    var wk := s.workers[w];
    assert Served(c, s.delivered, wk);
    assert wk.at !in s.delivered;
  }

  lemma BatchesAfterDelivery(c: Config, s: State, w: nat, item: Item, x: Worker)
    requires c.Valid() && Inv(c, s) && w < |s.workers|
    requires s.workers[w].Serving? && s.workers[w].at < c.batches[s.workers[w].bi].idxEnd
    requires x.Failing? || Held(x) == Held(s.workers[w])
    requires !x.Exited?
    ensures BatchesTracked(c, Moved(Delivered(s, s.workers[w].at, item), w, x))
  {
    hide AllOf, NoneOf, HeldBySome, RightDelivery;
    var wk := s.workers[w];
    var k := wk.at;
    var mid := Delivered(s, k, item);
    var t := Moved(mid, w, x);
    assert WorkerOk(c, wk) && Held(wk) == Some(wk.bi) && wk.bi < s.nextBatch;
    CleanMoved(mid, w, x);
    forall b | s.nextBatch <= b < |c.batches|
      ensures NoneOf(t.delivered, c.batches[b].idxStart, c.batches[b].idxEnd)
    {
      IndexInOneBatch(c, wk.bi, b, k);
      DeliverOne(s.delivered, k, c.batches[b].idxStart, c.batches[b].idxEnd);
    }
    if Clean(t) {
      assert Clean(s);
      forall b | 0 <= b < s.nextBatch && b < |c.batches| && !HeldBySome(t, b)
        ensures AllOf(t.delivered, c.batches[b].idxStart, c.batches[b].idxEnd)
      {
        if HeldBySome(s, b) {
          SameHolders(s, mid, b);
          HeldMoved(mid, w, x, b);
        }
        DeliverOne(s.delivered, k, c.batches[b].idxStart, c.batches[b].idxEnd);
      }
      assert forall i :: 0 <= i < |s.workers| && i != w ==> t.workers[i] == s.workers[i];
    }
  }

  lemma ClaimsKept(s: State, w: nat, x: Worker, t: State)
    requires ClaimsDistinct(s) && w < |s.workers| && (Held(x) == Held(s.workers[w]) || Held(x).None?)
    requires t.workers == s.workers[w := x] && t.nextBatch == s.nextBatch
    ensures ClaimsDistinct(t)
    ensures forall i :: 0 <= i < |t.workers| && t.workers[i].Cancelling? ==> x.Cancelling? || s.workers[i].Cancelling?
  {
  }

  lemma NoneAfter(delivered: seq<nat>, k: nat, end: nat)
    requires NoneOf(delivered, k, end)
    ensures NoneOf(delivered + [k], k + 1, end)
  {
  }

  lemma ServedAfterDelivery(c: Config, s: State, w: nat, x: Worker)
    requires c.Valid() && Inv(c, s) && w < |s.workers|
    requires s.workers[w].Serving? && WorkerOk(c, s.workers[w])
    requires s.workers[w].at < c.batches[s.workers[w].bi].idxEnd
    requires x.Failing? || (x.Serving? && x.bi == s.workers[w].bi && x.at == s.workers[w].at + 1)
    ensures Served(c, s.delivered + [s.workers[w].at], x)
  {
    hide AllOf, NoneOf, HeldBySome, RightDelivery;
    var wk := s.workers[w];
    assert Served(c, s.delivered, wk);
    if x.Serving? {
      DeliverOne(s.delivered, wk.at, c.batches[wk.bi].idxStart, wk.at);
      NoneAfter(s.delivered, wk.at, c.batches[wk.bi].idxEnd);
    }
  }

  /** Serving a position keeps the invariant. */
  lemma ServeKeeps(c: Config, s: State, w: nat, ev: Event)
    requires c.Valid() && Inv(c, s) && w < |s.workers|
    requires s.workers[w].Serving? && WorkerOk(c, s.workers[w]) && s.workers[w].at < c.batches[s.workers[w].bi].idxEnd
    ensures Inv(c, ServeNext(c, s, w, ev))
  {
    hide AllOf, NoneOf, HeldBySome, RightDelivery, Decoding, ItemFrom, Config.BatchData, RecordOf, Served;
    hide BatchesTracked, DeliveriesRight, ClaimsDistinct;
    var wk := s.workers[w];
    assert GoodBatch(c.positions, c.o, c.maxPerBatch, c.batches[wk.bi]);
    match Decoding(c, wk)
    case Err(e) =>
      DropBatch(c, s, w, Failing(e));
    case Ok(d) =>
      ServedItemRight(c, wk);
      var r := Rec(c.positions, c.o.itemsPerRecord, wk.at);
      var item := ItemFrom(d, c.positions[wk.at] % c.o.itemsPerRecord);
      var x := if ev.Fail? then Failing(ev.error) else Serving(wk.bi, wk.at + 1, Some(r), wk.buf, d);
      var t := Moved(Delivered(s, wk.at, item), w, x);
      assert ServeNext(c, s, w, ev) == t;
      DeliveryRight(c, s, w, item, x);
      BatchesAfterDelivery(c, s, w, item, x);
      ServedAfterDelivery(c, s, w, x);
      forall i | 0 <= i < |t.workers|
        ensures WorkerOk(c, t.workers[i]) && Served(c, t.delivered, t.workers[i])
      {
        if i != w {
          OthersServed(c, s, w, i);
        }
      }
      ClaimsKept(s, w, x, t);
  }

  lemma AllOfNothing(delivered: seq<nat>, k: nat)
    ensures AllOf(delivered, k, k)
  {
  }

  /** Every action of every worker, whatever the environment decides, keeps the invariant. */
  lemma StepKeeps(c: Config, s: State, w: nat, ev: Event)
    requires c.Valid() && Inv(c, s) && w < |s.workers|
    ensures WorkerOk(c, s.workers[w]) && Inv(c, Step(c, s, w, ev))
  {
    hide AllOf, NoneOf, HeldBySome, RightDelivery, ServeNext, Config.BatchData, BatchesTracked, DeliveriesRight, ClaimsDistinct;
    var wk := s.workers[w];
    assert WorkerOk(c, wk) && Served(c, s.delivered, wk);
    match wk
    case Top => TakeBatch(c, s, w);
    case Claimed(bi) =>
      if bi >= |c.batches| || s.cancelled { DropBatch(c, s, w, Exited); } else { KeepBatch(c, s, w, Ready(bi)); }
    case Ready(bi) =>
      if ev.Fail? { DropBatch(c, s, w, Failing(ev.error)); } else { KeepBatch(c, s, w, Reading(bi)); }
    case Reading(bi) =>
      assert c.batches[bi] in c.batches;
      assert GoodBatch(c.positions, c.o, c.maxPerBatch, c.batches[bi]);
      if ev.Fail? {
        DropBatch(c, s, w, Failing(ev.error));
      } else {
        AllOfNothing(s.delivered, c.batches[bi].idxStart);
        KeepBatch(c, s, w, Serving(bi, c.batches[bi].idxStart, None, c.BatchData(c.batches[bi]), Decoded([], [])));
      }
    case Serving(bi, at, _, _, _) =>
      if at == c.batches[bi].idxEnd { DropBatch(c, s, w, Top); } else { ServeKeeps(c, s, w, ev); }
    case Failing(_) => RecordError(c, s, w);
    case Cancelling => RecordError(c, s, w);
    case Exited =>
  }

  // ---------------------------------------------------------------- whole runs

  /** The state after a schedule of actions: any worker may be next, and anything may fail. */
  ghost function Run(c: Config, s: State, schedule: seq<(nat, Event)>): (t: State)
    requires c.Valid() && Inv(c, s)
    ensures Inv(c, t) && |t.workers| == |s.workers|
    decreases |schedule|
  {
    if schedule == [] then s
    else
      var (w, ev) := schedule[0];
      if w < |s.workers| then
        StepKeeps(c, s, w, ev);
        Run(c, Step(c, s, w, ev), schedule[1..])
      else
        Run(c, s, schedule[1..])
  }

  /** ReadItems returns when every worker has left. */
  ghost predicate Finished(s: State)
  {
    forall i :: 0 <= i < |s.workers| ==> s.workers[i].Exited?
  }

  /** Every position index lies in some batch. */
  lemma {:induction false} IndexCovered(c: Config, last: nat, k: nat) returns (b: nat)
    requires c.Valid() && last < |c.batches| && k < c.batches[last].idxEnd
    ensures b <= last && c.batches[b].idxStart <= k < c.batches[b].idxEnd
    decreases last
  {
    if k >= c.batches[last].idxStart {
      b := last;
    } else {
      b := IndexCovered(c, last - 1, k);
    }
  }

  /** Without an error, nothing is left out. */
  lemma FinishedComplete(c: Config, s: State, k: nat)
    requires c.Valid() && Inv(c, s) && |s.workers| > 0 && Finished(s) && s.firstErr.None?
    requires k < |c.positions|
    ensures k in s.delivered
  {
    hide WorkersOk, DeliveriesRight, ClaimsDistinct;
    var b := IndexCovered(c, |c.batches| - 1, k);
    assert Clean(s);
    assert s.workers[0].Exited? && s.nextBatch >= |c.batches|;
    assert !HeldBySome(s, b);
    assert AllOf(s.delivered, c.batches[b].idxStart, c.batches[b].idxEnd);
  }

  /** Whatever the interleaving and whatever fails: no index is delivered twice, each delivery
    carries the item at its position, the flag is set only after an error was recorded, and a
    read that ends without an error has delivered every index. */
  lemma EveryRun(c: Config, s: State, schedule: seq<(nat, Event)>)
    requires c.Valid() && Initial(s) && |s.workers| > 0
    ensures Inv(c, s)
    ensures var t := Run(c, s, schedule);
      && (forall i, j :: 0 <= i < j < |t.delivered| ==> t.delivered[i] != t.delivered[j])
      && |t.items| == |t.delivered|
      && (forall i :: 0 <= i < |t.delivered| ==>
            t.delivered[i] < |c.positions|
            && ItemOf(c.env, c.o, c.file, c.positions[t.delivered[i]]) == Ok(t.items[i]))
      && (t.cancelled ==> t.firstErr.Some?)
      && (Finished(t) && t.firstErr.None? ==> forall k :: 0 <= k < |c.positions| ==> k in t.delivered)
  {
    hide ItemOf, Config.Valid, WorkersOk, ClaimsDistinct, BatchesTracked;
    InitialInv(c, s);
    var t := Run(c, s, schedule);
    assert forall i :: 0 <= i < |t.delivered| ==> RightDelivery(c, t.delivered[i], t.items[i]);
    if Finished(t) && t.firstErr.None? {
      forall k | 0 <= k < |c.positions| ensures k in t.delivered {
        FinishedComplete(c, t, k);
      }
    }
  }

  /** The first recorded error is the one returned. */
  lemma {:induction false} FirstErrorSticks(c: Config, s: State, schedule: seq<(nat, Event)>)
    requires c.Valid() && Inv(c, s) && s.firstErr.Some?
    ensures Run(c, s, schedule).firstErr == s.firstErr
    decreases |schedule|
  {
    hide Config.Valid, Inv, Decoding, ItemFrom, WorkerOk;
    if schedule != [] {
      var (w, ev) := schedule[0];
      if w < |s.workers| {
        StepKeeps(c, s, w, ev);
        FirstErrorSticks(c, Step(c, s, w, ev), schedule[1..]);
      } else {
        FirstErrorSticks(c, s, schedule[1..]);
      }
    }
  }

  // ---------------------------------------------------------------- where the error comes from

  /** Position index k cannot be read, and this is why. */
  ghost predicate FailsAt(c: Config, k: nat, e: Error)
    requires c.Valid()
  {
    k < |c.positions| && ItemOf(c.env, c.o, c.file, c.positions[k]) == Err(e)
  }

  /** The error is one the environment has chosen, or that of a requested position. */
  ghost predicate Caused(c: Config, chosen: set<Error>, e: Error)
    requires c.Valid()
  {
    e in chosen || exists k :: FailsAt(c, k, e)
  }

  ghost predicate AllCaused(c: Config, chosen: set<Error>, s: State)
    requires c.Valid()
  {
    && (s.firstErr.Some? ==> Caused(c, chosen, s.firstErr.value))
    && (forall i :: 0 <= i < |s.workers| && s.workers[i].Failing? ==> Caused(c, chosen, s.workers[i].error))
  }

  function ChosenBy(ev: Event): (chosen: set<Error>)
  {
    if ev.Fail? then {ev.error} else {}
  }

  /** The errors the environment chooses during a schedule. */
  function Chosen(schedule: seq<(nat, Event)>): (chosen: set<Error>)
  {
    if schedule == [] then {} else ChosenBy(schedule[0].1) + Chosen(schedule[1..])
  }

  /** A record that does not decode is that of a position that cannot be read, for the same reason. */
  lemma ServedErrorRight(c: Config, w: Worker)
    requires c.Valid() && w.Serving? && WorkerOk(c, w) && w.at < c.batches[w.bi].idxEnd
    ensures Decoding(c, w).Err? ==> FailsAt(c, w.at, Decoding(c, w).error)
  {
    hide DecodedRecord, Cutout, RecordAt, ItemsInRecord, RecordCount, ValidOffsets, Decoded.ItemAt, Chained;
    assert GoodBatch(c.positions, c.o, c.maxPerBatch, c.batches[w.bi]);
    var k := c.o.itemsPerRecord;
    var r := Rec(c.positions, k, w.at);
    PositionResolves(c.o.totalItems, k, c.positions[w.at]);
    RecCovered(c.positions, c.o, w.at);
    CutoutIsRecord(c, w.bi, r);
  }

  /** More choices explain as much. */
  lemma CausedMore(c: Config, chosen: set<Error>, more: set<Error>, s: State)
    requires c.Valid() && AllCaused(c, chosen, s) && chosen <= more
    ensures AllCaused(c, more, s)
  {
    hide FailsAt, Config.Valid;
  }

  /** One worker moved on; it has not failed, or its error is caused. */
  lemma CausedMoved(c: Config, chosen: set<Error>, s: State, t: State, w: nat)
    requires c.Valid() && AllCaused(c, chosen, s) && w < |s.workers| == |t.workers|
    requires t.workers == s.workers[w := t.workers[w]]
    requires t.workers[w].Failing? ==> Caused(c, chosen, t.workers[w].error)
    requires t.firstErr != s.firstErr ==> s.workers[w].Failing? && t.firstErr == Some(s.workers[w].error)
    ensures AllCaused(c, chosen, t)
  {
    hide Caused, Config.Valid;
    assert forall i :: 0 <= i < |s.workers| && i != w ==> t.workers[i] == s.workers[i];
  }

  /** What a step makes of the worker and of the recorded error. */
  lemma ServeCaused(c: Config, s: State, w: nat, ev: Event)
    requires c.Valid() && w < |s.workers| && s.workers[w].Serving? && WorkerOk(c, s.workers[w])
    requires s.workers[w].at < c.batches[s.workers[w].bi].idxEnd
    ensures var t := ServeNext(c, s, w, ev);
      && t.firstErr == s.firstErr && |t.workers| == |s.workers| && t.workers == s.workers[w := t.workers[w]]
      && (t.workers[w].Failing? ==> Caused(c, ChosenBy(ev), t.workers[w].error))
  {
    ServedErrorRight(c, s.workers[w]);
    hide Decoding, ItemFrom, GoodBatch, FailsAt, WorkerOk;
  }

  lemma CausedWider(c: Config, chosen: set<Error>, more: set<Error>, x: Worker)
    requires c.Valid() && chosen <= more && (x.Failing? ==> Caused(c, chosen, x.error))
    ensures x.Failing? ==> Caused(c, more, x.error)
  {
    hide FailsAt, Config.Valid;
  }

  lemma CausedChosen(c: Config, chosen: set<Error>, e: Error)
    requires c.Valid() && e in chosen
    ensures Caused(c, chosen, e)
  {
  }

  lemma StepCaused(c: Config, chosen: set<Error>, s: State, w: nat, ev: Event)
    requires c.Valid() && w < |s.workers| && WorkerOk(c, s.workers[w]) && AllCaused(c, chosen, s)
    ensures AllCaused(c, chosen + ChosenBy(ev), Step(c, s, w, ev))
  {
    hide ServeNext, Caused, GoodBatch, Config.BatchData;
    var all := chosen + ChosenBy(ev);
    var wk, t := s.workers[w], Step(c, s, w, ev);
    CausedMore(c, chosen, all, s);
    if wk.Serving? && wk.at < c.batches[wk.bi].idxEnd {
      ServeCaused(c, s, w, ev);
      CausedWider(c, ChosenBy(ev), all, t.workers[w]);
    } else if ev.Fail? {
      CausedChosen(c, all, ev.error);
    }
    CausedMoved(c, all, s, t, w);
  }

  lemma {:induction false} RunCaused(c: Config, chosen: set<Error>, s: State, schedule: seq<(nat, Event)>)
    requires c.Valid() && Inv(c, s) && AllCaused(c, chosen, s)
    ensures AllCaused(c, chosen + Chosen(schedule), Run(c, s, schedule))
    decreases |schedule|
  {
    hide Config.Valid, Inv, WorkerOk, Step, AllCaused, ChosenBy;
    if schedule == [] {
      assert chosen + Chosen(schedule) == chosen;
    } else {
      var (w, ev) := schedule[0];
      var rest := schedule[1..];
      assert chosen + Chosen(schedule) == (chosen + ChosenBy(ev)) + Chosen(rest);
      if w < |s.workers| {
        StepKeeps(c, s, w, ev);
        StepCaused(c, chosen, s, w, ev);
        RunCaused(c, chosen + ChosenBy(ev), Step(c, s, w, ev), rest);
      } else {
        CausedMore(c, chosen, chosen + ChosenBy(ev), s);
        RunCaused(c, chosen + ChosenBy(ev), s, rest);
      }
    }
  }

  /** The error a read returns is that of a cancelled check, a refused read or a failing callback of the
    run, or that of a requested position which cannot be read. */
  lemma {:induction false} ErrorOrigin(c: Config, s: State, schedule: seq<(nat, Event)>)
    requires c.Valid() && Initial(s)
    ensures Inv(c, s)
    ensures var t := Run(c, s, schedule);
      t.firstErr.Some? ==> t.firstErr.value in Chosen(schedule) || exists k :: FailsAt(c, k, t.firstErr.value)
  {
    InitialInv(c, s);
    hide Inv, FailsAt, Config.Valid;
    RunCaused(c, {}, s, schedule);
    assert {} + Chosen(schedule) == Chosen(schedule);
  }

  lemma {:induction false} NothingChosen(schedule: seq<(nat, Event)>)
    requires forall i :: 0 <= i < |schedule| ==> schedule[i].1.Proceed?
    ensures Chosen(schedule) == {}
  {
    if schedule != [] {
      assert schedule[0].1.Proceed?;
      NothingChosen(schedule[1..]);
    }
  }

  /** Without a fault, and with every requested position readable, a read that is over has delivered all
    positions and returns no error. */
  lemma {:induction false} HealthyRead(c: Config, s: State, schedule: seq<(nat, Event)>)
    requires c.Valid() && Initial(s) && |s.workers| > 0
    requires forall i :: 0 <= i < |schedule| ==> schedule[i].1.Proceed?
    requires forall k :: 0 <= k < |c.positions| ==> ItemOf(c.env, c.o, c.file, c.positions[k]).Ok?
    ensures Inv(c, s)
    ensures var t := Run(c, s, schedule);
      t.firstErr.None? && (Finished(t) ==> forall k :: 0 <= k < |c.positions| ==> k in t.delivered)
  {
    ErrorOrigin(c, s, schedule);
    EveryRun(c, s, schedule);
    NothingChosen(schedule);
    hide Inv, Config.Valid, ItemOf;
  }

  // ---------------------------------------------------------------- failures are recorded, and stop the read

  /** Worker w meets a failure: the context has ended, the read of the batch or the callback fails, or the
    next position cannot be read. */
  ghost predicate FailureMet(c: Config, s: State, w: nat, ev: Event)
    requires c.Valid()
  {
    && w < |s.workers|
    && match s.workers[w]
       case Ready(bi) => bi < |c.batches| && ev.Fail?
       case Reading(bi) => bi < |c.batches| && ev.Fail?
       case Serving(bi, at, _, _, _) =>
         && bi < |c.batches| && at < c.batches[bi].idxEnd && at < |c.positions|
         && (ev.Fail? || ItemOf(c.env, c.o, c.file, c.positions[at]).Err?)
       case _ => false
  }

  /** A worker on its way out after a failure: the error is about to be recorded, or recorded, and before the
    worker leaves it sets the flag. */
  ghost predicate Leaving(s: State, w: nat)
  {
    && w < |s.workers|
    && (|| s.workers[w].Failing?
        || (s.workers[w].Cancelling? && s.firstErr.Some?)
        || (s.workers[w].Exited? && s.firstErr.Some? && s.cancelled))
  }

  /** Nobody serves batch b any more, and its indices from k on have not been delivered. */
  ghost predicate Abandoned(c: Config, s: State, b: nat, k: nat)
  {
    && b < |c.batches| && b < s.nextBatch && c.batches[b].idxStart <= k
    && !HeldBySome(s, b) && NoneOf(s.delivered, k, c.batches[b].idxEnd)
  }

  /** A worker past the check of the flag. */
  predicate PastCheck(w: Worker)
  {
    w.Ready? || w.Reading? || w.Serving?
  }

  /** What one action does, whoever takes it. */
  ghost predicate Moves(c: Config, s: State, t: State, w: nat)
    requires w < |s.workers|
  {
    && |t.workers| == |s.workers| && t.workers == s.workers[w := t.workers[w]]
    && (Held(t.workers[w]).Some? ==>
          Held(t.workers[w]) == Held(s.workers[w]) || Held(t.workers[w]) == Some(s.nextBatch))
    && t.nextBatch >= s.nextBatch && (s.cancelled ==> t.cancelled) && (s.firstErr.Some? ==> t.firstErr.Some?)
    && (t.delivered == s.delivered
        || (s.workers[w].Serving? && s.workers[w].bi < |c.batches|
            && s.workers[w].at < c.batches[s.workers[w].bi].idxEnd
            && t.delivered == s.delivered + [s.workers[w].at]))
    && (s.cancelled && PastCheck(t.workers[w]) ==>
          PastCheck(s.workers[w]) && Held(t.workers[w]) == Held(s.workers[w]))
  }

  lemma ServeMoves(c: Config, s: State, w: nat, ev: Event)
    requires c.Valid() && w < |s.workers| && s.workers[w].Serving? && WorkerOk(c, s.workers[w])
    requires s.workers[w].at < c.batches[s.workers[w].bi].idxEnd
    ensures Moves(c, s, ServeNext(c, s, w, ev), w)
  {
    hide Decoding, ItemFrom, GoodBatch, Config.BatchData, Config.Valid;
  }

  lemma StepMoves(c: Config, s: State, w: nat, ev: Event)
    requires c.Valid() && w < |s.workers| && WorkerOk(c, s.workers[w])
    ensures Moves(c, s, Step(c, s, w, ev), w)
  {
    hide ServeNext, GoodBatch, Config.BatchData, Config.Valid;
    if s.workers[w].Serving? && s.workers[w].at < c.batches[s.workers[w].bi].idxEnd {
      ServeMoves(c, s, w, ev);
    }
  }

  lemma LeavingStep(c: Config, s: State, w: nat, ev: Event, v: nat)
    requires c.Valid() && w < |s.workers| && WorkerOk(c, s.workers[w]) && Leaving(s, v)
    ensures Leaving(Step(c, s, w, ev), v)
  {
    StepMoves(c, s, w, ev);
    if w != v { hide Step; }
  }

  lemma AbandonedMoves(c: Config, s: State, t: State, w: nat, b: nat, k: nat)
    requires c.Valid() && w < |s.workers| && WorkerOk(c, s.workers[w])
    requires Moves(c, s, t, w) && Abandoned(c, s, b, k)
    ensures Abandoned(c, t, b, k)
  {
    var wk := s.workers[w];
    assert wk.Serving? ==> c.batches[wk.bi].idxStart <= wk.at;
    hide Config.Valid, WorkerOk, NoneOf;
    forall i | 0 <= i < |t.workers| ensures Held(t.workers[i]) != Some(b) {
      assert Held(s.workers[i]) != Some(b);
      if i != w { assert t.workers[i] == s.workers[i]; }
    }
    if t.delivered != s.delivered {
      assert Held(wk) == Some(wk.bi) && wk.bi != b;
      if c.batches[b].idxStart <= wk.at < c.batches[b].idxEnd {
        IndexInOneBatch(c, b, wk.bi, wk.at);
      }
      DeliverOne(s.delivered, wk.at, k, c.batches[b].idxEnd);
    }
  }

  /** The first index of its batch that a worker which fails here leaves undelivered. */
  function Unserved(c: Config, w: Worker): nat
    requires Held(w).Some? && Held(w).value < |c.batches|
  {
    if w.Serving? then w.at + 1 else c.batches[Held(w).value].idxStart
  }

  lemma NothingHere(delivered: seq<nat>, k: nat, end: nat)
    requires NoneOf(delivered, k, end)
    ensures NoneOf(delivered, k + 1, end) && NoneOf(delivered + [k], k + 1, end)
  {
  }

  /** A failing worker gives its batch up. */
  lemma DropsHold(s: State, t: State, w: nat)
    requires ClaimsDistinct(s) && w < |s.workers| && Held(s.workers[w]).Some?
    requires |t.workers| == |s.workers| && t.workers == s.workers[w := t.workers[w]] && Held(t.workers[w]).None?
    ensures !HeldBySome(t, Held(s.workers[w]).value) && Held(s.workers[w]).value < s.nextBatch
  {
    forall i | 0 <= i < |t.workers| ensures Held(t.workers[i]) != Held(s.workers[w]) {
      if i != w {
        assert t.workers[i] == s.workers[i];
        assert Held(s.workers[i]) != Held(s.workers[w]);
      }
    }
  }

  lemma ServeFails(c: Config, s: State, w: nat, ev: Event)
    requires c.Valid() && w < |s.workers| && WorkerOk(c, s.workers[w]) && s.workers[w].Serving?
    requires FailureMet(c, s, w, ev)
    ensures var t := ServeNext(c, s, w, ev);
      && |t.workers| == |s.workers| && t.workers == s.workers[w := t.workers[w]] && t.workers[w].Failing?
      && t.nextBatch == s.nextBatch
      && (t.delivered == s.delivered || t.delivered == s.delivered + [s.workers[w].at])
  {
    ServedErrorRight(c, s.workers[w]);
    ServedItemRight(c, s.workers[w]);
    hide Decoding, ItemFrom, GoodBatch, ItemOf, WorkerOk, Config.Valid;
  }

  lemma FailureStep(c: Config, s: State, w: nat, ev: Event)
    requires c.Valid() && Inv(c, s) && FailureMet(c, s, w, ev) && WorkerOk(c, s.workers[w])
    ensures Leaving(Step(c, s, w, ev), w)
    ensures Held(s.workers[w]).Some?
    ensures Abandoned(c, Step(c, s, w, ev), Held(s.workers[w]).value, Unserved(c, s.workers[w]))
  {
    assert Served(c, s.delivered, s.workers[w]);
    if s.workers[w].Serving? {
      ServeFails(c, s, w, ev);
      NothingHere(s.delivered, s.workers[w].at, c.batches[s.workers[w].bi].idxEnd);
    }
    hide ServeNext, ItemOf, Config.BatchData, WorkersOk, DeliveriesRight, BatchesTracked, NoneOf, AllOf, HeldBySome,
      GoodBatch, RecordOf, Config.Valid;
    var t := Step(c, s, w, ev);
    assert t.workers[w].Failing? && t.workers == s.workers[w := t.workers[w]];
    DropsHold(s, t, w);
  }

  lemma {:induction false} LeavingRun(c: Config, s: State, schedule: seq<(nat, Event)>, v: nat, b: nat, k: nat)
    requires c.Valid() && Inv(c, s) && Leaving(s, v) && Abandoned(c, s, b, k)
    ensures Leaving(Run(c, s, schedule), v) && Abandoned(c, Run(c, s, schedule), b, k)
    decreases |schedule|
  {
    hide Config.Valid, Inv, WorkerOk, Step, Leaving, Abandoned, Moves;
    if schedule != [] {
      var (w, ev) := schedule[0];
      if w < |s.workers| {
        StepKeeps(c, s, w, ev);
        LeavingStep(c, s, w, ev, v);
        StepMoves(c, s, w, ev);
        AbandonedMoves(c, s, Step(c, s, w, ev), w, b, k);
        LeavingRun(c, Step(c, s, w, ev), schedule[1..], v, b, k);
      } else {
        LeavingRun(c, s, schedule[1..], v, b, k);
      }
    }
  }

  lemma {:induction false} RunSplit(c: Config, s: State, schedule: seq<(nat, Event)>, i: nat)
    requires c.Valid() && Inv(c, s) && i <= |schedule|
    ensures Run(c, s, schedule) == Run(c, Run(c, s, schedule[..i]), schedule[i..])
    decreases i
  {
    hide Config.Valid, Inv, WorkerOk, Step;
    if i == 0 {
      assert schedule[..0] == [] && schedule[0..] == schedule;
    } else {
      var rest := schedule[1..];
      assert schedule[..i][0] == schedule[0] && schedule[..i][1..] == rest[..i - 1];
      assert rest[i - 1..] == schedule[i..];
      var (w, ev) := schedule[0];
      if w < |s.workers| {
        StepKeeps(c, s, w, ev);
        RunSplit(c, Step(c, s, w, ev), rest, i - 1);
      } else {
        RunSplit(c, s, rest, i - 1);
      }
    }
  }

  lemma FailureRun(c: Config, u: State, schedule: seq<(nat, Event)>)
    requires c.Valid() && Inv(c, u) && |schedule| > 0 && FailureMet(c, u, schedule[0].0, schedule[0].1)
    ensures var w, t := schedule[0].0, Run(c, u, schedule);
      && Leaving(t, w) && Held(u.workers[w]).Some?
      && Abandoned(c, t, Held(u.workers[w]).value, Unserved(c, u.workers[w]))
  {
    var (w, ev) := schedule[0];
    StepKeeps(c, u, w, ev);
    hide Config.Valid, Inv, WorkerOk, Step, Leaving, Abandoned;
    FailureStep(c, u, w, ev);
    LeavingRun(c, Step(c, u, w, ev), schedule[1..], w, Held(u.workers[w]).value, Unserved(c, u.workers[w]));
  }

  /** A failure is never dropped: when a worker meets one, the worker serves nothing more, nobody delivers the
    rest of its batch, and a read that is over returns an error and has told all workers to stop. */
  lemma FailureRecorded(c: Config, s: State, schedule: seq<(nat, Event)>, i: nat)
    requires c.Valid() && Initial(s) && i < |schedule|
    ensures Inv(c, s)
    ensures var w, u, t := schedule[i].0, Run(c, s, schedule[..i]), Run(c, s, schedule);
      FailureMet(c, u, w, schedule[i].1) ==>
        && (t.workers[w].Failing? || t.workers[w].Cancelling? || t.workers[w].Exited?)
        && (Finished(t) ==> t.firstErr.Some? && t.cancelled)
        && Held(u.workers[w]).Some? && Held(u.workers[w]).value < |c.batches|
        && forall k :: Unserved(c, u.workers[w]) <= k < c.batches[Held(u.workers[w]).value].idxEnd ==> k !in t.delivered
  {
    InitialInv(c, s);
    hide Config.Valid, Inv, Run, FailureMet, HeldBySome, Initial;
    RunSplit(c, s, schedule, i);
    var w, u, t := schedule[i].0, Run(c, s, schedule[..i]), Run(c, s, schedule);
    assert schedule[i..][0] == schedule[i];
    if FailureMet(c, u, w, schedule[i].1) {
      FailureRun(c, u, schedule[i..]);
    }
  }

  /** Every worker past the check holds what it held in s. */
  ghost predicate NoneEntered(s: State, t: State)
  {
    && |t.workers| == |s.workers| && t.cancelled
    && forall i :: 0 <= i < |t.workers| && PastCheck(t.workers[i]) ==>
         PastCheck(s.workers[i]) && Held(t.workers[i]) == Held(s.workers[i])
  }

  /** Index k lies in a batch whose worker had passed the check in s. */
  ghost predicate UnderWay(c: Config, s: State, k: nat)
  {
    exists i :: 0 <= i < |s.workers| && PastCheck(s.workers[i]) && Held(s.workers[i]).value < |c.batches|
      && c.batches[Held(s.workers[i]).value].idxStart <= k < c.batches[Held(s.workers[i]).value].idxEnd
  }

  ghost predicate OnlyUnderWay(c: Config, s: State, t: State)
  {
    forall k :: k in t.delivered ==> k in s.delivered || UnderWay(c, s, k)
  }

  lemma CancelStep(c: Config, s: State, t: State, w: nat, ev: Event)
    requires c.Valid() && w < |t.workers| && WorkerOk(c, t.workers[w])
    requires NoneEntered(s, t) && OnlyUnderWay(c, s, t)
    ensures NoneEntered(s, Step(c, t, w, ev)) && OnlyUnderWay(c, s, Step(c, t, w, ev))
  {
    StepMoves(c, t, w, ev);
    var wk := t.workers[w];
    assert wk.Serving? ==> c.batches[wk.bi].idxStart <= wk.at;
    hide Step, WorkerOk, Config.Valid;
    var x := Step(c, t, w, ev);
    assert forall i :: 0 <= i < |x.workers| && i != w ==> x.workers[i] == t.workers[i];
    if x.delivered != t.delivered {
      assert UnderWay(c, s, wk.at);
    }
    hide UnderWay;
  }

  /** Once the flag is set nobody starts another batch: whatever is delivered after that belongs to a batch
    whose worker had already passed the check. */
  lemma {:induction false} CancelStops(c: Config, s: State, t: State, schedule: seq<(nat, Event)>)
    requires c.Valid() && Inv(c, t) && NoneEntered(s, t) && OnlyUnderWay(c, s, t)
    ensures NoneEntered(s, Run(c, t, schedule)) && OnlyUnderWay(c, s, Run(c, t, schedule))
    decreases |schedule|
  {
    hide Config.Valid, Inv, WorkerOk, Step, OnlyUnderWay;
    if schedule != [] {
      var (w, ev) := schedule[0];
      if w < |t.workers| {
        StepKeeps(c, t, w, ev);
        CancelStep(c, s, t, w, ev);
        CancelStops(c, s, Step(c, t, w, ev), schedule[1..]);
      } else {
        CancelStops(c, s, t, schedule[1..]);
      }
    }
  }

  lemma CancelledRun(c: Config, s: State, schedule: seq<(nat, Event)>)
    requires c.Valid() && Inv(c, s) && s.cancelled
    ensures forall k :: k in Run(c, s, schedule).delivered ==> k in s.delivered || UnderWay(c, s, k)
  {
    hide Config.Valid, Inv, UnderWay, Run;
    CancelStops(c, s, s, schedule);
  }

  // ---------------------------------------------------------------- every run ends

  /** How many actions a worker can still take on what it holds. */
  ghost function Rank(c: Config, w: Worker): nat
    requires c.Valid() && WorkerOk(c, w)
  {
    match w
    case Top => 4
    case Claimed(bi) => if bi < |c.batches| then |c.positions| + 8 else 3
    case Ready(_) => |c.positions| + 7
    case Reading(_) => |c.positions| + 6
    case Serving(bi, at, _, _, _) => c.batches[bi].idxEnd - at + 5
    case Failing(_) => 2
    case Cancelling => 1
    case Exited => 0
  }

  ghost function Ranks(c: Config, ws: seq<Worker>): nat
    requires c.Valid() && forall i :: 0 <= i < |ws| ==> WorkerOk(c, ws[i])
  {
    if ws == [] then 0 else Ranks(c, ws[..|ws| - 1]) + Rank(c, ws[|ws| - 1])
  }

  lemma {:induction false} RanksUpdate(c: Config, ws: seq<Worker>, w: nat, x: Worker)
    requires c.Valid() && w < |ws| && WorkerOk(c, x) && forall i :: 0 <= i < |ws| ==> WorkerOk(c, ws[i])
    ensures Ranks(c, ws[w := x]) == Ranks(c, ws) - Rank(c, ws[w]) + Rank(c, x)
  {
    hide Rank, WorkerOk, Config.Valid;
    var m := |ws| - 1;
    assert ws[w := x][m] == if w == m then x else ws[m];
    if w == m {
      assert ws[w := x][..m] == ws[..m];
    } else {
      assert ws[w := x][..m] == ws[..m][w := x];
      RanksUpdate(c, ws[..m], w, x);
    }
  }

  ghost function Unclaimed(c: Config, s: State): nat
  {
    if s.nextBatch < |c.batches| then |c.batches| - s.nextBatch else 0
  }

  /** Work left: batches nobody has claimed, and what the workers hold. */
  ghost function Work(c: Config, s: State): nat
    requires c.Valid() && Inv(c, s)
  {
    assert forall i :: 0 <= i < |s.workers| ==> WorkerOk(c, s.workers[i]);
    MulNonneg(Unclaimed(c, s), |c.positions| + 5);
    Unclaimed(c, s) * (|c.positions| + 5) + Ranks(c, s.workers)
  }

  lemma ServeWorker(c: Config, s: State, w: nat, ev: Event)
    requires c.Valid() && w < |s.workers| && s.workers[w].Serving? && WorkerOk(c, s.workers[w])
    requires s.workers[w].at < c.batches[s.workers[w].bi].idxEnd
    ensures var t := ServeNext(c, s, w, ev);
      && t.nextBatch == s.nextBatch && |t.workers| == |s.workers| && t.workers == s.workers[w := t.workers[w]]
      && (t.workers[w].Failing? || (t.workers[w].Serving? && t.workers[w].bi == s.workers[w].bi
            && t.workers[w].at == s.workers[w].at + 1))
  {
    hide Decoding, ItemFrom, GoodBatch;
  }

  lemma BatchSize(c: Config, bi: nat)
    requires c.Valid() && bi < |c.batches|
    ensures c.batches[bi].idxStart <= c.batches[bi].idxEnd <= |c.positions|
  {
    var b := c.batches[bi];
    assert b in c.batches && GoodBatch(c.positions, c.o, c.maxPerBatch, b);
  }

  /** An action has changed worker w into x: x has less to do, or more at the cost of one unclaimed batch. */
  ghost predicate Drops(c: Config, s: State, t: State, w: nat, x: Worker)
    requires c.Valid() && w < |s.workers| && WorkerOk(c, s.workers[w]) && WorkerOk(c, x)
  {
    && t.workers == s.workers[w := x] && Unclaimed(c, t) <= Unclaimed(c, s)
    && (Rank(c, x) < Rank(c, s.workers[w])
        || (Unclaimed(c, t) < Unclaimed(c, s) && Rank(c, x) < Rank(c, s.workers[w]) + |c.positions| + 5))
  }

  lemma ServingDrops(c: Config, s: State, w: nat, ev: Event)
    requires c.Valid() && w < |s.workers| && s.workers[w].Serving? && WorkerOk(c, s.workers[w])
    requires w < |Step(c, s, w, ev).workers| && WorkerOk(c, Step(c, s, w, ev).workers[w])
    ensures Drops(c, s, Step(c, s, w, ev), w, Step(c, s, w, ev).workers[w])
  {
    hide Decoding, ItemFrom, Config.BatchData, Config.Valid, RecordOf, GoodBatch, ServeNext;
    if s.workers[w].at < c.batches[s.workers[w].bi].idxEnd {
      ServeWorker(c, s, w, ev);
    }
  }

  lemma OtherDrops(c: Config, s: State, w: nat, ev: Event)
    requires c.Valid() && w < |s.workers| && !s.workers[w].Serving? && !s.workers[w].Exited? && WorkerOk(c, s.workers[w])
    requires w < |Step(c, s, w, ev).workers| && WorkerOk(c, Step(c, s, w, ev).workers[w])
    ensures Drops(c, s, Step(c, s, w, ev), w, Step(c, s, w, ev).workers[w])
  {
    hide Decoding, ItemFrom, Config.BatchData, Config.Valid, RecordOf, GoodBatch, ServeNext;
    if s.workers[w].Reading? {
      BatchSize(c, s.workers[w].bi);
    }
  }

  lemma StepSize(c: Config, s: State, w: nat, ev: Event)
    requires c.Valid() && w < |s.workers| && WorkerOk(c, s.workers[w])
    ensures |Step(c, s, w, ev).workers| == |s.workers|
  {
    hide Decoding, ItemFrom, Config.BatchData, RecordOf;
  }

  /** One action changes one worker, and claims at most one batch. */
  lemma StepWorker(c: Config, s: State, w: nat, ev: Event) returns (x: Worker)
    requires c.Valid() && Inv(c, s) && w < |s.workers| && WorkerOk(c, s.workers[w]) && !s.workers[w].Exited?
    ensures WorkerOk(c, x) && Drops(c, s, Step(c, s, w, ev), w, x)
  {
    StepKeeps(c, s, w, ev);
    StepSize(c, s, w, ev);
    x := Step(c, s, w, ev).workers[w];
    assert WorkerOk(c, x);
    hide Inv, Step, Drops, WorkerOk, Config.Valid;
    if s.workers[w].Serving? {
      ServingDrops(c, s, w, ev);
    } else {
      OtherDrops(c, s, w, ev);
    }
  }

  lemma WorkDrops(a: nat, b: nat, k: nat)
    requires b <= a
    ensures b * k <= a * k
    ensures b < a ==> b * k + k <= a * k
  {
    MulUpTo(b, a, k);
    if b < a {
      MulUpTo(b + 1, a, k);
      MulDistrib(b, 1, k);
    }
  }

  /** Every action of a worker that has not left reduces the work. */
  lemma StepWorks(c: Config, s: State, w: nat, ev: Event)
    requires c.Valid() && Inv(c, s) && w < |s.workers| && !s.workers[w].Exited?
    ensures WorkerOk(c, s.workers[w]) && Inv(c, Step(c, s, w, ev))
    ensures Work(c, Step(c, s, w, ev)) < Work(c, s)
  {
    StepKeeps(c, s, w, ev);
    hide Rank, WorkerOk, Config.Valid, Step, Unclaimed, DeliveriesRight, BatchesTracked, ClaimsDistinct;
    var x := StepWorker(c, s, w, ev);
    var t := Step(c, s, w, ev);
    assert forall i :: 0 <= i < |s.workers| ==> WorkerOk(c, s.workers[i]);
    RanksUpdate(c, s.workers, w, x);
    WorkDrops(Unclaimed(c, s), Unclaimed(c, t), |c.positions| + 5);
  }

  /** The schedule lets only workers act that have not left. */
  ghost predicate Live(c: Config, s: State, schedule: seq<(nat, Event)>)
    requires c.Valid() && Inv(c, s)
    decreases |schedule|
  {
    schedule != [] ==>
      var (w, ev) := schedule[0];
      && w < |s.workers| && !s.workers[w].Exited?
      && (StepKeeps(c, s, w, ev); Live(c, Step(c, s, w, ev), schedule[1..]))
  }

  /** No interleaving goes on forever: the work at the start bounds the number of actions. */
  lemma {:induction false} RunsEnd(c: Config, s: State, schedule: seq<(nat, Event)>)
    requires c.Valid() && Inv(c, s) && Live(c, s, schedule)
    ensures |schedule| <= Work(c, s)
    decreases |schedule|
  {
    hide Config.Valid, Inv, Step, Work, WorkerOk;
    if schedule != [] {
      var (w, ev) := schedule[0];
      StepWorks(c, s, w, ev);
      RunsEnd(c, Step(c, s, w, ev), schedule[1..]);
    }
  }

  /** From every state some run without further faults ends the read: no worker ever waits for another. */
  lemma {:induction false} SomeFinish(c: Config, s: State) returns (schedule: seq<(nat, Event)>)
    requires c.Valid() && Inv(c, s)
    ensures forall i :: 0 <= i < |schedule| ==> schedule[i].1.Proceed?
    ensures Finished(Run(c, s, schedule))
    decreases Work(c, s)
  {
    hide Config.Valid, Inv, Step, Work, WorkerOk;
    schedule := [];
    if w: nat :| w < |s.workers| && !s.workers[w].Exited? {
      StepWorks(c, s, w, Proceed);
      var rest := SomeFinish(c, Step(c, s, w, Proceed));
      schedule := [(w, Proceed)] + rest;
      assert schedule[0] == (w, Proceed) && schedule[1..] == rest;
    }
  }

  /** What ReadItems does before it starts the workers: it cuts the request into batches, and returns at once
    if the context has already ended. */
  method PlanRead(env: Env, o: Opened, file: seq<byte>, positions: seq<nat>, concurrency: nat, ended: bool)
    returns (e: Option<Error>, c: Config, numWorkers: nat)
    requires o.Sound(file) && o.Complete() && concurrency > 0
    requires |positions| > 0 && ValidPositions(positions, o.totalItems)
    ensures e == if ended then Some(Cancelled) else None
    ensures c.Valid() && c.env == env && c.o == o && c.file == file && c.positions == positions
    ensures numWorkers == if |c.batches| < concurrency then |c.batches| else concurrency
    ensures 1 <= numWorkers
  {
    var batches := SplitBatches(positions, o, file, concurrency);
    c := Config(env, o, file, positions, batches, MaxPerBatch(|positions|, concurrency));
    numWorkers := if |batches| < concurrency then |batches| else concurrency;
    e := if ended then Some(Cancelled) else None;
  }
}
