/** The split of a scattered read into batches: contiguous runs of positions whose records are
  consecutive in the file. */
module Batches {
  import opened Bytes
  import opened Intpack
  import opened Records
  import opened FileFormat
  import opened Reader

  /** Positions [idxStart, idxEnd) of the request, lying in records firstRecord..lastRecord. */
  datatype Batch = Batch(idxStart: nat, idxEnd: nat, firstRecord: nat, lastRecord: nat)

  /** What ReadItems demands of its caller; it panics otherwise. */
  predicate ValidPositions(positions: seq<nat>, totalItems: nat)
  {
    && (forall i :: 0 <= i < |positions| ==> positions[i] < totalItems)
    && (forall i :: 0 < i < |positions| ==> positions[i - 1] < positions[i])
  }

  /** Record of the i-th position. */
  function Rec(positions: seq<nat>, k: nat, i: nat): nat
    requires k > 0 && i < |positions|
  {
    DivNonneg(positions[i], k);
    positions[i] / k
  }

  ghost predicate Requested(positions: seq<nat>, k: nat, from: nat, end: nat, r: nat)
    requires k > 0 && end <= |positions|
  {
    exists j :: from <= j < end && Rec(positions, k, j) == r
  }

  /** A batch is a run of consecutive records, all actually requested, and small enough. */
  ghost predicate GoodBatch(positions: seq<nat>, o: Opened, maxPerBatch: nat, b: Batch)
    requires o.itemsPerRecord > 0
  {
    var k := o.itemsPerRecord;
    && b.idxStart < b.idxEnd <= |positions|
    && b.firstRecord == Rec(positions, k, b.idxStart) && b.lastRecord == Rec(positions, k, b.idxEnd - 1)
    && b.firstRecord <= b.lastRecord && b.lastRecord + 1 < |o.offsets|
    && (forall r :: b.firstRecord <= r <= b.lastRecord ==> Requested(positions, k, b.idxStart, b.idxEnd, r))
    && (forall i :: b.idxStart <= i < b.idxEnd ==> b.firstRecord <= Rec(positions, k, i) <= b.lastRecord)
    && (b.firstRecord == b.lastRecord || o.offsets[b.lastRecord + 1] - o.offsets[b.firstRecord] <= READ_BUF_SIZE)
    && b.idxEnd - b.idxStart <= maxPerBatch - 1 + k
  }

  /** Batches are contiguous and touch disjoint, ascending records. */
  ghost predicate Chained(batches: seq<Batch>)
  {
    forall i :: 0 < i < |batches| ==>
      batches[i - 1].idxEnd == batches[i].idxStart && batches[i - 1].lastRecord < batches[i].firstRecord
  }

  lemma CeilingBounds(n: nat, c: nat)
    requires c > 0
    ensures var m := (n + c - 1) / c;
      n <= m * c && (m >= 1 ==> (m - 1) * c < n) && (m < 1 ==> n == 0)
  {
    var m := (n + c - 1) / c;
    assert n + c - 1 == m * c + (n + c - 1) % c;
    MulDistrib(m - 1, 1, c);
    if m < 1 {
      DivNonneg(n + c - 1, c);
    }
  }

  function MaxPerBatch(n: nat, concurrency: nat): (m: nat)
    requires concurrency > 0
    ensures m >= 1 && n <= m * concurrency
    ensures m > 1 ==> (m - 1) * concurrency < n
  {
    DivNonneg(n + concurrency - 1, concurrency);
    var m := (n + concurrency - 1) / concurrency;
    CeilingBounds(n, concurrency);
    if m < 1 then 1 else m
  }

  lemma {:induction false} PositionsSpread(positions: seq<nat>, totalItems: nat, i: nat, j: nat)
    requires ValidPositions(positions, totalItems) && i <= j < |positions|
    ensures positions[j] - positions[i] >= j - i
    decreases j - i
  {
    if i < j { PositionsSpread(positions, totalItems, i, j - 1); }
  }

  /** Distinct ascending positions of one record are at most as many as a record holds. */
  lemma PositionsOfRecord(positions: seq<nat>, totalItems: nat, k: nat, i: nat, j: nat)
    requires ValidPositions(positions, totalItems) && k > 0 && i <= j < |positions|
    requires Rec(positions, k, i) == Rec(positions, k, j)
    ensures j - i < k
  {
    PositionsSpread(positions, totalItems, i, j);
    var q := Rec(positions, k, i);
    assert positions[i] == q * k + positions[i] % k && positions[j] == q * k + positions[j] % k;
  }

  lemma RecMonotone(positions: seq<nat>, totalItems: nat, k: nat, i: nat)
    requires ValidPositions(positions, totalItems) && k > 0 && 0 < i < |positions|
    ensures Rec(positions, k, i - 1) <= Rec(positions, k, i)
  {
    var a, b := Rec(positions, k, i - 1), Rec(positions, k, i);
    if a > b {
      MulUpTo(b + 1, a, k);
      MulDistrib(b + 1, 1, k);
    }
  }

  lemma RecCovered(positions: seq<nat>, o: Opened, i: nat)
    requires o.Complete() && ValidPositions(positions, o.totalItems) && i < |positions|
    ensures Rec(positions, o.itemsPerRecord, i) + 1 < |o.offsets|
  {
    PositionResolves(o.totalItems, o.itemsPerRecord, positions[i]);
  }

  /** The batch under construction before position i: it ends in the record of position i - 1,
    whose positions began at index recStart. */
  ghost predicate OpenBatch(positions: seq<nat>, o: Opened, maxPerBatch: nat, b: Batch, recStart: nat)
    requires o.itemsPerRecord > 0
  {
    && GoodBatch(positions, o, maxPerBatch, b)
    && b.idxStart <= recStart < b.idxEnd && recStart - b.idxStart <= maxPerBatch - 1
    && (forall i :: recStart <= i < b.idxEnd ==> Rec(positions, o.itemsPerRecord, i) == b.lastRecord)
  }

  lemma RequestedWider(positions: seq<nat>, k: nat, b: Batch, r: nat)
    requires k > 0 && b.idxStart <= b.idxEnd < |positions|
    requires Requested(positions, k, b.idxStart, b.idxEnd, r) || Rec(positions, k, b.idxEnd) == r
    ensures Requested(positions, k, b.idxStart, b.idxEnd + 1, r)
  {
  }

  /** The next position lies in the batch's last record. */
  lemma SameRecord(positions: seq<nat>, o: Opened, maxPerBatch: nat, b: Batch, recStart: nat)
    requires o.itemsPerRecord > 0 && ValidPositions(positions, o.totalItems) && b.idxEnd < |positions|
    requires OpenBatch(positions, o, maxPerBatch, b, recStart)
    requires Rec(positions, o.itemsPerRecord, b.idxEnd) == b.lastRecord
    ensures OpenBatch(positions, o, maxPerBatch, b.(idxEnd := b.idxEnd + 1), recStart)
  {
    hide Requested, Rec;
    var k, end := o.itemsPerRecord, b.idxEnd + 1;
    PositionsOfRecord(positions, o.totalItems, k, recStart, b.idxEnd);
    forall r | b.firstRecord <= r <= b.lastRecord
      ensures Requested(positions, k, b.idxStart, end, r)
    {
      RequestedWider(positions, k, b, r);
    }
  }

  /** The next position opens the record after the batch's last one, and the batch takes it. */
  lemma NextRecordJoins(positions: seq<nat>, o: Opened, maxPerBatch: nat, b: Batch, recStart: nat)
    requires o.itemsPerRecord > 0 && ValidPositions(positions, o.totalItems) && b.idxEnd < |positions|
    requires OpenBatch(positions, o, maxPerBatch, b, recStart)
    requires Rec(positions, o.itemsPerRecord, b.idxEnd) == b.lastRecord + 1
    requires b.lastRecord + 2 < |o.offsets|
    requires o.offsets[b.lastRecord + 2] - o.offsets[b.firstRecord] <= READ_BUF_SIZE
    requires b.idxEnd - b.idxStart < maxPerBatch
    ensures OpenBatch(positions, o, maxPerBatch, b.(idxEnd := b.idxEnd + 1, lastRecord := b.lastRecord + 1), b.idxEnd)
  {
    hide Requested, Rec;
    var end := b.idxEnd + 1;
    forall r | b.firstRecord <= r <= b.lastRecord + 1
      ensures Requested(positions, o.itemsPerRecord, b.idxStart, end, r)
    {
      RequestedWider(positions, o.itemsPerRecord, b, r);
    }
  }

  /** A batch of one position. */
  lemma SingleBatch(positions: seq<nat>, o: Opened, maxPerBatch: nat, i: nat)
    requires o.Complete() && ValidPositions(positions, o.totalItems) && i < |positions| && maxPerBatch >= 1
    ensures var r := Rec(positions, o.itemsPerRecord, i);
      OpenBatch(positions, o, maxPerBatch, Batch(i, i + 1, r, r), i)
  {
    RecCovered(positions, o, i);
    assert Requested(positions, o.itemsPerRecord, i, i + 1, Rec(positions, o.itemsPerRecord, i));
  }

  lemma SoundRate(o: Opened, file: seq<byte>)
    requires o.Sound(file)
    ensures o.itemsPerRecord > 0
  {
  }

  lemma OpenIsGood(positions: seq<nat>, o: Opened, maxPerBatch: nat, b: Batch, recStart: nat)
    requires o.itemsPerRecord > 0 && OpenBatch(positions, o, maxPerBatch, b, recStart)
    ensures GoodBatch(positions, o, maxPerBatch, b)
  {
  }

  lemma ChainSnoc(batches: seq<Batch>, b: Batch)
    requires Chained(batches)
    requires |batches| > 0 ==>
      batches[|batches| - 1].idxEnd == b.idxStart && batches[|batches| - 1].lastRecord < b.firstRecord
    ensures Chained(batches + [b])
  {
  }

  /** A batch cannot go on with record rec: this is not the next record, or there is no room in the buffer of
    1 MiB, or the batch has its share of positions. */
  predicate MustEnd(o: Opened, maxPerBatch: nat, b: Batch, rec: nat)
  {
    rec + 1 < |o.offsets| && b.firstRecord < |o.offsets|
    && (rec != b.lastRecord + 1 || o.offsets[rec + 1] - o.offsets[b.firstRecord] > 0x10_0000
        || b.idxEnd - b.idxStart >= maxPerBatch)
  }

  /** No batch ends before it must. */
  ghost predicate Greedy(o: Opened, maxPerBatch: nat, batches: seq<Batch>)
  {
    forall j :: 0 < j < |batches| ==> MustEnd(o, maxPerBatch, batches[j - 1], batches[j].firstRecord)
  }

  lemma GreedyNone(o: Opened, maxPerBatch: nat)
    ensures Greedy(o, maxPerBatch, [])
  {
  }

  lemma GreedySnoc(o: Opened, maxPerBatch: nat, batches: seq<Batch>, b: Batch)
    requires Greedy(o, maxPerBatch, batches)
    requires |batches| > 0 ==> MustEnd(o, maxPerBatch, batches[|batches| - 1], b.firstRecord)
    ensures Greedy(o, maxPerBatch, batches + [b])
  {
    hide MustEnd;
  }

  /** The batch split of ReadItems. */
  method SplitBatches(positions: seq<nat>, o: Opened, ghost file: seq<byte>, concurrency: nat)
    returns (batches: seq<Batch>)
    requires o.Sound(file) && o.Complete() && concurrency > 0
    requires |positions| > 0 && ValidPositions(positions, o.totalItems)
    ensures |batches| > 0 && batches[0].idxStart == 0 && batches[|batches| - 1].idxEnd == |positions|
    ensures Chained(batches)
    ensures forall b :: b in batches ==> GoodBatch(positions, o, MaxPerBatch(|positions|, concurrency), b)
    ensures Greedy(o, MaxPerBatch(|positions|, concurrency), batches)
  {
    hide Greedy, OpenBatch, GoodBatch, MaxPerBatch, ValidPositions, Opened.Sound, Opened.Complete, Rec;
    SoundRate(o, file);
    var k := o.itemsPerRecord;
    var maxPerBatch := MaxPerBatch(|positions|, concurrency);
    batches := [];
    GreedyNone(o, maxPerBatch);
    var batchIdxStart: nat := 0;
    var firstRec: nat := Rec(positions, k, 0);
    var lastRec: nat := firstRec;
    RecCovered(positions, o, 0);
    var batchBytes := o.offsets[firstRec + 1] - o.offsets[firstRec];
    ghost var recStart: nat := 0;
    SingleBatch(positions, o, maxPerBatch, 0);
    for i := 1 to |positions|
      invariant OpenBatch(positions, o, maxPerBatch, Batch(batchIdxStart, i, firstRec, lastRec), recStart)
      invariant firstRec <= lastRec && lastRec == Rec(positions, k, i - 1) && lastRec + 1 < |o.offsets|
      invariant batchBytes == o.offsets[lastRec + 1] - o.offsets[firstRec]
      invariant forall b :: b in batches ==> GoodBatch(positions, o, maxPerBatch, b)
      invariant Chained(batches)
      invariant |batches| == 0 ==> batchIdxStart == 0
      invariant |batches| > 0 ==> batches[0].idxStart == 0
      invariant |batches| > 0 ==> batches[|batches| - 1].idxEnd == batchIdxStart
      invariant |batches| > 0 ==> batches[|batches| - 1].lastRecord < firstRec
      invariant Greedy(o, maxPerBatch, batches)
      invariant |batches| > 0 ==> MustEnd(o, maxPerBatch, batches[|batches| - 1], firstRec)
    {
      var open := Batch(batchIdxStart, i, firstRec, lastRec);
      var rec := Rec(positions, k, i);
      RecMonotone(positions, o.totalItems, k, i);
      RecCovered(positions, o, i);
      if rec == lastRec {
        SameRecord(positions, o, maxPerBatch, open, recStart);
        continue;
      }
      var recBytes := o.offsets[rec + 1] - o.offsets[rec];
      if rec == lastRec + 1 && batchBytes + recBytes <= READ_BUF_SIZE && i - batchIdxStart < maxPerBatch {
        NextRecordJoins(positions, o, maxPerBatch, open, recStart);
        batchBytes := batchBytes + recBytes;
        lastRec := rec;
        recStart := i;
      } else {
        OpenIsGood(positions, o, maxPerBatch, open, recStart);
        ChainSnoc(batches, open);
        GreedySnoc(o, maxPerBatch, batches, open);
        batches := batches + [open];
        batchIdxStart := i;
        firstRec := rec;
        lastRec := rec;
        batchBytes := recBytes;
        recStart := i;
        SingleBatch(positions, o, maxPerBatch, i);
      }
    }
    var last := Batch(batchIdxStart, |positions|, firstRec, lastRec);
    OpenIsGood(positions, o, maxPerBatch, last, recStart);
    ChainSnoc(batches, last);
    GreedySnoc(o, maxPerBatch, batches, last);
    batches := batches + [last];
  }

  /** Later batches take later positions of later records. */
  lemma {:induction false} ChainOrder(batches: seq<Batch>, i: nat, j: nat)
    requires Chained(batches) && i < j < |batches|
    requires forall b :: b in batches ==> b.idxStart < b.idxEnd && b.firstRecord <= b.lastRecord
    ensures batches[i].idxEnd <= batches[j].idxStart && batches[i].lastRecord < batches[j].firstRecord
    decreases j - i
  {
    assert batches[j - 1] in batches;
    if i < j - 1 { ChainOrder(batches, i, j - 1); }
  }
}
