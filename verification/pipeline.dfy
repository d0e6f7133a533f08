/** The concurrent writer: a producer sends blocks to a bounded channel, workers format and hash
  them, and a writer puts the results back in order. A run is any interleaving of their atomic
  actions; compressors and file writes may fail. */
module Pipeline {
  import opened Bytes
  import opened Results
  import opened Environment
  import opened Intpack
  import opened Index
  import opened Records
  import opened Chunks
  import opened ContentHashing
  import opened FileFormat
  import opened SealedFile
  import opened PackWriter

  /** What does not change during a run. Both channels hold `capacity` elements. */
  datatype Config = Config(env: Env, settings: Settings, capacity: nat)
  {
    predicate Valid()
    {
      settings.Valid() && capacity > 1
    }
  }

  /** A block on its way to a worker. */
  datatype Work = Work(id: nat, data: seq<byte>, forIndex: seq<byte>, hashSizes: Option<seq<uint32>>)

  /** A block on its way to the writer, or the error that stopped it. */
  datatype BlockResult = BlockResult(id: nat, data: seq<byte>, digest: Option<Digest>, error: Option<Error>)

  datatype Worker =
    | Idle
    | Processing(work: Work)
    | Sending(result: BlockResult)
    | Left                    // the work channel is closed and empty
    | Broken                  // returned after a format error

  datatype Phase = Receiving | Writing | Draining | Done

  datatype State = State(
    blocks: seq<seq<Item>>,   // items of every block the producer has sent
    workCh: seq<Work>, workClosed: bool,
    workers: seq<Worker>,
    resultCh: seq<BlockResult>, resultClosed: bool,
    phase: Phase,
    pending: map<nat, BlockResult>, next: nat,
    file: seq<byte>, pos: nat, offsets: seq<int>, digests: seq<byte>,
    outcome: Option<Error>,   // what the writer has reported to Finish and Close
    err: Option<Error>,       // the error AppendItem looks at: set by a failed write only
    lost: seq<nat>)           // blocks received but not written

  datatype Event =
    | Send(chunk: seq<Item>)
    | CloseWork
    | Take(w: nat)
    | Leave(w: nat)
    | Process(w: nat, fails: bool)
    | SendResult(w: nat)
    | CloseResult
    | Receive
    | WriteNext(fault: Option<nat>)   // the write fails after this many bytes
    | Settle                          // the next block is not pending
    | Drain
    | End

  // ---------------------------------------------------------------- the actors

  /** The hash goroutine's loop: cuts the payload into items by their sizes and frames them. */
  ghost function FramedBySizes(data: seq<byte>, sizes: seq<uint32>): seq<byte>
    decreases |sizes|
  {
    if |sizes| == 0 || sizes[0] > |data| then []
    else PutLE(sizes[0], 4) + data[..sizes[0]] + FramedBySizes(data[sizes[0]..], sizes[1..])
  }

  /** flush, concurrent path: the block as it is sent. */
  ghost function WorkOf(c: Config, id: nat, chunk: seq<Item>): Work
    requires |chunk| > 0
  {
    Work(id, Flatten(chunk),
         if c.settings.itemsPerRecord > 1 then ForIndex(c.env, SizesOf(chunk)) else [],
         if c.settings.hashing then Some(SizesOf(chunk)) else None)
  }

  /** blockWorker: what a worker makes of a block. */
  ghost function Processed(c: Config, w: Work, fails: bool): BlockResult
  {
    if fails then BlockResult(w.id, [], None, Some(Zstd))
    else BlockResult(w.id, FormatPayload(c.env, c.settings.format, w.data) + w.forIndex,
                     if w.hashSizes.Some? then Some(c.env.sha(FramedBySizes(w.data, w.hashSizes.value))) else None,
                     None)
  }

  /** Only a compressor can fail, and not on empty input. */
  predicate MayFail(c: Config, w: Work)
  {
    c.settings.format.Compressed? && |w.data| > 0
  }

  predicate Stopped(workers: seq<Worker>)
  {
    forall i :: 0 <= i < |workers| ==> workers[i].Left? || workers[i].Broken?
  }

  ghost predicate Enabled(c: Config, s: State, e: Event)
  {
    match e
    case Send(chunk) =>
      && !s.workClosed && |s.workCh| < c.capacity
      && 0 < |chunk| <= c.settings.itemsPerRecord && Small(chunk)
      && (forall b :: b in s.blocks ==> |b| == c.settings.itemsPerRecord)
    case CloseWork => !s.workClosed
    case Take(w) => w < |s.workers| && s.workers[w].Idle? && |s.workCh| > 0
    case Leave(w) => w < |s.workers| && s.workers[w].Idle? && s.workClosed && |s.workCh| == 0
    case Process(w, fails) =>
      w < |s.workers| && s.workers[w].Processing? && (fails ==> MayFail(c, s.workers[w].work))
    case SendResult(w) => w < |s.workers| && s.workers[w].Sending? && |s.resultCh| < c.capacity
    case CloseResult => !s.resultClosed && Stopped(s.workers)
    case Receive => s.phase.Receiving? && |s.resultCh| > 0
    case WriteNext(_) => s.phase.Writing? && s.next in s.pending
    case Settle => s.phase.Writing? && s.next !in s.pending
    case Drain => s.phase.Draining? && |s.resultCh| > 0
    case End => (s.phase.Receiving? || s.phase.Draining?) && |s.resultCh| == 0 && s.resultClosed
  }

  ghost function Step(c: Config, s: State, e: Event): State
    requires Enabled(c, s, e)
  {
    match e
    case Send(chunk) => s.(blocks := s.blocks + [chunk], workCh := s.workCh + [WorkOf(c, |s.blocks|, chunk)])
    case CloseWork => s.(workClosed := true)
    case Take(w) => s.(workCh := s.workCh[1..], workers := s.workers[w := Processing(s.workCh[0])])
    case Leave(w) => s.(workers := s.workers[w := Left])
    case Process(w, fails) =>
      s.(workers := s.workers[w := Sending(Processed(c, s.workers[w].work, fails))])
    case SendResult(w) =>
      var r := s.workers[w].result;
      s.(resultCh := s.resultCh + [r], workers := s.workers[w := if r.error.Some? then Broken else Idle])
    case CloseResult => s.(resultClosed := true)
    case Receive =>
      var r := s.resultCh[0];
      if r.error.Some? then
        s.(resultCh := s.resultCh[1..], outcome := r.error, phase := Draining, lost := s.lost + [r.id])
      else
        s.(resultCh := s.resultCh[1..], pending := s.pending[r.id := r], phase := Writing)
    case WriteNext(fault) =>
      var r := s.pending[s.next];
      var s1 := s.(pending := s.pending - {s.next}, offsets := s.offsets + [s.pos]);
      if fault.Some? then
        var n := Min(fault.value, |r.data|);
        s1.(file := s.file + r.data[..n], pos := s.pos + n, outcome := Some(Io), err := Some(Io), phase := Draining,
            lost := s.lost + [s.next])
      else
        s1.(file := s.file + r.data, pos := s.pos + |r.data|,
            digests := s.digests + (if r.digest.Some? then r.digest.value else []), next := s.next + 1)
    case Settle => s.(phase := Receiving)
    case Drain => s.(resultCh := s.resultCh[1..], lost := s.lost + [s.resultCh[0].id])
    case End => s.(phase := Done)
  }

  /** Create, in the concurrent mode. */
  ghost predicate Initial(c: Config, s: State)
  {
    && s.blocks == [] && s.workCh == [] && !s.workClosed && s.resultCh == [] && !s.resultClosed
    && |s.workers| == c.capacity && (forall i :: 0 <= i < |s.workers| ==> s.workers[i].Idle?)
    && s.phase.Receiving? && s.pending == map[] && s.next == 0
    && s.file == [] && s.pos == 0 && s.offsets == [] && s.digests == []
    && s.outcome.None? && s.err.None? && s.lost == []
  }

  // ---------------------------------------------------------------- where every block is

  function One(b: bool): nat
  {
    if b then 1 else 0
  }

  ghost function InQueue(q: seq<Work>, id: nat): nat
  {
    if |q| == 0 then 0 else One(q[0].id == id) + InQueue(q[1..], id)
  }

  ghost function InResults(q: seq<BlockResult>, id: nat): nat
  {
    if |q| == 0 then 0 else One(q[0].id == id) + InResults(q[1..], id)
  }

  ghost function InLost(q: seq<nat>, id: nat): nat
  {
    if |q| == 0 then 0 else One(q[0] == id) + InLost(q[1..], id)
  }

  ghost predicate Holds(w: Worker, id: nat)
  {
    (w.Processing? && w.work.id == id) || (w.Sending? && w.result.id == id)
  }

  ghost function InHands(ws: seq<Worker>, id: nat): nat
  {
    if |ws| == 0 then 0 else InHands(ws[..|ws| - 1], id) + One(Holds(ws[|ws| - 1], id))
  }

  /** In how many places block `id` is: queued, held by a worker, in the result channel, pending,
    written, or lost after a failure. */
  ghost function Copies(s: State, id: nat): nat
  {
    InQueue(s.workCh, id) + InHands(s.workers, id) + InResults(s.resultCh, id)
      + One(id in s.pending) + One(id < s.next) + InLost(s.lost, id)
  }

  /** Every block sent is in exactly one place, and no other block is anywhere. */
  ghost predicate Conserved(s: State)
  {
    forall id: nat :: Copies(s, id) == One(id < |s.blocks|)
  }

  lemma {:induction false} HandsUpdate(ws: seq<Worker>, w: nat, x: Worker, id: nat)
    requires w < |ws|
    ensures InHands(ws[w := x], id) + One(Holds(ws[w], id)) == InHands(ws, id) + One(Holds(x, id))
  {
    hide Holds;
    var m := |ws| - 1;
    assert ws[w := x][m] == if w == m then x else ws[m];
    if w == m {
      assert ws[w := x][..m] == ws[..m];
    } else {
      assert ws[w := x][..m] == ws[..m][w := x];
      HandsUpdate(ws[..m], w, x, id);
    }
  }

  lemma {:induction false} QueueSnoc(q: seq<Work>, w: Work, id: nat)
    ensures InQueue(q + [w], id) == InQueue(q, id) + One(w.id == id)
  {
    if |q| == 0 {
      assert (q + [w])[1..] == [];
    } else {
      assert (q + [w])[1..] == q[1..] + [w];
      QueueSnoc(q[1..], w, id);
    }
  }

  lemma {:induction false} ResultsSnoc(q: seq<BlockResult>, r: BlockResult, id: nat)
    ensures InResults(q + [r], id) == InResults(q, id) + One(r.id == id)
  {
    if |q| == 0 {
      assert (q + [r])[1..] == [];
    } else {
      assert (q + [r])[1..] == q[1..] + [r];
      ResultsSnoc(q[1..], r, id);
    }
  }

  lemma {:induction false} LostSnoc(q: seq<nat>, x: nat, id: nat)
    ensures InLost(q + [x], id) == InLost(q, id) + One(x == id)
  {
    if |q| == 0 {
      assert (q + [x])[1..] == [];
    } else {
      assert (q + [x])[1..] == q[1..] + [x];
      LostSnoc(q[1..], x, id);
    }
  }

  /** A result in the channel is not pending as well. */
  lemma ReceivedIsNew(s: State)
    requires Conserved(s) && |s.resultCh| > 0
    ensures s.resultCh[0].id !in s.pending && s.resultCh[0].id >= s.next
  {
    var id := s.resultCh[0].id;
    hide InQueue, InLost, InHands;
    assert Copies(s, id) == One(id < |s.blocks|);
  }

  predicate ByWorker(e: Event)
  {
    e.Take? || e.Leave? || e.Process? || e.SendResult?
  }

  predicate ByWriter(e: Event)
  {
    e.Receive? || e.WriteNext? || e.Settle? || e.Drain? || e.End?
  }

  lemma QueueHead(q: seq<Work>, id: nat)
    requires |q| > 0
    ensures InQueue(q, id) == One(q[0].id == id) + InQueue(q[1..], id)
  {
  }

  lemma SameId(c: Config, w: Work, fails: bool)
    ensures Processed(c, w, fails).id == w.id
  {
  }

  lemma WorkerMoves(c: Config, s: State, e: Event, id: nat)
    requires Enabled(c, s, e) && ByWorker(e)
    ensures Copies(Step(c, s, e), id) == Copies(s, id)
  {
    hide Processed, InQueue, InResults, InLost, InHands;
    HandsUpdate(s.workers, e.w, Step(c, s, e).workers[e.w], id);
    match e
    case Take(_) => QueueHead(s.workCh, id);
    case Process(w, fails) => SameId(c, s.workers[w].work, fails);
    case SendResult(w) => ResultsSnoc(s.resultCh, s.workers[w].result, id);
    case _ =>
  }

  lemma ResultsHead(q: seq<BlockResult>, id: nat)
    requires |q| > 0
    ensures InResults(q, id) == One(q[0].id == id) + InResults(q[1..], id)
  {
  }

  lemma ReceiveMoves(c: Config, s: State, e: Event, id: nat)
    requires Enabled(c, s, e) && e.Receive? && s.resultCh[0].id !in s.pending
    ensures Copies(Step(c, s, e), id) == Copies(s, id)
  {
    hide InQueue, InResults, InLost, InHands;
    var r := s.resultCh[0];
    ResultsHead(s.resultCh, id);
    if r.error.Some? {
      LostSnoc(s.lost, r.id, id);
    } else {
      assert One(id in s.pending[r.id := r]) == One(id in s.pending) + One(r.id == id);
    }
  }

  lemma WriteMoves(c: Config, s: State, e: Event, id: nat)
    requires Enabled(c, s, e) && e.WriteNext?
    ensures Copies(Step(c, s, e), id) == Copies(s, id)
  {
    hide InQueue, InResults, InLost, InHands, Small;
    LostSnoc(s.lost, s.next, id);
    assert One(id in s.pending) == One(id in s.pending - {s.next}) + One(id == s.next);
  }

  lemma WriterMoves(c: Config, s: State, e: Event, id: nat)
    requires Conserved(s) && Enabled(c, s, e) && ByWriter(e)
    ensures Copies(Step(c, s, e), id) == Copies(s, id)
  {
    hide InQueue, InResults, InLost, InHands, Conserved;
    match e
    case Receive =>
      ReceivedIsNew(s);
      ReceiveMoves(c, s, e, id);
    case WriteNext(_) => WriteMoves(c, s, e, id);
    case Drain =>
      ResultsHead(s.resultCh, id);
      LostSnoc(s.lost, s.resultCh[0].id, id);
    case _ =>
  }

  lemma SendMoves(c: Config, s: State, e: Event, id: nat)
    requires Enabled(c, s, e) && e.Send?
    ensures Copies(Step(c, s, e), id) == Copies(s, id) + One(id == |s.blocks|)
  {
    hide InQueue, InResults, InLost, InHands;
    QueueSnoc(s.workCh, WorkOf(c, |s.blocks|, e.chunk), id);
  }

  lemma ChannelMoves(c: Config, s: State, e: Event, id: nat)
    requires Enabled(c, s, e) && (e.CloseWork? || e.CloseResult?)
    ensures Copies(Step(c, s, e), id) == Copies(s, id)
  {
  }

  /** No action loses, duplicates or invents a block. */
  lemma StepConserves(c: Config, s: State, e: Event)
    requires Conserved(s) && Enabled(c, s, e)
    ensures Conserved(Step(c, s, e))
  {
    var t := Step(c, s, e);
    forall id: nat ensures Copies(t, id) == One(id < |t.blocks|) {
      hide Copies;
      if e.Send? {
        SendMoves(c, s, e, id);
      } else if ByWorker(e) {
        WorkerMoves(c, s, e, id);
      } else if ByWriter(e) {
        WriterMoves(c, s, e, id);
      } else {
        ChannelMoves(c, s, e, id);
      }
    }
  }

  // ---------------------------------------------------------------- what every block carries

  /** The processed form of block `chunk`, or an error. */
  ghost predicate ResultOf(c: Config, chunk: seq<Item>, r: BlockResult)
    requires |chunk| > 0
  {
    r.error.None? ==>
      && r.data == RecordBytes(c.env, c.settings.format, c.settings.itemsPerRecord, chunk)
      && r.digest == if c.settings.hashing then Some(c.env.sha(Frame(chunk))) else None
  }

  ghost predicate BlocksOk(c: Config, blocks: seq<seq<Item>>)
  {
    && NoneEmpty(blocks)
    && (forall i :: 0 <= i < |blocks| ==> |blocks[i]| <= c.settings.itemsPerRecord && Small(blocks[i]))
    && (forall i :: 0 <= i < |blocks| - 1 ==> |blocks[i]| == c.settings.itemsPerRecord)
  }

  ghost predicate GoodWork(c: Config, blocks: seq<seq<Item>>, w: Work)
  {
    w.id < |blocks| && |blocks[w.id]| > 0 && w == WorkOf(c, w.id, blocks[w.id])
  }

  ghost predicate GoodResult(c: Config, blocks: seq<seq<Item>>, r: BlockResult)
  {
    r.id < |blocks| && |blocks[r.id]| > 0 && ResultOf(c, blocks[r.id], r)
  }

  ghost predicate GoodWorker(c: Config, blocks: seq<seq<Item>>, w: Worker)
  {
    (w.Processing? ==> GoodWork(c, blocks, w.work)) && (w.Sending? ==> GoodResult(c, blocks, w.result))
  }

  ghost predicate Contents(c: Config, s: State)
  {
    && BlocksOk(c, s.blocks)
    && (forall i :: 0 <= i < |s.workCh| ==> GoodWork(c, s.blocks, s.workCh[i]))
    && (forall i :: 0 <= i < |s.workers| ==> GoodWorker(c, s.blocks, s.workers[i]))
    && (forall i :: 0 <= i < |s.resultCh| ==> GoodResult(c, s.blocks, s.resultCh[i]))
    && (forall id :: id in s.pending ==>
          GoodResult(c, s.blocks, s.pending[id]) && s.pending[id].id == id && s.pending[id].error.None?)
  }

  /** Cutting the payload by its sizes gives back the items. */
  lemma {:induction false} FramedItems(items: seq<Item>)
    requires Small(items)
    ensures FramedBySizes(Flatten(items), SizesOf(items)) == Frame(items)
    decreases |items|
  {
    hide Flatten;
    if |items| == 0 {
      FlattenNone();
    } else {
      var item, rest := items[0], items[1..];
      assert items == [item] + rest;
      FlattenConcat([item], rest);
      FlattenOne(item);
      SmallMod(|item|, TWO32);
      assert SizesOf(items)[1..] == SizesOf(rest);
      assert Flatten(items)[..|item|] == item && Flatten(items)[|item|..] == Flatten(rest);
      FramedItems(rest);
    }
  }

  /** A worker makes of a block the record and the digest the serial writer makes of it. */
  lemma ProcessedRight(c: Config, id: nat, chunk: seq<Item>, fails: bool)
    requires |chunk| > 0 && Small(chunk)
    ensures ResultOf(c, chunk, Processed(c, WorkOf(c, id, chunk), fails))
  {
    hide Flatten, SizesOf, ForIndex, FormatPayload, FramedBySizes;
    FramedItems(chunk);
  }

  /** Blocks sent later do not disturb earlier ones. */
  lemma GoodLater(c: Config, blocks: seq<seq<Item>>, chunk: seq<Item>)
    ensures forall w :: GoodWork(c, blocks, w) ==> GoodWork(c, blocks + [chunk], w)
    ensures forall r :: GoodResult(c, blocks, r) ==> GoodResult(c, blocks + [chunk], r)
    ensures forall x :: GoodWorker(c, blocks, x) ==> GoodWorker(c, blocks + [chunk], x)
  {
    hide WorkOf, ResultOf;
  }

  lemma SentGood(c: Config, blocks: seq<seq<Item>>, chunk: seq<Item>)
    requires |chunk| > 0
    ensures GoodWork(c, blocks + [chunk], WorkOf(c, |blocks|, chunk))
  {
  }

  lemma SendContents(c: Config, s: State, e: Event)
    requires Contents(c, s) && Enabled(c, s, e) && e.Send?
    ensures Contents(c, Step(c, s, e))
  {
    hide GoodWork, GoodResult, GoodWorker, Small, WorkOf;
    var t := Step(c, s, e);
    assert forall i :: 0 <= i < |s.blocks| ==> s.blocks[i] in s.blocks;
    assert BlocksOk(c, t.blocks);
    SentGood(c, s.blocks, e.chunk);
    GoodLater(c, s.blocks, e.chunk);
  }

  lemma MadeGood(c: Config, blocks: seq<seq<Item>>, w: Work, fails: bool)
    requires BlocksOk(c, blocks) && GoodWork(c, blocks, w)
    ensures GoodResult(c, blocks, Processed(c, w, fails))
  {
    ProcessedRight(c, w.id, blocks[w.id], fails);
    SameId(c, w, fails);
  }

  lemma WorkerContents(c: Config, s: State, e: Event)
    requires Contents(c, s) && Enabled(c, s, e) && ByWorker(e)
    ensures Contents(c, Step(c, s, e))
  {
    hide GoodWork, GoodResult;
    var x := Step(c, s, e).workers[e.w];
    if e.Process? {
      MadeGood(c, s.blocks, s.workers[e.w].work, e.fails);
    }
    assert GoodWorker(c, s.blocks, x);
  }

  lemma ReceiveContents(c: Config, s: State)
    requires Contents(c, s) && Enabled(c, s, Receive)
    ensures Contents(c, Step(c, s, Receive))
  {
    hide GoodWork, GoodResult, GoodWorker, BlocksOk;
  }

  lemma WriterContents(c: Config, s: State, e: Event)
    requires Contents(c, s) && Enabled(c, s, e) && !e.Send? && !ByWorker(e)
    ensures Contents(c, Step(c, s, e))
  {
    hide GoodWork, GoodResult, GoodWorker, BlocksOk;
    if e.Receive? {
      ReceiveContents(c, s);
    } else {
      var t := Step(c, s, e);
      assert t.workCh == s.workCh && t.workers == s.workers && t.blocks == s.blocks;
      assert t.pending.Keys <= s.pending.Keys && (t.resultCh == s.resultCh || t.resultCh == s.resultCh[1..]);
    }
  }

  // ---------------------------------------------------------------- the channels

  ghost predicate FailureComing(s: State)
  {
    exists i :: 0 <= i < |s.resultCh| && s.resultCh[i].error.Some?
  }

  /** Who may still send to, or receive from, which channel. */
  ghost predicate Channels(c: Config, s: State)
  {
    && |s.workCh| <= c.capacity && |s.resultCh| <= c.capacity && |s.workers| == c.capacity
    && (s.resultClosed ==> Stopped(s.workers))
    && (forall i :: 0 <= i < |s.workers| && s.workers[i].Left? ==> s.workClosed && |s.workCh| == 0)
    && (forall i :: 0 <= i < |s.workers| && s.workers[i].Broken? ==> s.outcome.Some? || FailureComing(s))
    && (s.phase.Done? ==> s.resultClosed && |s.resultCh| == 0)
    && (s.phase.Draining? ==> s.outcome.Some?)
    && (s.outcome.Some? ==> s.phase.Draining? || s.phase.Done?)
    && (s.outcome.None? && !s.phase.Writing? ==> s.next !in s.pending)
  }

  lemma WorkerChannels(c: Config, s: State, e: Event)
    requires Channels(c, s) && Enabled(c, s, e) && ByWorker(e)
    ensures Channels(c, Step(c, s, e))
  {
    hide Processed;
    var t := Step(c, s, e);
    if e.SendResult? {
      assert t.resultCh[|s.resultCh|] == s.workers[e.w].result;
    }
    if FailureComing(s) {
      var i :| 0 <= i < |s.resultCh| && s.resultCh[i].error.Some?;
      assert t.resultCh[i] == s.resultCh[i];
    }
    assert forall i :: 0 <= i < |s.workers| && i != e.w ==> t.workers[i] == s.workers[i];
  }

  lemma OtherChannels(c: Config, s: State, e: Event)
    requires Channels(c, s) && Enabled(c, s, e) && !ByWorker(e)
    ensures Channels(c, Step(c, s, e))
  {
    hide WorkOf;
    var t := Step(c, s, e);
    if e.Receive? && s.resultCh[0].error.None? && FailureComing(s) {
      var i :| 0 <= i < |s.resultCh| && s.resultCh[i].error.Some?;
      assert t.resultCh[i - 1] == s.resultCh[i];
    }
    if e.Drain? {
      assert s.outcome.Some?;
    }
    if t.resultCh == s.resultCh {
      assert FailureComing(s) ==> FailureComing(t);
    }
  }

  // ---------------------------------------------------------------- what has been written

  ghost function RecordsWritten(c: Config, s: State): seq<seq<byte>>
    requires NoneEmpty(s.blocks) && s.next <= |s.blocks|
  {
    RecordsOf(c.env, c.settings, s.blocks[..s.next])
  }

  /** The write of record `next` failed: the file ends in a part of it, and its start is on record. */
  ghost predicate Torn(c: Config, s: State)
    requires NoneEmpty(s.blocks) && s.next <= |s.blocks|
  {
    && s.next < |s.blocks| && s.offsets == OffsetsOf(RecordsWritten(c, s))
    && Flatten(RecordsWritten(c, s)) <= s.file
    && s.file <= Flatten(RecordsWritten(c, s)) + RecordBytes(c.env, c.settings.format, c.settings.itemsPerRecord, s.blocks[s.next])
  }

  /** File and offsets are those of blocks 0 .. next - 1, in order. */
  ghost predicate InOrder(c: Config, s: State)
    requires NoneEmpty(s.blocks) && s.next <= |s.blocks|
  {
    s.file == Flatten(RecordsWritten(c, s)) && s.offsets + [s.pos] == OffsetsOf(RecordsWritten(c, s))
  }

  /** What has been written is the in-order encoding of blocks 0 .. next - 1, followed by a part of the
    next record if its write has failed. Nothing is lost before a failure is reported. */
  ghost predicate Written(c: Config, s: State)
    requires BlocksOk(c, s.blocks)
  {
    && s.next <= |s.blocks| && s.pos == |s.file|
    && (s.outcome.None? ==> s.lost == [] && s.err.None?)
    && s.digests == (if c.settings.hashing then Digests(c.env, s.blocks[..s.next]) else [])
    && if s.err.None? then InOrder(c, s) else Torn(c, s)
  }

  lemma NextPrefix(blocks: seq<seq<Item>>, n: nat)
    requires n < |blocks| && NoneEmpty(blocks)
    ensures blocks[..n + 1] == blocks[..n] + [blocks[n]]
    ensures NoneEmpty(blocks[..n]) && NoneEmpty(blocks[..n + 1]) && |blocks[n]| > 0
  {
  }

  /** File, offsets with the end of the file, and digests are those of the first n blocks. */
  ghost predicate Encodes(c: Config, blocks: seq<seq<Item>>, n: nat, file: seq<byte>, offsets: seq<int>, digests: seq<byte>)
    requires NoneEmpty(blocks) && n <= |blocks|
  {
    var rs := RecordsOf(c.env, c.settings, blocks[..n]);
    && file == Flatten(rs) && offsets == OffsetsOf(rs)
    && digests == if c.settings.hashing then Digests(c.env, blocks[..n]) else []
  }

  /** Appending the processed form of one more block to an in-order encoding. */
  lemma AppendInOrder(c: Config, blocks: seq<seq<Item>>, n: nat, r: BlockResult,
                      file: seq<byte>, offsets: seq<int>, digests: seq<byte>)
    requires NoneEmpty(blocks) && n < |blocks| && ResultOf(c, blocks[n], r) && r.error.None?
    requires Encodes(c, blocks, n, file, offsets, digests)
    ensures Encodes(c, blocks, n + 1, file + r.data, offsets + [|file| + |r.data|],
                    digests + if r.digest.Some? then r.digest.value else [])
  {
    NextPrefix(blocks, n);
    hide Flatten, RecordsOf, OffsetsOf, Digests, RecordBytes, Frame, NoneEmpty;
    var before, chunk := blocks[..n], blocks[n];
    RecordsSnoc(c.env, c.settings, before, chunk);
    OffsetsSnoc(RecordsOf(c.env, c.settings, before), r.data);
    if c.settings.hashing {
      DigestsSnoc(c.env, before, chunk);
    }
  }

  lemma NextGood(c: Config, s: State)
    requires Contents(c, s) && s.next in s.pending
    ensures var r := s.pending[s.next];
      s.next < |s.blocks| && |s.blocks[s.next]| > 0 && ResultOf(c, s.blocks[s.next], r) && r.error.None?
  {
    hide ResultOf, BlocksOk;
    assert GoodResult(c, s.blocks, s.pending[s.next]);
  }

  /** What a successful write changes. */
  lemma WriteSteps(c: Config, s: State)
    requires Enabled(c, s, WriteNext(None))
    ensures var t, r := Step(c, s, WriteNext(None)), s.pending[s.next];
      && t.blocks == s.blocks && t.next == s.next + 1 && t.file == s.file + r.data && t.pos == s.pos + |r.data|
      && t.offsets == s.offsets + [s.pos] && t.digests == s.digests + (if r.digest.Some? then r.digest.value else [])
      && t.outcome == s.outcome && t.err == s.err && t.lost == s.lost
  {
  }

  /** While no write has failed, `Written` says what is encoded. */
  lemma WrittenEncodes(c: Config, s: State)
    requires BlocksOk(c, s.blocks) && s.err.None?
    ensures NoneEmpty(s.blocks)
    ensures Written(c, s) <==>
      && s.next <= |s.blocks| && s.pos == |s.file| && (s.outcome.None? ==> s.lost == [])
      && Encodes(c, s.blocks, s.next, s.file, s.offsets + [s.pos], s.digests)
  {
    hide Flatten, RecordsOf, OffsetsOf, Digests, Torn;
  }

  /** While the writer writes, nothing has failed. */
  lemma NotFailed(c: Config, s: State)
    requires BlocksOk(c, s.blocks) && Written(c, s) && Channels(c, s) && s.phase.Writing?
    ensures s.outcome.None? && s.err.None?
  {
    hide BlocksOk, InOrder, Torn, Digests;
  }

  lemma ContentsBlocks(c: Config, s: State)
    requires Contents(c, s)
    ensures BlocksOk(c, s.blocks)
  {
  }

  /** The next block reaches the file. */
  lemma AppendWritten(c: Config, s: State, e: Event)
    requires Contents(c, s) && Written(c, s) && Channels(c, s) && Enabled(c, s, e) && e == WriteNext(None)
    ensures BlocksOk(c, Step(c, s, e).blocks) && Written(c, Step(c, s, e))
  {
    hide ResultOf, Channels, Contents, Step, Written, BlocksOk, NoneEmpty, Encodes;
    ContentsBlocks(c, s);
    NotFailed(c, s);
    NextGood(c, s);
    hide Enabled;
    WriteSteps(c, s);
    WrittenEncodes(c, s);
    AppendInOrder(c, s.blocks, s.next, s.pending[s.next], s.file, s.offsets + [s.pos], s.digests);
    WrittenEncodes(c, Step(c, s, e));
  }

  /** The write of the next block fails part of the way. */
  lemma TearWritten(c: Config, s: State, e: Event)
    requires Contents(c, s) && Written(c, s) && Channels(c, s) && Enabled(c, s, e) && e.WriteNext? && e.fault.Some?
    ensures BlocksOk(c, Step(c, s, e).blocks) && Written(c, Step(c, s, e))
  {
    hide Flatten, RecordsOf, OffsetsOf, Digests, RecordBytes, Frame, Small;
    var r := s.pending[s.next];
    assert GoodResult(c, s.blocks, r) && r.id == s.next;
  }

  /** What has been written is described by a few fields; new blocks do not disturb it. */
  lemma SameWritten(c: Config, s: State, t: State)
    requires BlocksOk(c, s.blocks) && Written(c, s) && BlocksOk(c, t.blocks) && s.blocks <= t.blocks
    requires t.next == s.next && t.file == s.file && t.pos == s.pos && t.offsets == s.offsets
    requires t.digests == s.digests && t.err == s.err
    requires t.outcome.None? ==> s.outcome.None? && t.lost == s.lost
    ensures Written(c, t)
  {
    hide RecordsOf, OffsetsOf, Digests, Flatten, RecordBytes, BlocksOk, NoneEmpty;
    assert t.blocks[..t.next] == s.blocks[..s.next];
    assert s.next < |s.blocks| ==> t.blocks[s.next] == s.blocks[s.next];
  }

  /** Any other action leaves the written part alone. */
  lemma OthersWrite(c: Config, s: State, e: Event)
    requires Contents(c, s) && Written(c, s) && Channels(c, s) && Enabled(c, s, e) && !e.WriteNext?
    ensures BlocksOk(c, Step(c, s, e).blocks) ==> Written(c, Step(c, s, e))
  {
    hide Contents, Processed, WorkOf, Written, BlocksOk;
    ContentsBlocks(c, s);
    if BlocksOk(c, Step(c, s, e).blocks) {
      SameWritten(c, s, Step(c, s, e));
    }
  }

  // ---------------------------------------------------------------- every interleaving

  ghost predicate Inv(c: Config, s: State)
  {
    Conserved(s) && Contents(c, s) && Written(c, s) && Channels(c, s)
  }

  lemma {:induction false} NothingHeld(ws: seq<Worker>, id: nat)
    requires forall i :: 0 <= i < |ws| ==> !ws[i].Processing? && !ws[i].Sending?
    ensures InHands(ws, id) == 0
  {
    if |ws| > 0 { NothingHeld(ws[..|ws| - 1], id); }
  }

  lemma InitialInv(c: Config, s: State)
    requires c.Valid() && Initial(c, s)
    ensures Inv(c, s)
  {
    OffsetsNone(c.env, c.settings);
    FlattenNone();
    assert s.blocks[..0] == [];
    forall id: nat ensures Copies(s, id) == 0 {
      NothingHeld(s.workers, id);
    }
  }

  /** Every action of every actor keeps the invariant. */
  lemma StepKeeps(c: Config, s: State, e: Event)
    requires Inv(c, s) && Enabled(c, s, e)
    ensures Inv(c, Step(c, s, e))
  {
    StepConserves(c, s, e);
    hide Conserved, Written, Channels, Contents, Step, Enabled;
    assert Inv(c, s);
    if e.Send? {
      SendContents(c, s, e);
    } else if ByWorker(e) {
      WorkerContents(c, s, e);
    } else {
      WriterContents(c, s, e);
    }
    if ByWorker(e) {
      WorkerChannels(c, s, e);
    } else {
      OtherChannels(c, s, e);
    }
    assert BlocksOk(c, Step(c, s, e).blocks) by { ContentsBlocks(c, Step(c, s, e)); }
    if e == WriteNext(None) {
      AppendWritten(c, s, e);
    } else if e.WriteNext? {
      TearWritten(c, s, e);
    } else {
      OthersWrite(c, s, e);
    }
  }

  /** The state after a schedule; an action that is not enabled waits its turn. */
  ghost function Run(c: Config, s: State, schedule: seq<Event>): (t: State)
    requires Inv(c, s)
    ensures Inv(c, t)
    decreases |schedule|
  {
    if |schedule| == 0 then s
    else if Enabled(c, s, schedule[0]) then
      StepKeeps(c, s, schedule[0]);
      Run(c, Step(c, s, schedule[0]), schedule[1..])
    else Run(c, s, schedule[1..])
  }

  /** In every interleaving and whatever fails, each block is in exactly one place, and what has been
    written is the in-order encoding of blocks 0 .. next - 1; after a failed write, and then only, the
    file goes on with a part of record `next`. */
  lemma EveryRun(c: Config, s: State, schedule: seq<Event>)
    requires c.Valid() && Initial(c, s)
    ensures Inv(c, s)
    ensures var t := Run(c, s, schedule);
      && (forall id: nat :: Copies(t, id) == One(id < |t.blocks|))
      && t.next <= |t.blocks| && NoneEmpty(t.blocks)
      && t.digests == (if c.settings.hashing then Digests(c.env, t.blocks[..t.next]) else [])
      && (if t.err.None? then InOrder(c, t) else t.outcome.Some? && Torn(c, t))
  {
    hide RecordsOf, OffsetsOf, Digests, Flatten, Channels, Copies, InOrder, Torn;
    InitialInv(c, s);
  }

  // ---------------------------------------------------------------- drained

  lemma NothingQueued(id: nat)
    ensures InQueue([], id) == 0 && InResults([], id) == 0 && InLost([], id) == 0
  {
  }

  /** The writer has ended and reports no error: everything sent has been written. */
  lemma DrainedComplete(c: Config, s: State)
    requires c.Valid() && Inv(c, s) && s.phase.Done? && s.outcome.None?
    ensures s.next == |s.blocks| && s.workClosed && |s.workCh| == 0
  {
    hide Contents, InQueue, InResults, InHands, InLost;
    assert s.workers[0].Left?;
    NothingHeld(s.workers, s.next);
    NothingQueued(s.next);
    assert Copies(s, s.next) == 0;
    assert Copies(s, s.next) == One(s.next < |s.blocks|);
  }

  /** What Finish makes of the drained pipeline. */
  ghost function Finished(c: Config, s: State, total: nat, appData: seq<byte>): Result<seq<byte>>
  {
    if total > MAX_UINT32 then Err(TooManyItems)
    else
      var offsets := s.offsets + [s.pos];
      match EncodedIndex(c.env.crc, offsets)
      case Err(e) => Err(e)
      case Ok(index) =>
        var hash := if c.settings.hashing then c.env.sha(s.digests) else NO_HASH;
        Ok(s.file + TailBytes(c.env, c.settings, |offsets| - 1, total, hash, index, appData))
  }

  /** The producer cuts the items exactly as the serial writer does. */
  lemma SentChunks(c: Config, blocks: seq<seq<Item>>)
    requires c.settings.Valid() && BlocksOk(c, blocks)
    ensures ChunksOf(Concat(blocks), c.settings.itemsPerRecord) == blocks
  {
    hide ChunksOf, Concat, Small;
    var k := c.settings.itemsPerRecord;
    if |blocks| == 0 {
      ChunksOfBlocks(blocks, [], k);
      assert Concat(blocks) + [] == Concat(blocks) && blocks + [] == blocks;
    } else {
      var full, last := blocks[..|blocks| - 1], blocks[|blocks| - 1];
      assert blocks == full + [last];
      ConcatSnoc(full, last);
      ChunksOfBlocks(full, last, k);
    }
  }

  lemma DrainedFile(c: Config, t: State, appData: seq<byte>)
    requires c.Valid() && Inv(c, t) && t.phase.Done? && t.outcome.None?
    ensures Finished(c, t, |Concat(t.blocks)|, appData) == FileOf(c.env, c.settings, Concat(t.blocks), appData)
  {
    hide RecordsOf, OffsetsOf, Digests, Flatten, Channels, Conserved, EncodedIndex, TailBytes, Concat, ChunksOf, NO_HASH,
      Contents, BlocksOk;
    DrainedComplete(c, t);
    assert t.blocks[..t.next] == t.blocks;
    ContentsBlocks(c, t);
    SentChunks(c, t.blocks);
  }

  /** The concurrent writer refines the serial one: whatever the interleaving, a drained pipeline
    that reports no error finishes to the very file the serial writer makes of the same items. */
  lemma SameFile(c: Config, s: State, schedule: seq<Event>, appData: seq<byte>)
    requires c.Valid() && Initial(c, s)
    ensures Inv(c, s)
    ensures var t := Run(c, s, schedule);
      t.phase.Done? && t.outcome.None? ==>
        Finished(c, t, |Concat(t.blocks)|, appData) == FileOf(c.env, c.settings, Concat(t.blocks), appData)
  {
    hide RecordsOf, OffsetsOf, Digests, Flatten, Channels, Conserved, EncodedIndex, TailBytes, Concat, ChunksOf, NO_HASH,
      Contents, Run, Initial, NoneEmpty;
    InitialInv(c, s);
    var t := Run(c, s, schedule);
    if t.phase.Done? && t.outcome.None? {
      DrainedFile(c, t, appData);
    }
  }

  // ---------------------------------------------------------------- progress

  /** Actions of the pipeline itself, not of the producer. */
  predicate Background(e: Event)
  {
    ByWorker(e) || ByWriter(e) || e.CloseResult?
  }

  /** No failure of the compressor or of the file. */
  predicate Harmless(e: Event)
  {
    !(e.Process? && e.fails) && !(e.WriteNext? && e.fault.Some?)
  }

  /** What the writer does next, if it can. */
  function WriterAction(s: State): Event
  {
    match s.phase
    case Writing => if s.next in s.pending then WriteNext(None) else Settle
    case Draining => if |s.resultCh| > 0 then Drain else End
    case _ => if |s.resultCh| > 0 then Receive else End
  }

  /** Until the pipeline has ended, a background action is enabled whenever the work channel is
    closed or full. */
  lemma SomeAction(c: Config, s: State) returns (e: Event)
    requires c.Valid() && Channels(c, s) && !s.phase.Done?
    requires s.workClosed || |s.workCh| == c.capacity
    ensures Enabled(c, s, e) && Background(e) && Harmless(e)
  {
    e := WriterAction(s);
    if !Enabled(c, s, e) {
      if w :| 0 <= w < |s.workers| && !s.workers[w].Left? && !s.workers[w].Broken? {
        match s.workers[w]
        case Idle => e := if |s.workCh| > 0 then Take(w) else Leave(w);
        case Processing(_) => e := Process(w, false);
        case Sending(_) => e := SendResult(w);
      } else {
        e := CloseResult;
      }
    }
  }

  ghost predicate AllBroken(workers: seq<Worker>)
  {
    forall i :: 0 <= i < |workers| ==> workers[i].Broken?
  }

  /** The producer waits to send a full block and no action of the pipeline will ever make room. It has
    not been told of any error. */
  ghost predicate Hangs(c: Config, s: State)
  {
    && !s.workClosed && |s.workCh| == c.capacity && s.err.None?
    && (forall b :: b in s.blocks ==> |b| == c.settings.itemsPerRecord)
    && (forall e :: Background(e) ==> !Enabled(c, s, e))
  }

  /** Finish waits to send its last, partial block and no action of the pipeline will ever make room. It has
    not been told of any error, and has not come to close the channel. */
  ghost predicate FinishHangs(c: Config, s: State, chunk: seq<Item>)
  {
    && 0 < |chunk| < c.settings.itemsPerRecord && Small(chunk)
    && !s.workClosed && s.err.None? && (forall b :: b in s.blocks ==> |b| == c.settings.itemsPerRecord)
    && !Enabled(c, s, Send(chunk))
    && (forall e :: Background(e) ==> !Enabled(c, s, e))
  }

  /** The two ways to wait forever meet the same pipeline. */
  lemma SameHang(c: Config, s: State, chunk: seq<Item>)
    requires Channels(c, s)
    ensures FinishHangs(c, s, chunk)
      <==> Hangs(c, s) && 0 < |chunk| < c.settings.itemsPerRecord && Small(chunk)
  {
    hide Small, WorkOf;
  }

  /** With the work channel full and open, no action is left exactly when every worker has returned
    after a format error and the writer has ended. */
  lemma NothingLeft(c: Config, s: State)
    requires c.Valid() && Channels(c, s) && !s.workClosed && |s.workCh| == c.capacity
    ensures (forall e :: Background(e) ==> !Enabled(c, s, e)) <==> AllBroken(s.workers) && s.phase.Done?
  {
    if !s.phase.Done? {
      var e := SomeAction(c, s);
      assert Background(e) && Enabled(c, s, e);
    }
  }

  function Rank(w: Worker): nat
  {
    match w
    case Idle => 1
    case Processing(_) => 8
    case Sending(_) => 7
    case _ => 0
  }

  ghost function Ranks(ws: seq<Worker>): nat
  {
    if |ws| == 0 then 0 else Ranks(ws[..|ws| - 1]) + Rank(ws[|ws| - 1])
  }

  lemma {:induction false} RanksUpdate(ws: seq<Worker>, w: nat, x: Worker)
    requires w < |ws|
    ensures Ranks(ws[w := x]) == Ranks(ws) - Rank(ws[w]) + Rank(x)
  {
    hide Rank;
    var m := |ws| - 1;
    assert ws[w := x][m] == if w == m then x else ws[m];
    if w == m {
      assert ws[w := x][..m] == ws[..m];
    } else {
      assert ws[w := x][..m] == ws[..m][w := x];
      RanksUpdate(ws[..m], w, x);
    }
  }

  function PhaseRank(p: Phase): nat
  {
    match p
    case Receiving => 1
    case Writing => 2
    case Draining => 1
    case Done => 0
  }

  /** Work left in the pipeline. */
  ghost function WorkLeft(s: State): nat
  {
    8 * |s.workCh| + Ranks(s.workers) + 5 * |s.resultCh| + 2 * |s.pending| + PhaseRank(s.phase) + One(!s.resultClosed)
  }

  lemma PendingShrinks(pending: map<nat, BlockResult>, id: nat)
    requires id in pending
    ensures |pending - {id}| + 1 == |pending|
  {
    assert (pending - {id})[id := pending[id]] == pending;
  }

  lemma PendingGrows(pending: map<nat, BlockResult>, r: BlockResult)
    ensures |pending[r.id := r]| <= |pending| + 1
  {
    if r.id in pending { assert pending[r.id := r].Keys == pending.Keys; }
  }

  lemma WriteWorks(c: Config, s: State, e: Event)
    requires Enabled(c, s, e) && e.WriteNext?
    ensures WorkLeft(Step(c, s, e)) < WorkLeft(s)
  {
    hide Ranks;
    PendingShrinks(s.pending, s.next);
  }

  /** Every background action reduces the work left. */
  lemma StepWorks(c: Config, s: State, e: Event)
    requires Enabled(c, s, e) && Background(e)
    ensures WorkLeft(Step(c, s, e)) < WorkLeft(s)
  {
    hide Ranks, Processed;
    if ByWorker(e) {
      RanksUpdate(s.workers, e.w, Step(c, s, e).workers[e.w]);
    } else if e.WriteNext? {
      WriteWorks(c, s, e);
    } else if e.Receive? {
      PendingGrows(s.pending, s.resultCh[0]);
    }
  }

  /** Nothing has failed so far. */
  ghost predicate Healthy(s: State)
  {
    && s.outcome.None? && !FailureComing(s)
    && (forall i :: 0 <= i < |s.workers| ==>
          !s.workers[i].Broken? && (s.workers[i].Sending? ==> s.workers[i].result.error.None?))
  }

  lemma HealthyStep(c: Config, s: State, e: Event)
    requires Healthy(s) && Enabled(c, s, e) && Harmless(e)
    ensures Healthy(Step(c, s, e))
  {
    hide WorkOf, Small, FormatPayload, FramedBySizes;
    var t := Step(c, s, e);
    forall i | 0 <= i < |t.resultCh| ensures t.resultCh[i].error.None? {
      if e.Receive? || e.Drain? {
        assert t.resultCh[i] == s.resultCh[i + 1];
      }
    }
  }

  /** A schedule of background actions, failing ones included, each enabled when its turn comes. */
  ghost predicate Active(c: Config, s: State, schedule: seq<Event>)
    requires Inv(c, s)
    decreases |schedule|
  {
    |schedule| > 0 ==>
      && Enabled(c, s, schedule[0]) && Background(schedule[0])
      && (StepKeeps(c, s, schedule[0]); Active(c, Step(c, s, schedule[0]), schedule[1..]))
  }

  lemma InvChannels(c: Config, s: State)
    requires Inv(c, s)
    ensures Channels(c, s)
  {
  }

  /** Background actions do not send and do not close the work channel. */
  lemma BackgroundSends(c: Config, s: State, e: Event)
    requires Enabled(c, s, e) && Background(e)
    ensures Step(c, s, e).workClosed == s.workClosed && Step(c, s, e).blocks == s.blocks
  {
    hide Processed;
  }

  /** The pipeline has ended, or can go on, or the work channel is open and has room. */
  ghost predicate GoesOn(c: Config, s: State)
  {
    || s.phase.Done?
    || (exists e :: Enabled(c, s, e) && Background(e) && Harmless(e))
    || (!s.workClosed && |s.workCh| < c.capacity)
  }

  lemma AnyGoesOn(c: Config, s: State)
    requires c.Valid() && Channels(c, s)
    ensures GoesOn(c, s)
  {
    if !s.phase.Done? && (s.workClosed || |s.workCh| == c.capacity) {
      var e := SomeAction(c, s);
    }
  }

  /** Whatever fails, only so many actions can follow until the producer acts again: the work left bounds
    them. When none is left the pipeline has ended, or the work channel is open and has room. */
  lemma {:induction false} ActiveEnds(c: Config, s: State, schedule: seq<Event>)
    requires c.Valid() && Inv(c, s) && Active(c, s, schedule)
    ensures |schedule| <= WorkLeft(s)
    ensures var t := Run(c, s, schedule);
      t.blocks == s.blocks && t.workClosed == s.workClosed && GoesOn(c, t)
    decreases |schedule|
  {
    hide Inv, WorkLeft, Enabled, Step, GoesOn;
    if |schedule| == 0 {
      InvChannels(c, s);
      AnyGoesOn(c, s);
    } else {
      var e := schedule[0];
      StepKeeps(c, s, e);
      StepWorks(c, s, e);
      BackgroundSends(c, s, e);
      ActiveEnds(c, Step(c, s, e), schedule[1..]);
    }
  }

  /** Once the work channel is closed the pipeline always ends, whatever fails: the work left bounds the
    number of actions, and until the end there is one more to take. Without a reported error the end means
    that every block has been written. */
  lemma DrainEnds(c: Config, s: State, schedule: seq<Event>)
    requires c.Valid() && Inv(c, s) && s.workClosed && Active(c, s, schedule)
    ensures |schedule| <= WorkLeft(s)
    ensures var t := Run(c, s, schedule);
      && t.blocks == s.blocks && t.workClosed
      && (t.phase.Done? && t.outcome.None? ==> t.next == |s.blocks|)
      && (!t.phase.Done? ==> exists e :: Enabled(c, t, e) && Background(e) && Harmless(e))
  {
    hide Inv, WorkLeft, Run, Active, Enabled;
    ActiveEnds(c, s, schedule);
    var t := Run(c, s, schedule);
    if t.phase.Done? && t.outcome.None? {
      DrainedComplete(c, t);
    }
  }

  lemma CloseSame(c: Config, s: State)
    requires !s.workClosed
    ensures Enabled(c, s, CloseWork)
    ensures var t := Step(c, s, CloseWork); t.workClosed && t.blocks == s.blocks && WorkLeft(t) == WorkLeft(s)
  {
    hide Ranks;
  }

  /** Close, in any state, and Finish, once its last block has been sent or there was none: the channel is
    closed, and what they then wait for comes. */
  lemma CloseEnds(c: Config, s: State, schedule: seq<Event>)
    requires c.Valid() && Inv(c, s) && !s.workClosed
    ensures Enabled(c, s, CloseWork) && Inv(c, Step(c, s, CloseWork))
    ensures Active(c, Step(c, s, CloseWork), schedule) ==>
      var t := Run(c, Step(c, s, CloseWork), schedule);
      && |schedule| <= WorkLeft(s)
      && (t.phase.Done? && t.outcome.None? ==> t.next == |s.blocks|)
      && (!t.phase.Done? ==> exists e :: Enabled(c, t, e) && Background(e) && Harmless(e))
  {
    hide Inv, WorkLeft, Run, Active, Step;
    CloseSame(c, s);
    hide Enabled;
    StepKeeps(c, s, CloseWork);
    if Active(c, Step(c, s, CloseWork), schedule) {
      DrainEnds(c, Step(c, s, CloseWork), schedule);
    }
  }

  /** A pipeline in which nothing fails reports no error. */
  lemma {:induction false} HealthyRun(c: Config, s: State, schedule: seq<Event>)
    requires Inv(c, s) && Healthy(s) && forall i :: 0 <= i < |schedule| ==> Harmless(schedule[i])
    ensures Healthy(Run(c, s, schedule))
    decreases |schedule|
  {
    hide Inv, Enabled, Step, Healthy, Harmless;
    if |schedule| > 0 {
      if Enabled(c, s, schedule[0]) {
        StepKeeps(c, s, schedule[0]);
        HealthyStep(c, s, schedule[0]);
        HealthyRun(c, Step(c, s, schedule[0]), schedule[1..]);
      } else {
        HealthyRun(c, s, schedule[1..]);
      }
    }
  }

  // ---------------------------------------------------------------- a producer that hangs

  lemma {:induction false} RunSnoc(c: Config, s: State, schedule: seq<Event>, e: Event)
    requires Inv(c, s) && Enabled(c, Run(c, s, schedule), e)
    ensures Run(c, s, schedule + [e]) == Step(c, Run(c, s, schedule), e)
    decreases |schedule|
  {
    hide Inv, Enabled, Step;
    if |schedule| == 0 {
      assert schedule + [e] == [e] && [e][1..] == [];
    } else {
      assert (schedule + [e])[1..] == schedule[1..] + [e];
      if Enabled(c, s, schedule[0]) {
        StepKeeps(c, s, schedule[0]);
        RunSnoc(c, Step(c, s, schedule[0]), schedule[1..], e);
      } else {
        RunSnoc(c, s, schedule[1..], e);
      }
    }
  }

  /** Some schedule leads from s to t. */
  ghost predicate Reaches(c: Config, s: State, t: State)
    requires Inv(c, s)
  {
    exists schedule :: Run(c, s, schedule) == t
  }

  lemma ReachesNext(c: Config, s: State, t: State, e: Event)
    requires Inv(c, s) && Reaches(c, s, t) && Enabled(c, t, e)
    ensures Reaches(c, s, Step(c, t, e))
  {
    hide Inv, Enabled, Step;
    var schedule :| Run(c, s, schedule) == t;
    RunSnoc(c, s, schedule, e);
  }

  function Repeat<T>(x: T, n: nat): (r: seq<T>)
    ensures |r| == n
  {
    seq(n, _ => x)
  }

  function FailedBlocks(n: nat): (r: seq<BlockResult>)
    ensures |r| == n
  {
    seq(n, i requires 0 <= i < n => BlockResult(i, [], None, Some(Zstd)))
  }

  function Ids(n: nat): (r: seq<nat>)
    ensures |r| == n
  {
    if n == 0 then [] else Ids(n - 1) + [n - 1]
  }

  /** The first n workers have each taken one block, failed and returned; the writer has not looked yet. */
  ghost function Failing(c: Config, chunk: seq<Item>, n: nat): State
    requires n <= c.capacity
  {
    State(Repeat(chunk, n), [], false, Repeat(Broken, n) + Repeat(Idle, c.capacity - n), FailedBlocks(n), false,
          Receiving, map[], 0, [], 0, [], [], None, None, [])
  }

  /** The writer has reported the first failure and dropped n results. */
  ghost function Dropping(c: Config, chunk: seq<Item>, n: nat): State
    requires n <= c.capacity
  {
    State(Repeat(chunk, c.capacity), [], false, Repeat(Broken, c.capacity), FailedBlocks(c.capacity)[n..], false,
          Draining, map[], 0, [], 0, [], [], Some(Zstd), None, Ids(n))
  }

  ghost function Queue(c: Config, chunk: seq<Item>, n: nat): (q: seq<Work>)
    requires |chunk| > 0
    ensures |q| == n
  {
    seq(n, i requires 0 <= i < n => WorkOf(c, c.capacity + i, chunk))
  }

  /** The writer has ended, and the producer has sent n more blocks. */
  ghost function Refilled(c: Config, chunk: seq<Item>, n: nat): State
    requires |chunk| > 0
  {
    State(Repeat(chunk, c.capacity + n), Queue(c, chunk, n), false, Repeat(Broken, c.capacity), [], true,
          Done, map[], 0, [], 0, [], [], Some(Zstd), None, Ids(c.capacity))
  }

  /** The settings and a block on which compressors can fail. */
  ghost predicate CanFail(c: Config, chunk: seq<Item>)
  {
    && c.Valid() && c.settings.format.Compressed?
    && |chunk| == c.settings.itemsPerRecord && Small(chunk) && |Flatten(chunk)| > 0
  }

  lemma ReachesSelf(c: Config, s: State)
    requires Inv(c, s)
    ensures Reaches(c, s, s)
  {
    assert Run(c, s, []) == s;
  }

  /** Worker n is in state w after the next block has been sent; the others are as in Failing. */
  ghost function Midway(c: Config, chunk: seq<Item>, n: nat, w: Worker, queue: seq<Work>): State
    requires n < c.capacity
  {
    State(Repeat(chunk, n + 1), queue, false, (Repeat(Broken, n) + [w]) + Repeat(Idle, c.capacity - n - 1), FailedBlocks(n),
          false, Receiving, map[], 0, [], 0, [], [], None, None, [])
  }

  lemma SendNext(c: Config, chunk: seq<Item>, n: nat)
    requires CanFail(c, chunk) && n < c.capacity
    ensures Enabled(c, Failing(c, chunk, n), Send(chunk))
    ensures Step(c, Failing(c, chunk, n), Send(chunk)) == Midway(c, chunk, n, Idle, [WorkOf(c, n, chunk)])
  {
    hide Flatten, Small, WorkOf;
    var t, m := Step(c, Failing(c, chunk, n), Send(chunk)), Midway(c, chunk, n, Idle, [WorkOf(c, n, chunk)]);
    assert t.blocks == m.blocks && t.workers == m.workers;
  }

  lemma MidwayWorker(c: Config, chunk: seq<Item>, n: nat, w: Worker, queue: seq<Work>, x: Worker)
    requires n < c.capacity
    ensures Midway(c, chunk, n, w, queue).workers[n] == w && |Midway(c, chunk, n, w, queue).workers| == c.capacity
    ensures Midway(c, chunk, n, w, queue).workers[n := x] == Midway(c, chunk, n, x, queue).workers
    ensures Midway(c, chunk, n, Broken, []).workers == Failing(c, chunk, n + 1).workers
  {
  }

  lemma FailedNext(n: nat)
    ensures FailedBlocks(n) + [BlockResult(n, [], None, Some(Zstd))] == FailedBlocks(n + 1)
  {
  }

  lemma TakeNext(c: Config, chunk: seq<Item>, n: nat)
    requires CanFail(c, chunk) && n < c.capacity
    ensures var work := WorkOf(c, n, chunk);
      var t := Midway(c, chunk, n, Idle, [work]);
      Enabled(c, t, Take(n)) && Step(c, t, Take(n)) == Midway(c, chunk, n, Processing(work), [])
  {
    hide Flatten, Small, WorkOf, Repeat, FailedBlocks;
    var work := WorkOf(c, n, chunk);
    MidwayWorker(c, chunk, n, Idle, [work], Processing(work));
    assert [work][1..] == [];
  }

  lemma FailNext(c: Config, chunk: seq<Item>, n: nat)
    requires CanFail(c, chunk) && n < c.capacity
    ensures var work, r := WorkOf(c, n, chunk), BlockResult(n, [], None, Some(Zstd));
      var t := Midway(c, chunk, n, Processing(work), []);
      Enabled(c, t, Process(n, true)) && Step(c, t, Process(n, true)) == Midway(c, chunk, n, Sending(r), [])
  {
    var work, r := WorkOf(c, n, chunk), BlockResult(n, [], None, Some(Zstd));
    assert MayFail(c, work) && Processed(c, work, true) == r;
    hide Flatten, Small, WorkOf, MayFail, Repeat, FailedBlocks, Processed;
    MidwayWorker(c, chunk, n, Processing(work), [], Sending(r));
  }

  lemma LeaveNext(c: Config, chunk: seq<Item>, n: nat)
    requires n < c.capacity
    ensures var t := Midway(c, chunk, n, Sending(BlockResult(n, [], None, Some(Zstd))), []);
      Enabled(c, t, SendResult(n)) && Step(c, t, SendResult(n)) == Failing(c, chunk, n + 1)
  {
    hide Repeat, FailedBlocks;
    MidwayWorker(c, chunk, n, Sending(BlockResult(n, [], None, Some(Zstd))), [], Broken);
    FailedNext(n);
  }

  /** One more worker takes a block, fails and returns. */
  lemma FailOne(c: Config, s: State, chunk: seq<Item>, n: nat)
    requires CanFail(c, chunk) && Inv(c, s) && n < c.capacity
    requires Reaches(c, s, Failing(c, chunk, n))
    ensures Reaches(c, s, Failing(c, chunk, n + 1))
  {
    assert |chunk| > 0;
    hide Inv, Run, Reaches, CanFail, Enabled, Step, Failing, Midway;
    var work := WorkOf(c, n, chunk);
    SendNext(c, chunk, n);
    ReachesNext(c, s, Failing(c, chunk, n), Send(chunk));
    TakeNext(c, chunk, n);
    FailNext(c, chunk, n);
    LeaveNext(c, chunk, n);
    ReachesNext(c, s, Midway(c, chunk, n, Idle, [work]), Take(n));
    ReachesNext(c, s, Midway(c, chunk, n, Processing(work), []), Process(n, true));
    ReachesNext(c, s, Midway(c, chunk, n, Sending(BlockResult(n, [], None, Some(Zstd))), []), SendResult(n));
  }

  lemma {:induction false} ReachFailing(c: Config, s: State, chunk: seq<Item>, n: nat)
    requires CanFail(c, chunk) && Initial(c, s) && Inv(c, s) && n <= c.capacity
    ensures Reaches(c, s, Failing(c, chunk, n))
  {
    hide Inv, Run;
    if n == 0 {
      assert s == Failing(c, chunk, 0);
      ReachesSelf(c, s);
    } else {
      ReachFailing(c, s, chunk, n - 1);
      FailOne(c, s, chunk, n - 1);
    }
  }

  lemma {:induction false} ReachDropping(c: Config, s: State, chunk: seq<Item>, n: nat)
    requires CanFail(c, chunk) && Initial(c, s) && Inv(c, s) && 0 < n <= c.capacity
    ensures Reaches(c, s, Dropping(c, chunk, n))
  {
    hide Inv, Run, Reaches, Initial;
    if n == 1 {
      ReachFailing(c, s, chunk, c.capacity);
      var t := Failing(c, chunk, c.capacity);
      ReachesNext(c, s, t, Receive);
      assert Step(c, t, Receive).workers == Dropping(c, chunk, 1).workers;
      assert Step(c, t, Receive).lost == Dropping(c, chunk, 1).lost;
    } else {
      ReachDropping(c, s, chunk, n - 1);
      var t := Dropping(c, chunk, n - 1);
      ReachesNext(c, s, t, Drain);
      assert Step(c, t, Drain).resultCh == Dropping(c, chunk, n).resultCh;
      assert Step(c, t, Drain).lost == Dropping(c, chunk, n).lost;
    }
  }

  lemma {:induction false} ReachRefilled(c: Config, s: State, chunk: seq<Item>, n: nat)
    requires CanFail(c, chunk) && Initial(c, s) && Inv(c, s) && n <= c.capacity
    ensures Reaches(c, s, Refilled(c, chunk, n))
  {
    hide Inv, Run, Reaches, Initial, WorkOf;
    if n == 0 {
      ReachDropping(c, s, chunk, c.capacity);
      var t := Dropping(c, chunk, c.capacity);
      ReachesNext(c, s, t, CloseResult);
      ReachesNext(c, s, Step(c, t, CloseResult), End);
      assert Step(c, Step(c, t, CloseResult), End) == Refilled(c, chunk, 0);
    } else {
      ReachRefilled(c, s, chunk, n - 1);
      var t := Refilled(c, chunk, n - 1);
      ReachesNext(c, s, t, Send(chunk));
      assert Step(c, t, Send(chunk)).blocks == Refilled(c, chunk, n).blocks;
      assert Step(c, t, Send(chunk)).workCh == Refilled(c, chunk, n).workCh;
    }
  }

  /** A block of one-byte items. */
  lemma SomeBlock(k: nat) returns (chunk: seq<Item>)
    requires k > 0
    ensures |chunk| == k && Small(chunk) && |Flatten(chunk)| > 0
  {
    chunk := Repeat([0], k);
    assert chunk == chunk[..k - 1] + [[0]];
    FlattenSnoc(chunk[..k - 1], [0]);
  }

  // ---------------------------------------------------------------- failed workers

  predicate HasFailed(w: Worker)
  {
    w.Broken? || (w.Sending? && w.result.error.Some?)
  }

  ghost function FailedWorkers(ws: seq<Worker>): nat
  {
    if |ws| == 0 then 0 else FailedWorkers(ws[..|ws| - 1]) + One(HasFailed(ws[|ws| - 1]))
  }

  lemma {:induction false} FailedUpdate(ws: seq<Worker>, w: nat, x: Worker)
    requires w < |ws|
    ensures FailedWorkers(ws[w := x]) == FailedWorkers(ws) - One(HasFailed(ws[w])) + One(HasFailed(x))
  {
    hide HasFailed;
    var m := |ws| - 1;
    assert ws[w := x][m] == if w == m then x else ws[m];
    if w == m {
      assert ws[w := x][..m] == ws[..m];
    } else {
      assert ws[w := x][..m] == ws[..m][w := x];
      FailedUpdate(ws[..m], w, x);
    }
  }

  lemma {:induction false} AllFailed(ws: seq<Worker>)
    requires AllBroken(ws)
    ensures FailedWorkers(ws) == |ws|
  {
    if |ws| > 0 { AllFailed(ws[..|ws| - 1]); }
  }

  lemma {:induction false} NoneFailed(ws: seq<Worker>)
    requires forall i :: 0 <= i < |ws| ==> ws[i].Idle?
    ensures FailedWorkers(ws) == 0
  {
    if |ws| > 0 { NoneFailed(ws[..|ws| - 1]); }
  }

  /** How often the schedule makes a compressor fail. */
  ghost function Failures(schedule: seq<Event>): nat
  {
    if |schedule| == 0 then 0
    else One(schedule[0].Process? && schedule[0].fails) + Failures(schedule[1..])
  }

  lemma FailedStep(c: Config, s: State, e: Event)
    requires Enabled(c, s, e)
    ensures FailedWorkers(Step(c, s, e).workers)
      <= FailedWorkers(s.workers) + One(e.Process? && e.fails && c.settings.format.Compressed?)
  {
    hide FailedWorkers;
    if ByWorker(e) {
      FailedUpdate(s.workers, e.w, Step(c, s, e).workers[e.w]);
    }
  }

  lemma {:induction false} FailedBound(c: Config, s: State, schedule: seq<Event>)
    requires Inv(c, s)
    ensures FailedWorkers(Run(c, s, schedule).workers)
      <= FailedWorkers(s.workers) + if c.settings.format.Compressed? then Failures(schedule) else 0
    decreases |schedule|
  {
    hide Inv, Enabled, Step, FailedWorkers;
    if |schedule| > 0 {
      if Enabled(c, s, schedule[0]) {
        StepKeeps(c, s, schedule[0]);
        FailedStep(c, s, schedule[0]);
        FailedBound(c, Step(c, s, schedule[0]), schedule[1..]);
      } else {
        FailedBound(c, s, schedule[1..]);
      }
    }
  }

  /** Neither AppendItem nor Finish waits forever while fewer compressors have failed than there are
    workers, nor ever in a format that does not compress. */
  lemma NoHang(c: Config, s: State, schedule: seq<Event>)
    requires c.Valid() && Initial(c, s)
    ensures Inv(c, s)
    ensures !c.settings.format.Compressed? || Failures(schedule) < c.capacity ==>
      !Hangs(c, Run(c, s, schedule)) && forall chunk :: !FinishHangs(c, Run(c, s, schedule), chunk)
  {
    InitialInv(c, s);
    var t := Run(c, s, schedule);
    hide Inv, Run, Enabled, FinishHangs;
    InvChannels(c, t);
    FailedBound(c, s, schedule);
    NoneFailed(s.workers);
    forall chunk ensures FinishHangs(c, t, chunk) ==> Hangs(c, t) {
      SameHang(c, t, chunk);
    }
    if Hangs(c, t) {
      NothingLeft(c, t);
      AllFailed(t.workers);
    }
  }

  lemma RefilledHangs(c: Config, chunk: seq<Item>)
    requires CanFail(c, chunk)
    ensures Hangs(c, Refilled(c, chunk, c.capacity))
  {
    hide Flatten, Small, WorkOf;
  }

  lemma HangSchedule(c: Config, s: State) returns (schedule: seq<Event>)
    requires c.Valid() && Initial(c, s) && Inv(c, s) && c.settings.format.Compressed?
    ensures Hangs(c, Run(c, s, schedule))
  {
    hide Inv, Run, Hangs, Initial, Flatten, Small;
    var chunk := SomeBlock(c.settings.itemsPerRecord);
    ReachRefilled(c, s, chunk, c.capacity);
    RefilledHangs(c, chunk);
    schedule :| Run(c, s, schedule) == Refilled(c, chunk, c.capacity);
  }

  /** A send that never returns is possible exactly in the Compressed format, for every number of workers
    and every record size. */
  lemma SendCanHang(c: Config, s: State)
    requires c.Valid() && Initial(c, s)
    ensures Inv(c, s)
    ensures (exists schedule :: Hangs(c, Run(c, s, schedule))) <==> c.settings.format.Compressed?
  {
    InitialInv(c, s);
    hide Inv, Run, Hangs, Initial;
    if c.settings.format.Compressed? {
      var schedule := HangSchedule(c, s);
    } else {
      forall schedule ensures !Hangs(c, Run(c, s, schedule)) {
        NoHang(c, s, schedule);
      }
    }
  }

  /** A Finish that never returns, because it waits to send a partial record, is possible exactly in the Compressed
    format with more than one item for each record. */
  lemma FinishCanHang(c: Config, s: State)
    requires c.Valid() && Initial(c, s)
    ensures Inv(c, s)
    ensures (exists schedule, chunk :: FinishHangs(c, Run(c, s, schedule), chunk))
      <==> c.settings.format.Compressed? && c.settings.itemsPerRecord > 1
  {
    InitialInv(c, s);
    hide Inv, Run, Hangs, FinishHangs, Initial, Flatten;
    if c.settings.format.Compressed? && c.settings.itemsPerRecord > 1 {
      var schedule := HangSchedule(c, s);
      var chunk := SomeBlock(1);
      InvChannels(c, Run(c, s, schedule));
      SameHang(c, Run(c, s, schedule), chunk);
    } else {
      forall schedule, chunk ensures !FinishHangs(c, Run(c, s, schedule), chunk) {
        NoHang(c, s, schedule);
        InvChannels(c, Run(c, s, schedule));
        SameHang(c, Run(c, s, schedule), chunk);
      }
    }
  }

  // ---------------------------------------------------------------- failures are reported

  /** A failure has been reported, or is on its way. */
  ghost predicate FailureSeen(s: State)
  {
    s.outcome.Some? || FailureComing(s) || exists i :: 0 <= i < |s.workers| && HasFailed(s.workers[i])
  }

  /** The compressor or a write of the file fails. */
  predicate Fails(e: Event)
  {
    (e.Process? && e.fails) || (e.WriteNext? && e.fault.Some?)
  }

  lemma WorkerSees(c: Config, s: State, e: Event)
    requires Enabled(c, s, e) && ByWorker(e) && (FailureSeen(s) || Fails(e))
    ensures FailureSeen(Step(c, s, e))
  {
    hide WorkOf, FormatPayload, FramedBySizes;
    var t := Step(c, s, e);
    if FailureComing(s) {
      var i :| 0 <= i < |s.resultCh| && s.resultCh[i].error.Some?;
      assert t.resultCh[i] == s.resultCh[i];
    }
    if e.SendResult? {
      assert t.resultCh[|s.resultCh|] == s.workers[e.w].result;
    }
    if i :| 0 <= i < |s.workers| && HasFailed(s.workers[i]) {
      if i != e.w { assert HasFailed(t.workers[i]); } else { assert e.SendResult? ==> FailureComing(t); }
    }
    if Fails(e) {
      assert HasFailed(t.workers[e.w]);
    }
  }

  lemma OthersSee(c: Config, s: State, e: Event)
    requires Channels(c, s) && Enabled(c, s, e) && !ByWorker(e) && (FailureSeen(s) || Fails(e))
    ensures FailureSeen(Step(c, s, e))
  {
    hide WorkOf, Small;
    var t := Step(c, s, e);
    if FailureComing(s) && t.outcome.None? {
      var i :| 0 <= i < |s.resultCh| && s.resultCh[i].error.Some?;
      if e.Receive? { assert t.resultCh[i - 1] == s.resultCh[i]; } else { assert t.resultCh == s.resultCh; }
    }
    if i :| 0 <= i < |s.workers| && HasFailed(s.workers[i]) {
      assert HasFailed(t.workers[i]);
    }
  }

  lemma SeenStep(c: Config, s: State, e: Event)
    requires Inv(c, s) && Enabled(c, s, e) && (FailureSeen(s) || Fails(e))
    ensures FailureSeen(Step(c, s, e))
  {
    InvChannels(c, s);
    hide Inv, Enabled, Step, Channels, FailureSeen, Fails;
    if ByWorker(e) { WorkerSees(c, s, e); } else { OthersSee(c, s, e); }
  }

  lemma {:induction false} SeenRun(c: Config, s: State, schedule: seq<Event>)
    requires Inv(c, s) && FailureSeen(s)
    ensures FailureSeen(Run(c, s, schedule))
    decreases |schedule|
  {
    hide Inv, Enabled, Step, FailureSeen;
    if |schedule| > 0 {
      if Enabled(c, s, schedule[0]) {
        StepKeeps(c, s, schedule[0]);
        SeenStep(c, s, schedule[0]);
        SeenRun(c, Step(c, s, schedule[0]), schedule[1..]);
      } else {
        SeenRun(c, s, schedule[1..]);
      }
    }
  }

  lemma {:induction false} RunSplit(c: Config, s: State, schedule: seq<Event>, i: nat)
    requires Inv(c, s) && i <= |schedule|
    ensures Run(c, s, schedule) == Run(c, Run(c, s, schedule[..i]), schedule[i..])
    decreases i
  {
    hide Inv, Enabled, Step;
    if i == 0 {
      assert schedule[..0] == [] && schedule[0..] == schedule;
    } else {
      var rest := schedule[1..];
      assert schedule[..i][0] == schedule[0] && schedule[..i][1..] == rest[..i - 1] && rest[i - 1..] == schedule[i..];
      if Enabled(c, s, schedule[0]) {
        StepKeeps(c, s, schedule[0]);
        RunSplit(c, Step(c, s, schedule[0]), rest, i - 1);
      } else {
        RunSplit(c, s, rest, i - 1);
      }
    }
  }

  lemma DoneSeen(c: Config, s: State)
    requires Channels(c, s) && s.phase.Done? && FailureSeen(s)
    ensures s.outcome.Some?
  {
  }

  /** A compressor or a write that fails during a run is never dropped: once the writer has ended it has
    reported an error. */
  lemma FailureReported(c: Config, s: State, schedule: seq<Event>, i: nat)
    requires c.Valid() && Initial(c, s) && i < |schedule| && Fails(schedule[i])
    ensures Inv(c, s)
    ensures Enabled(c, Run(c, s, schedule[..i]), schedule[i]) && Run(c, s, schedule).phase.Done? ==>
      Run(c, s, schedule).outcome.Some?
  {
    InitialInv(c, s);
    var u := Run(c, s, schedule[..i]);
    hide Inv, Enabled, Step, FailureSeen, Initial;
    if Enabled(c, u, schedule[i]) {
      RunSplit(c, s, schedule, i);
      StepKeeps(c, u, schedule[i]);
      SeenStep(c, u, schedule[i]);
      var rest := schedule[i..];
      assert rest[0] == schedule[i];
      SeenRun(c, Step(c, u, rest[0]), rest[1..]);
      InvChannels(c, Run(c, s, schedule));
      if Run(c, s, schedule).phase.Done? {
        DoneSeen(c, Run(c, s, schedule));
      }
    }
  }

  /** Which error is reported: the compressor's, or that of the failed write, which AppendItem sees as well. */
  ghost predicate Kinds(s: State)
  {
    && s.outcome in {None, Some(Io), Some(Zstd)} && s.err in {None, Some(Io)}
    && (s.err.Some? <==> s.outcome == Some(Io))
    && (forall i :: 0 <= i < |s.resultCh| ==> s.resultCh[i].error in {None, Some(Zstd)})
    && (forall i :: 0 <= i < |s.workers| && s.workers[i].Sending? ==> s.workers[i].result.error in {None, Some(Zstd)})
  }

  lemma KindsStep(c: Config, s: State, e: Event)
    requires Channels(c, s) && Enabled(c, s, e) && Kinds(s)
    ensures Kinds(Step(c, s, e))
    ensures Step(c, s, e).err.Some? && s.err.None? ==> e.WriteNext? && e.fault.Some?
  {
    hide WorkOf, FormatPayload, FramedBySizes, Small;
  }

  /** Some write of the schedule fails. */
  predicate WriteFails(schedule: seq<Event>)
  {
    exists i :: 0 <= i < |schedule| && schedule[i].WriteNext? && schedule[i].fault.Some?
  }

  lemma {:induction false} KindsRun(c: Config, s: State, schedule: seq<Event>)
    requires Inv(c, s) && Kinds(s)
    ensures Kinds(Run(c, s, schedule)) && (Run(c, s, schedule).err.Some? ==> s.err.Some? || WriteFails(schedule))
    decreases |schedule|
  {
    hide Inv, Enabled, Step, Kinds;
    if |schedule| > 0 {
      var rest := schedule[1..];
      if Enabled(c, s, schedule[0]) {
        StepKeeps(c, s, schedule[0]);
        InvChannels(c, s);
        KindsStep(c, s, schedule[0]);
        KindsRun(c, Step(c, s, schedule[0]), rest);
      } else {
        KindsRun(c, s, rest);
      }
      if WriteFails(rest) {
        var i :| 0 <= i < |rest| && rest[i].WriteNext? && rest[i].fault.Some?;
        assert schedule[i + 1] == rest[i];
      }
    }
  }

  /** The error reported is that of a failed write of the run, which AppendItem sees as well, or a
    compressor's, which it does not see. */
  lemma ReportedError(c: Config, s: State, schedule: seq<Event>)
    requires c.Valid() && Initial(c, s)
    ensures Inv(c, s)
    ensures var t := Run(c, s, schedule);
      && (t.err.Some? <==> t.outcome == Some(Io)) && (t.err.Some? ==> t.err == Some(Io))
      && (t.outcome == Some(Io) ==> WriteFails(schedule))
      && (t.outcome.Some? && t.outcome != Some(Io) ==> t.outcome == Some(Zstd))
  {
    InitialInv(c, s);
    assert Kinds(s);
    hide Inv, Initial;
    KindsRun(c, s, schedule);
  }
}
