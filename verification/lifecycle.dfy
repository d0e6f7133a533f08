/** The writer's life over any sequence of calls: sticky errors, the work channel and the fate of
  the file. Failures may happen at any operation; in the concurrent mode the background writer
  may record an error between any two calls. */
module Lifecycle {
  import opened Results

  /** The work channel as the writer holds it: no channel, an open one, or a closed one. */
  datatype Channel = Absent | Open | Shut

  datatype Life = Life(
    err: Option<Error>,    // first error recorded
    closed: bool,
    fileClosed: bool,
    workCh: Channel,
    present: bool,         // the file is present at its path
    finished: bool,        // some Finish returned nil
    panicked: bool)        // a closed channel was closed again or sent to

  /** What flushing a record did: nothing to flush, flushed, or failed. */
  datatype Flush = Nothing | Flushed | FlushFailed(error: Error)

  /** A call with everything its environment decides. */
  datatype Call =
    | AppendItem(flush: Flush)
    | Finish(last: Flush, drain: Option<Error>, rest: Option<Error>)
    | Close(removed: bool)
    | Background(error: Error)   // the background writer fails between two calls

  /** flush: in the concurrent mode the record is sent to the work channel and cannot fail. */
  function AfterFlush(s: Life, flush: Flush): Life
  {
    match flush
    case Nothing => s
    case Flushed => if s.workCh.Shut? then s.(panicked := true) else s
    case FlushFailed(e) =>
      if s.workCh.Absent? then s.(err := Some(e))
      else if s.workCh.Shut? then s.(panicked := true)
      else s
  }

  function Step(s: Life, call: Call): Life
  {
    match call
    case AppendItem(flush) =>
      if s.err.Some? || s.closed then s else AfterFlush(s, flush)
    case Finish(last, drain, rest) =>
      if s.err.Some? || s.closed then s
      else
        var s1 := AfterFlush(s, last);
        if s1.err.Some? then s1
        else
          var s2 := if s1.workCh.Absent? then s1
                    else s1.(panicked := s1.panicked || s1.workCh.Shut?, workCh := Absent, err := drain);
          if s2.err.Some? then s2
          else if rest.Some? then s2.(err := rest)
          else s2.(fileClosed := true, closed := true, finished := true)
    case Close(removed) =>
      if s.closed then s
      else
        var s1 := s.(closed := true);
        var s2 := if s1.workCh.Absent? then s1
                  else s1.(panicked := s1.panicked || s1.workCh.Shut?, workCh := Shut);
        s2.(present := s2.present && !removed)
    case Background(e) =>
      if s.workCh.Open? && s.err.None? then s.(err := Some(e)) else s
  }

  /** What AppendItem and Finish return. */
  function Returned(s: Life, call: Call): Option<Error>
    requires call.AppendItem? || call.Finish?
  {
    if s.err.Some? then s.err
    else if s.closed then Some(Closed)
    else Step(s, call).err
  }

  function Run(s: Life, calls: seq<Call>): Life
    decreases |calls|
  {
    if |calls| == 0 then s else Run(Step(s, calls[0]), calls[1..])
  }

  /** A writer just created. */
  function Created(concurrent: bool): Life
  {
    Life(None, false, false, if concurrent then Open else Absent, true, false, false)
  }

  predicate Invariant(s: Life)
  {
    && !s.panicked
    && (s.workCh.Shut? ==> s.closed) && (s.workCh.Open? ==> !s.closed)
    && (s.finished ==> s.closed && s.present && s.workCh.Absent? && s.err.None?)
    && (!s.closed ==> s.present)
  }

  /** Removals succeed. */
  predicate Removes(calls: seq<Call>)
  {
    forall i :: 0 <= i < |calls| && calls[i].Close? ==> calls[i].removed
  }

  lemma StepKeeps(s: Life, call: Call)
    requires Invariant(s)
    ensures Invariant(Step(s, call))
    ensures s.err.Some? ==> Step(s, call).err == s.err
    ensures s.closed ==> Step(s, call) == s
    ensures s.finished || (call.Finish? && Returned(s, call).None?) <==> Step(s, call).finished
  {
  }

  /** Over every sequence of calls: no closed channel is closed again or sent to, the first error
    recorded stays, and nothing changes once the writer is closed. */
  lemma {:induction false} RunKeeps(s: Life, calls: seq<Call>)
    requires Invariant(s)
    ensures Invariant(Run(s, calls))
    ensures s.err.Some? ==> Run(s, calls).err == s.err
    ensures s.closed ==> Run(s, calls) == s
    decreases |calls|
  {
    if |calls| > 0 {
      StepKeeps(s, calls[0]);
      RunKeeps(Step(s, calls[0]), calls[1..]);
    }
  }

  ghost predicate FinishedAt(s: Life, calls: seq<Call>, i: nat)
    requires i < |calls|
  {
    calls[i].Finish? && Returned(Run(s, calls[..i]), calls[i]).None?
  }

  /** Finish returned nil at some point of the run. */
  ghost predicate FinishedDuring(s: Life, calls: seq<Call>)
  {
    exists i :: 0 <= i < |calls| && FinishedAt(s, calls, i)
  }

  lemma {:induction false} RunSplit(s: Life, calls: seq<Call>, i: nat)
    requires i <= |calls|
    ensures Run(s, calls) == Run(Run(s, calls[..i]), calls[i..])
    decreases i
  {
    if i == 0 {
      assert calls[..0] == [] && calls[0..] == calls;
    } else {
      assert calls[..i][0] == calls[0] && calls[..i][1..] == calls[1..][..i - 1];
      assert calls[1..][i - 1..] == calls[i..];
      RunSplit(Step(s, calls[0]), calls[1..], i - 1);
    }
  }

  lemma {:induction false} FinishedIff(s: Life, calls: seq<Call>)
    requires Invariant(s)
    ensures Run(s, calls).finished <==> s.finished || FinishedDuring(s, calls)
    decreases |calls|
  {
    if |calls| > 0 {
      var n := |calls| - 1;
      var before := calls[..n];
      FinishedIff(s, before);
      RunKeeps(s, before);
      RunSplit(s, calls, n);
      StepKeeps(Run(s, before), calls[n]);
      assert calls[n..] == [calls[n]] && [calls[n]][1..] == [];
      assert Run(s, calls) == Step(Run(s, before), calls[n]);
      assert FinishedAt(s, calls, n) <==> calls[n].Finish? && Returned(Run(s, before), calls[n]).None?;
      forall i | 0 <= i < n ensures FinishedAt(s, calls, i) <==> FinishedAt(s, before, i) {
        assert calls[..i] == before[..i];
      }
    }
  }

  lemma {:induction false} RemovedUnlessFinished(s: Life, calls: seq<Call>)
    requires Invariant(s) && Removes(calls) && (s.closed ==> (s.present <==> s.finished))
    ensures Run(s, calls).closed ==> (Run(s, calls).present <==> Run(s, calls).finished)
    decreases |calls|
  {
    if |calls| > 0 {
      StepKeeps(s, calls[0]);
      RemovedUnlessFinished(Step(s, calls[0]), calls[1..]);
    }
  }

  /** Over every run of a writer that ends closed, with removals succeeding: the file exists exactly
    when some Finish returned nil; and no channel was misused on the way. */
  lemma FileFate(concurrent: bool, calls: seq<Call>)
    requires Removes(calls)
    ensures var end := Run(Created(concurrent), calls);
      && !end.panicked
      && (end.closed ==> (end.present <==> FinishedDuring(Created(concurrent), calls)))
  {
    RunKeeps(Created(concurrent), calls);
    FinishedIff(Created(concurrent), calls);
    RemovedUnlessFinished(Created(concurrent), calls);
  }

  /** The first error recorded is the one every later call returns. */
  lemma ErrorSticks(s: Life, calls: seq<Call>, call: Call)
    requires Invariant(s) && s.err.Some? && (call.AppendItem? || call.Finish?)
    ensures Returned(Run(s, calls), call) == s.err
  {
    RunKeeps(s, calls);
  }

  /** AppendItem and Finish, the calls that report a result of their own. */
  predicate Reports(call: Call)
  {
    call.AppendItem? || call.Finish?
  }

  /** Call i of a run fails. */
  predicate FailsAt(s: Life, calls: seq<Call>, i: nat)
    requires i < |calls|
  {
    Reports(calls[i]) && Returned(Run(s, calls[..i]), calls[i]).Some?
  }

  /** From this state on AppendItem and Finish fail. */
  predicate Over(s: Life)
  {
    s.err.Some? || s.closed
  }

  lemma {:induction false} OverStays(s: Life, calls: seq<Call>)
    requires Over(s)
    ensures Over(Run(s, calls)) && (s.err.Some? ==> Run(s, calls).err == s.err)
    decreases |calls|
  {
    if |calls| > 0 {
      OverStays(Step(s, calls[0]), calls[1..]);
    }
  }

  lemma RunNext(s: Life, calls: seq<Call>, i: nat)
    requires i < |calls|
    ensures Run(s, calls[..i + 1]) == Step(Run(s, calls[..i]), calls[i])
  {
    hide Step;
    RunSplit(s, calls[..i + 1], i);
    assert calls[..i + 1][..i] == calls[..i] && calls[..i + 1][i..] == [calls[i]] && [calls[i]][1..] == [];
  }

  /** After a Close, a Finish that returned nil, or a call that failed, every AppendItem and every Finish
    fails, with the first error recorded if there is one and otherwise because the writer is closed. */
  lemma NothingAfterEnd(s: Life, calls: seq<Call>, i: nat, j: nat)
    requires i < j < |calls| && Reports(calls[j])
    requires calls[i].Close? || FinishedAt(s, calls, i) || FailsAt(s, calls, i)
    ensures FailsAt(s, calls, j)
    ensures FailsAt(s, calls, i) && Returned(Run(s, calls[..i]), calls[i]) != Some(Closed) ==>
      Returned(Run(s, calls[..j]), calls[j]) == Returned(Run(s, calls[..i]), calls[i])
    ensures Run(s, calls[..j]).err.None? ==> Returned(Run(s, calls[..j]), calls[j]) == Some(Closed)
  {
    var before, after := Run(s, calls[..i]), Run(s, calls[..i + 1]);
    RunNext(s, calls, i);
    assert Over(after);
    RunSplit(s, calls[..j], i + 1);
    assert calls[..j][..i + 1] == calls[..i + 1];
    OverStays(after, calls[..j][i + 1..]);
  }
}
