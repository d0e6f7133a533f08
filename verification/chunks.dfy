/** Splitting an item list into records of k items, the last one possibly shorter. */
module Chunks {
  import opened Bytes
  import opened Intpack
  import opened Records

  ghost function Concat<T>(blocks: seq<seq<T>>): seq<T>
  {
    if |blocks| == 0 then [] else blocks[0] + Concat(blocks[1..])
  }

  ghost function ChunksOf<T>(items: seq<T>, k: nat): (cs: seq<seq<T>>)
    requires k > 0
    ensures |items| > 0 ==> |cs| > 0
    ensures forall c :: c in cs ==> 0 < |c| <= k
  {
    if |items| == 0 then []
    else if |items| <= k then [items]
    else [items[..k]] + ChunksOf(items[k..], k)
  }

  lemma ConcatStep<T>(first: seq<T>, rest: seq<seq<T>>)
    ensures Concat([first] + rest) == first + Concat(rest)
    ensures Concat<T>([]) == []
  {
    assert ([first] + rest)[1..] == rest;
  }

  lemma ChunksStep<T>(items: seq<T>, k: nat)
    requires k > 0
    ensures |items| == 0 ==> ChunksOf(items, k) == []
    ensures 0 < |items| <= k ==> ChunksOf(items, k) == [items]
    ensures |items| > k ==> ChunksOf(items, k) == [items[..k]] + ChunksOf(items[k..], k)
  {
  }

  lemma {:induction false} ConcatChunks<T>(items: seq<T>, k: nat)
    requires k > 0
    ensures Concat(ChunksOf(items, k)) == items
    decreases |items|
  {
    hide ChunksOf, Concat;
    ChunksStep(items, k);
    ConcatStep(items, []);
    if 0 < |items| <= k {
      assert [items] + [] == [items];
    } else if |items| > k {
      var front, rest := items[..k], items[k..];
      assert items == front + rest;
      ConcatChunks(rest, k);
      ConcatStep(front, ChunksOf(rest, k));
    }
  }

  /** A full first block is the first chunk. */
  lemma FirstChunk<T>(b: seq<T>, rest: seq<T>, k: nat)
    requires k > 0 && |b| == k
    ensures ChunksOf(b + rest, k) == [b] + ChunksOf(rest, k)
  {
    hide ChunksOf;
    ChunksStep(b + rest, k);
    if |rest| == 0 {
      ChunksStep(rest, k);
      assert b + rest == b && [b] + [] == [b];
    } else {
      assert (b + rest)[..k] == b && (b + rest)[k..] == rest;
    }
  }

  /** Full blocks followed by a partial one are exactly the chunks of their concatenation. */
  lemma {:induction false} ChunksOfBlocks<T>(blocks: seq<seq<T>>, pending: seq<T>, k: nat)
    requires k > 0 && |pending| <= k
    requires forall b :: b in blocks ==> |b| == k
    ensures ChunksOf(Concat(blocks) + pending, k) == blocks + if |pending| == 0 then [] else [pending]
    decreases |blocks|
  {
    hide ChunksOf, Concat;
    var tail := if |pending| == 0 then [] else [pending];
    if |blocks| == 0 {
      ConcatStep(pending, []);
      ChunksStep(pending, k);
      assert [] + pending == pending && blocks + tail == tail;
    } else {
      var first, others := blocks[0], blocks[1..];
      assert blocks == [first] + others;
      ChunksOfBlocks(others, pending, k);
      ConcatStep(first, others);
      var rest := Concat(others) + pending;
      assert Concat(blocks) + pending == first + rest;
      FirstChunk(first, rest, k);
      assert [first] + (others + tail) == blocks + tail;
    }
  }

  lemma {:induction false} ConcatSnoc<T>(blocks: seq<seq<T>>, b: seq<T>)
    ensures Concat(blocks + [b]) == Concat(blocks) + b
  {
    if |blocks| == 0 {
      ConcatStep(b, []);
      assert blocks + [b] == [b] + [] && b + [] == b;
    } else {
      ConcatSnoc(blocks[1..], b);
      assert (blocks + [b])[1..] == blocks[1..] + [b];
      assert blocks[0] + (Concat(blocks[1..]) + b) == (blocks[0] + Concat(blocks[1..])) + b;
    }
  }

  lemma DivStep(x: nat, k: nat)
    requires 0 < k <= x
    ensures x / k == (x - k) / k + 1 && x % k == (x - k) % k
  {
    var q, r := (x - k) / k, (x - k) % k;
    assert x - k == q * k + r;
    MulDistrib(q + 1, 1, k);
    DivUnique(x, k, q + 1, r);
  }

  /** There are as many chunks as records. */
  lemma {:induction false} ChunkCount<T>(items: seq<T>, k: nat)
    requires k > 0
    ensures |ChunksOf(items, k)| == RecordCount(|items|, k)
  {
    hide ChunksOf;
    ChunksStep(items, k);
    var n := |items|;
    if n == 0 {
      SmallMod(k - 1, k);
    } else if n <= k {
      DivUnique(n + k - 1, k, 1, n - 1);
    } else {
      ChunkCount(items[k..], k);
      DivStep(n + k - 1, k);
    }
  }

  /** Item i is item i % k of chunk i / k. */
  lemma {:induction false} ChunkItem<T>(items: seq<T>, k: nat, i: nat)
    requires k > 0 && i < |items|
    ensures 0 <= i / k < |ChunksOf(items, k)| && i % k < |ChunksOf(items, k)[i / k]|
    ensures ChunksOf(items, k)[i / k][i % k] == items[i]
  {
    hide ChunksOf;
    ChunksStep(items, k);
    if i < k {
      SmallMod(i, k);
    } else {
      DivStep(i, k);
      ChunkItem(items[k..], k, i - k);
    }
  }

  /** Chunk r has the number of items itemsInRecord computes. */
  lemma {:induction false} ChunkSize<T>(items: seq<T>, k: nat, r: nat)
    requires k > 0 && r < RecordCount(|items|, k) && |items| > 0
    ensures |ChunksOf(items, k)| == RecordCount(|items|, k)
    ensures |ChunksOf(items, k)[r]| == ItemsInRecord(|items|, k, r)
  {
    hide ChunksOf;
    var n := |items|;
    ChunksStep(items, k);
    ChunkCount(items, k);
    if n <= k {
      DivUnique(n + k - 1, k, 1, n - 1);
      if n < k { SmallMod(n, k); } else { DivUnique(n, k, 1, 0); }
    } else {
      ChunkCount(items[k..], k);
      DivStep(n + k - 1, k);
      DivStep(n, k);
      if r > 0 {
        ChunkSize(items[k..], k, r - 1);
      }
    }
  }

  /** Items ck to ck + k - 1, or as far as they go. */
  function ItemRun<T>(items: seq<T>, k: nat, c: nat): seq<T>
    requires 0 <= c * k <= |items|
  {
    if c * k + k <= |items| then items[c * k..c * k + k] else items[c * k..]
  }

  lemma ShiftedRun<T>(items: seq<T>, k: nat, a: nat)
    requires k <= a <= |items|
    ensures items[k..][a - k..] == items[a..]
    ensures a + k <= |items| ==> items[k..][a - k..a] == items[a..a + k]
  {
  }

  /** Chunk c is the c-th run of k items. */
  lemma {:induction false} ChunkIsRun<T>(items: seq<T>, k: nat, c: nat)
    requires k > 0 && 0 <= c * k < |items|
    ensures c < |ChunksOf(items, k)| && ChunksOf(items, k)[c] == ItemRun(items, k, c)
    decreases c
  {
    hide ChunksOf;
    ChunksStep(items, k);
    if c == 0 {
      assert 0 * k == 0;
      if |items| > k { assert items[0 * k..0 * k + k] == items[..k]; } else { assert items[0..] == items; }
    } else {
      MulDistrib(c, 1, k);
      MulUpTo(1, c, k);
      var rest := items[k..];
      ChunkIsRun(rest, k, c - 1);
      assert (c - 1) * k == c * k - k;
      ShiftedRun(items, k, c * k);
    }
  }

  lemma {:induction false} FlattenConcat(a: seq<Item>, b: seq<Item>)
    ensures Flatten(a + b) == Flatten(a) + Flatten(b)
  {
    hide Flatten;
    if |b| == 0 {
      FlattenNone();
      assert a + b == a && b == [];
    } else {
      var n := |b| - 1;
      FlattenConcat(a, b[..n]);
      FlattenNext(a + b, |a| + n);
      FlattenNext(b, n);
      assert (a + b)[..|a| + n] == a + b[..n];
      assert (a + b)[..|a| + n + 1] == a + b && b[..n + 1] == b;
    }
  }

  /** A property of all items holds in every chunk. */
  lemma {:induction false} ChunksKeep(items: seq<Item>, k: nat)
    requires k > 0 && Small(items)
    ensures forall c :: c in ChunksOf(items, k) ==> Small(c) && |Flatten(c)| <= |Flatten(items)|
  {
    hide ChunksOf, Flatten;
    ChunksStep(items, k);
    if |items| > k {
      ChunksKeep(items[k..], k);
      FlattenConcat(items[..k], items[k..]);
      assert items[..k] + items[k..] == items;
    }
  }
}
