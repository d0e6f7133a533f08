/** The chunked content hash: length-prefixed items, one digest per chunk of k items, and a final
  digest over the chunk digests. */
module ContentHashing {
  import opened Bytes
  import opened Environment
  import opened Records
  import opened Chunks

  function FrameItem(item: Item): seq<byte>
  {
    PutLE(|item|, 4) + item
  }

  /** What one chunk digest is computed over. */
  ghost function Frame(items: seq<Item>): seq<byte>
  {
    if |items| == 0 then [] else FrameItem(items[0]) + Frame(items[1..])
  }

  ghost function Digests(env: Env, chunks: seq<seq<Item>>): seq<byte>
  {
    if |chunks| == 0 then [] else env.sha(Frame(chunks[0])) + Digests(env, chunks[1..])
  }

  /** The content hash of an item list: a function of the items and the chunk size only. */
  ghost function ContentHash(env: Env, k: nat, items: seq<Item>): Digest
    requires k > 0
  {
    env.sha(Digests(env, ChunksOf(items, k)))
  }

  lemma {:induction false} FrameSnoc(items: seq<Item>, item: Item)
    ensures Frame(items + [item]) == Frame(items) + FrameItem(item)
  {
    hide FrameItem;
    if |items| == 0 {
      assert (items + [item])[1..] == [];
      assert FrameItem(item) + [] == FrameItem(item);
    } else {
      FrameSnoc(items[1..], item);
      assert (items + [item])[1..] == items[1..] + [item];
      assert FrameItem(items[0]) + (Frame(items[1..]) + FrameItem(item))
        == (FrameItem(items[0]) + Frame(items[1..])) + FrameItem(item);
    }
  }

  lemma {:induction false} DigestsSnoc(env: Env, chunks: seq<seq<Item>>, c: seq<Item>)
    ensures Digests(env, chunks + [c]) == Digests(env, chunks) + env.sha(Frame(c))
  {
    hide Frame;
    if |chunks| == 0 {
      assert (chunks + [c])[1..] == [];
      assert env.sha(Frame(c)) + [] == env.sha(Frame(c));
    } else {
      DigestsSnoc(env, chunks[1..], c);
      assert (chunks + [c])[1..] == chunks[1..] + [c];
      assert env.sha(Frame(chunks[0])) + (Digests(env, chunks[1..]) + env.sha(Frame(c)))
        == (env.sha(Frame(chunks[0])) + Digests(env, chunks[1..])) + env.sha(Frame(c));
    }
  }

  // ---------------------------------------------------------------- the streaming hasher

  /** The length of an item given in parts. */
  method TotalLength(parts: seq<seq<byte>>) returns (total: nat)
    ensures total == |Flatten(parts)|
  {
    hide Flatten;
    FlattenNone();
    total := 0;
    assert parts[..0] == [];
    for i := 0 to |parts|
      invariant total == |Flatten(parts[..i])|
    {
      FlattenNext(parts, i);
      total := total + |parts[i]|;
    }
    assert parts[..|parts|] == parts;
  }

  /** Appending the parts of an item one by one appends the item. */
  method AppendParts(buf: seq<byte>, parts: seq<seq<byte>>) returns (out: seq<byte>)
    ensures out == buf + Flatten(parts)
  {
    hide Flatten;
    FlattenNone();
    out := buf;
    assert parts[..0] == [];
    for i := 0 to |parts|
      invariant out == buf + Flatten(parts[..i])
    {
      FlattenNext(parts, i);
      out := out + parts[i];
    }
    assert parts[..|parts|] == parts;
  }

  lemma FrameNone()
    ensures Frame([]) == []
  {
  }

  class ContentHasher {
    var digests: seq<byte>
    var buf: seq<byte>
    var count: nat
    const chunkSize: nat

    ghost var blocks: seq<seq<Item>>   // chunks already digested
    ghost var pending: seq<Item>       // items in buf

    ghost predicate Valid(env: Env)
      reads this
    {
      && chunkSize > 0
      && (forall b :: b in blocks ==> |b| == chunkSize)
      && digests == Digests(env, blocks)
      && buf == Frame(pending)
      && count == |pending| < chunkSize
    }

    /** The items added so far. */
    ghost function Items(): seq<Item>
      reads this
    {
      Concat(blocks) + pending
    }

    /** newContentHasher; it panics on a chunk size that is not positive. */
    constructor (env: Env, chunkSize: nat)
      requires chunkSize > 0
      ensures Valid(env) && Items() == [] && this.chunkSize == chunkSize
    {
      this.chunkSize := chunkSize;
      digests, buf, count := [], [], 0;
      blocks, pending := [], [];
    }

    /** Add: the parts form one item. */
    method Add(env: Env, parts: seq<seq<byte>>)
      requires Valid(env)
      modifies this
      ensures Valid(env) && Items() == old(Items()) + [Flatten(parts)]
    {
      hide PutLE, Flatten, Frame;
      ghost var item := Flatten(parts);
      var total := TotalLength(parts);
      var framed := AppendParts(buf + PutLE(total, 4), parts);
      FrameSnoc(pending, item);
      assert framed == buf + FrameItem(item);
      buf := framed;
      AddCounted(env, item);
    }

    /** The end of Add: a full chunk is digested. */
    method AddCounted(env: Env, ghost item: Item)
      requires chunkSize > 0 && count == |pending| < chunkSize
      requires forall b :: b in blocks ==> |b| == chunkSize
      requires digests == Digests(env, blocks)
      requires buf == Frame(pending + [item])
      modifies this
      ensures Valid(env) && Items() == old(Items()) + [item]
    {
      hide Frame, Digests;
      FrameNone();
      count := count + 1;
      pending := pending + [item];
      assert Items() == old(Items()) + [item];
      if count == chunkSize {
        DigestsSnoc(env, blocks, pending);
        ConcatSnoc(blocks, pending);
        digests := digests + env.sha(buf);
        buf := [];
        count := 0;
        blocks, pending := blocks + [pending], [];
        assert Items() == Concat(blocks);
      }
    }

    /** Sum: digests the partial chunk, if any, and returns the hash of everything added. */
    method Sum(env: Env) returns (hash: Digest)
      requires Valid(env)
      modifies this
      ensures hash == ContentHash(env, chunkSize, old(Items()))
    {
      hide Frame, Digests;
      ChunksOfBlocks(blocks, pending, chunkSize);
      if count > 0 {
        DigestsSnoc(env, blocks, pending);
        digests := digests + env.sha(buf);
        buf := [];
        count := 0;
      } else {
        assert blocks + [] == blocks;
      }
      hash := env.sha(digests);
    }
  }

  // ---------------------------------------------------------------- the formula

  /** A chunk is hashed item by item, each behind its length in four bytes, least significant first. */
  lemma FrameLaw(item: Item, rest: seq<Item>)
    ensures Frame([]) == []
    ensures Frame([item] + rest) == PutLE(|item|, 4) + item + Frame(rest)
  {
    hide PutLE;
    assert ([item] + rest)[1..] == rest;
  }

  lemma {:induction false} DigestsLength(env: Env, chunks: seq<seq<Item>>)
    ensures |Digests(env, chunks)| == 32 * |chunks|
  {
    if |chunks| > 0 { DigestsLength(env, chunks[1..]); }
  }

  lemma {:induction false} DigestAt(env: Env, chunks: seq<seq<Item>>, c: nat)
    requires c < |chunks|
    ensures |Digests(env, chunks)| == 32 * |chunks|
    ensures Digests(env, chunks)[32 * c..32 * c + 32] == env.sha(Frame(chunks[c]))
  {
    hide Frame;
    DigestsLength(env, chunks);
    DigestsLength(env, chunks[1..]);
    var ds, rest := Digests(env, chunks), Digests(env, chunks[1..]);
    assert ds == env.sha(Frame(chunks[0])) + rest;
    if c == 0 {
      assert ds[..32] == env.sha(Frame(chunks[0]));
    } else {
      DigestAt(env, chunks[1..], c - 1);
      assert ds[32 * c..32 * c + 32] == rest[32 * (c - 1)..32 * (c - 1) + 32];
    }
  }

  /** The content hash is the SHA-256 of the chunk digests, 32 bytes for every run of k items. */
  lemma HashLaw(env: Env, k: nat, items: seq<Item>) returns (digests: seq<byte>)
    requires k > 0
    ensures ContentHash(env, k, items) == env.sha(digests)
    ensures |digests| == 32 * ((|items| + k - 1) / k)
    ensures forall c: nat :: 0 <= c * k < |items| ==>
      32 * c + 32 <= |digests| && digests[32 * c..32 * c + 32] == env.sha(Frame(ItemRun(items, k, c)))
  {
    hide Digests, Frame, ChunksOf, ItemRun;
    var chunks := ChunksOf(items, k);
    digests := Digests(env, chunks);
    DigestsLength(env, chunks);
    ChunkCount(items, k);
    forall c: nat | 0 <= c * k < |items|
      ensures 32 * c + 32 <= |digests| && digests[32 * c..32 * c + 32] == env.sha(Frame(ItemRun(items, k, c)))
    {
      ChunkIsRun(items, k, c);
      DigestAt(env, chunks, c);
    }
  }

  // ---------------------------------------------------------------- the hash binds the content

  lemma FrameHead(item: Item, rest: seq<byte>)
    requires |item| < TWO32
    ensures var f := FrameItem(item) + rest;
      |f| >= 4 && LE(f[..4]) == |item| && |f| >= 4 + |item| && f[4..4 + |item|] == item && f[4 + |item|..] == rest
  {
    hide PutLE, LE;
    var f := FrameItem(item) + rest;
    LEPut32(|item|);
    assert f[..4] == PutLE(|item|, 4);
  }

  /** The length framing is uniquely decodable. */
  lemma {:induction false} FrameInjective(a: seq<Item>, b: seq<Item>)
    requires Small(a) && Small(b) && Frame(a) == Frame(b)
    ensures a == b
  {
    if |a| > 0 && |b| > 0 {
      var fa, fb := Frame(a), Frame(b);
      assert fa == FrameItem(a[0]) + Frame(a[1..]);
      assert fb == FrameItem(b[0]) + Frame(b[1..]);
      FrameHead(a[0], Frame(a[1..]));
      FrameHead(b[0], Frame(b[1..]));
      FrameInjective(a[1..], b[1..]);
      assert a == [a[0]] + a[1..] && b == [b[0]] + b[1..];
    } else {
      assert |a| > 0 ==> |Frame(a)| >= 4;
      assert |b| > 0 ==> |Frame(b)| >= 4;
    }
  }

  /** x is something the hash of `items` applies SHA-256 to: a framed chunk or the digest list. */
  ghost predicate IsPreimage(env: Env, k: nat, items: seq<Item>, x: seq<byte>)
    requires k > 0
  {
    var cs := ChunksOf(items, k);
    x == Digests(env, cs) || exists i :: 0 <= i < |cs| && x == Frame(cs[i])
  }

  /** Equal digest lists of two chunk lists have equal digests, chunk by chunk. */
  lemma {:induction false} DigestsAgree(env: Env, a: seq<seq<Item>>, b: seq<seq<Item>>, i: nat)
    requires Digests(env, a) == Digests(env, b) && |a| == |b| && i < |a|
    ensures env.sha(Frame(a[i])) == env.sha(Frame(b[i]))
  {
    hide Frame;
    var da, db := Digests(env, a), Digests(env, b);
    assert da[..32] == env.sha(Frame(a[0])) && db[..32] == env.sha(Frame(b[0]));
    if i > 0 {
      assert da[32..] == Digests(env, a[1..]) && db[32..] == Digests(env, b[1..]);
      DigestsAgree(env, a[1..], b[1..], i - 1);
    }
  }

  /** Two item lists with the same content hash are equal, or else two different inputs the hash
    computation feeds to SHA-256 collide; the lemma exhibits them. */
  lemma HashBindsContent(env: Env, k: nat, a: seq<Item>, b: seq<Item>) returns (x: seq<byte>, y: seq<byte>)
    requires k > 0 && Small(a) && Small(b)
    requires ContentHash(env, k, a) == ContentHash(env, k, b)
    ensures a == b
      || (x != y && env.sha(x) == env.sha(y) && IsPreimage(env, k, a, x) && IsPreimage(env, k, b, y))
  {
    hide Digests, Frame, ChunksOf, Concat;
    var ca, cb := ChunksOf(a, k), ChunksOf(b, k);
    x, y := Digests(env, ca), Digests(env, cb);
    if x == y {
      DigestsLength(env, ca);
      DigestsLength(env, cb);
      if i :| 0 <= i < |ca| && Frame(ca[i]) != Frame(cb[i]) {
        DigestsAgree(env, ca, cb, i);
        x, y := Frame(ca[i]), Frame(cb[i]);
      } else {
        ChunksKeep(a, k);
        ChunksKeep(b, k);
        forall i | 0 <= i < |ca| ensures ca[i] == cb[i] {
          FrameInjective(ca[i], cb[i]);
        }
        assert ca == cb;
        ConcatChunks(a, k);
        ConcatChunks(b, k);
      }
    }
  }
}
