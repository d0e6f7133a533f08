/** The bitmap index, reading: one key at a time, and many keys with each record read once. */
module BitmapReader {
  import opened Bytes
  import opened Results
  import opened Environment
  import opened Index
  import opened Records
  import opened Chunks
  import opened FileFormat
  import opened SealedFile
  import opened Reader
  import opened RecordDecoder
  import opened Batches
  import opened BitmapWriter
  import P = ReadItemsProtocol

  /** What a lookup works on: the libraries, the hash function and an opened packfile. */
  datatype Source = Source(env: Env, lib: Library, ranks: Ranking, o: Opened, file: seq<byte>)
  {
    /** The hash function answers with a slot of the file, or not at all. */
    ghost predicate Valid()
    {
      && env.Valid() && o.Sound(file) && o.Complete() && |file| < TWO63
      && (forall h :: ranks(h).Ok? ==> ranks(h).value < o.totalItems)
    }
  }

  /** verifyAndDeserialize */
  function VerifyEntry(lib: Library, entry: Item, hk: Hash): Result<Bitmap>
  {
    if |entry| < FINGERPRINT_SIZE || entry[..FINGERPRINT_SIZE] != hk[..FINGERPRINT_SIZE] then Err(KeyNotFound)
    else
      match lib.deserialize(entry[FINGERPRINT_SIZE..])
      case None => Err(Deserialize)
      case Some(b) => Ok(b)
  }

  ghost function HashLookup(c: Source, hk: Hash): Result<Bitmap>
    requires c.Valid()
  {
    match c.ranks(hk)
    case Err(KeyNotFound) => Err(KeyNotFound)
    case Err(_) => Err(Query)
    case Ok(rank) =>
      match ItemOf(c.env, c.o, c.file, rank)
      case Err(e) => Err(e)
      case Ok(entry) => VerifyEntry(c.lib, entry, hk)
  }

  /** What Lookup answers for a field and a key. */
  ghost function LookupOf(c: Source, f: byte, key: seq<byte>): Result<Bitmap>
    requires c.Valid()
  {
    HashLookup(c, c.lib.prehash(ComposeKey(f, key)))
  }

  /** Lookup: hash, rank, one packfile item, fingerprint check; `readOk` decides which reads succeed. */
  method Lookup(c: Source, rd: Decoder, f: byte, key: seq<byte>, readOk: int -> bool) returns (r: Result<Bitmap>)
    requires c.Valid() && rd.Valid()
    modifies rd, rd.decompressed.arr, rd.sizes.arr, rd.offsets.arr
    ensures rd.Valid()
    ensures var rank := c.ranks(c.lib.prehash(key + [f]));
      r == if rank.Ok? && ReadRefused(c.o, rank.value, readOk) then Err(Io) else LookupOf(c, f, key)
  {
    hide ItemOf, Env.Valid, ValidOffsets, Opened.Complete, ReadRefused;
    var hk := c.lib.prehash(ComposeKey(f, key));
    var rank := c.ranks(hk);
    if rank.Err? {
      return Err(if rank.error == KeyNotFound then KeyNotFound else Query);
    }
    var entry := ReadItem(c.env, c.o, c.file, rank.value, rd, readOk);
    r := if entry.Ok? then VerifyEntry(c.lib, entry.value, hk) else Err(entry.error);
  }

  // ---------------------------------------------------------------- lookups in a written index

  /** A finished index, opened. */
  ghost predicate Indexed(c: Source, s: Settings, bitmaps: map<Hash, Bitmap>, entries: seq<Item>)
  {
    && c.Valid() && c.lib.Valid() && s.Valid() && Placed(c.lib, c.ranks, bitmaps, entries)
    && Writable(c.env, s, entries, []) && FileOf(c.env, s, entries, []) == Ok(c.file)
    && OpenedFile(c.env, c.file) == Ok(c.o)
  }

  /** A record that holds a non-empty item has a payload. */
  lemma RecordNotEmpty(s: Settings, items: seq<Item>, i: nat)
    requires s.Valid() && i < |items| && |items[i]| > 0
    ensures |Flatten(RecordItems(s, items, i))| > 0
  {
    hide Flatten;
    ChunkItem(items, s.itemsPerRecord, i);
    FlattenItem(RecordItems(s, items, i), i % s.itemsPerRecord);
  }

  /** Every slot of the file is read back: entries are never empty. */
  lemma SlotRead(c: Source, s: Settings, bitmaps: map<Hash, Bitmap>, entries: seq<Item>, i: nat)
    requires Indexed(c, s, bitmaps, entries) && i < |entries|
    ensures c.o.totalItems == |entries| && ItemOf(c.env, c.o, c.file, i) == Ok(entries[i])
  {
    hide FileOf, OpenedFile, ItemOf, Opened.Sound, Opened.Complete, Placed, Writable, RecordItems;
    EntriesLong(c.lib, c.ranks, bitmaps, entries);
    forall j | 0 <= j < |entries| ensures |Flatten(RecordItems(s, entries, j))| > 0 {
      RecordNotEmpty(s, entries, j);
    }
    FileReadsBack(c.env, s, entries, []);
  }

  lemma IndexTotal(c: Source, s: Settings, bitmaps: map<Hash, Bitmap>, entries: seq<Item>)
    requires Indexed(c, s, bitmaps, entries)
    ensures c.o.totalItems == |entries|
  {
    hide FileOf, OpenedFile, Opened.Sound, Opened.Complete, Placed, Writable;
    FileOpens(c.env, s, entries, []);
  }

  /** Some key of the index has hk's rank and hk's fingerprint. */
  ghost predicate SharesSlot(c: Source, bitmaps: map<Hash, Bitmap>, hk: Hash)
  {
    exists g :: g in bitmaps && c.ranks(g) == c.ranks(hk) && g[..4] == hk[..4]
  }

  /** A slot has one key, so sharing it means sharing with that key. */
  lemma SlotKey(c: Source, bitmaps: map<Hash, Bitmap>, g: Hash, hk: Hash)
    requires Bijection(c.ranks, bitmaps.Keys) && g in bitmaps && c.ranks(g) == c.ranks(hk)
    ensures SharesSlot(c, bitmaps, hk) <==> g[..4] == hk[..4]
    ensures hk in bitmaps ==> hk == g
  {
  }

  lemma EntryVerified(lib: Library, g: Hash, b: Bitmap, hk: Hash)
    requires lib.Valid()
    ensures VerifyEntry(lib, EntryBytes(lib, g, b), hk)
      == if g[..4] == hk[..4] then Ok(b) else Err(KeyNotFound)
  {
    var entry := EntryBytes(lib, g, b);
    assert entry[..FINGERPRINT_SIZE] == g[..FINGERPRINT_SIZE] && entry[FINGERPRINT_SIZE..] == lib.serialize(b);
  }

  lemma SlotCount(c: Source, s: Settings, bitmaps: map<Hash, Bitmap>, entries: seq<Item>)
    requires Indexed(c, s, bitmaps, entries)
    ensures c.o.totalItems == |entries| == |bitmaps|
  {
    hide FileOf, ItemOf, Opened.Sound, Opened.Complete, Writable;
    FileOpens(c.env, s, entries, []);
  }

  /** Looking up a hash: a stored key yields its bitmap; any other hash is found exactly when it shares
    rank and fingerprint with a stored key. */
  lemma HashLookupExact(c: Source, s: Settings, bitmaps: map<Hash, Bitmap>, entries: seq<Item>, hk: Hash)
    requires Indexed(c, s, bitmaps, entries)
    ensures hk in bitmaps ==> HashLookup(c, hk) == Ok(bitmaps[hk])
    ensures HashLookup(c, hk).Ok? <==> c.ranks(hk).Ok? && SharesSlot(c, bitmaps, hk)
    ensures HashLookup(c, hk).Err? ==>
      HashLookup(c, hk).error == if c.ranks(hk).Err? && c.ranks(hk).error != KeyNotFound then Query else KeyNotFound
  {
    hide FileOf, OpenedFile, ItemOf, Opened.Sound, Opened.Complete, Writable, VerifyEntry, Env.Valid;
    if c.ranks(hk).Ok? {
      var rank := c.ranks(hk).value;
      SlotCount(c, s, bitmaps, entries);
      SlotRead(c, s, bitmaps, entries, rank);
      var g := RanksCover(c.ranks, bitmaps.Keys, rank);
      assert entries[rank] == EntryBytes(c.lib, g, bitmaps[g]);
      EntryVerified(c.lib, g, bitmaps[g], hk);
      SlotKey(c, bitmaps, g, hk);
    }
  }

  lemma IndexedValid(c: Source, s: Settings, bitmaps: map<Hash, Bitmap>, entries: seq<Item>)
    requires Indexed(c, s, bitmaps, entries)
    ensures c.Valid()
  {
  }

  /** Lookup agrees with a scan over all events, for a key whose hash no other key added has. A key never
    added is reported missing exactly when it does not share rank and fingerprint with a stored key. */
  lemma LookupAgreesWithScan(c: Source, s: Settings, adds: seq<(Subject, uint32)>,
                             bitmaps: map<Hash, Bitmap>, entries: seq<Item>, f: byte, key: seq<byte>)
    requires Indexed(c, s, bitmaps, entries) && Collected(c.lib, adds, bitmaps) && NoCollision(c.lib, adds, f, key)
    ensures NaiveScan(adds, f, key) != {} ==> LookupOf(c, f, key) == Ok(NaiveScan(adds, f, key))
    ensures NaiveScan(adds, f, key) == {} ==>
      var hk := c.lib.prehash(key + [f]);
      && hk !in bitmaps
      && (LookupOf(c, f, key).Ok? <==> c.ranks(hk).Ok? && SharesSlot(c, bitmaps, hk))
      && (c.ranks(hk) == Err(KeyNotFound) || (c.ranks(hk).Ok? && !SharesSlot(c, bitmaps, hk)) ==>
            LookupOf(c, f, key) == Err(KeyNotFound))
  {
    TermsDistinct(f, key, f, key);
    hide Indexed, BitmapOf, NaiveScan, NoCollision, HashLookup, SharesSlot, ComposeKey;
    var hk := c.lib.prehash(ComposeKey(f, key));
    assert c.Valid() by { IndexedValid(c, s, bitmaps, entries); }
    HashLookupExact(c, s, bitmaps, entries, hk);
    ScanAgrees(c.lib, adds, f, key);
    assert Under(bitmaps, hk) == NaiveScan(adds, f, key);
  }

  // ---------------------------------------------------------------- many keys

  datatype FieldKey = FieldKey(field: byte, key: seq<byte>)

  /** A requested key the hash function gave a rank. */
  datatype Found = Found(outIdx: nat, hk: Hash, rank: nat)

  function KeyHash(lib: Library, k: FieldKey): Hash
  {
    lib.prehash(ComposeKey(k.field, k.key))
  }

  /** x stands for key number x.outIdx. */
  predicate Stands(c: Source, keys: seq<FieldKey>, x: Found)
  {
    x.outIdx < |keys| && x.hk == KeyHash(c.lib, keys[x.outIdx]) && c.ranks(x.hk) == Ok(x.rank)
  }

  ghost predicate AllStand(c: Source, keys: seq<FieldKey>, found: seq<Found>)
  {
    forall k :: 0 <= k < |found| ==> Stands(c, keys, found[k])
  }

  /** Every one of the first n keys that has a rank is among those found. */
  ghost predicate NoneMissed(c: Source, keys: seq<FieldKey>, n: nat, found: seq<Found>)
    requires n <= |keys|
  {
    forall i :: 0 <= i < n ==>
      (c.ranks(KeyHash(c.lib, keys[i])).Ok? ==> exists k :: 0 <= k < |found| && found[k].outIdx == i)
  }

  ghost predicate DistinctSlots(found: seq<Found>)
  {
    forall j, k :: 0 <= j < k < |found| ==> found[j].outIdx != found[k].outIdx
  }

  ghost predicate SortedByRank(found: seq<Found>)
  {
    forall j, k :: 0 <= j < k < |found| ==> found[j].rank <= found[k].rank
  }

  /** The hash function fails on this key. */
  predicate Unanswered(c: Source, k: FieldKey)
  {
    c.ranks(KeyHash(c.lib, k)).Err? && c.ranks(KeyHash(c.lib, k)).error != KeyNotFound
  }

  /** The first loop of LookupKeys. */
  method FindKeys(c: Source, keys: seq<FieldKey>) returns (found: seq<Found>, e: Option<Error>)
    ensures e.Some? ==> e.value == Query && exists i :: 0 <= i < |keys| && Unanswered(c, keys[i])
    ensures e.None? ==> forall i :: 0 <= i < |keys| ==> !Unanswered(c, keys[i])
    ensures e.None? ==> AllStand(c, keys, found) && DistinctSlots(found) && NoneMissed(c, keys, |keys|, found)
  {
    hide KeyHash;
    found := [];
    for i := 0 to |keys|
      invariant AllStand(c, keys, found) && DistinctSlots(found) && NoneMissed(c, keys, i, found)
      invariant forall k :: 0 <= k < |found| ==> found[k].outIdx < i
      invariant forall j :: 0 <= j < i ==> !Unanswered(c, keys[j])
    {
      var hk := KeyHash(c.lib, keys[i]);
      var rank := c.ranks(hk);
      if rank.Err? {
        if rank.error == KeyNotFound {
          continue;
        }
        return [], Some(Query);
      }
      ghost var before := found;
      found := found + [Found(i, hk, rank.value)];
      forall j | 0 <= j < i + 1 && c.ranks(KeyHash(c.lib, keys[j])).Ok?
        ensures exists k :: 0 <= k < |found| && found[k].outIdx == j
      {
        if j < i {
          var k :| 0 <= k < |before| && before[k].outIdx == j;
          assert found[k].outIdx == j;
        } else {
          assert found[|before|].outIdx == j;
        }
      }
    }
    e := None;
  }

  // ---------------------------------------------------------------- sorting and grouping

  lemma InsertSorted(found: seq<Found>, p: nat, x: Found)
    requires SortedByRank(found) && p <= |found|
    requires forall k :: p <= k < |found| ==> found[k].rank > x.rank
    requires p > 0 ==> found[p - 1].rank <= x.rank
    ensures SortedByRank(found[..p] + [x] + found[p..])
  {
    var r := found[..p] + [x] + found[p..];
    forall j, k | 0 <= j < k < |r| ensures r[j].rank <= r[k].rank {
      assert r[j] == if j < p then found[j] else if j == p then x else found[j - 1];
      assert r[k] == if k < p then found[k] else if k == p then x else found[k - 1];
      assert j < p ==> found[j].rank <= found[p - 1].rank;
    }
  }

  lemma InsertKeeps(found: seq<Found>, p: nat, x: Found)
    requires p <= |found|
    ensures multiset(found[..p] + [x] + found[p..]) == multiset(found) + multiset{x}
  {
    assert found == found[..p] + found[p..];
  }

  /** x put into a sorted list. */
  method InsertByRank(found: seq<Found>, x: Found) returns (r: seq<Found>)
    requires SortedByRank(found)
    ensures SortedByRank(r) && multiset(r) == multiset(found) + multiset{x}
  {
    hide SortedByRank;
    var p := |found|;
    while p > 0 && found[p - 1].rank > x.rank
      invariant 0 <= p <= |found|
      invariant forall k :: p <= k < |found| ==> found[k].rank > x.rank
    {
      p := p - 1;
    }
    r := found[..p] + [x] + found[p..];
    InsertSorted(found, p, x);
    InsertKeeps(found, p, x);
  }

  /** slices.SortFunc: any rearrangement in rank order. */
  method SortByRank(found: seq<Found>) returns (sorted: seq<Found>)
    ensures SortedByRank(sorted) && multiset(sorted) == multiset(found)
  {
    sorted := [];
    for i := 0 to |found|
      invariant SortedByRank(sorted) && multiset(sorted) == multiset(found[..i])
    {
      sorted := InsertByRank(sorted, found[i]);
      assert found[..i + 1] == found[..i] + [found[i]];
    }
    assert found[..|found|] == found;
  }

  lemma {:induction false} NoRepeats(found: seq<Found>, x: Found)
    requires DistinctSlots(found)
    ensures multiset(found)[x] <= 1
  {
    if |found| > 0 {
      var m := |found| - 1;
      assert found == found[..m] + [found[m]];
      NoRepeats(found[..m], x);
      assert forall k :: 0 <= k < m ==> found[..m][k] == found[k] && found[k].outIdx != found[m].outIdx;
    }
  }

  lemma TwiceInSorted(s: seq<Found>, j: nat, k: nat)
    requires j < k < |s| && s[j] == s[k]
    ensures multiset(s)[s[j]] >= 2
  {
    assert s == s[..k] + s[k..];
    assert s[j] in s[..k] && s[k] in s[k..];
  }

  /** Sorting loses no key and gives none two places. */
  lemma SortedStill(c: Source, keys: seq<FieldKey>, found: seq<Found>, sorted: seq<Found>)
    requires AllStand(c, keys, found) && DistinctSlots(found) && NoneMissed(c, keys, |keys|, found)
    requires multiset(sorted) == multiset(found)
    ensures AllStand(c, keys, sorted) && DistinctSlots(sorted) && NoneMissed(c, keys, |keys|, sorted)
  {
    hide Stands, KeyHash;
    forall k | 0 <= k < |sorted| ensures sorted[k] in found {
      assert sorted[k] in multiset(found);
    }
    forall j, k | 0 <= j < k < |sorted| ensures sorted[j].outIdx != sorted[k].outIdx {
      assert sorted[j] in found && sorted[k] in found;
      if sorted[j].outIdx == sorted[k].outIdx {
        assert sorted[j] == sorted[k];
        TwiceInSorted(sorted, j, k);
        NoRepeats(found, sorted[j]);
        assert false;
      }
    }
    forall i | 0 <= i < |keys| && c.ranks(KeyHash(c.lib, keys[i])).Ok?
      ensures exists k :: 0 <= k < |sorted| && sorted[k].outIdx == i
    {
      var k :| 0 <= k < |found| && found[k].outIdx == i;
      assert found[k] in multiset(sorted);
    }
  }

  function GroupEnd(n: nat, groupStart: seq<nat>, g: nat): nat
  {
    if g + 1 < |groupStart| then groupStart[g + 1] else n
  }

  /** Entry k of the first n belongs to group g. */
  predicate InGroup(n: nat, groupStart: seq<nat>, g: nat, k: nat)
    requires g < |groupStart|
  {
    groupStart[g] <= k < GroupEnd(n, groupStart, g)
  }

  /** No group is empty, and all start before entry n. */
  ghost predicate Spans(n: nat, groupStart: seq<nat>)
  {
    && (forall g :: 0 <= g < |groupStart| ==> groupStart[g] < n)
    && (forall g :: 0 < g < |groupStart| ==> groupStart[g - 1] < groupStart[g])
  }

  lemma SpanEnds(n: nat, groupStart: seq<nat>, g: nat)
    requires Spans(n, groupStart) && g < |groupStart|
    ensures groupStart[g] < GroupEnd(n, groupStart, g) <= n
  {
    if g + 1 < |groupStart| {
      assert groupStart[g + 1] < n && groupStart[g + 1 - 1] < groupStart[g + 1];
    }
  }

  /** The first n found keys fall into one non-empty group for each distinct rank, in rank order. */
  ghost predicate Grouped(found: seq<Found>, n: nat, indices: seq<nat>, groupStart: seq<nat>)
    requires n <= |found|
  {
    && |indices| == |groupStart| && (n > 0 ==> |groupStart| > 0 && groupStart[0] == 0)
    && Spans(n, groupStart)
    && (forall g :: 0 < g < |indices| ==> indices[g - 1] < indices[g])
    && (forall g: nat, k: nat {:trigger InGroup(n, groupStart, g, k)} ::
          g < |groupStart| && k < n && InGroup(n, groupStart, g, k) ==> found[k].rank == indices[g])
  }

  /** With one more entry only the last group grows. */
  lemma EndsMove(n: nat, groupStart: seq<nat>, g: nat)
    requires g < |groupStart|
    ensures GroupEnd(n + 1, groupStart, g) == if g == |groupStart| - 1 then n + 1 else GroupEnd(n, groupStart, g)
    ensures g == |groupStart| - 1 ==> GroupEnd(n, groupStart, g) == n
  {
  }

  /** A group opened at i ends the one before it at i. */
  lemma GroupOpened(i: nat, groupStart: seq<nat>, g: nat)
    requires g <= |groupStart|
    ensures GroupEnd(i + 1, groupStart + [i], g) == if g == |groupStart| then i + 1 else GroupEnd(i, groupStart, g)
  {
  }

  lemma OpensGroup(found: seq<Found>, i: nat, indices: seq<nat>, groupStart: seq<nat>)
    requires i < |found| && Grouped(found, i, indices, groupStart)
    requires i > 0 ==> |indices| > 0 && indices[|indices| - 1] < found[i].rank
    requires i == 0 ==> indices == []
    ensures Grouped(found, i + 1, indices + [found[i].rank], groupStart + [i])
  {
    var starts := groupStart + [i];
    assert Spans(i + 1, starts);
    hide GroupEnd, Spans;
    forall g: nat, k: nat | g < |starts| && InGroup(i + 1, starts, g, k)
      ensures k <= i && found[k].rank == (indices + [found[i].rank])[g]
    {
      GroupOpened(i, groupStart, g);
      if g < |groupStart| {
        SpanEnds(i, groupStart, g);
        assert InGroup(i, groupStart, g, k);
      }
    }
  }

  lemma JoinsGroup(found: seq<Found>, i: nat, indices: seq<nat>, groupStart: seq<nat>)
    requires 0 < i < |found| && Grouped(found, i, indices, groupStart)
    requires |indices| > 0 && indices[|indices| - 1] == found[i - 1].rank == found[i].rank
    ensures Grouped(found, i + 1, indices, groupStart)
  {
    assert Spans(i + 1, groupStart);
    hide GroupEnd, Spans;
    forall g: nat, k: nat | g < |groupStart| && InGroup(i + 1, groupStart, g, k)
      ensures k <= i && found[k].rank == indices[g]
    {
      EndsMove(i, groupStart, g);
      SpanEnds(i, groupStart, g);
      if k < i {
        assert InGroup(i, groupStart, g, k);
      }
    }
  }

  /** The deduplication loop of LookupKeys. */
  method GroupRanks(found: seq<Found>) returns (indices: seq<nat>, groupStart: seq<nat>)
    requires SortedByRank(found)
    ensures Grouped(found, |found|, indices, groupStart)
    ensures forall g :: 0 <= g < |indices| ==> exists k :: 0 <= k < |found| && found[k].rank == indices[g]
  {
    indices, groupStart := [], [];
    for i := 0 to |found|
      invariant Grouped(found, i, indices, groupStart)
      invariant i > 0 ==> |indices| > 0 && indices[|indices| - 1] == found[i - 1].rank
      invariant i == 0 ==> indices == []
    {
      if i == 0 || found[i].rank != found[i - 1].rank {
        OpensGroup(found, i, indices, groupStart);
        groupStart := groupStart + [i];
        indices := indices + [found[i].rank];
      } else {
        JoinsGroup(found, i, indices, groupStart);
      }
    }
    forall g | 0 <= g < |indices| ensures exists k :: 0 <= k < |found| && found[k].rank == indices[g] {
      assert InGroup(|found|, groupStart, g, groupStart[g]);
    }
  }

  /** Every found key is in a group ... */
  lemma {:induction false} SomeGroup(found: seq<Found>, indices: seq<nat>, groupStart: seq<nat>, last: nat, k: nat)
    returns (g: nat)
    requires Grouped(found, |found|, indices, groupStart)
    requires last < |groupStart| && k < GroupEnd(|found|, groupStart, last)
    ensures g <= last && InGroup(|found|, groupStart, g, k)
    decreases last
  {
    if groupStart[last] <= k {
      g := last;
    } else {
      g := SomeGroup(found, indices, groupStart, last - 1, k);
    }
  }

  lemma {:induction false} Ascending(indices: seq<nat>, g: nat, h: nat)
    requires g < h < |indices| && forall i :: 0 < i < |indices| ==> indices[i - 1] < indices[i]
    ensures indices[g] < indices[h]
    decreases h - g
  {
    if g < h - 1 { Ascending(indices, g, h - 1); }
  }

  /** ... and in no other. */
  lemma OneGroup(found: seq<Found>, indices: seq<nat>, groupStart: seq<nat>, g: nat, h: nat, k: nat)
    requires Grouped(found, |found|, indices, groupStart) && g < |groupStart| && h < |groupStart|
    requires InGroup(|found|, groupStart, g, k) && InGroup(|found|, groupStart, h, k)
    ensures g == h
  {
    if g < h { Ascending(indices, g, h); }
    if h < g { Ascending(indices, h, g); }
  }

  /** Callbacks for different positions write different slots. */
  lemma NoSharedSlot(found: seq<Found>, indices: seq<nat>, groupStart: seq<nat>, g: nat, h: nat, j: nat, k: nat)
    requires Grouped(found, |found|, indices, groupStart) && DistinctSlots(found)
    requires g < |groupStart| && h < |groupStart| && g != h
    requires InGroup(|found|, groupStart, g, j) && InGroup(|found|, groupStart, h, k)
    ensures found[j].outIdx != found[k].outIdx
  {
    if j == k {
      OneGroup(found, indices, groupStart, g, h, k);
    }
  }

  /** What LookupKeys has worked out before it reads: the keys found, the positions to read, and which
    found keys each position stands for. */
  datatype Plan = Plan(found: seq<Found>, indices: seq<nat>, groupStart: seq<nat>)

  ghost predicate Planned(c: Source, keys: seq<FieldKey>, plan: Plan)
  {
    && (forall i :: 0 <= i < |keys| ==> !Unanswered(c, keys[i]))
    && AllStand(c, keys, plan.found) && DistinctSlots(plan.found) && NoneMissed(c, keys, |keys|, plan.found)
    && Grouped(plan.found, |plan.found|, plan.indices, plan.groupStart)
    && ValidPositions(plan.indices, c.o.totalItems)
  }

  /** LookupKeys up to the read; without a key found there is nothing to read. */
  method PlanLookup(c: Source, keys: seq<FieldKey>) returns (plan: Plan, e: Option<Error>)
    requires c.Valid()
    ensures e.Some? <==> exists i :: 0 <= i < |keys| && Unanswered(c, keys[i])
    ensures e.Some? ==> e == Some(Query)
    ensures e.None? ==> Planned(c, keys, plan)
    ensures e.None? && |plan.found| == 0 ==> |plan.indices| == 0
  {
    hide Unanswered, Opened.Sound, Opened.Complete, Env.Valid, NoneMissed, KeyHash;
    var unsorted;
    unsorted, e := FindKeys(c, keys);
    plan := Plan(unsorted, [], []);
    if e.Some? || |unsorted| == 0 {
      return;
    }
    var found := SortByRank(unsorted);
    SortedStill(c, keys, unsorted, found);
    var indices, groupStart := GroupRanks(found);
    plan := Plan(found, indices, groupStart);
  }

  // ---------------------------------------------------------------- scattering the results

  type Output = seq<Option<Bitmap>>

  /** What a slot gets from an entry: nothing, when the fingerprint is another key's. */
  function SlotValue(lib: Library, data: Item, hk: Hash): Option<Bitmap>
  {
    var r := VerifyEntry(lib, data, hk);
    if r.Ok? then Some(r.value) else None
  }

  function SlotAfter(lib: Library, data: Item, hk: Hash, before: Option<Bitmap>): Option<Bitmap>
  {
    var v := SlotValue(lib, data, hk);
    if v.Some? then v else before
  }

  /** The callback fails: an entry with the right fingerprint does not deserialize. */
  ghost predicate CallbackFails(lib: Library, found: seq<Found>, groupStart: seq<nat>, idx: nat, data: Item)
    requires idx < |groupStart|
  {
    exists k: nat :: InGroup(|found|, groupStart, idx, k) && k < |found|
      && VerifyEntry(lib, data, found[k].hk) == Err(Deserialize)
  }

  /** Output slot i is one of those the callback for `idx` writes. */
  ghost predicate Targets(found: seq<Found>, groupStart: seq<nat>, idx: nat, i: nat)
    requires idx < |groupStart|
  {
    exists k: nat :: k < |found| && InGroup(|found|, groupStart, idx, k) && found[k].outIdx == i
  }

  /** The output after the callback for position `idx` has run on `data`. */
  ghost predicate CalledBack(lib: Library, found: seq<Found>, groupStart: seq<nat>, idx: nat, data: Item,
                             before: Output, after: Output)
    requires idx < |groupStart|
  {
    && |after| == |before|
    && (forall k: nat :: k < |found| && InGroup(|found|, groupStart, idx, k) && found[k].outIdx < |after| ==>
          after[found[k].outIdx] == SlotAfter(lib, data, found[k].hk, before[found[k].outIdx]))
    && (forall i: nat :: i < |after| && !Targets(found, groupStart, idx, i) ==> after[i] == before[i])
  }

  lemma GroupBounds(found: seq<Found>, indices: seq<nat>, groupStart: seq<nat>, g: nat)
    requires Grouped(found, |found|, indices, groupStart) && g < |groupStart|
    ensures groupStart[g] < GroupEnd(|found|, groupStart, g) <= |found|
  {
  }

  ghost predicate Hit(found: seq<Found>, from: nat, end: nat, i: nat)
    requires end <= |found|
  {
    exists j :: from <= j < end && found[j].outIdx == i
  }

  /** The output once the callback has dealt with entries start .. k - 1. */
  ghost predicate Partial(lib: Library, found: seq<Found>, start: nat, k: nat, data: Item, before: Output, after: Output)
    requires k <= |found|
  {
    && |after| == |before|
    && (forall j :: start <= j < k && found[j].outIdx < |after| ==>
          after[found[j].outIdx] == SlotAfter(lib, data, found[j].hk, before[found[j].outIdx]))
    && (forall i: nat :: i < |after| && !Hit(found, start, k, i) ==> after[i] == before[i])
  }

  lemma NothingYet(lib: Library, found: seq<Found>, start: nat, data: Item, before: Output)
    requires start <= |found|
    ensures Partial(lib, found, start, start, data, before, before)
  {
  }

  lemma HitNext(found: seq<Found>, from: nat, k: nat)
    requires from <= k < |found|
    ensures forall i: nat :: Hit(found, from, k, i) || i == found[k].outIdx ==> Hit(found, from, k + 1, i)
  {
    forall i: nat | Hit(found, from, k, i) ensures Hit(found, from, k + 1, i) {
      var j :| from <= j < k && found[j].outIdx == i;
      assert found[j].outIdx == i;
    }
    assert Hit(found, from, k + 1, found[k].outIdx);
  }

  lemma PartialStep(lib: Library, found: seq<Found>, start: nat, k: nat, data: Item, before: Output, now: Output)
    requires start <= k < |found| && DistinctSlots(found) && found[k].outIdx < |now|
    requires Partial(lib, found, start, k, data, before, now)
    ensures var o := found[k].outIdx;
      Partial(lib, found, start, k + 1, data, before, now[o := SlotAfter(lib, data, found[k].hk, now[o])])
    ensures var r := VerifyEntry(lib, data, found[k].hk);
      SlotAfter(lib, data, found[k].hk, now[found[k].outIdx]) == if r.Ok? then Some(r.value) else now[found[k].outIdx]
  {
    hide VerifyEntry;
    assert !Hit(found, start, k, found[k].outIdx);
    HitNext(found, start, k);
  }

  lemma PartialFrame(lib: Library, found: seq<Found>, groupStart: seq<nat>, idx: nat, k: nat, data: Item,
                     before: Output, after: Output)
    requires idx < |groupStart| && k <= GroupEnd(|found|, groupStart, idx) <= |found|
    requires Partial(lib, found, groupStart[idx], k, data, before, after)
    ensures |after| == |before|
    ensures forall i: nat :: i < |after| && !Targets(found, groupStart, idx, i) ==> after[i] == before[i]
  {
    forall i: nat | i < |after| && Hit(found, groupStart[idx], k, i) ensures Targets(found, groupStart, idx, i) {
      var j :| groupStart[idx] <= j < k && found[j].outIdx == i;
      assert InGroup(|found|, groupStart, idx, j);
    }
  }

  lemma PartialDone(lib: Library, found: seq<Found>, groupStart: seq<nat>, idx: nat, data: Item,
                    before: Output, after: Output)
    requires idx < |groupStart| && GroupEnd(|found|, groupStart, idx) <= |found|
    requires Partial(lib, found, groupStart[idx], GroupEnd(|found|, groupStart, idx), data, before, after)
    ensures CalledBack(lib, found, groupStart, idx, data, before, after)
  {
    hide SlotAfter;
    PartialFrame(lib, found, groupStart, idx, GroupEnd(|found|, groupStart, idx), data, before, after);
  }

  lemma OnlyTwoErrors(lib: Library, data: Item, hk: Hash)
    ensures VerifyEntry(lib, data, hk).Err? ==> VerifyEntry(lib, data, hk).error in {KeyNotFound, Deserialize}
  {
  }

  /** The callback LookupKeys passes to ReadItems. */
  method Callback(lib: Library, found: seq<Found>, indices: seq<nat>, groupStart: seq<nat>, idx: nat, data: Item,
                  out: array<Option<Bitmap>>) returns (e: Option<Error>)
    requires Grouped(found, |found|, indices, groupStart) && DistinctSlots(found) && idx < |groupStart|
    requires forall k :: 0 <= k < |found| ==> found[k].outIdx < out.Length
    modifies out
    ensures e.Some? <==> CallbackFails(lib, found, groupStart, idx, data)
    ensures e.None? ==> CalledBack(lib, found, groupStart, idx, data, old(out[..]), out[..])
    ensures forall i: nat :: i < out.Length && !Targets(found, groupStart, idx, i) ==> out[i] == old(out[i])
  {
    hide VerifyEntry, SlotAfter, Partial, Grouped, CalledBack;
    var start := groupStart[idx];
    var end := if idx + 1 < |groupStart| then groupStart[idx + 1] else |found|;
    GroupBounds(found, indices, groupStart, idx);
    ghost var before := out[..];
    NothingYet(lib, found, start, data, before);
    for k := start to end
      invariant Partial(lib, found, start, k, data, before, out[..])
      invariant forall j :: start <= j < k ==> VerifyEntry(lib, data, found[j].hk) != Err(Deserialize)
    {
      ghost var now := out[..];
      PartialStep(lib, found, start, k, data, before, now);
      var r := VerifyEntry(lib, data, found[k].hk);
      OnlyTwoErrors(lib, data, found[k].hk);
      if r.Err? {
        if r.error == KeyNotFound {
          assert now[found[k].outIdx := now[found[k].outIdx]] == now;
          continue;
        }
        PartialFrame(lib, found, groupStart, idx, k, data, before, now);
        assert InGroup(|found|, groupStart, idx, k);
        return Some(r.error);
      }
      out[found[k].outIdx] := Some(r.value);
      assert out[..] == now[found[k].outIdx := Some(r.value)];
    }
    PartialFrame(lib, found, groupStart, idx, end, data, before, out[..]);
    PartialDone(lib, found, groupStart, idx, data, before, out[..]);
    e := None;
  }

  /** The outputs after callbacks for the positions delivered, in the order of delivery. */
  ghost predicate Scattered(lib: Library, found: seq<Found>, groupStart: seq<nat>, delivered: seq<nat>, items: seq<Item>,
                            outs: seq<Output>)
  {
    && |items| == |delivered| && |outs| == |delivered| + 1
    && (forall i :: 0 <= i < |outs[0]| ==> outs[0][i].None?)
    && (forall j :: 0 <= j < |delivered| ==> delivered[j] < |groupStart|)
    && (forall j :: 0 <= j < |delivered| ==>
          CalledBack(lib, found, groupStart, delivered[j], items[j], outs[j], outs[j + 1]))
  }

  lemma {:induction false} SameLength(lib: Library, found: seq<Found>, groupStart: seq<nat>, delivered: seq<nat>,
                                      items: seq<Item>, outs: seq<Output>, n: nat)
    requires Scattered(lib, found, groupStart, delivered, items, outs) && n <= |delivered|
    ensures |outs[n]| == |outs[0]|
  {
    if n > 0 {
      SameLength(lib, found, groupStart, delivered, items, outs, n - 1);
      assert CalledBack(lib, found, groupStart, delivered[n - 1], items[n - 1], outs[n - 1], outs[n]);
    }
  }

  /** Position g is among the first n delivered. */
  ghost predicate Among(delivered: seq<nat>, n: nat, g: nat)
    requires n <= |delivered|
  {
    exists j :: 0 <= j < n && delivered[j] == g
  }

  /** A slot keeps None until its position is delivered, and then holds what the entry gives it. */
  lemma {:induction false} SlotHistory(c: Source, found: seq<Found>, indices: seq<nat>, groupStart: seq<nat>,
                                       delivered: seq<nat>, items: seq<Item>, outs: seq<Output>, n: nat, g: nat, k: nat)
    requires Grouped(found, |found|, indices, groupStart) && DistinctSlots(found)
    requires Scattered(c.lib, found, groupStart, delivered, items, outs) && n <= |delivered|
    requires forall i, j :: 0 <= i < j < |delivered| ==> delivered[i] != delivered[j]
    requires g < |groupStart| && k < |found| && InGroup(|found|, groupStart, g, k) && found[k].outIdx < |outs[0]|
    ensures |outs[n]| == |outs[0]|
    ensures !Among(delivered, n, g) ==> outs[n][found[k].outIdx].None?
    ensures forall j :: 0 <= j < n && delivered[j] == g ==>
      (outs[n][found[k].outIdx] == SlotValue(c.lib, items[j], found[k].hk))
  {
    hide SlotValue;
    if n > 0 {
      SlotHistory(c, found, indices, groupStart, delivered, items, outs, n - 1, g, k);
      var m, i := n - 1, found[k].outIdx;
      assert CalledBack(c.lib, found, groupStart, delivered[m], items[m], outs[m], outs[m + 1]);
      if delivered[m] != g {
        if Targets(found, groupStart, delivered[m], i) {
          var j: nat :| j < |found| && InGroup(|found|, groupStart, delivered[m], j) && found[j].outIdx == i;
          NoSharedSlot(found, indices, groupStart, delivered[m], g, j, k);
        }
        assert outs[n][i] == outs[m][i];
      } else {
        assert !Among(delivered, m, g);
      }
    }
  }

  /** Slots that stand for no found key stay None. */
  lemma {:induction false} UnfoundSlot(c: Source, found: seq<Found>, groupStart: seq<nat>,
                                       delivered: seq<nat>, items: seq<Item>, outs: seq<Output>, n: nat, i: nat)
    requires Scattered(c.lib, found, groupStart, delivered, items, outs) && n <= |delivered|
    requires i < |outs[0]| && forall k :: 0 <= k < |found| ==> found[k].outIdx != i
    ensures |outs[n]| == |outs[0]| && outs[n][i].None?
  {
    if n > 0 {
      UnfoundSlot(c, found, groupStart, delivered, items, outs, n - 1, i);
      assert CalledBack(c.lib, found, groupStart, delivered[n - 1], items[n - 1], outs[n - 1], outs[n]);
    }
  }

  /** A result as LookupKeys reports it: nil for a missing key. */
  function Answer(r: Result<Bitmap>): Option<Bitmap>
  {
    if r.Ok? then Some(r.value) else None
  }

  /** One key's slot, after any complete read, is what Lookup answers for that key. */
  lemma SlotIsLookup(c: Source, keys: seq<FieldKey>, found: seq<Found>, indices: seq<nat>, groupStart: seq<nat>,
                     delivered: seq<nat>, items: seq<Item>, outs: seq<Output>, i: nat)
    requires c.Valid() && i < |keys| && !Unanswered(c, keys[i])
    requires AllStand(c, keys, found) && DistinctSlots(found) && NoneMissed(c, keys, |keys|, found)
    requires Grouped(found, |found|, indices, groupStart) && ValidPositions(indices, c.o.totalItems)
    requires Scattered(c.lib, found, groupStart, delivered, items, outs) && |outs[0]| == |keys|
    requires forall j, k :: 0 <= j < k < |delivered| ==> delivered[j] != delivered[k]
    requires forall g :: 0 <= g < |indices| ==> g in delivered
    requires forall j :: 0 <= j < |delivered| ==> ItemOf(c.env, c.o, c.file, indices[delivered[j]]) == Ok(items[j])
    requires forall j :: 0 <= j < |delivered| ==> !CallbackFails(c.lib, found, groupStart, delivered[j], items[j])
    ensures |outs[|delivered|]| == |keys|
    ensures var r := LookupOf(c, keys[i].field, keys[i].key);
      outs[|delivered|][i] == Answer(r) && (r.Err? ==> r.error == KeyNotFound)
  {
    hide ItemOf, Opened.Sound, Opened.Complete, Env.Valid, VerifyEntry, ValidPositions, ComposeKey;
    var hk := KeyHash(c.lib, keys[i]);
    if c.ranks(hk).Err? {
      assert forall k :: 0 <= k < |found| ==> Stands(c, keys, found[k]);
      UnfoundSlot(c, found, groupStart, delivered, items, outs, |delivered|, i);
    } else {
      var k :| 0 <= k < |found| && found[k].outIdx == i;
      assert Stands(c, keys, found[k]);
      var g := SomeGroup(found, indices, groupStart, |groupStart| - 1, k);
      assert g in delivered;
      var j :| 0 <= j < |delivered| && delivered[j] == g;
      SlotHistory(c, found, indices, groupStart, delivered, items, outs, |delivered|, g, k);
      assert indices[g] == found[k].rank;
      OnlyTwoErrors(c.lib, items[j], hk);
      assert VerifyEntry(c.lib, items[j], found[k].hk) != Err(Deserialize);
    }
  }

  /** `out` is what the callbacks have left behind when one run of the read protocol has ended without an
    error and no callback has failed. */
  ghost predicate FromRead(c: Source, keys: seq<FieldKey>, plan: Plan, cfg: P.Config, s: P.State,
                           schedule: seq<(nat, P.Event)>, outs: seq<Output>, out: Output)
  {
    && cfg.Valid() && cfg.env == c.env && cfg.o == c.o && cfg.file == c.file && cfg.positions == plan.indices
    && P.Initial(s) && |s.workers| > 0 && P.Inv(cfg, s)
    && var t := P.Run(cfg, s, schedule);
    && P.Finished(t) && t.firstErr.None?
    && Scattered(c.lib, plan.found, plan.groupStart, t.delivered, t.items, outs) && |outs[0]| == |keys|
    && (forall j :: 0 <= j < |t.delivered| ==>
          !CallbackFails(c.lib, plan.found, plan.groupStart, t.delivered[j], t.items[j]))
    && out == outs[|t.delivered|]
  }

  /** LookupKeys returns `out`: at once, all nil, when no key has a rank (an empty list included), and
    otherwise after some run of the read. */
  ghost predicate Returned(c: Source, keys: seq<FieldKey>, plan: Plan, out: Output)
  {
    if |plan.found| == 0 then |out| == |keys| && forall i :: 0 <= i < |out| ==> out[i].None?
    else exists cfg, s, schedule, outs :: FromRead(c, keys, plan, cfg, s, schedule, outs, out)
  }

  /** Slot i of the output is what Lookup answers for key i; a missing key is nil. */
  ghost predicate Agrees(c: Source, keys: seq<FieldKey>, out: Output, i: nat)
    requires c.Valid() && i < |keys| == |out|
  {
    var r := LookupOf(c, keys[i].field, keys[i].key);
    out[i] == Answer(r) && (r.Err? ==> r.error == KeyNotFound)
  }

  lemma NothingFound(c: Source, keys: seq<FieldKey>, plan: Plan, out: Output, i: nat)
    requires c.Valid() && Planned(c, keys, plan) && |plan.found| == 0
    requires i < |keys| == |out| && out[i].None?
    ensures Agrees(c, keys, out, i)
  {
    assert c.ranks(KeyHash(c.lib, keys[i])) == Err(KeyNotFound) by {
      assert !Unanswered(c, keys[i]);
    }
  }

  lemma ReadAgrees(c: Source, keys: seq<FieldKey>, plan: Plan, cfg: P.Config, s: P.State,
                   schedule: seq<(nat, P.Event)>, outs: seq<Output>, out: Output)
    requires c.Valid() && Planned(c, keys, plan) && FromRead(c, keys, plan, cfg, s, schedule, outs, out)
    ensures |out| == |keys| && forall i :: 0 <= i < |keys| ==> Agrees(c, keys, out, i)
  {
    hide ItemOf, Opened.Sound, Opened.Complete, Env.Valid, LookupOf, CallbackFails, CalledBack, P.Inv, Unanswered,
      P.Config.Valid, P.Run;
    P.EveryRun(cfg, s, schedule);
    var t := P.Run(cfg, s, schedule);
    SameLength(c.lib, plan.found, plan.groupStart, t.delivered, t.items, outs, |t.delivered|);
    forall i | 0 <= i < |keys| ensures Agrees(c, keys, out, i) {
      SlotIsLookup(c, keys, plan.found, plan.indices, plan.groupStart, t.delivered, t.items, outs, i);
    }
  }

  /** LookupKeys equals Lookup, key by key, for every key list (repeated keys, missing keys, keys that
    share a rank, no keys at all) and every interleaving of the workers that read the records. */
  lemma LookupKeysExact(c: Source, keys: seq<FieldKey>, plan: Plan, out: Output)
    requires c.Valid() && Planned(c, keys, plan) && Returned(c, keys, plan, out)
    ensures |out| == |keys| && forall i :: 0 <= i < |keys| ==> Agrees(c, keys, out, i)
  {
    hide ItemOf, Source.Valid, Agrees, FromRead, Unanswered, LookupOf;
    if |plan.found| == 0 {
      forall i | 0 <= i < |keys| ensures Agrees(c, keys, out, i) {
        NothingFound(c, keys, plan, out, i);
      }
    } else {
      var cfg, s, schedule, outs :| FromRead(c, keys, plan, cfg, s, schedule, outs, out);
      ReadAgrees(c, keys, plan, cfg, s, schedule, outs, out);
    }
  }

  /** On a written index no callback fails, whatever keys are asked for. */
  lemma CallbackWorks(c: Source, s: Settings, bitmaps: map<Hash, Bitmap>, entries: seq<Item>,
                      found: seq<Found>, groupStart: seq<nat>, idx: nat, rank: nat, data: Item)
    requires Indexed(c, s, bitmaps, entries) && rank < |entries| && ItemOf(c.env, c.o, c.file, rank) == Ok(data)
    requires idx < |groupStart|
    ensures !CallbackFails(c.lib, found, groupStart, idx, data)
  {
    hide FileOf, OpenedFile, ItemOf, Opened.Sound, Opened.Complete, Writable, VerifyEntry;
    SlotRead(c, s, bitmaps, entries, rank);
    var g := RanksCover(c.ranks, bitmaps.Keys, rank);
    assert data == EntryBytes(c.lib, g, bitmaps[g]);
    forall hk: Hash ensures VerifyEntry(c.lib, data, hk) != Err(Deserialize) {
      EntryVerified(c.lib, g, bitmaps[g], hk);
    }
  }

  lemma PositionsRead(c: Source, s: Settings, bitmaps: map<Hash, Bitmap>, entries: seq<Item>, positions: seq<nat>)
    requires Indexed(c, s, bitmaps, entries) && ValidPositions(positions, c.o.totalItems)
    ensures forall k :: 0 <= k < |positions| ==> ItemOf(c.env, c.o, c.file, positions[k]).Ok?
  {
    IndexTotal(c, s, bitmaps, entries);
    forall k | 0 <= k < |positions| ensures ItemOf(c.env, c.o, c.file, positions[k]).Ok? {
      hide Indexed, ItemOf, Opened.Sound;
      SlotRead(c, s, bitmaps, entries, positions[k]);
    }
  }

  lemma DeliveryWorks(c: Source, s: Settings, bitmaps: map<Hash, Bitmap>, entries: seq<Item>, plan: Plan, g: nat, item: Item)
    requires Indexed(c, s, bitmaps, entries) && |plan.groupStart| == |plan.indices| && g < |plan.indices|
    requires ItemOf(c.env, c.o, c.file, plan.indices[g]) == Ok(item) && plan.indices[g] < c.o.totalItems
    ensures !CallbackFails(c.lib, plan.found, plan.groupStart, g, item)
  {
    IndexTotal(c, s, bitmaps, entries);
    hide Indexed, ItemOf, Opened.Sound, CallbackFails;
    CallbackWorks(c, s, bitmaps, entries, plan.found, plan.groupStart, g, plan.indices[g], item);
  }

  /** A valid request reads positions of the opened file only. */
  lemma RequestValid(cfg: P.Config)
    requires cfg.Valid()
    ensures ValidPositions(cfg.positions, cfg.o.totalItems)
  {
  }

  /** On a written index a read without faults returns no error: every position asked for can be read, and no
    callback fails. So LookupKeys finishes, whatever keys are asked for. */
  lemma HealthyLookup(c: Source, s: Settings, bitmaps: map<Hash, Bitmap>, entries: seq<Item>, plan: Plan,
                      cfg: P.Config, start: P.State, schedule: seq<(nat, P.Event)>)
    requires Indexed(c, s, bitmaps, entries) && |plan.groupStart| == |plan.indices|
    requires cfg.Valid() && cfg.env == c.env && cfg.o == c.o && cfg.file == c.file && cfg.positions == plan.indices
    requires P.Initial(start) && |start.workers| > 0 && forall i :: 0 <= i < |schedule| ==> schedule[i].1.Proceed?
    ensures P.Inv(cfg, start)
    ensures var t := P.Run(cfg, start, schedule);
      && t.firstErr.None? && |t.items| == |t.delivered|
      && (forall j :: 0 <= j < |t.delivered| ==>
            t.delivered[j] < |plan.groupStart|
            && !CallbackFails(c.lib, plan.found, plan.groupStart, t.delivered[j], t.items[j]))
  {
    RequestValid(cfg);
    PositionsRead(c, s, bitmaps, entries, plan.indices);
    hide Indexed, ItemOf, Opened.Sound, CallbackFails, P.Inv, P.Config.Valid, P.Run, P.Initial;
    P.HealthyRead(cfg, start, schedule);
    P.EveryRun(cfg, start, schedule);
    var t := P.Run(cfg, start, schedule);
    forall j | 0 <= j < |t.delivered|
      ensures t.delivered[j] < |plan.groupStart|
      ensures !CallbackFails(c.lib, plan.found, plan.groupStart, t.delivered[j], t.items[j])
    {
      DeliveryWorks(c, s, bitmaps, entries, plan, t.delivered[j], t.items[j]);
    }
  }

  // ---------------------------------------------------------------- from events to answers

  /** What the sizes of an index must be for the packfile to hold it. */
  ghost predicate FitsPack(env: Env, s: Settings, entries: seq<Item>, file: seq<byte>)
    requires s.Valid()
  {
    && s.itemsPerRecord < TWO32 && Small(entries) && |Flatten(entries)| < TWO63 && |file| < TWO63
    && |IndexBytes(env.crc, Deltas(OffsetsOf(RecordsOf(env, s, ChunksOf(entries, s.itemsPerRecord)))))| < TWO32
  }

  lemma PlacedSize(lib: Library, ranks: Ranking, bitmaps: map<Hash, Bitmap>, entries: seq<Item>)
    requires Placed(lib, ranks, bitmaps, entries)
    ensures |entries| == |bitmaps|
  {
  }

  /** What Finish has written opens, and the opened file is that index. */
  lemma FinishedIndexOpens(env: Env, lib: Library, ranks: Ranking, s: Settings, bitmaps: map<Hash, Bitmap>,
                           entries: seq<Item>, file: seq<byte>)
    requires env.Valid() && lib.Valid() && s.Valid() && FitsPack(env, s, entries, file)
    requires Placed(lib, ranks, bitmaps, entries) && FileOf(env, s, entries, []) == Ok(file)
    requires forall h :: ranks(h).Ok? ==> ranks(h).value < |bitmaps|
    ensures OpenedFile(env, file).Ok?
    ensures Indexed(Source(env, lib, ranks, OpenedFile(env, file).value, file), s, bitmaps, entries)
  {
    hide FileOf, OpenedFile, Opened.Sound, Opened.Complete, Placed, RecordsOf, OffsetsOf, IndexBytes, Deltas, Small,
      Flatten, Env.Valid, Library.Valid, ChunksOf;
    FileOpens(env, s, entries, []);
    assert |entries| == |bitmaps| by { PlacedSize(lib, ranks, bitmaps, entries); }
  }

  /** What a lookup may answer for a key, given the events added: the ordinals of the naive scan; for a key
    never added nil, unless its hash shares rank and fingerprint with a stored key. */
  ghost predicate RightAnswer(c: Source, adds: seq<(Subject, uint32)>, bitmaps: map<Hash, Bitmap>, k: FieldKey,
                              answer: Option<Bitmap>)
  {
    var scan, hk := NaiveScan(adds, k.field, k.key), c.lib.prehash(k.key + [k.field]);
    if scan != {} then answer == Some(scan)
    else answer.Some? <==> c.ranks(hk).Ok? && SharesSlot(c, bitmaps, hk)
  }

  /** Lookup answers rightly for every key that no other added key collides with. */
  ghost predicate LookupsRight(c: Source, adds: seq<(Subject, uint32)>, bitmaps: map<Hash, Bitmap>)
    requires c.Valid()
  {
    forall k: FieldKey :: NoCollision(c.lib, adds, k.field, k.key) ==>
      RightAnswer(c, adds, bitmaps, k, Answer(LookupOf(c, k.field, k.key)))
  }

  ghost predicate AllRight(c: Source, adds: seq<(Subject, uint32)>, bitmaps: map<Hash, Bitmap>, keys: seq<FieldKey>, out: Output)
  {
    |out| == |keys|
    && forall i :: 0 <= i < |keys| && NoCollision(c.lib, adds, keys[i].field, keys[i].key) ==>
         RightAnswer(c, adds, bitmaps, keys[i], out[i])
  }

  /** So does LookupKeys for any list, in every slot. */
  ghost predicate ListsRight(c: Source, adds: seq<(Subject, uint32)>, bitmaps: map<Hash, Bitmap>)
  {
    forall keys: seq<FieldKey>, plan: Plan, out: Output :: Planned(c, keys, plan) && Returned(c, keys, plan, out) ==>
      AllRight(c, adds, bitmaps, keys, out)
  }

  lemma LookupRight(c: Source, s: Settings, adds: seq<(Subject, uint32)>, bitmaps: map<Hash, Bitmap>, entries: seq<Item>,
                    k: FieldKey)
    requires Indexed(c, s, bitmaps, entries) && Collected(c.lib, adds, bitmaps) && NoCollision(c.lib, adds, k.field, k.key)
    ensures c.Valid() && RightAnswer(c, adds, bitmaps, k, Answer(LookupOf(c, k.field, k.key)))
  {
    IndexedValid(c, s, bitmaps, entries);
    hide Indexed, Collected, NoCollision, LookupOf, SharesSlot, NaiveScan;
    LookupAgreesWithScan(c, s, adds, bitmaps, entries, k.field, k.key);
  }

  lemma SomeCollision(lib: Library, adds: seq<(Subject, uint32)>, f: byte, key: seq<byte>)
    returns (i: nat, g: byte, other: seq<byte>)
    requires !NoCollision(lib, adds, f, key)
    ensures Collides(lib, adds, f, key, i, g, other)
  {
    hide Collides;
    i, g, other :| Collides(lib, adds, f, key, i, g, other);
  }

  /** Lookup answers rightly, or two different byte strings, a key and its field byte each, have one hash:
    those of the key looked up and of a term that was added. The lemma returns that term. */
  lemma LookupOrCollision(c: Source, s: Settings, adds: seq<(Subject, uint32)>, bitmaps: map<Hash, Bitmap>,
                          entries: seq<Item>, k: FieldKey) returns (i: nat, g: byte, other: seq<byte>)
    requires Indexed(c, s, bitmaps, entries) && Collected(c.lib, adds, bitmaps)
    ensures c.Valid()
    ensures RightAnswer(c, adds, bitmaps, k, Answer(LookupOf(c, k.field, k.key)))
      || (i < |adds| && HasTerm(adds[i].0, g, other)
          && other + [g] != k.key + [k.field] && c.lib.prehash(other + [g]) == c.lib.prehash(k.key + [k.field]))
  {
    IndexedValid(c, s, bitmaps, entries);
    hide Indexed, Collected, LookupOf, RightAnswer, HasTerm, NoCollision, Source.Valid;
    i, g, other := 0, 0, [];
    if NoCollision(c.lib, adds, k.field, k.key) {
      LookupRight(c, s, adds, bitmaps, entries, k);
    } else {
      i, g, other := SomeCollision(c.lib, adds, k.field, k.key);
    }
  }

  lemma ListRight(c: Source, s: Settings, adds: seq<(Subject, uint32)>, bitmaps: map<Hash, Bitmap>, entries: seq<Item>,
                  keys: seq<FieldKey>, plan: Plan, out: Output)
    requires Indexed(c, s, bitmaps, entries) && Collected(c.lib, adds, bitmaps)
    requires c.Valid() && Planned(c, keys, plan) && Returned(c, keys, plan, out)
    ensures AllRight(c, adds, bitmaps, keys, out)
  {
    hide Indexed, Source.Valid, RightAnswer, NoCollision, Planned, Returned, LookupOf, Collected;
    LookupKeysExact(c, keys, plan, out);
    forall i | 0 <= i < |keys| && NoCollision(c.lib, adds, keys[i].field, keys[i].key)
      ensures RightAnswer(c, adds, bitmaps, keys[i], out[i])
    {
      assert Agrees(c, keys, out, i);
      LookupRight(c, s, adds, bitmaps, entries, keys[i]);
    }
  }

  lemma AnswersRight(c: Source, s: Settings, adds: seq<(Subject, uint32)>, bitmaps: map<Hash, Bitmap>, entries: seq<Item>)
    requires Indexed(c, s, bitmaps, entries) && Collected(c.lib, adds, bitmaps)
    ensures c.Valid() && LookupsRight(c, adds, bitmaps) && ListsRight(c, adds, bitmaps)
  {
    IndexedValid(c, s, bitmaps, entries);
    hide Indexed, Source.Valid, RightAnswer, NoCollision, Planned, Returned, LookupOf, Collected, AllRight;
    forall k: FieldKey | NoCollision(c.lib, adds, k.field, k.key)
      ensures RightAnswer(c, adds, bitmaps, k, Answer(LookupOf(c, k.field, k.key)))
    {
      LookupRight(c, s, adds, bitmaps, entries, k);
    }
    forall keys: seq<FieldKey>, plan: Plan, out: Output | Planned(c, keys, plan) && Returned(c, keys, plan, out)
      ensures AllRight(c, adds, bitmaps, keys, out)
    {
      ListRight(c, s, adds, bitmaps, entries, keys, plan, out);
    }
  }

  /** From the events added to the answers: the events are collected and the index finished, the packfile
    opens, Lookup gives the right answer for every key no other added key collides with, and so does
    LookupKeys in every slot, whatever the interleaving of its reads. */
  lemma IndexAnswers(env: Env, lib: Library, ranks: Ranking, s: Settings, adds: seq<(Subject, uint32)>,
                     bitmaps: map<Hash, Bitmap>, entries: seq<Item>, file: seq<byte>)
    requires env.Valid() && lib.Valid() && s.Valid() && FitsPack(env, s, entries, file)
    requires Collected(lib, adds, bitmaps)
    requires Placed(lib, ranks, bitmaps, entries) && FileOf(env, s, entries, []) == Ok(file)
    requires forall h :: ranks(h).Ok? ==> ranks(h).value < |bitmaps|
    ensures OpenedFile(env, file).Ok?
    ensures var c := Source(env, lib, ranks, OpenedFile(env, file).value, file);
      c.Valid() && LookupsRight(c, adds, bitmaps) && ListsRight(c, adds, bitmaps)
  {
    hide OpenedFile, FileOf, Placed, FitsPack, Collected, Indexed, Source.Valid, LookupsRight, ListsRight, Env.Valid,
      Library.Valid;
    FinishedIndexOpens(env, lib, ranks, s, bitmaps, entries, file);
    AnswersRight(Source(env, lib, ranks, OpenedFile(env, file).value, file), s, adds, bitmaps, entries);
  }
}
