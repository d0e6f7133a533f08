/** The bitmap index, writing: ordinals are collected per hashed key, and every key's bitmap is
  stored at the key's rank in a packfile. */
module BitmapWriter {
  import opened Bytes
  import opened Results
  import opened Environment
  import opened Records
  import opened SealedFile
  import opened PackWriter

  /** A 128-bit key hash. */
  type Hash = h: seq<byte> | |h| == 16 witness [0, 0, 0, 0, 0, 0, 0, 0, 0, 0, 0, 0, 0, 0, 0, 0]

  type Bitmap = set<uint32>

  /** The libraries for hashing and bitmaps; `Valid` is what is assumed of them. */
  datatype Library = Library(
    prehash: seq<byte> -> Hash,
    serialize: Bitmap -> seq<byte>,
    deserialize: seq<byte> -> Option<Bitmap>)
  {
    ghost predicate Valid()
    {
      forall b :: deserialize(serialize(b)) == Some(b)
    }
  }

  /** A minimal perfect hash function: the rank of a key, KeyNotFound, or another failure. */
  type Ranking = Hash -> Result<nat>

  ghost predicate Bijection(ranks: Ranking, keys: set<Hash>)
  {
    && (forall h :: h in keys ==> ranks(h).Ok? && ranks(h).value < |keys|)
    && (forall h, g :: h in keys && g in keys && ranks(h) == ranks(g) ==> h == g)
  }

  const FINGERPRINT_SIZE := 4
  const FIELD_CONTRACT_ID := 1
  const FIELD_TOPIC0 := 2
  const FIELD_COUNT := 6
  const DEFAULT_BATCH_SIZE := 128

  /** The fields of an event that are indexed. */
  datatype Subject = Subject(contractId: Option<seq<byte>>, topics: seq<seq<byte>>)

  /** composeKey */
  function ComposeKey(f: byte, key: seq<byte>): seq<byte>
  {
    key + [f]
  }

  /** What is hashed tells field and key: no two terms share it. */
  lemma TermsDistinct(f: byte, key: seq<byte>, g: byte, other: seq<byte>)
    ensures ComposeKey(f, key) == ComposeKey(g, other) <==> f == g && key == other
    ensures ComposeKey(f, key) == key + [f]
  {
    if ComposeKey(f, key) == ComposeKey(g, other) {
      assert (key + [f])[..|key|] == key && (other + [g])[..|other|] == other;
      assert (key + [f])[|key|] == f && (other + [g])[|other|] == g;
    }
  }

  // ---------------------------------------------------------------- the naive scan

  /** The event has this key in this field: 1 is the contract ID, 2 to 5 are the first four topics. */
  predicate HasTerm(ev: Subject, f: byte, key: seq<byte>)
  {
    || (f == 1 && ev.contractId == Some(key))
    || (2 <= f <= 5 && f - 2 < |ev.topics| && ev.topics[f - 2] == key)
  }

  /** The ordinals of the events that have this key in this field. */
  ghost function NaiveScan(adds: seq<(Subject, uint32)>, f: byte, key: seq<byte>): Bitmap
  {
    set i | 0 <= i < |adds| && HasTerm(adds[i].0, f, key) :: adds[i].1
  }

  /** One of the event's terms hashes to h. */
  ghost predicate HashesTo(lib: Library, ev: Subject, h: Hash)
  {
    exists f: byte, key: seq<byte> :: HasTerm(ev, f, key) && lib.prehash(ComposeKey(f, key)) == h
  }

  /** The ordinals collected under h. */
  ghost function BitmapOf(lib: Library, adds: seq<(Subject, uint32)>, h: Hash): Bitmap
  {
    set i | 0 <= i < |adds| && HashesTo(lib, adds[i].0, h) :: adds[i].1
  }

  /** A term that was added, a byte string different from key and field, has the hash of key and field. */
  ghost predicate Collides(lib: Library, adds: seq<(Subject, uint32)>, f: byte, key: seq<byte>, i: nat, g: byte, other: seq<byte>)
  {
    && i < |adds| && HasTerm(adds[i].0, g, other)
    && other + [g] != key + [f] && lib.prehash(other + [g]) == lib.prehash(key + [f])
  }

  /** No term that was added does. */
  ghost predicate NoCollision(lib: Library, adds: seq<(Subject, uint32)>, f: byte, key: seq<byte>)
  {
    forall i: nat, g: byte, other: seq<byte> :: !Collides(lib, adds, f, key, i, g, other)
  }

  lemma SameTerm(lib: Library, adds: seq<(Subject, uint32)>, f: byte, key: seq<byte>, i: nat, g: byte, other: seq<byte>)
    requires NoCollision(lib, adds, f, key) && i < |adds| && HasTerm(adds[i].0, g, other)
    requires lib.prehash(ComposeKey(g, other)) == lib.prehash(ComposeKey(f, key))
    ensures HasTerm(adds[i].0, f, key)
  {
    hide HasTerm;
    assert !Collides(lib, adds, f, key, i, g, other);
    TermsDistinct(f, key, g, other);
    TermsDistinct(g, other, f, key);
  }

  /** Without a collision the bitmap under the hash of key and field is the result of the naive scan; with
    one it is never smaller. */
  lemma ScanAgrees(lib: Library, adds: seq<(Subject, uint32)>, f: byte, key: seq<byte>)
    ensures NaiveScan(adds, f, key) <= BitmapOf(lib, adds, lib.prehash(key + [f]))
    ensures NoCollision(lib, adds, f, key) ==> BitmapOf(lib, adds, lib.prehash(key + [f])) == NaiveScan(adds, f, key)
  {
    TermsDistinct(f, key, f, key);
    hide HasTerm, ComposeKey, NoCollision;
    var h := lib.prehash(ComposeKey(f, key));
    forall i | 0 <= i < |adds| && HasTerm(adds[i].0, f, key) ensures HashesTo(lib, adds[i].0, h) {
    }
    if NoCollision(lib, adds, f, key) {
      forall i | 0 <= i < |adds| && HashesTo(lib, adds[i].0, h) ensures HasTerm(adds[i].0, f, key) {
        var g: byte, other: seq<byte> :| HasTerm(adds[i].0, g, other) && lib.prehash(ComposeKey(g, other)) == h;
        SameTerm(lib, adds, f, key, i, g, other);
      }
    }
  }

  /** b, with the ordinal added to it if `also` holds. */
  function With(b: Bitmap, id: uint32, also: bool): Bitmap
  {
    if also then b + {id} else b
  }

  lemma BitmapSnoc(lib: Library, adds: seq<(Subject, uint32)>, ev: Subject, id: uint32, h: Hash)
    ensures BitmapOf(lib, adds + [(ev, id)], h) == With(BitmapOf(lib, adds, h), id, HashesTo(lib, ev, h))
  {
    hide HashesTo;
    var all := adds + [(ev, id)];
    forall x: uint32
      ensures x in BitmapOf(lib, all, h) <==> x in BitmapOf(lib, adds, h) || (HashesTo(lib, ev, h) && x == id)
    {
      if x in BitmapOf(lib, adds, h) {
        var i :| 0 <= i < |adds| && HashesTo(lib, adds[i].0, h) && adds[i].1 == x;
        assert all[i] == adds[i];
      }
      if HashesTo(lib, ev, h) && x == id {
        assert all[|adds|] == (ev, id);
      }
    }
  }

  // ---------------------------------------------------------------- pigeonhole

  lemma {:induction false} SubsetSize<T>(a: set<T>, b: set<T>)
    requires a <= b
    ensures |a| <= |b| && (|a| == |b| ==> a == b)
    decreases |b|
  {
    if x :| x in b {
      if x in a {
        SubsetSize(a - {x}, b - {x});
        assert a == (a - {x}) + {x} && b == (b - {x}) + {x};
      } else {
        SubsetSize(a, b - {x});
      }
    }
  }

  ghost function Slots(n: nat): set<int>
  {
    if n == 0 then {} else Slots(n - 1) + {n - 1}
  }

  lemma {:induction false} SlotsSize(n: nat)
    ensures |Slots(n)| == n && forall i :: i in Slots(n) <==> 0 <= i < n
  {
    if n > 0 { SlotsSize(n - 1); }
  }

  ghost function RankSet(ranks: Ranking, keys: set<Hash>): set<int>
    requires forall h :: h in keys ==> ranks(h).Ok?
  {
    set h | h in keys :: ranks(h).value
  }

  lemma {:induction false} RankSetSize(ranks: Ranking, keys: set<Hash>)
    requires forall h :: h in keys ==> ranks(h).Ok?
    requires forall h, g :: h in keys && g in keys && ranks(h) == ranks(g) ==> h == g
    ensures |RankSet(ranks, keys)| == |keys|
    decreases |keys|
  {
    if x :| x in keys {
      RankSetSize(ranks, keys - {x});
      assert RankSet(ranks, keys) == RankSet(ranks, keys - {x}) + {ranks(x).value};
      assert ranks(x).value !in RankSet(ranks, keys - {x}) by {
        forall h | h in keys - {x} ensures ranks(h).value != ranks(x).value {
          assert ranks(h).value == ranks(x).value ==> ranks(h) == ranks(x);
        }
      }
    }
  }

  /** Every slot is the rank of some key. */
  lemma RanksCover(ranks: Ranking, keys: set<Hash>, i: nat) returns (h: Hash)
    requires Bijection(ranks, keys) && i < |keys|
    ensures h in keys && ranks(h) == Ok(i)
  {
    RankSetSize(ranks, keys);
    SlotsSize(|keys|);
    SubsetSize(RankSet(ranks, keys), Slots(|keys|));
    assert i in RankSet(ranks, keys);
    h :| h in keys && ranks(h).value == i;
  }

  // ---------------------------------------------------------------- the terms of one event

  predicate ContractHashes(lib: Library, ev: Subject, h: Hash)
  {
    ev.contractId.Some? && lib.prehash(ComposeKey(FIELD_CONTRACT_ID, ev.contractId.value)) == h
  }

  function TopicHash(lib: Library, ev: Subject, t: nat): Hash
    requires t < |ev.topics| && t < FIELD_COUNT - FIELD_TOPIC0
  {
    lib.prehash(ComposeKey(FIELD_TOPIC0 + t, ev.topics[t]))
  }

  /** The contract ID or one of the first n topics hashes to h. */
  ghost predicate HashesUpto(lib: Library, ev: Subject, n: nat, h: Hash)
    requires n <= |ev.topics| && n <= FIELD_COUNT - FIELD_TOPIC0
  {
    ContractHashes(lib, ev, h) || exists t :: 0 <= t < n && TopicHash(lib, ev, t) == h
  }

  lemma HashesNext(lib: Library, ev: Subject, i: nat)
    requires i < |ev.topics| && i < FIELD_COUNT - FIELD_TOPIC0
    ensures forall h ::
      HashesUpto(lib, ev, i + 1, h) == (HashesUpto(lib, ev, i, h) || TopicHash(lib, ev, i) == h)
  {
    forall h: Hash
      ensures HashesUpto(lib, ev, i + 1, h) == (HashesUpto(lib, ev, i, h) || TopicHash(lib, ev, i) == h)
    {
      hide ComposeKey, TopicHash;
      if HashesUpto(lib, ev, i + 1, h) && !ContractHashes(lib, ev, h) {
        var t :| 0 <= t < i + 1 && TopicHash(lib, ev, t) == h;
        assert t < i || t == i;
      }
    }
  }

  lemma HashesAll(lib: Library, ev: Subject, n: nat, h: Hash)
    requires n == if |ev.topics| < FIELD_COUNT - FIELD_TOPIC0 then |ev.topics| else FIELD_COUNT - FIELD_TOPIC0
    ensures HashesUpto(lib, ev, n, h) <==> HashesTo(lib, ev, h)
  {
    hide ComposeKey;
    if HashesUpto(lib, ev, n, h) {
      if t :| 0 <= t < n && TopicHash(lib, ev, t) == h {
        assert HasTerm(ev, FIELD_TOPIC0 + t, ev.topics[t]);
      } else {
        assert HasTerm(ev, FIELD_CONTRACT_ID, ev.contractId.value);
      }
    }
    if HashesTo(lib, ev, h) {
      var f: byte, key: seq<byte> :| HasTerm(ev, f, key) && lib.prehash(ComposeKey(f, key)) == h;
      if f >= FIELD_TOPIC0 {
        assert TopicHash(lib, ev, f - FIELD_TOPIC0) == h;
      }
    }
  }

  // ---------------------------------------------------------------- the writer

  /** What is stored for a key: the first bytes of its hash, then its bitmap. */
  function EntryBytes(lib: Library, h: Hash, b: Bitmap): Item
  {
    h[..FINGERPRINT_SIZE] + lib.serialize(b)
  }

  /** Every bitmap is stored at its key's rank, and every slot belongs to a key. */
  ghost predicate Placed(lib: Library, ranks: Ranking, bitmaps: map<Hash, Bitmap>, entries: seq<Item>)
  {
    && |entries| == |bitmaps| && Bijection(ranks, bitmaps.Keys)
    && (forall h :: h in bitmaps ==> entries[ranks(h).value] == h[..4] + lib.serialize(bitmaps[h]))
  }

  function Under(bitmaps: map<Hash, Bitmap>, h: Hash): Bitmap
  {
    if h in bitmaps then bitmaps[h] else {}
  }

  /** No entry is shorter than its fingerprint. */
  lemma EntriesLong(lib: Library, ranks: Ranking, bitmaps: map<Hash, Bitmap>, entries: seq<Item>)
    requires Placed(lib, ranks, bitmaps, entries)
    ensures forall i :: 0 <= i < |entries| ==> |entries[i]| >= FINGERPRINT_SIZE
  {
    forall i | 0 <= i < |entries| ensures |entries[i]| >= FINGERPRINT_SIZE {
      var h := RanksCover(ranks, bitmaps.Keys, i);
      assert h in bitmaps;
    }
  }

  /** The keys, each once. */
  method KeysOf(bitmaps: map<Hash, Bitmap>) returns (keys: seq<Hash>)
    ensures |keys| == |bitmaps| && (forall i :: 0 <= i < |keys| ==> keys[i] in bitmaps)
    ensures forall h :: h in bitmaps ==> h in keys
  {
    keys := [];
    var rest := bitmaps.Keys;
    while rest != {}
      invariant rest <= bitmaps.Keys && |keys| + |rest| == |bitmaps|
      invariant forall i :: 0 <= i < |keys| ==> keys[i] in bitmaps
      invariant forall h :: h in bitmaps ==> h in rest || h in keys
      decreases |rest|
    {
      var h :| h in rest;
      rest := rest - {h};
      keys := keys + [h];
    }
  }

  /** The slot of h's rank holds h's fingerprint and bitmap. */
  ghost predicate SlotOf(ranked: seq<Option<(seq<byte>, Bitmap)>>, ranks: Ranking, bitmaps: map<Hash, Bitmap>, h: Hash)
    requires h in bitmaps
  {
    && ranks(h).Ok? && ranks(h).value < |ranked|
    && ranked[ranks(h).value] == Some((h[..FINGERPRINT_SIZE], bitmaps[h]))
  }

  /** Filling the slot of one more key. */
  lemma SlotFilled(slots: seq<Option<(seq<byte>, Bitmap)>>, ranks: Ranking, bitmaps: map<Hash, Bitmap>, keys: seq<Hash>, i: nat)
    requires Bijection(ranks, bitmaps.Keys) && |slots| == |bitmaps| && i < |keys|
    requires forall j :: 0 <= j < |keys| ==> keys[j] in bitmaps
    requires forall j :: 0 <= j < i ==> SlotOf(slots, ranks, bitmaps, keys[j])
    ensures ranks(keys[i]).Ok? && ranks(keys[i]).value < |slots|
    ensures var filled := slots[ranks(keys[i]).value := Some((keys[i][..FINGERPRINT_SIZE], bitmaps[keys[i]]))];
      forall j :: 0 <= j <= i ==> SlotOf(filled, ranks, bitmaps, keys[j])
  {
  }

  lemma AllFilled(slots: seq<Option<(seq<byte>, Bitmap)>>, ranks: Ranking, bitmaps: map<Hash, Bitmap>, keys: seq<Hash>)
    requires forall j :: 0 <= j < |keys| ==> keys[j] in bitmaps && SlotOf(slots, ranks, bitmaps, keys[j])
    requires forall h :: h in bitmaps ==> h in keys
    ensures forall h :: h in bitmaps ==> SlotOf(slots, ranks, bitmaps, h)
  {
    hide SlotOf;
    forall h | h in bitmaps ensures SlotOf(slots, ranks, bitmaps, h) {
      var j :| 0 <= j < |keys| && keys[j] == h;
    }
  }

  /** The first i slots have been serialized. */
  ghost predicate PreparedTo(lib: Library, ranks: Ranking, bitmaps: map<Hash, Bitmap>, prepared: seq<Item>, i: nat)
    requires Bijection(ranks, bitmaps.Keys)
  {
    && |prepared| == i <= |bitmaps|
    && forall h :: h in bitmaps && ranks(h).value < i ==> prepared[ranks(h).value] == EntryBytes(lib, h, bitmaps[h])
  }

  lemma PrepareNext(lib: Library, ranks: Ranking, bitmaps: map<Hash, Bitmap>, slots: seq<Option<(seq<byte>, Bitmap)>>,
                    prepared: seq<Item>, i: nat)
    requires Bijection(ranks, bitmaps.Keys) && PreparedTo(lib, ranks, bitmaps, prepared, i)
    requires i < |slots| == |bitmaps| && forall h :: h in bitmaps ==> SlotOf(slots, ranks, bitmaps, h)
    ensures slots[i].Some?
    ensures PreparedTo(lib, ranks, bitmaps, prepared + [slots[i].value.0 + lib.serialize(slots[i].value.1)], i + 1)
  {
    var g := RanksCover(ranks, bitmaps.Keys, i);
    assert SlotOf(slots, ranks, bitmaps, g);
    var entry := slots[i].value.0 + lib.serialize(slots[i].value.1);
    assert entry == EntryBytes(lib, g, bitmaps[g]);
    hide SlotOf, EntryBytes;
    forall h | h in bitmaps && ranks(h).value < i + 1
      ensures (prepared + [entry])[ranks(h).value] == EntryBytes(lib, h, bitmaps[h])
    {
      if ranks(h).value == i {
        assert ranks(h) == ranks(g);
      }
    }
  }

  lemma NothingPrepared(lib: Library, ranks: Ranking, bitmaps: map<Hash, Bitmap>)
    requires Bijection(ranks, bitmaps.Keys)
    ensures PreparedTo(lib, ranks, bitmaps, [], 0)
  {
  }

  lemma AllPrepared(lib: Library, ranks: Ranking, bitmaps: map<Hash, Bitmap>, prepared: seq<Item>)
    requires Bijection(ranks, bitmaps.Keys) && PreparedTo(lib, ranks, bitmaps, prepared, |bitmaps|)
    ensures Placed(lib, ranks, bitmaps, prepared)
  {
  }

  /** The entry of every slot: bitmaps go to their ranks, then are serialized in rank order. */
  method Prepare(lib: Library, ranks: Ranking, bitmaps: map<Hash, Bitmap>, keys: seq<Hash>) returns (prepared: seq<Item>)
    requires Bijection(ranks, bitmaps.Keys)
    requires |keys| == |bitmaps| && (forall i :: 0 <= i < |keys| ==> keys[i] in bitmaps)
    requires forall h :: h in bitmaps ==> h in keys
    ensures Placed(lib, ranks, bitmaps, prepared)
  {
    hide SlotOf, PreparedTo;
    var ranked := new Option<(seq<byte>, Bitmap)>[|bitmaps|](_ => None);
    for i := 0 to |keys|
      invariant forall j :: 0 <= j < i ==> SlotOf(ranked[..], ranks, bitmaps, keys[j])
    {
      var hk := keys[i];
      ghost var before := ranked[..];
      SlotFilled(before, ranks, bitmaps, keys, i);
      ranked[ranks(hk).value] := Some((hk[..FINGERPRINT_SIZE], bitmaps[hk]));
      assert ranked[..] == before[ranks(hk).value := Some((hk[..FINGERPRINT_SIZE], bitmaps[hk]))];
    }
    ghost var slots := ranked[..];
    AllFilled(slots, ranks, bitmaps, keys);
    prepared := [];
    NothingPrepared(lib, ranks, bitmaps);
    for i := 0 to ranked.Length
      invariant ranked[..] == slots && PreparedTo(lib, ranks, bitmaps, prepared, i)
    {
      PrepareNext(lib, ranks, bitmaps, slots, prepared, i);
      assert slots[i] == ranked[i];
      var (fingerprint, bitmap) := ranked[i].value;
      prepared := prepared + [fingerprint + lib.serialize(bitmap)];
    }
    AllPrepared(lib, ranks, bitmaps, prepared);
  }

  lemma FlattenTwo(a: seq<byte>, b: seq<byte>)
    ensures Flatten([a, b]) == a + b
  {
    FlattenOne(a);
    FlattenSnoc([a], b);
    assert [a] + [b] == [a, b];
  }

  /** The last call removes the file, or is the one that failed to create it. */
  predicate CleanedUp(calls: seq<Op>)
  {
    |calls| > 0 && (calls[|calls| - 1].kind.RemoveOp? || calls[|calls| - 1] == Op(OpenOp, false))
  }

  /** Appends the entries, each from its two parts. */
  method AppendEntries(env: Env, pw: PackWriter.Writer, prepared: seq<Item>) returns (failed: Option<Error>)
    requires pw.err.None? && !pw.closed && pw.Valid(env) && pw.Items() == []
    requires forall i :: 0 <= i < |prepared| ==> |prepared[i]| >= FINGERPRINT_SIZE
    modifies pw`buf, pw`sizes, pw`offsets, pw`pos, pw`err, pw`total, pw`blocks, pw`pending,
      pw.host`contents, pw.host`script, pw.host`calls, pw.hasher
    ensures failed.None? ==> pw.err.None? && pw.Valid(env) && pw.Items() == prepared
    ensures old(pw.host.Reliable()) ==> failed.None? && pw.host.Reliable()
  {
    hide PackWriter.Writer.Valid, PackWriter.Writer.Items, Flatten, Host.Reliable, Explains;
    assert prepared[..0] == [];
    for i := 0 to |prepared|
      invariant pw.err.None? && !pw.closed && pw.Valid(env) && pw.Items() == prepared[..i]
      invariant old(pw.host.Reliable()) ==> pw.host.Reliable()
    {
      var parts := [prepared[i][..FINGERPRINT_SIZE], prepared[i][FINGERPRINT_SIZE..]];
      FlattenTwo(parts[0], parts[1]);
      assert parts[0] + parts[1] == prepared[i];
      ghost var call;
      failed, call := pw.AppendItem(env, parts);
      if failed.Some? {
        return;
      }
      assert prepared[..i + 1] == prepared[..i] + [prepared[i]];
    }
    assert prepared[..|prepared|] == prepared;
    failed := None;
  }

  /** Writes the entries to a packfile, which is removed again if that fails. */
  method WritePack(env: Env, host: Host, settings: Settings, prepared: seq<Item>) returns (e: Option<Error>)
    requires settings.Valid() && host.contents == []
    requires forall i :: 0 <= i < |prepared| ==> |prepared[i]| >= FINGERPRINT_SIZE
    modifies host
    ensures e.None? ==> FileOf(env, settings, prepared, []) == Ok(host.contents)
    ensures old(host.Reliable()) && FileOf(env, settings, prepared, []).Ok? ==> e.None?
    ensures e.None? ==> SyncedAndClosed(host.calls)
    ensures e.Some? ==> CleanedUp(host.calls)
  {
    hide FileOf, PackWriter.Writer.Valid, PackWriter.Writer.Items, Flatten, Host.Reliable, SyncedAndClosed, Explains;
    var created := Create(env, host, settings.itemsPerRecord, settings.format, settings.hashing);
    if created.Err? {
      return Some(created.error);
    }
    var pw := created.value;
    e := AppendEntries(env, pw, prepared);
    if e.None? {
      ghost var call;
      e, call := pw.Finish(env, []);
    }
    if e.Some? {
      var _, _ := pw.Close();
    }
  }

  /** The bitmaps are those of the events added. */
  ghost predicate Collected(lib: Library, adds: seq<(Subject, uint32)>, bitmaps: map<Hash, Bitmap>)
  {
    && (forall h :: Under(bitmaps, h) == BitmapOf(lib, adds, h))
    && (forall h :: h in bitmaps ==> Under(bitmaps, h) != {})
  }

  class Writer {
    var bitmaps: map<Hash, Bitmap>
    const batchSize: nat
    const compress: bool
    const contentHash: bool

    ghost var adds: seq<(Subject, uint32)>   // every call of Add

    /** The bitmaps are exactly those of the events added. */
    ghost predicate Valid(lib: Library)
      reads this
    {
      batchSize > 0 && Collected(lib, adds, bitmaps)
    }

    /** NewWriter */
    constructor (lib: Library, batchSize: int, compress: bool, contentHash: bool)
      ensures Valid(lib) && adds == [] && bitmaps == map[]
      ensures this.batchSize == if batchSize <= 0 then 128 else batchSize
      ensures this.compress == compress && this.contentHash == contentHash
    {
      this.batchSize := if batchSize <= 0 then DEFAULT_BATCH_SIZE else batchSize;
      this.compress, this.contentHash := compress, contentHash;
      bitmaps, adds := map[], [];
    }

    /** add: puts the ordinal under one key. */
    method AddKey(lib: Library, key: seq<byte>, ordinal: uint32)
      modifies this`bitmaps
      ensures forall h :: Under(bitmaps, h) == With(Under(old(bitmaps), h), ordinal, h == lib.prehash(key))
      ensures forall h :: h in bitmaps <==> h in old(bitmaps) || h == lib.prehash(key)
    {
      var hk := lib.prehash(key);
      if hk !in bitmaps {
        bitmaps := bitmaps[hk := {}];
      }
      bitmaps := bitmaps[hk := bitmaps[hk] + {ordinal}];
    }

    /** Add: indexes the contract ID, if any, and up to four topics. */
    method Add(lib: Library, ev: Subject, id: uint32)
      requires Valid(lib)
      modifies this`bitmaps, this`adds
      ensures Valid(lib) && adds == old(adds) + [(ev, id)]
    {
      hide ComposeKey, BitmapOf;
      if ev.contractId.Some? {
        AddKey(lib, ComposeKey(FIELD_CONTRACT_ID, ev.contractId.value), id);
      }
      var topicCount := if |ev.topics| < FIELD_COUNT - FIELD_TOPIC0 then |ev.topics| else FIELD_COUNT - FIELD_TOPIC0;
      for i := 0 to topicCount
        invariant forall h :: Under(bitmaps, h) == With(Under(old(bitmaps), h), id, HashesUpto(lib, ev, i, h))
        invariant forall h :: h in bitmaps ==> Under(bitmaps, h) != {}
        invariant adds == old(adds)
      {
        HashesNext(lib, ev, i);
        AddKey(lib, ComposeKey(FIELD_TOPIC0 + i, ev.topics[i]), id);
      }
      forall h: Hash ensures Under(bitmaps, h) == BitmapOf(lib, adds + [(ev, id)], h) {
        BitmapSnoc(lib, adds, ev, id, h);
        HashesAll(lib, ev, topicCount, h);
      }
      adds := adds + [(ev, id)];
    }

    /** The settings Finish creates the packfile with. */
    function PackSettings(): Settings
    {
      Settings(if compress then Compressed else Uncompressed, batchSize, contentHash)
    }

    /** Finish: places every bitmap at its key's rank and writes the packfile in rank order. `build` is the
      hash builder, which may fail; `host` is the packfile just created. */
    method Finish(env: Env, lib: Library, build: set<Hash> -> Result<Ranking>, host: Host)
      returns (e: Option<Error>, ghost entries: seq<Item>)
      requires batchSize > 0 && host.contents == []
      requires build(bitmaps.Keys).Ok? ==> Bijection(build(bitmaps.Keys).value, bitmaps.Keys)
      modifies this`bitmaps, host
      ensures |old(bitmaps)| == 0 ==> e == Some(NoKeys)
      ensures |old(bitmaps)| > MAX_UINT32 ==> e == Some(TooManyItems)
      ensures e.None? ==> build(old(bitmaps).Keys).Ok?
      ensures e.None? ==> Placed(lib, build(old(bitmaps).Keys).value, old(bitmaps), entries)
      ensures e.None? ==> FileOf(env, PackSettings(), entries, []) == Ok(host.contents)
      ensures 0 < |old(bitmaps)| <= MAX_UINT32 && build(old(bitmaps).Keys).Err? ==>
        e == Some(build(old(bitmaps).Keys).error)
      ensures 0 < |old(bitmaps)| <= MAX_UINT32 && build(old(bitmaps).Keys).Ok? ==>
        (old(host.Reliable()) && FileOf(env, PackSettings(), entries, []).Ok? ==> e.None?)
    {
      hide FileOf, Bijection, Placed, Host.Reliable;
      entries := [];
      var totalKeys := |bitmaps|;
      if totalKeys == 0 {
        return Some(NoKeys), entries;
      }
      if totalKeys > MAX_UINT32 {
        return Some(TooManyItems), entries;
      }
      var built := build(bitmaps.Keys);
      if built.Err? {
        return Some(built.error), entries;
      }
      var ranks := built.value;
      var keys := KeysOf(bitmaps);
      var prepared := Prepare(lib, ranks, bitmaps, keys);
      EntriesLong(lib, ranks, bitmaps, prepared);
      entries := prepared;
      bitmaps := map[];
      e := WritePack(env, host, PackSettings(), prepared);
    }
  }

  // ---------------------------------------------------------------- from events to a packfile

  /** A whole session: every event is added, then the index is finished. */
  method BuildIndex(env: Env, lib: Library, build: set<Hash> -> Result<Ranking>, host: Host, adds: seq<(Subject, uint32)>,
                    batchSize: nat, compress: bool, contentHash: bool)
    returns (e: Option<Error>, ghost bitmaps: map<Hash, Bitmap>, ghost s: Settings, ghost entries: seq<Item>)
    requires host.contents == []
    requires forall keys :: build(keys).Ok? ==> Bijection(build(keys).value, keys)
    modifies host
    ensures Collected(lib, adds, bitmaps)
    ensures s == Settings(if compress then Compressed else Uncompressed, if batchSize == 0 then 128 else batchSize, contentHash)
    ensures e.None? ==> build(bitmaps.Keys).Ok? && Placed(lib, build(bitmaps.Keys).value, bitmaps, entries)
    ensures e.None? ==> FileOf(env, s, entries, []) == Ok(host.contents)
  {
    hide FileOf, Placed, Collected, Bijection, Host.Reliable;
    var w := new Writer(lib, batchSize, compress, contentHash);
    assert adds[..0] == [];
    for i := 0 to |adds|
      invariant w.Valid(lib) && w.adds == adds[..i] && fresh(w) && host.contents == []
      invariant w.PackSettings() ==
        Settings(if compress then Compressed else Uncompressed, if batchSize == 0 then 128 else batchSize, contentHash)
    {
      w.Add(lib, adds[i].0, adds[i].1);
      assert adds[..i + 1] == adds[..i] + [adds[i]];
    }
    assert adds[..|adds|] == adds;
    bitmaps, s := w.bitmaps, w.PackSettings();
    assert build(bitmaps.Keys).Ok? ==> Bijection(build(bitmaps.Keys).value, bitmaps.Keys);
    e, entries := w.Finish(env, lib, build, host);
  }
}
