/** What the bytes of an index, a trailer and a content hash mean, digit by digit, for any bytes: which are
  accepted, what they say, and what is reported otherwise. */
module FileLaws {
  import opened Bytes
  import opened Results
  import opened Environment
  import opened Intpack
  import opened Index
  import opened Records
  import opened Chunks
  import opened ContentHashing
  import opened FileFormat
  import opened SealedFile

  // ---------------------------------------------------------------- the offset index

  /** The number of values in group g of n. */
  function GroupLength(n: nat, g: nat): nat
    requires 128 * g < n
  {
    if n - 128 * g < 128 then n - 128 * g else 128
  }

  /** Part g is the group of values 128g, 128g + 1, ... and nothing else. */
  ghost predicate GroupIs(parts: seq<seq<byte>>, ds: seq<uint32>, g: nat)
    requires g < |parts|
  {
    128 * g < |ds|
    && GroupAtTail(parts[g], GroupLength(|ds|, g)) == Ok((ds[128 * g..128 * g + GroupLength(|ds|, g)], |parts[g]|))
  }

  /** The first count parts are groups of ds, in order. */
  ghost predicate GroupsAre(parts: seq<seq<byte>>, ds: seq<uint32>, count: nat)
  {
    count <= |parts| && forall g: nat :: g < count ==> GroupIs(parts, ds, g)
  }

  lemma AtTailAlone(buf: seq<byte>, n: nat, vs: seq<uint32>, consumed: nat)
    requires GroupAtTail(buf, n) == Ok((vs, consumed))
    ensures consumed <= |buf| && GroupAtTail(buf[|buf| - consumed..], n) == Ok((vs, consumed))
  {
    hide Packs, LE, GroupAtTail;
    GroupLaw(buf, n, vs, consumed);
    var p := buf[|buf| - consumed..];
    GroupLaw(p, n, vs, consumed);
    assert p[|p| - 5] == buf[|buf| - 5] && p[|p| - 4..] == buf[|buf| - 4..];
    assert p[|p| - consumed..|p| - 5] == buf[|buf| - consumed..|buf| - 5];
  }

  lemma AtTailBehind(x: seq<byte>, p: seq<byte>, n: nat, vs: seq<uint32>)
    requires GroupAtTail(p, n) == Ok((vs, |p|))
    ensures GroupAtTail(x + p, n) == Ok((vs, |p|))
  {
    hide Packs, LE, GroupAtTail;
    GroupLaw(p, n, vs, |p|);
    var buf := x + p;
    GroupLaw(buf, n, vs, |p|);
    assert p[|p| - 5] == buf[|buf| - 5] && p[|p| - 4..] == buf[|buf| - 4..];
    assert p[|p| - |p|..|p| - 5] == buf[|buf| - |p|..|buf| - 5];
  }

  /** The first groups stay groups when more values and more parts follow. */
  lemma GroupsOn(parts: seq<seq<byte>>, ds: seq<uint32>, count: nat, last: seq<byte>, vs: seq<uint32>)
    requires |parts| == count && |ds| == 128 * count && GroupsAre(parts, ds, count) && 0 < |vs| <= 128
    requires GroupAtTail(last, |vs|) == Ok((vs, |last|))
    ensures GroupsAre(parts + [last], ds + vs, count + 1)
  {
    hide GroupAtTail;
    forall g: nat | g < count + 1 ensures GroupIs(parts + [last], ds + vs, g) {
      if g < count {
        assert GroupIs(parts, ds, g);
        assert (ds + vs)[128 * g..128 * g + 128] == ds[128 * g..128 * g + 128];
      } else {
        assert (ds + vs)[128 * g..128 * g + |vs|] == vs;
      }
    }
  }

  lemma FullBefore(n: nat, g: nat)
    requires 0 < g <= GroupCount(n)
    ensures GroupEnd(n, g - 1) == 128 * (g - 1) < n
    ensures GroupEnd(n, g) == 128 * (g - 1) + GroupLength(n, g - 1)
  {
  }

  /** A buffer read backward, group by group, without a byte left over, is those groups in order. */
  lemma {:induction false} SplitGroups(buf: seq<byte>, n: nat, g: nat, ds: seq<uint32>) returns (parts: seq<seq<byte>>)
    requires g <= GroupCount(n) && GroupsAtTail(buf, n, g) == Ok((ds, 0))
    ensures |parts| == g && Flatten(parts) == buf && GroupsAre(parts, ds, g)
    decreases g
  {
    hide GroupAtTail, Flatten, GroupEnd, GroupCount;
    if g == 0 {
      parts := [];
      FlattenNone();
    } else {
      FullBefore(n, g);
      var (vs, consumed) := GroupAtTail(buf, GroupLength(n, g - 1)).value;
      var front := buf[..|buf| - consumed];
      var (ws, rest) := GroupsAtTail(front, n, g - 1).value;
      parts := SplitGroups(front, n, g - 1, ws);
      AtTailAlone(buf, GroupLength(n, g - 1), vs, consumed);
      var last := buf[|buf| - consumed..];
      GroupsOn(parts, ws, g - 1, last, vs);
      FlattenSnoc(parts, last);
      parts := parts + [last];
    }
  }

  /** Groups in order read back. */
  lemma {:induction false} JoinGroups(parts: seq<seq<byte>>, ds: seq<uint32>, g: nat)
    requires g <= GroupCount(|ds|) && GroupsAre(parts, ds, g)
    ensures GroupsAtTail(Flatten(parts[..g]), |ds|, g) == Ok((ds[..GroupEnd(|ds|, g)], 0))
  {
    hide GroupAtTail, Flatten, GroupCount, GroupsAtTail;
    var n := |ds|;
    if g == 0 {
      FlattenNone();
      assert parts[..0] == [] && ds[..0] == [];
      GroupsAtTailNone(n);
      NoGroups(ds);
    } else {
      FullBefore(n, g);
      JoinGroups(parts, ds, g - 1);
      var before, last := Flatten(parts[..g - 1]), parts[g - 1];
      FlattenNext(parts, g - 1);
      assert GroupIs(parts, ds, g - 1);
      var vs := ds[128 * (g - 1)..128 * (g - 1) + GroupLength(n, g - 1)];
      AtTailBehind(before, last, GroupLength(n, g - 1), vs);
      var buf := before + last;
      assert buf[..|buf| - |last|] == before;
      GroupsAtTailStep(buf, before, n, g - 1, ds[..GroupEnd(n, g - 1)], vs, |last|);
      assert ds[..GroupEnd(n, g - 1)] + vs == ds[..GroupEnd(n, g)];
    }
  }

  /** Offsets that start at 0 and grow by the deltas. */
  ghost predicate Accumulate(offsets: seq<int>, ds: seq<uint32>)
  {
    |offsets| == |ds| + 1 && offsets[0] == 0 && forall j :: 0 <= j < |ds| ==> offsets[j + 1] == offsets[j] + ds[j]
  }

  lemma {:induction false} SumsAccumulate(offsets: seq<int>, ds: seq<uint32>, i: nat)
    requires Accumulate(offsets, ds) && i <= |ds|
    ensures offsets[i] == Sum(ds[..i])
  {
    hide Sum;
    if i == 0 {
      SumEmpty();
      assert ds[..0] == [];
    } else {
      SumsAccumulate(offsets, ds, i - 1);
      SumNext(ds, i - 1);
      assert offsets[i - 1 + 1] == offsets[i - 1] + ds[i - 1];
    }
  }

  lemma PrefixSumsAre(offsets: seq<int>, ds: seq<uint32>)
    ensures offsets == PrefixSums(ds) <==> Accumulate(offsets, ds)
    ensures Accumulate(PrefixSums(ds), ds) && PrefixSums(ds)[|ds|] == Sum(ds)
  {
    hide Sum;
    var os := PrefixSums(ds);
    assert ds[..|ds|] == ds;
    SumEmpty();
    assert ds[..0] == [];
    forall j | 0 <= j < |ds| ensures os[j + 1] == os[j] + ds[j] {
      SumNext(ds, j);
    }
    if Accumulate(offsets, ds) {
      forall i | 0 <= i <= |ds| ensures offsets[i] == os[i] {
        SumsAccumulate(offsets, ds, i);
      }
    }
  }

  /** The bytes of an index: the groups of the record sizes, in order and nothing else, and their checksum. */
  ghost predicate StoredIndex(crc: seq<byte> -> uint32, buf: seq<byte>, parts: seq<seq<byte>>, ds: seq<uint32>)
  {
    && buf == Flatten(parts) + PutLE(crc(Flatten(parts)), 4)
    && |parts| == (|ds| + 127) / 128 && GroupsAre(parts, ds, |parts|)
  }

  /** More than 128 records for every six bytes. */
  predicate Implausible(buf: seq<byte>, n: nat)
  {
    |buf| < 4 || n > (|buf| - 4) / 6 * 128
  }

  lemma StoredAccepted(crc: seq<byte> -> uint32, buf: seq<byte>, n: nat, base: int, parts: seq<seq<byte>>, ds: seq<uint32>)
    requires StoredIndex(crc, buf, parts, ds) && |ds| == n && !Implausible(buf, n) && Sum(ds) == base
    ensures DecodedIndex(crc, buf, n, base) == Ok(PrefixSums(ds))
  {
    hide GroupAtTail, GroupsAtTail, Flatten, Sum, PutLE, LE, GroupsAre, PrefixSums;
    var payload := Flatten(parts);
    assert buf[..|buf| - 4] == payload && buf[|buf| - 4..] == PutLE(crc(payload), 4);
    StoredCrc(buf[|buf| - 4..], crc(payload));
    JoinGroups(parts, ds, |parts|);
    assert parts[..|parts|] == parts;
    GroupsCover(n);
    assert ds[..n] == ds;
  }

  lemma AcceptedStored(crc: seq<byte> -> uint32, buf: seq<byte>, n: nat, base: int)
    returns (parts: seq<seq<byte>>, ds: seq<uint32>)
    requires DecodedIndex(crc, buf, n, base).Ok?
    ensures StoredIndex(crc, buf, parts, ds) && |ds| == n && !Implausible(buf, n) && Sum(ds) == base
    ensures DecodedIndex(crc, buf, n, base) == Ok(PrefixSums(ds))
  {
    hide GroupAtTail, GroupsAtTail, Flatten, Sum, PutLE, LE, GroupsAre, PrefixSums;
    GroupsCover(n);
    var payload := buf[..|buf| - 4];
    ds := GroupsAtTail(payload, n, GroupCount(n)).value.0;
    parts := SplitGroups(payload, n, GroupCount(n), ds);
    StoredCrc(buf[|buf| - 4..], crc(payload));
    assert buf == payload + buf[|buf| - 4..];
  }

  lemma {:induction false} GroupErrors(buf: seq<byte>, n: nat, g: nat)
    requires g <= GroupCount(n) && GroupsAtTail(buf, n, g).Err?
    ensures GroupsAtTail(buf, n, g) == Err(Corrupt)
    decreases g
  {
    hide GroupAtTail, GroupEnd, GroupCount;
    if g > 0 {
      FullBefore(n, g);
      var group := GroupAtTail(buf, GroupLength(n, g - 1));
      if group.Ok? && GroupsAtTail(buf[..|buf| - group.value.1], n, g - 1).Err? {
        GroupErrors(buf[..|buf| - group.value.1], n, g - 1);
      }
    }
  }

  lemma IndexErrors(crc: seq<byte> -> uint32, buf: seq<byte>, n: nat, base: int)
    ensures !Implausible(buf, n) && Get32(buf[|buf| - 4..]) == crc(buf[..|buf| - 4]) && DecodedIndex(crc, buf, n, base).Err? ==>
      DecodedIndex(crc, buf, n, base) == Err(Corrupt)
    ensures DecodedIndex(crc, buf, n, base).Err? ==> DecodedIndex(crc, buf, n, base).error in {Corrupt, Checksum}
  {
    hide GroupAtTail, GroupsAtTail, Sum, LE;
    GroupsCover(n);
    if !Implausible(buf, n) && GroupsAtTail(buf[..|buf| - 4], n, GroupCount(n)).Err? {
      GroupErrors(buf[..|buf| - 4], n, GroupCount(n));
    }
  }

  /** An index is accepted exactly when its bytes are the groups of n record sizes that add up to where the
    index begins, with their checksum; the offsets are then the running sums. */
  lemma IndexLaw(crc: seq<byte> -> uint32, buf: seq<byte>, n: nat, base: int, offsets: seq<int>)
    ensures DecodedIndex(crc, buf, n, base) == Ok(offsets) <==>
      !Implausible(buf, n)
      && exists parts, ds :: StoredIndex(crc, buf, parts, ds) && |ds| == n && Accumulate(offsets, ds) && offsets[n] == base
    ensures Implausible(buf, n) ==> DecodedIndex(crc, buf, n, base) == Err(Corrupt)
    ensures !Implausible(buf, n) && buf[|buf| - 4..] != PutLE(crc(buf[..|buf| - 4]), 4) ==>
      DecodedIndex(crc, buf, n, base) == Err(Checksum)
    ensures !Implausible(buf, n) && buf[|buf| - 4..] == PutLE(crc(buf[..|buf| - 4]), 4) ==>
      DecodedIndex(crc, buf, n, base) != Err(Checksum)
    ensures DecodedIndex(crc, buf, n, base).Err? ==> DecodedIndex(crc, buf, n, base).error in {Corrupt, Checksum}
  {
    IndexErrors(crc, buf, n, base);
    if !Implausible(buf, n) {
      StoredCrc(buf[|buf| - 4..], crc(buf[..|buf| - 4]));
    }
    hide GroupsAtTail, GroupAtTail, Flatten, Sum, PutLE, LE, GroupsAre, PrefixSums, StoredIndex, Accumulate;
    if DecodedIndex(crc, buf, n, base) == Ok(offsets) {
      var parts, ds := AcceptedStored(crc, buf, n, base);
      PrefixSumsAre(offsets, ds);
    }
    if parts, ds :| StoredIndex(crc, buf, parts, ds) && |ds| == n && Accumulate(offsets, ds) && offsets[n] == base {
      PrefixSumsAre(offsets, ds);
      if !Implausible(buf, n) {
        StoredAccepted(crc, buf, n, base, parts, ds);
      }
    }
  }

  /** A record of 4 GiB or more. */
  predicate TooLong(offsets: seq<int>, j: nat)
    requires j + 1 < |offsets|
  {
    offsets[j + 1] - offsets[j] > 0xFFFF_FFFF
  }

  lemma LargeDeltas(offsets: seq<int>)
    ensures HasLargeDelta(offsets) <==> exists j: nat :: j + 1 < |offsets| && TooLong(offsets, j)
  {
    if HasLargeDelta(offsets) {
      var j :| 0 <= j < |offsets| - 1 && IsLargeDelta(offsets, j);
      assert TooLong(offsets, j);
    }
    if j: nat :| j + 1 < |offsets| && TooLong(offsets, j) {
      assert IsLargeDelta(offsets, j);
    }
  }

  /** Offsets that never decrease are refused for exactly two reasons, too many records or too long a record;
    otherwise the index written for them reads back as them. */
  lemma EncodeLaw(crc: seq<byte> -> uint32, offsets: seq<int>)
    requires |offsets| > 0 && offsets[0] == 0 && forall j :: 0 <= j < |offsets| - 1 ==> offsets[j] <= offsets[j + 1]
    ensures EncodedIndex(crc, offsets) == Err(TooManyRecords) <==> |offsets| - 1 > 0xFFFF_FFFF
    ensures EncodedIndex(crc, offsets) == Err(RecordTooLarge)
      <==> |offsets| - 1 <= 0xFFFF_FFFF && exists j: nat :: j + 1 < |offsets| && TooLong(offsets, j)
    ensures EncodedIndex(crc, offsets).Err? ==> EncodedIndex(crc, offsets).error in {TooManyRecords, RecordTooLarge}
    ensures EncodedIndex(crc, offsets).Ok? ==>
      DecodedIndex(crc, EncodedIndex(crc, offsets).value, |offsets| - 1, offsets[|offsets| - 1]) == Ok(offsets)
  {
    LargeDeltas(offsets);
    hide IndexBytes, Deltas, DecodedIndex;
    if EncodedIndex(crc, offsets).Ok? {
      forall j | 0 <= j < |offsets| - 1 ensures RecordFits(offsets, j) {
        assert !IsLargeDelta(offsets, j);
      }
      IndexRoundTrip(crc, offsets);
    }
  }

  // ---------------------------------------------------------------- the trailer

  /** The four bytes at an offset, least significant first. */
  function Number(s: seq<byte>, at: nat): nat
    requires at + 4 <= |s|
  {
    s[at] as int + 256 * (s[at + 1] as int) + 0x1_0000 * (s[at + 2] as int) + 0x100_0000 * (s[at + 3] as int)
  }

  lemma NumberIs(s: seq<byte>, at: nat)
    requires at + 4 <= |s|
    ensures U32At(s, at) == Number(s, at)
  {
    var t := s[at..at + 4];
    assert LE(t) == t[0] as int + 256 * LE(t[1..]);
    assert t[1..][1..] == t[2..] && LE(t[1..]) == t[1] as int + 256 * LE(t[2..]);
    assert t[2..][1..] == t[3..] && LE(t[2..]) == t[2] as int + 256 * LE(t[3..]);
    assert t[3..][1..] == [] && LE(t[3..]) == t[3] as int;
  }

  lemma TrailerFields(tb: seq<byte>)
    requires |tb| == TRAILER_SIZE
    ensures var t := ParseTrailer(tb);
      && t.magic == Number(tb, 0) && t.version == tb[4] && t.flags == tb[5]
      && t.recordCount == Number(tb, 6) && t.totalItems == Number(tb, 10) && t.itemsPerRecord == Number(tb, 14)
      && t.indexSize == Number(tb, 18) && t.appDataSize == Number(tb, 22)
      && t.contentHash == tb[26..58] && t.groupSize == tb[58] as int + 256 * (tb[59] as int)
      && U32At(tb, 60) == Number(tb, 60)
  {
    hide U32At;
    NumberIs(tb, 0);
    NumberIs(tb, 6);
    NumberIs(tb, 10);
    NumberIs(tb, 14);
    NumberIs(tb, 18);
    NumberIs(tb, 22);
    NumberIs(tb, 60);
  }

  /** The last 64 bytes of a file of at least that size. */
  function Tail(file: seq<byte>): (tb: seq<byte>)
    requires |file| >= 64
    ensures |tb| == 64
  {
    file[|file| - 64..]
  }

  /** Where the index begins: before index, application data and trailer. */
  function IndexStart(file: seq<byte>): int
    requires |file| >= 64
  {
    |file| - 64 - Number(Tail(file), 22) - Number(Tail(file), 18)
  }

  /** The fixed part of a trailer of this version, with its checksum, and room for what it announces. */
  ghost predicate TrailerOk(env: Env, file: seq<byte>)
  {
    && |file| >= 64
    && var tb := Tail(file);
    && tb[..5] == [0x48, 0x43, 0x4C, 0x53, 1] && tb[5] < 8 && tb[58] == 128 && tb[59] == 0
    && IndexStart(file) >= 0 && env.crc(tb[..60]) == Number(tb, 60)
  }

  /** The number of records agrees with the numbers of items. */
  predicate CountsAgree(records: nat, items: nat, itemsPerRecord: nat)
  {
    if itemsPerRecord == 0 then records == 0 else records == (items + itemsPerRecord - 1) / itemsPerRecord
  }

  /** The index section of a file decodes to these offsets. */
  ghost predicate IndexIs(env: Env, file: seq<byte>, offsets: seq<int>)
    requires |file| >= 64 && IndexStart(file) >= 0
  {
    var at := IndexStart(file);
    DecodedIndex(env.crc, file[at..at + Number(Tail(file), 18)], Number(Tail(file), 6), at) == Ok(offsets)
  }

  /** What opening makes of a file. */
  ghost predicate OpensTo(file: seq<byte>, o: Opened)
    requires |file| >= 64 && IndexStart(file) >= 0
  {
    var tb, at := Tail(file), IndexStart(file);
    && o.format == (if tb[5] % 2 == 0 then Compressed else if tb[5] / 4 % 2 == 1 then Raw else Uncompressed)
    && o.hasContentHash == (tb[5] / 2 % 2 == 1)
    && (if o.hasContentHash then o.contentHash == tb[26..58] else forall i :: 0 <= i < 32 ==> o.contentHash[i] == 0)
    && o.appData == file[at + Number(tb, 18)..at + Number(tb, 18) + Number(tb, 22)]
    && o.totalItems == Number(tb, 10) && o.itemsPerRecord == (if Number(tb, 14) == 0 then 1 else Number(tb, 14))
  }

  lemma MagicBytes(tb: seq<byte>)
    requires |tb| == 64
    ensures Number(tb, 0) == MAGIC && tb[4] == VERSION <==> tb[..5] == [0x48, 0x43, 0x4C, 0x53, 1]
    ensures Number(tb, 0) == MAGIC <==> tb[..4] == [0x48, 0x43, 0x4C, 0x53]
  {
    assert tb[..4] == [tb[0], tb[1], tb[2], tb[3]];
    assert tb[..5] == [tb[0], tb[1], tb[2], tb[3], tb[4]];
  }

  lemma FlagFields(flags: byte)
    ensures FormatOf(flags) == if flags % 2 == 0 then Compressed else if flags / 4 % 2 == 1 then Raw else Uncompressed
    ensures HasHash(flags) <==> flags / 2 % 2 == 1
    ensures UnknownFlag(flags) <==> flags >= 8
  {
  }

  /** What is wrong with a file before its index is looked at, in the order in which it is found out. */
  lemma TrailerRefused(env: Env, file: seq<byte>)
    ensures |file| < 64 ==> OpenedFile(env, file) == Err(Size)
    ensures |file| >= 64 ==>
      var tb, r := Tail(file), OpenedFile(env, file);
      if tb[..4] != [0x48, 0x43, 0x4C, 0x53] then r == Err(Magic)
      else if tb[4] != 1 then r == Err(Version)
      else if tb[58] != 128 || tb[59] != 0 then r == Err(Error.GroupSize)
      else if tb[5] >= 8 then r == Err(UnknownFlags)
      else if IndexStart(file) < 0 then r == Err(Size)
      else if env.crc(tb[..60]) != Number(tb, 60) then r == Err(Checksum)
      else TrailerOk(env, file)
  {
    hide DecodedIndex, Number, ParseTrailer, U32At, Assembled;
    if |file| >= 64 {
      TrailerFields(Tail(file));
      MagicBytes(Tail(file));
    }
  }

  /** With a good trailer the outcome is that of the index and of the counts. */
  lemma TailDecides(env: Env, file: seq<byte>)
    requires TrailerOk(env, file)
    ensures var tb, at := Tail(file), IndexStart(file);
      var index := DecodedIndex(env.crc, file[at..at + Number(tb, 18)], Number(tb, 6), at);
      OpenedFile(env, file) == match index
        case Err(e) => Err(e)
        case Ok(offsets) =>
          Assembled(ParseTrailer(tb), offsets, file[at + Number(tb, 18)..at + Number(tb, 18) + Number(tb, 22)])
  {
    hide DecodedIndex, Number, ParseTrailer, U32At, Assembled;
    TrailerFields(Tail(file));
    MagicBytes(Tail(file));
    assert Tail(file)[..5][..4] == Tail(file)[..4];
  }

  lemma ZeroHash(h: Digest)
    ensures h == NO_HASH <==> forall i :: 0 <= i < 32 ==> h[i] == 0
  {
    if forall i :: 0 <= i < 32 ==> h[i] == 0 {
      assert forall i :: 0 <= i < 32 ==> h[i] == NO_HASH[i];
    }
  }

  lemma CountsDecide(file: seq<byte>, offsets: seq<int>, appData: seq<byte>, o: Opened)
    requires |file| >= 64 && IndexStart(file) >= 0
    requires var tb, at := Tail(file), IndexStart(file);
      appData == file[at + Number(tb, 18)..at + Number(tb, 18) + Number(tb, 22)]
    ensures var tb := Tail(file);
      Assembled(ParseTrailer(tb), offsets, appData) == Ok(o)
      <==> CountsAgree(Number(tb, 6), Number(tb, 10), Number(tb, 14)) && OpensTo(file, o) && o.offsets == offsets
    ensures var tb := Tail(file);
      !CountsAgree(Number(tb, 6), Number(tb, 10), Number(tb, 14)) ==>
        Assembled(ParseTrailer(tb), offsets, appData)
        == Err(if Number(tb, 14) == 0 then BadItemsPerRecord else RecordCountMismatch)
  {
    hide Number, ParseTrailer;
    TrailerFields(Tail(file));
    FlagFields(Tail(file)[5]);
    ZeroHash(o.contentHash);
    hide NO_HASH, FormatOf, HasHash;
  }

  lemma TrailerNeeded(env: Env, file: seq<byte>)
    requires !TrailerOk(env, file)
    ensures OpenedFile(env, file).Err?
  {
    TrailerRefused(env, file);
    hide OpenedFile, TrailerOk, Number;
  }

  lemma GoodTrailerDecides(env: Env, file: seq<byte>, o: Opened)
    requires TrailerOk(env, file)
    ensures OpenedFile(env, file) == Ok(o) <==>
      && IndexIs(env, file, o.offsets)
      && CountsAgree(Number(Tail(file), 6), Number(Tail(file), 10), Number(Tail(file), 14)) && OpensTo(file, o)
    ensures (exists offsets :: IndexIs(env, file, offsets)) ==>
      CountsAgree(Number(Tail(file), 6), Number(Tail(file), 10), Number(Tail(file), 14))
      || OpenedFile(env, file) == Err(if Number(Tail(file), 14) == 0 then BadItemsPerRecord else RecordCountMismatch)
  {
    hide OpenedFile, DecodedIndex, Number, ParseTrailer, Assembled, OpensTo, CountsAgree;
    TailDecides(env, file);
    var tb, at := Tail(file), IndexStart(file);
    hide TrailerOk, IndexStart, Tail;
    var index := DecodedIndex(env.crc, file[at..at + Number(tb, 18)], Number(tb, 6), at);
    if index.Ok? {
      CountsDecide(file, index.value, file[at + Number(tb, 18)..at + Number(tb, 18) + Number(tb, 22)], o);
    }
  }

  /** Opening accepts exactly the files whose last 64 bytes are a trailer of this version with a right checksum,
    whose index is accepted, and whose counts agree; and what it returns is what these bytes say. */
  lemma FileLaw(env: Env, file: seq<byte>, o: Opened)
    ensures OpenedFile(env, file) == Ok(o) <==>
      && TrailerOk(env, file) && IndexIs(env, file, o.offsets)
      && CountsAgree(Number(Tail(file), 6), Number(Tail(file), 10), Number(Tail(file), 14)) && OpensTo(file, o)
    ensures TrailerOk(env, file) && (exists offsets :: IndexIs(env, file, offsets)) ==>
      CountsAgree(Number(Tail(file), 6), Number(Tail(file), 10), Number(Tail(file), 14))
      || OpenedFile(env, file) == Err(if Number(Tail(file), 14) == 0 then BadItemsPerRecord else RecordCountMismatch)
  {
    hide OpenedFile, Number, IndexIs, OpensTo, CountsAgree, TrailerOk;
    if TrailerOk(env, file) {
      GoodTrailerDecides(env, file, o);
    } else {
      TrailerNeeded(env, file);
    }
  }

  lemma TrailerWritten(env: Env, s: Settings, recordCount: nat, total: nat, hash: Digest, indexSize: nat, appDataSize: nat)
    ensures var tb := TrailerBytes(env, TrailerOf(s, recordCount, total, hash, indexSize, appDataSize));
      && tb[..5] == [0x48, 0x43, 0x4C, 0x53, 1]
      && (tb[5] % 2 == 1 <==> !s.format.Compressed?) && (tb[5] / 2 % 2 == 1 <==> s.hashing)
      && (tb[5] / 4 % 2 == 1 <==> s.format.Raw?) && tb[5] < 8
      && Number(tb, 6) == recordCount % TWO32 && Number(tb, 10) == total % TWO32 && Number(tb, 14) == s.itemsPerRecord % TWO32
      && Number(tb, 18) == indexSize % TWO32 && Number(tb, 22) == appDataSize % TWO32
      && tb[26..58] == hash && tb[58] == 128 && tb[59] == 0 && Number(tb, 60) == env.crc(tb[..60])
  {
    hide TrailerBytes, ParseTrailer, Number, FlagsOf, U32At;
    var t := TrailerOf(s, recordCount, total, hash, indexSize, appDataSize);
    var tb := TrailerBytes(env, t);
    TrailerRoundTrip(env, t);
    TrailerFields(tb);
    MagicBytes(tb);
    FlagsRoundTrip(s.format, s.hashing);
  }

  lemma JoinThree(f: seq<byte>, a: seq<byte>, b: seq<byte>, c: seq<byte>)
    requires |f| == |a| + |b| + |c| + 64 && f[..|a|] == a && f[|a|..|a| + |b|] == b && f[|a| + |b|..|a| + |b| + |c|] == c
    ensures f[..|f| - 64] == a + b + c
  {
    assert f[..|f| - 64] == f[..|a|] + f[|a|..|a| + |b|] + f[|a| + |b|..|a| + |b| + |c|];
  }

  /** The sections of a finished file. */
  lemma FinishedParts(env: Env, s: Settings, items: seq<Item>, appData: seq<byte>) returns (data: seq<byte>, index: seq<byte>)
    requires s.Valid() && Writable(env, s, items, appData)
    ensures var records := RecordsOf(env, s, ChunksOf(items, s.itemsPerRecord));
      data == Flatten(records) && EncodedIndex(env.crc, OffsetsOf(records)) == Ok(index) && |index| < TWO32
    ensures |items| <= MAX_UINT32 && |ChunksOf(items, s.itemsPerRecord)| == RecordCount(|items|, s.itemsPerRecord)
    ensures var f := FileOf(env, s, items, appData).value;
      && |f| == |data| + |index| + |appData| + 64
      && f[..|f| - 64] == data + index + appData
      && f[|f| - 64..] == TrailerBytes(env, TrailerOf(s, RecordCount(|items|, s.itemsPerRecord), |items|, HashField(env, s, items),
                                                      |index|, |appData|))
  {
    hide IndexBytes, Deltas, RecordsOf, OffsetsOf, Flatten, ChunksOf, HashField, TrailerBytes, TailBytes, Small,
      HasLargeDelta, TrailerOf;
    var records := RecordsOf(env, s, ChunksOf(items, s.itemsPerRecord));
    data, index := Flatten(records), EncodedIndex(env.crc, OffsetsOf(records)).value;
    ChunkCount(items, s.itemsPerRecord);
    TailParts(env, s, data, |records|, |items|, HashField(env, s, items), index, appData);
    JoinThree(FileOf(env, s, items, appData).value, data, index, appData);
  }

  /** A finished file: the records, the index of their offsets, the application data, and a trailer. */
  lemma FinishedLayout(env: Env, s: Settings, items: seq<Item>, appData: seq<byte>)
    requires s.Valid() && Writable(env, s, items, appData)
    ensures var f, records := FileOf(env, s, items, appData).value, RecordsOf(env, s, ChunksOf(items, s.itemsPerRecord));
      && EncodedIndex(env.crc, OffsetsOf(records)).Ok? && |f| >= 64
      && f[..|f| - 64] == Flatten(records) + EncodedIndex(env.crc, OffsetsOf(records)).value + appData
  {
    hide FileOf, Writable, RecordsOf, OffsetsOf, EncodedIndex, TrailerBytes, TrailerOf;
    var data, index := FinishedParts(env, s, items, appData);
  }

  lemma RecordsFewer(n: nat, k: nat)
    requires k > 0
    ensures RecordCount(n, k) <= n
  {
    CountCases(n, k);
    DivNonneg(n, k);
    var q, r := n / k, n % k;
    assert n == q * k + r;
    MulUpTo(1, k, q);
    MulCommute(k, q);
  }

  /** Its trailer, byte by byte: the format, the flags, the counts and sizes, the content hash of the items or
    zeros, and the checksum. */
  lemma FinishedTrailer(env: Env, s: Settings, items: seq<Item>, appData: seq<byte>)
    requires s.Valid() && Writable(env, s, items, appData)
    ensures |FileOf(env, s, items, appData).value| >= 64
    ensures var f := FileOf(env, s, items, appData).value;
      var tb, records := Tail(f), RecordsOf(env, s, ChunksOf(items, s.itemsPerRecord));
      && tb[..5] == [0x48, 0x43, 0x4C, 0x53, 1] && tb[58] == 128 && tb[59] == 0 && Number(tb, 60) == env.crc(tb[..60])
      && (tb[5] % 2 == 1 <==> !s.format.Compressed?) && (tb[5] / 2 % 2 == 1 <==> s.hashing)
      && (tb[5] / 4 % 2 == 1 <==> s.format.Raw?) && tb[5] < 8
      && Number(tb, 6) == |records| && Number(tb, 10) == |items| && Number(tb, 14) == s.itemsPerRecord
      && Number(tb, 22) == |appData| && IndexStart(f) == |Flatten(records)|
      && tb[26..58] == HashField(env, s, items)
  {
    hide FileOf, RecordsOf, OffsetsOf, EncodedIndex, TrailerBytes, TrailerOf, HashField, Number, ChunksOf, Flatten, RecordCount,
      Small, IndexBytes;
    var data, index := FinishedParts(env, s, items, appData);
    var count := RecordCount(|items|, s.itemsPerRecord);
    TrailerWritten(env, s, count, |items|, HashField(env, s, items), |index|, |appData|);
    RecordsFewer(|items|, s.itemsPerRecord);
    SmallMod(|items|, TWO32);
    SmallMod(count, TWO32);
    SmallMod(s.itemsPerRecord, TWO32);
    SmallMod(|index|, TWO32);
    SmallMod(|appData|, TWO32);
  }

  /** Without hashing the hash field is zeros. */
  lemma HashFieldIs(env: Env, s: Settings, items: seq<Item>)
    requires s.Valid()
    ensures if s.hashing then HashField(env, s, items) == ContentHash(env, s.itemsPerRecord, items)
      else forall i :: 0 <= i < 32 ==> HashField(env, s, items)[i] == 0
  {
    ZeroHash(HashField(env, s, items));
  }
}
