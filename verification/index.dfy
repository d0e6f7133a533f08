/** The offset index: record sizes in groups of 128, written forward, decoded backward, with a
  trailing CRC32C. */
module Index {
  import opened Bytes
  import opened Results
  import opened Slices
  import opened Intpack

  const GROUP_SIZE := 128

  // ---------------------------------------------------------------- sums

  ghost function Sum(ds: seq<uint32>): nat
  {
    if |ds| == 0 then 0 else Sum(ds[..|ds| - 1]) + ds[|ds| - 1]
  }

  lemma SumEmpty()
    ensures forall ds: seq<uint32> :: Sum(ds[..0]) == 0
  {
  }

  lemma SumNext(ds: seq<uint32>, i: nat)
    requires i < |ds|
    ensures Sum(ds[..i + 1]) == Sum(ds[..i]) + ds[i]
  {
    assert ds[..i + 1][..i] == ds[..i];
  }

  lemma {:induction false} SumMonotone(ds: seq<uint32>, i: nat, j: nat)
    requires i <= j <= |ds|
    ensures Sum(ds[..i]) <= Sum(ds[..j])
    decreases j - i
  {
    if i < j {
      SumMonotone(ds, i, j - 1);
      SumNext(ds, j - 1);
    }
  }

  lemma {:induction false} SumBound(ds: seq<uint32>)
    ensures Sum(ds) <= |ds| * MAX_UINT32
  {
    if |ds| > 0 { SumBound(ds[..|ds| - 1]); }
  }

  /** Offsets of the records: offset i is the total size of the records before i. */
  ghost function PrefixSums(ds: seq<uint32>): (os: seq<int>)
    ensures |os| == |ds| + 1
  {
    seq(|ds| + 1, i requires 0 <= i <= |ds| => Sum(ds[..i]))
  }

  // ---------------------------------------------------------------- encoded form

  function GroupCount(n: nat): nat { (n + GROUP_SIZE - 1) / GROUP_SIZE }

  function GroupEnd(n: nat, g: nat): (e: nat)
    ensures e <= n
  {
    if g * GROUP_SIZE <= n then g * GROUP_SIZE else n
  }

  lemma GroupsCover(n: nat)
    ensures GroupEnd(n, GroupCount(n)) == n
    ensures GroupEnd(n, 0) == 0
    ensures forall g :: 0 <= g < GroupCount(n) ==> GroupEnd(n, g) == g * GROUP_SIZE < n
  {
  }

  /** The values of group g. */
  ghost function GroupOf(ds: seq<uint32>, g: nat): (vs: seq<uint32>)
    requires g < GroupCount(|ds|)
    ensures |vs| == GroupEnd(|ds|, g + 1) - GroupEnd(|ds|, g) && 0 < |vs| <= GROUP_SIZE
  {
    ds[GroupEnd(|ds|, g)..GroupEnd(|ds|, g + 1)]
  }

  /** The first g groups. */
  ghost function GroupsBytes(ds: seq<uint32>, g: nat): seq<byte>
    requires g <= GroupCount(|ds|)
  {
    if g == 0 then [] else GroupsBytes(ds, g - 1) + GroupBytes(GroupOf(ds, g - 1))
  }

  lemma GroupsBytesStep(ds: seq<uint32>, g: nat)
    requires g < GroupCount(|ds|)
    ensures GroupsBytes(ds, g + 1) == GroupsBytes(ds, g) + GroupBytes(GroupOf(ds, g))
  {
    hide GroupBytes, GroupOf, GroupEnd;
  }

  lemma GroupsBytesNone(ds: seq<uint32>)
    ensures GroupsBytes(ds, 0) == []
  {
  }

  ghost function IndexPayload(ds: seq<uint32>): seq<byte>
  {
    GroupsBytes(ds, GroupCount(|ds|))
  }

  ghost function IndexBytes(crc: seq<byte> -> uint32, ds: seq<uint32>): seq<byte>
  {
    IndexPayload(ds) + PutLE(crc(IndexPayload(ds)), 4)
  }

  /** Record sizes of an offset list; int64 differences are narrowed to uint32. */
  ghost function Deltas(offsets: seq<int>): (ds: seq<uint32>)
    ensures |offsets| > 0 ==> |ds| == |offsets| - 1
  {
    if |offsets| == 0 then []
    else seq(|offsets| - 1, j requires 0 <= j < |offsets| - 1 => (offsets[j + 1] - offsets[j]) % TWO32)
  }

  lemma DeltasLength(offsets: seq<int>)
    ensures |Deltas(offsets)| == if |offsets| == 0 then 0 else |offsets| - 1
  {
  }

  predicate IsLargeDelta(offsets: seq<int>, j: nat)
    requires j < |offsets| - 1
  {
    offsets[j + 1] - offsets[j] > MAX_UINT32
  }

  ghost predicate HasLargeDelta(offsets: seq<int>)
  {
    exists j :: 0 <= j < |offsets| - 1 && IsLargeDelta(offsets, j)
  }

  ghost function EncodedIndex(crc: seq<byte> -> uint32, offsets: seq<int>): Result<seq<byte>>
  {
    if |offsets| - 1 > MAX_UINT32 then Err(TooManyRecords)
    else if HasLargeDelta(offsets) then Err(RecordTooLarge)
    else Ok(IndexBytes(crc, Deltas(offsets)))
  }

  /** The deltas of one group, or the error when a record is 4 GiB or longer. */
  method GroupDeltas(offsets: seq<int>, base: nat, end: nat) returns (r: Result<seq<uint32>>)
    requires base <= end <= |offsets| - 1
    ensures r.Err? ==> r.error == RecordTooLarge && HasLargeDelta(offsets)
    ensures r.Ok? ==> r.value == Deltas(offsets)[base..end]
    ensures r.Ok? ==> forall k :: base <= k < end ==> !IsLargeDelta(offsets, k)
  {
    ghost var ds := Deltas(offsets);
    var deltas: seq<uint32> := [];
    for j := base to end
      invariant deltas == ds[base..j]
      invariant forall k :: base <= k < j ==> !IsLargeDelta(offsets, k)
    {
      var d := offsets[j + 1] - offsets[j];
      if d > MAX_UINT32 {
        assert IsLargeDelta(offsets, j);
        return Err(RecordTooLarge);
      }
      deltas := deltas + [d % TWO32];
    }
    r := Ok(deltas);
  }

  /** Where group g begins and ends, and that the loop over groups runs exactly over them. */
  lemma GroupBounds(n: nat, g: nat)
    ensures g * GROUP_SIZE < n <==> g < GroupCount(n)
    ensures g < GroupCount(n) ==> GroupEnd(n, g) == g * GROUP_SIZE && GroupEnd(n, g + 1) == Min(g * GROUP_SIZE + GROUP_SIZE, n)
  {
  }

  /** encodeIndex */
  method EncodeIndex(crc: seq<byte> -> uint32, offsets: seq<int>) returns (r: Result<seq<byte>>)
    ensures r == EncodedIndex(crc, offsets)
  {
    hide PutLE, GroupBytes, Deltas, GroupsBytes, GroupEnd, GroupCount, IsLargeDelta;
    GroupsBytesNone(Deltas(offsets));
    var recordCount := |offsets| - 1;
    if recordCount > MAX_UINT32 {
      return Err(TooManyRecords);
    }
    ghost var ds := Deltas(offsets);
    DeltasLength(offsets);
    GroupsCover(|ds|);
    var buf: seq<byte> := [];
    var g := 0;
    while g * GROUP_SIZE < recordCount
      invariant 0 <= g <= GroupCount(|ds|)
      invariant buf == GroupsBytes(ds, g)
      invariant forall j :: 0 <= j < GroupEnd(|ds|, g) ==> !IsLargeDelta(offsets, j)
      decreases recordCount - g * GROUP_SIZE
    {
      GroupBounds(|ds|, g);
      var base := g * GROUP_SIZE;
      var end := Min(base + GROUP_SIZE, recordCount);
      var deltas := GroupDeltas(offsets, base, end);
      if deltas.Err? {
        return Err(RecordTooLarge);
      }
      assert deltas.value == GroupOf(ds, g);
      var group := EncodeGroup(deltas.value);
      GroupsBytesStep(ds, g);
      buf := buf + group;
      g := g + 1;
    }
    GroupBounds(|ds|, g);
    r := Ok(buf + PutLE(crc(buf), 4));
  }

  // ---------------------------------------------------------------- decoding any bytes

  /** The first g groups at the tail of a buffer: their values and the length of what precedes. */
  ghost function GroupsAtTail(buf: seq<byte>, n: nat, g: nat): (r: Result<(seq<uint32>, nat)>)
    requires g <= GroupCount(n)
    ensures r.Ok? ==> |r.value.0| == GroupEnd(n, g) && r.value.1 <= |buf|
    decreases g
  {
    if g == 0 then Ok(([], |buf|))
    else
      match GroupAtTail(buf, GroupEnd(n, g) - GroupEnd(n, g - 1))
      case Err(_) => Err(Corrupt)
      case Ok((vs, consumed)) =>
        match GroupsAtTail(buf[..|buf| - consumed], n, g - 1)
        case Err(e) => Err(e)
        case Ok((ws, rest)) => Ok((ws + vs, rest))
  }

  /** What an index of any bytes decodes to. Record counts a crafted trailer makes implausible for
    the size are refused before anything is allocated. */
  ghost function DecodedIndex(crc: seq<byte> -> uint32, buf: seq<byte>, n: nat, indexBase: int): (r: Result<seq<int>>)
    ensures r.Ok? ==> |r.value| == n + 1
  {
    if |buf| < 4 then Err(Corrupt)
    else if n > (|buf| - 4) / 6 * GROUP_SIZE then Err(Corrupt)
    else
      var payload := buf[..|buf| - 4];
      if Get32(buf[|buf| - 4..]) != crc(payload) then Err(Checksum)
      else
        GroupsCover(n);
        match GroupsAtTail(payload, n, GroupCount(n))
        case Err(e) => Err(e)
        case Ok((ds, rest)) =>
          if rest != 0 || Sum(ds) != indexBase then Err(Corrupt) else Ok(PrefixSums(ds))
  }

  lemma ToInt64Zero()
    ensures ToInt64(0) == 0
  {
  }

  /** A wrapped running sum continues as if it had not wrapped. */
  lemma ToInt64Add(x: int, d: int)
    ensures ToInt64(ToInt64(x) + d) == ToInt64(x + d)
  {
  }

  lemma SumBelow(ds: seq<uint32>)
    requires |ds| < TWO32
    ensures Sum(ds) < TWO64
  {
    hide Sum;
    SumBound(ds);
    MulUpTo(|ds|, MAX_UINT32, MAX_UINT32);
  }

  lemma ToInt64Range(x: nat)
    requires x < TWO64
    ensures ToInt64(x) == if x < TWO63 then x else x - TWO64
  {
  }

  /** A sum of fewer than 2^32 sizes is below 2^64, so an int64 running sum that ends at a
    non-negative offset never wrapped on the way. */
  lemma NoWrap(ds: seq<uint32>, indexBase: int)
    requires |ds| < TWO32 && 0 <= indexBase < TWO63
    ensures ToInt64(Sum(ds)) == indexBase <==> Sum(ds) == indexBase
    ensures ToInt64(Sum(ds)) == indexBase ==>
      forall i :: 0 <= i <= |ds| ==> ToInt64(Sum(ds[..i])) == Sum(ds[..i])
  {
    hide ToInt64, Sum;
    SumBelow(ds);
    ToInt64Range(Sum(ds));
    if ToInt64(Sum(ds)) == indexBase {
      forall i | 0 <= i <= |ds| ensures ToInt64(Sum(ds[..i])) == Sum(ds[..i]) {
        SumMonotone(ds, i, |ds|);
        assert ds[..|ds|] == ds;
        ToInt64Range(Sum(ds[..i]));
      }
    }
  }

  /** The backward loop's state: g groups still to read at the tail of buf, the later values known. */
  ghost function Rest(buf: seq<byte>, n: nat, g: nat, later: seq<uint32>): Result<(seq<uint32>, nat)>
    requires g <= GroupCount(n)
  {
    match GroupsAtTail(buf, n, g)
    case Err(e) => Err(e)
    case Ok((ws, rest)) => Ok((ws + later, rest))
  }

  lemma RestNone(buf: seq<byte>, n: nat, g: nat, later: seq<uint32>)
    requires g <= GroupCount(n) && |later| == 0
    ensures Rest(buf, n, g, later) == GroupsAtTail(buf, n, g)
  {
    hide GroupsAtTail;
    match GroupsAtTail(buf, n, g)
    case Err(_) =>
    case Ok((ws, _)) => assert ws + later == ws;
  }

  lemma RestAll(buf: seq<byte>, n: nat, later: seq<uint32>)
    ensures Rest(buf, n, 0, later) == Ok((later, |buf|))
  {
    assert [] + later == later;
  }

  lemma RestFails(buf: seq<byte>, n: nat, g: nat, later: seq<uint32>)
    requires g < GroupCount(n)
    requires GroupAtTail(buf, GroupEnd(n, g + 1) - GroupEnd(n, g)).Err?
    ensures Rest(buf, n, g + 1, later) == Err(Corrupt)
  {
    hide GroupAtTail;
  }

  lemma RestStep(buf: seq<byte>, n: nat, g: nat, vs: seq<uint32>, c: nat, later: seq<uint32>)
    requires g < GroupCount(n)
    requires GroupAtTail(buf, GroupEnd(n, g + 1) - GroupEnd(n, g)) == Ok((vs, c))
    ensures c <= |buf|
    ensures Rest(buf, n, g + 1, later) == Rest(buf[..|buf| - c], n, g, vs + later)
  {
    hide GroupAtTail;
    match GroupsAtTail(buf[..|buf| - c], n, g)
    case Err(_) =>
    case Ok((ws, rest)) => assert (ws + vs) + later == ws + (vs + later);
  }

  lemma LastGroupLimit(n: nat, g: nat)
    requires g < GroupCount(n)
    ensures GroupEnd(n, g) == g * GROUP_SIZE
    ensures GroupEnd(n, g + 1) - GroupEnd(n, g)
      == (if g == GroupCount(n) - 1 && n % GROUP_SIZE != 0 then n % GROUP_SIZE else GROUP_SIZE)
  {
  }

  /** How many values group g has: the last group may be shorter. */
  method GroupLimit(recordCount: nat, groupCount: nat, g: nat) returns (limit: nat)
    requires g < groupCount == GroupCount(recordCount)
    ensures 0 < limit && GroupEnd(recordCount, g) == g * GROUP_SIZE
    ensures GroupEnd(recordCount, g + 1) == g * GROUP_SIZE + limit <= recordCount
  {
    limit := GROUP_SIZE;
    if g == groupCount - 1 && recordCount % GROUP_SIZE != 0 {
      limit := recordCount % GROUP_SIZE;
    }
    LastGroupLimit(recordCount, g);
  }

  /** The backward walk of decodeIndex: each group's footer is at the tail of what is left. */
  method DecodeGroups(payload: seq<byte>, recordCount: nat) returns (r: Result<(seq<uint32>, nat)>)
    ensures r == GroupsAtTail(payload, recordCount, GroupCount(recordCount))
  {
    hide GroupAtTail, Unpacked, GroupsAtTail, Rest, GroupEnd, GroupCount;
    var groupCount := GroupCount(recordCount);
    GroupsCover(recordCount);
    var deltas := new uint32[recordCount](i => 0);
    var pos := |payload|;
    var g := groupCount - 1;
    assert payload[..pos] == payload;
    RestNone(payload, recordCount, groupCount, deltas[GroupEnd(recordCount, groupCount)..]);
    while g >= 0
      invariant -1 <= g < groupCount
      invariant 0 <= pos <= |payload|
      invariant GroupsAtTail(payload, recordCount, groupCount)
        == Rest(payload[..pos], recordCount, g + 1, deltas[GroupEnd(recordCount, g + 1)..])
    {
      var base := g * GROUP_SIZE;
      var limit := GroupLimit(recordCount, groupCount, g);
      ghost var tail := deltas[base + limit..];
      var values, consumed := DecodeGroup(payload[..pos], limit, Slice(deltas, base, limit, recordCount - base));
      if consumed.Err? {
        RestFails(payload[..pos], recordCount, g, tail);
        return Err(Corrupt);
      }
      assert deltas[base..] == values.Elems() + tail;
      RestStep(payload[..pos], recordCount, g, values.Elems(), consumed.value, tail);
      assert payload[..pos][..pos - consumed.value] == payload[..pos - consumed.value];
      pos := pos - consumed.value;
      g := g - 1;
    }
    assert deltas[0..] == deltas[..];
    RestAll(payload[..pos], recordCount, deltas[..]);
    r := Ok((deltas[..], pos));
  }

  /** The forward pass of decodeIndex, in int64 arithmetic. */
  method SumOffsets(deltas: seq<uint32>, indexBase: int) returns (r: Result<seq<int>>)
    requires |deltas| < TWO32 && 0 <= indexBase < TWO63
    ensures r == if Sum(deltas) != indexBase then Err(Corrupt) else Ok(PrefixSums(deltas))
  {
    hide ToInt64, Sum;
    SumEmpty();
    ToInt64Zero();
    var recordCount := |deltas|;
    var offsets := new int[recordCount + 1](i => 0);
    var offset := 0;
    for i := 0 to recordCount
      invariant offset == ToInt64(Sum(deltas[..i]))
      invariant forall k :: 0 <= k < i ==> offsets[k] == ToInt64(Sum(deltas[..k]))
    {
      offsets[i] := offset;
      ToInt64Add(Sum(deltas[..i]), deltas[i]);
      SumNext(deltas, i);
      offset := ToInt64(offset + deltas[i]);
    }
    assert deltas[..recordCount] == deltas;
    NoWrap(deltas, indexBase);
    if offset != indexBase {
      return Err(Corrupt);
    }
    offsets[recordCount] := indexBase;
    assert offsets[..] == PrefixSums(deltas);
    r := Ok(offsets[..]);
  }

  /** decodeIndex */
  method DecodeIndex(crc: seq<byte> -> uint32, buf: seq<byte>, recordCount: nat, indexBase: int)
    returns (r: Result<seq<int>>)
    requires recordCount < TWO32 && 0 <= indexBase < TWO63
    ensures r == DecodedIndex(crc, buf, recordCount, indexBase)
  {
    hide GroupsAtTail;
    var indexSize := |buf|;
    if indexSize < 4 {
      return Err(Corrupt);
    }
    var maxGroups := (indexSize - 4) / 6;
    var maxRecords := maxGroups * GROUP_SIZE;
    if recordCount > maxRecords {
      return Err(Corrupt);
    }
    var payloadLen := indexSize - 4;
    var storedCRC := Get32(buf[payloadLen..]);
    if storedCRC != crc(buf[..payloadLen]) {
      return Err(Checksum);
    }
    GroupsCover(recordCount);
    var groups := DecodeGroups(buf[..payloadLen], recordCount);
    if groups.Err? {
      return Err(groups.error);
    }
    if groups.value.1 != 0 {
      return Err(Corrupt);
    }
    r := SumOffsets(groups.value.0, indexBase);
  }

  // ---------------------------------------------------------------- properties

  lemma GroupsAtTailStep(buf: seq<byte>, front: seq<byte>, n: nat, g: nat, ws: seq<uint32>, vs: seq<uint32>, c: nat)
    requires g < GroupCount(n) && c <= |buf| && front == buf[..|buf| - c]
    requires GroupAtTail(buf, GroupEnd(n, g + 1) - GroupEnd(n, g)) == Ok((vs, c))
    requires GroupsAtTail(front, n, g) == Ok((ws, 0))
    ensures GroupsAtTail(buf, n, g + 1) == Ok((ws + vs, 0))
  {
    hide GroupAtTail;
  }

  lemma GroupsAtTailNone(n: nat)
    ensures GroupsAtTail([], n, 0) == Ok(([], 0))
  {
  }

  lemma GroupsPrefix(ds: seq<uint32>, g: nat)
    requires g < GroupCount(|ds|)
    ensures ds[..GroupEnd(|ds|, g + 1)] == ds[..GroupEnd(|ds|, g)] + GroupOf(ds, g)
  {
  }

  lemma NoGroups(ds: seq<uint32>)
    ensures ds[..GroupEnd(|ds|, 0)] == []
  {
  }

  /** One more group at the tail. */
  lemma NextGroupRoundTrip(ds: seq<uint32>, g: nat)
    requires g < GroupCount(|ds|)
    requires GroupsAtTail(GroupsBytes(ds, g), |ds|, g) == Ok((ds[..GroupEnd(|ds|, g)], 0))
    ensures GroupsAtTail(GroupsBytes(ds, g + 1), |ds|, g + 1) == Ok((ds[..GroupEnd(|ds|, g + 1)], 0))
  {
    hide GroupAtTail, GroupBytes, GroupsBytes, GroupsAtTail, GroupEnd, GroupCount, GroupOf;
    var before, vs, earlier := GroupsBytes(ds, g), GroupOf(ds, g), ds[..GroupEnd(|ds|, g)];
    var group := GroupBytes(vs);
    var buf := before + group;
    GroupsBytesStep(ds, g);
    GroupRoundTrip(before, vs);
    assert buf[..|buf| - |group|] == before;
    GroupsAtTailStep(buf, before, |ds|, g, earlier, vs, |group|);
    GroupsPrefix(ds, g);
  }

  lemma {:induction false} GroupsRoundTrip(ds: seq<uint32>, g: nat)
    requires g <= GroupCount(|ds|)
    ensures GroupsAtTail(GroupsBytes(ds, g), |ds|, g) == Ok((ds[..GroupEnd(|ds|, g)], 0))
  {
    hide GroupAtTail, GroupBytes, GroupsBytes, GroupsAtTail, GroupEnd, GroupCount, GroupOf;
    if g == 0 {
      NoGroups(ds);
      GroupsBytesNone(ds);
      GroupsAtTailNone(|ds|);
    } else {
      GroupsRoundTrip(ds, g - 1);
      NextGroupRoundTrip(ds, g - 1);
    }
  }

  /** Encoded index sizes: between 6 bytes per group and 4 bytes per record plus 5 per group. */
  lemma {:induction false} GroupsSize(ds: seq<uint32>, g: nat)
    requires g <= GroupCount(|ds|)
    ensures 6 * g <= |GroupsBytes(ds, g)| <= 4 * GroupEnd(|ds|, g) + 5 * g
  {
    hide GroupBytes, GroupsBytes, GroupEnd, GroupCount, GroupOf;
    NoGroups(ds);
    if g == 0 {
      GroupsBytesNone(ds);
    } else {
      GroupsBytesStep(ds, g - 1);
      GroupsSize(ds, g - 1);
      GroupSizeBounds(GroupOf(ds, g - 1));
    }
  }

  lemma IndexSizeBounds(crc: seq<byte> -> uint32, ds: seq<uint32>)
    ensures 6 * GroupCount(|ds|) + 4 <= |IndexBytes(crc, ds)| <= 4 * |ds| + 5 * GroupCount(|ds|) + 4
  {
    GroupsSize(ds, GroupCount(|ds|));
    GroupsCover(|ds|);
  }

  /** Record j has a size a uint32 can hold. */
  ghost predicate RecordFits(offsets: seq<int>, j: nat)
    requires j < |offsets| - 1
  {
    0 <= offsets[j + 1] - offsets[j] <= MAX_UINT32
  }

  ghost predicate ValidOffsets(offsets: seq<int>)
  {
    && |offsets| > 0 && offsets[0] == 0
    && forall j :: 0 <= j < |offsets| - 1 ==> RecordFits(offsets, j)
  }

  lemma {:induction false} SumOfDeltas(offsets: seq<int>, i: nat)
    requires ValidOffsets(offsets) && i < |offsets|
    ensures Sum(Deltas(offsets)[..i]) == offsets[i]
  {
    hide Sum;
    if i == 0 {
      SumEmpty();
    } else {
      SumOfDeltas(offsets, i - 1);
      SumNext(Deltas(offsets), i - 1);
      assert RecordFits(offsets, i - 1);
    }
  }

  /** The pieces of encoded index bytes. */
  lemma IndexParts(crc: seq<byte> -> uint32, ds: seq<uint32>)
    ensures |IndexBytes(crc, ds)| >= 4
    ensures IndexBytes(crc, ds)[..|IndexBytes(crc, ds)| - 4] == IndexPayload(ds)
    ensures Get32(IndexBytes(crc, ds)[|IndexBytes(crc, ds)| - 4..]) == crc(IndexPayload(ds))
  {
    hide IndexPayload, LE, PutLE;
    LEPut32(crc(IndexPayload(ds)));
    assert IndexBytes(crc, ds)[|IndexPayload(ds)|..] == PutLE(crc(IndexPayload(ds)), 4);
  }

  lemma PrefixSumsOfDeltas(offsets: seq<int>)
    requires ValidOffsets(offsets)
    ensures PrefixSums(Deltas(offsets)) == offsets
    ensures Sum(Deltas(offsets)) == offsets[|offsets| - 1]
  {
    hide Sum, Deltas;
    forall i | 0 <= i < |offsets| ensures PrefixSums(Deltas(offsets))[i] == offsets[i] {
      SumOfDeltas(offsets, i);
    }
    assert Deltas(offsets)[..|offsets| - 1] == Deltas(offsets);
  }

  /** Round trip: every offset list a writer can have reads back from its own index; the guard
    against implausible record counts never rejects it. */
  lemma IndexRoundTrip(crc: seq<byte> -> uint32, offsets: seq<int>)
    requires ValidOffsets(offsets) && |offsets| <= TWO32
    ensures EncodedIndex(crc, offsets) == Ok(IndexBytes(crc, Deltas(offsets)))
    ensures var n := |offsets| - 1;
      DecodedIndex(crc, IndexBytes(crc, Deltas(offsets)), n, offsets[n]) == Ok(offsets)
  {
    hide Sum, Deltas, GroupsAtTail, GroupsBytes, IndexBytes, LE;
    var n := |offsets| - 1;
    var ds := Deltas(offsets);
    GroupsCover(n);
    GroupsSize(ds, GroupCount(n));
    IndexParts(crc, ds);
    GroupsRoundTrip(ds, GroupCount(n));
    assert ds[..n] == ds;
    PrefixSumsOfDeltas(offsets);
    forall j | 0 <= j < n ensures !IsLargeDelta(offsets, j) {
      assert RecordFits(offsets, j);
    }
  }

  lemma PrefixSumsValid(ds: seq<uint32>)
    ensures ValidOffsets(PrefixSums(ds)) && PrefixSums(ds)[|ds|] == Sum(ds)
  {
    hide Sum;
    SumEmpty();
    forall j | 0 <= j < |ds|
      ensures RecordFits(PrefixSums(ds), j)
    {
      SumNext(ds, j);
    }
    assert ds[..|ds|] == ds;
  }

  /** Offsets of an accepted index run from 0 to indexBase without decreasing, and no record is
    4 GiB or longer. */
  lemma DecodedOffsets(crc: seq<byte> -> uint32, buf: seq<byte>, n: nat, indexBase: int)
    requires DecodedIndex(crc, buf, n, indexBase).Ok?
    ensures ValidOffsets(DecodedIndex(crc, buf, n, indexBase).value)
    ensures DecodedIndex(crc, buf, n, indexBase).value[n] == indexBase
  {
    hide GroupsAtTail;
    GroupsCover(n);
    PrefixSumsValid(GroupsAtTail(buf[..|buf| - 4], n, GroupCount(n)).value.0);
  }
}
