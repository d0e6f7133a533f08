/** Records: groups of items in one of three formats, with the sizes of a multi-item record in a
  bit-packed index at its tail. Decoding is specified on arbitrary bytes. */
module Records {
  import opened Bytes
  import opened Results
  import opened Environment
  import opened Intpack
  import opened Index

  datatype Format = Compressed | Uncompressed | Raw
  type Item = seq<byte>

  // ---------------------------------------------------------------- items and sizes

  ghost function Flatten(items: seq<Item>): seq<byte>
  {
    if |items| == 0 then [] else Flatten(items[..|items| - 1]) + items[|items| - 1]
  }

  /** Item sizes; uint32(len) narrows. */
  ghost function SizesOf(items: seq<Item>): (s: seq<uint32>)
    ensures |s| == |items|
  {
    seq(|items|, i requires 0 <= i < |items| => |items[i]| % TWO32)
  }

  ghost predicate Small(items: seq<Item>)
  {
    forall i :: 0 <= i < |items| ==> |items[i]| < TWO32
  }

  lemma FlattenNext(items: seq<Item>, i: nat)
    requires i < |items|
    ensures Flatten(items[..i + 1]) == Flatten(items[..i]) + items[i]
  {
    assert items[..i + 1][..i] == items[..i];
  }

  lemma FlattenNone()
    ensures Flatten([]) == []
  {
  }

  lemma FlattenSnoc(items: seq<Item>, item: Item)
    ensures Flatten(items + [item]) == Flatten(items) + item
  {
    hide Flatten;
    FlattenNext(items + [item], |items|);
    assert (items + [item])[..|items|] == items && (items + [item])[..|items| + 1] == items + [item];
  }

  lemma FlattenOne(item: Item)
    ensures Flatten([item]) == item
  {
    FlattenNone();
    FlattenSnoc([], item);
    assert [] + [item] == [item] && [] + item == item;
  }

  lemma {:induction false} SumOfSizes(items: seq<Item>, i: nat)
    requires Small(items) && i <= |items|
    ensures Sum(SizesOf(items)[..i]) == |Flatten(items[..i])|
  {
    hide Flatten, Sum;
    if i == 0 {
      SumEmpty();
      FlattenNone();
    } else {
      SumOfSizes(items, i - 1);
      SumNext(SizesOf(items), i - 1);
      FlattenNext(items, i - 1);
      SmallMod(|items[i - 1]|, TWO32);
    }
  }

  lemma {:induction false} FlattenPrefix(items: seq<Item>, i: nat, j: nat)
    requires i <= j <= |items|
    ensures |Flatten(items[..i])| <= |Flatten(items[..j])|
    ensures Flatten(items[..j])[..|Flatten(items[..i])|] == Flatten(items[..i])
    decreases j - i
  {
    hide Flatten;
    if i < j {
      FlattenPrefix(items, i, j - 1);
      FlattenNext(items, j - 1);
    }
  }

  /** Item i occupies the bytes between the sizes before it and after it. */
  lemma FlattenItem(items: seq<Item>, i: nat)
    requires i < |items|
    ensures |Flatten(items[..i])| <= |Flatten(items[..i + 1])| <= |Flatten(items)|
    ensures Flatten(items)[|Flatten(items[..i])|..|Flatten(items[..i + 1])|] == items[i]
  {
    hide Flatten;
    FlattenNext(items, i);
    FlattenPrefix(items, i + 1, |items|);
    assert items[..|items|] == items;
    var all, upto := Flatten(items), Flatten(items[..i + 1]);
    var a, b := |Flatten(items[..i])|, |Flatten(items[..i + 1])|;
    assert all[a..b] == all[..b][a..];
  }

  // ---------------------------------------------------------------- encoding

  /** The index of a multi-item record: its sizes and their CRC32C. */
  ghost function ForIndex(env: Env, sizes: seq<uint32>): seq<byte>
    requires |sizes| > 0
  {
    GroupBytes(sizes) + PutLE(env.crc(GroupBytes(sizes)), 4)
  }

  function FormatPayload(env: Env, format: Format, payload: seq<byte>): seq<byte>
  {
    match format
    case Compressed => env.Encode(payload)
    case Uncompressed => payload + PutLE(env.crc(payload), 4)
    case Raw => payload
  }

  /** The bytes of the record holding `items`. */
  ghost function RecordBytes(env: Env, format: Format, itemsPerRecord: nat, items: seq<Item>): seq<byte>
    requires |items| > 0
  {
    FormatPayload(env, format, Flatten(items))
      + if itemsPerRecord > 1 then ForIndex(env, SizesOf(items)) else []
  }

  // ---------------------------------------------------------------- counting items

  function RecordCount(totalItems: nat, itemsPerRecord: nat): nat
    requires itemsPerRecord > 0
  {
    DivNonneg(totalItems + itemsPerRecord - 1, itemsPerRecord);
    (totalItems + itemsPerRecord - 1) / itemsPerRecord
  }

  /** The record indices itemsInRecord accepts; it panics on others. */
  predicate RecordInRange(totalItems: nat, itemsPerRecord: int, recordIdx: int)
  {
    totalItems > 0 ==> itemsPerRecord > 0 && 0 <= recordIdx < RecordCount(totalItems, itemsPerRecord)
  }

  /** itemsInRecord */
  function ItemsInRecord(totalItems: nat, itemsPerRecord: int, recordIdx: int): (n: nat)
    requires RecordInRange(totalItems, itemsPerRecord, recordIdx)
    ensures if totalItems > 0 then 0 < n <= itemsPerRecord else n == 0
  {
    if totalItems == 0 then 0
    else
      var last := RecordCount(totalItems, itemsPerRecord) - 1;
      if recordIdx < last then itemsPerRecord
      else
        var rem := totalItems % itemsPerRecord;
        if rem == 0 then itemsPerRecord else rem
  }

  lemma CountCases(totalItems: nat, k: nat)
    requires k > 0
    ensures totalItems % k == 0 ==> RecordCount(totalItems, k) == totalItems / k
    ensures totalItems % k != 0 ==> RecordCount(totalItems, k) == totalItems / k + 1
  {
    var q, r := totalItems / k, totalItems % k;
    assert totalItems == q * k + r;
    if r == 0 {
      DivUnique(totalItems + k - 1, k, q, k - 1);
    } else {
      MulDistrib(q + 1, 1, k);
      DivUnique(totalItems + k - 1, k, q + 1, r - 1);
    }
  }

  /** Records hold consecutive items: record k starts at item k * itemsPerRecord, all records
    but the last are full, and the last one ends exactly at totalItems. */
  lemma RecordSpan(totalItems: nat, itemsPerRecord: nat, recordIdx: nat)
    requires totalItems > 0 && itemsPerRecord > 0 && recordIdx < RecordCount(totalItems, itemsPerRecord)
    ensures 0 <= recordIdx * itemsPerRecord < totalItems
    ensures var n := ItemsInRecord(totalItems, itemsPerRecord, recordIdx);
      && recordIdx * itemsPerRecord + n <= totalItems
      && (recordIdx < RecordCount(totalItems, itemsPerRecord) - 1 ==> n == itemsPerRecord)
      && (recordIdx == RecordCount(totalItems, itemsPerRecord) - 1 ==> recordIdx * itemsPerRecord + n == totalItems)
  {
    var k := itemsPerRecord;
    var count := RecordCount(totalItems, k);
    var q, r := totalItems / k, totalItems % k;
    DivNonneg(totalItems, k);
    assert totalItems == q * k + r;
    CountCases(totalItems, k);
    MulUpTo(recordIdx, count - 1, k);
    MulDistrib(count, 1, k);
    MulNonneg(recordIdx, k);
    if recordIdx < count - 1 {
      MulUpTo(recordIdx + 1, count - 1, k);
      MulDistrib(recordIdx + 1, 1, k);
    }
  }

  /** Every position resolves to a record in range and a place inside that record. */
  lemma PositionResolves(totalItems: nat, itemsPerRecord: nat, position: nat)
    requires itemsPerRecord > 0 && position < totalItems
    ensures 0 <= position / itemsPerRecord < RecordCount(totalItems, itemsPerRecord)
    ensures position % itemsPerRecord
      < ItemsInRecord(totalItems, itemsPerRecord, position / itemsPerRecord)
    ensures position == position / itemsPerRecord * itemsPerRecord + position % itemsPerRecord
  {
    var k := itemsPerRecord;
    var rec, local := position / k, position % k;
    DivNonneg(position, k);
    assert position == rec * k + local;
    var count := RecordCount(totalItems, k);
    CountCases(totalItems, k);
    var q, r := totalItems / k, totalItems % k;
    assert totalItems == q * k + r;
    if rec >= count {
      MulUpTo(q + (if r == 0 then 0 else 1), rec, k);
      MulDistrib(q + 1, 1, k);
    }
    RecordSpan(totalItems, k, rec);
  }

  // ---------------------------------------------------------------- decoding any bytes

  /** A decoded record: the sizes of its items and the bytes they are cut from. */
  datatype Decoded = Decoded(sizes: seq<uint32>, payload: seq<byte>)
  {
    ghost predicate Fits() { Sum(sizes) <= |payload| }

    ghost function ItemAt(i: nat): Item
      requires Fits() && i < |sizes|
    {
      SumMonotone(sizes, i, i + 1);
      SumMonotone(sizes, i + 1, |sizes|);
      assert sizes[..|sizes|] == sizes;
      payload[Sum(sizes[..i])..Sum(sizes[..i + 1])]
    }
  }

  const META_SIZE := 9

  /** Strips and verifies the size index of a multi-item record: the front of the record and the
    index bytes without their CRC. */
  ghost function StripIndex(env: Env, itemsPerRecord: int, n: nat, data: seq<byte>): (r: Result<(seq<byte>, seq<byte>)>)
  {
    if itemsPerRecord <= 1 then Ok((data, []))
    else if |data| < META_SIZE then Err(ShortRecord)
    else
      var width := data[|data| - META_SIZE];
      if width > 32 then Err(Corrupt)
      else
        var forStart := |data| - META_SIZE - PackSize(width, n);
        if forStart < 0 then Err(Corrupt)
        else if Get32(data[|data| - 4..]) != env.crc(data[forStart..|data| - 4]) then Err(Checksum)
        else Ok((data[..forStart], data[forStart..|data| - 4]))
  }

  ghost function OpenPayload(env: Env, format: Format, data: seq<byte>): Result<seq<byte>>
  {
    match format
    case Compressed => (match env.Decode(data) case None => Err(Zstd) case Some(p) => Ok(p))
    case Raw => Ok(data)
    case Uncompressed =>
      if |data| < 5 then Err(ShortCrc)
      else if Get32(data[|data| - 4..]) != env.crc(data[..|data| - 4]) then Err(Checksum)
      else Ok(data[..|data| - 4])
  }

  /** The sizes of a record with n items: from its index, or the whole payload as one item. A
    one-item record of an empty file makes the prefix-sum loop index past its end. */
  ghost function SizesFrom(itemsPerRecord: int, n: nat, forIndex: seq<byte>, payload: seq<byte>): Result<Decoded>
  {
    if itemsPerRecord > 1 then
      match GroupAtTail(forIndex, n)
      case Err(e) => Err(e)
      case Ok((sizes, _)) => if Sum(sizes) != |payload| then Err(Corrupt) else Ok(Decoded(sizes, payload))
    else if n == 0 then Err(Panic)
    else Ok(Decoded([|payload| % TWO32], payload))
  }

  /** What decoding record `recordIdx` of arbitrary bytes yields. */
  ghost function DecodedRecord(env: Env, format: Format, totalItems: nat, itemsPerRecord: int, recordIdx: int,
                               data: seq<byte>): (r: Result<Decoded>)
    requires RecordInRange(totalItems, itemsPerRecord, recordIdx)
  {
    var n := ItemsInRecord(totalItems, itemsPerRecord, recordIdx);
    match StripIndex(env, itemsPerRecord, n, data)
    case Err(e) => Err(e)
    case Ok((front, forIndex)) =>
      match OpenPayload(env, format, front)
      case Err(e) => Err(e)
      case Ok(payload) => SizesFrom(itemsPerRecord, n, forIndex, payload)
  }

  /** Decoding writes past its offsets for exactly these inputs: a record of a file without items, not
    indexed by size, whose payload opens. */
  lemma PanicsExactly(env: Env, format: Format, totalItems: nat, itemsPerRecord: int, recordIdx: int, data: seq<byte>)
    requires RecordInRange(totalItems, itemsPerRecord, recordIdx)
    ensures DecodedRecord(env, format, totalItems, itemsPerRecord, recordIdx, data) == Err(Panic)
      <==> totalItems == 0 && itemsPerRecord <= 1 && OpenPayload(env, format, data).Ok?
  {
    hide PackSize, Unpacked;
  }

  lemma SumOne(x: uint32)
    ensures Sum([x]) == x
  {
    assert [x][..0] == [];
  }

  /** On success a record has the number of items its position implies and they partition the
    payload from its first byte to its last; a single item is cut only if it is 4 GiB or more. */
  lemma {:induction false} DecodedPartition(env: Env, format: Format, totalItems: nat, itemsPerRecord: int, recordIdx: int,
                                            data: seq<byte>)
    requires RecordInRange(totalItems, itemsPerRecord, recordIdx)
    requires DecodedRecord(env, format, totalItems, itemsPerRecord, recordIdx, data).Ok?
    ensures var d := DecodedRecord(env, format, totalItems, itemsPerRecord, recordIdx, data).value;
      && d.Fits()
      && (totalItems > 0 ==> |d.sizes| == ItemsInRecord(totalItems, itemsPerRecord, recordIdx))
      && (Sum(d.sizes) == |d.payload| <==> itemsPerRecord > 1 || |d.payload| < TWO32)
  {
    hide GroupAtTail, StripIndex, OpenPayload;
    var d := DecodedRecord(env, format, totalItems, itemsPerRecord, recordIdx, data).value;
    if itemsPerRecord <= 1 {
      assert d.sizes == [] + [|d.payload| % TWO32];
      SumOne(|d.payload| % TWO32);
      if |d.payload| < TWO32 { SmallMod(|d.payload|, TWO32); }
      ModAtMost(|d.payload|, TWO32);
    }
  }

  // ---------------------------------------------------------------- what is accepted, byte by byte

  lemma StoredCrc(s: seq<byte>, c: uint32)
    requires |s| == 4
    ensures Get32(s) == c <==> s == PutLE(c, 4)
  {
    hide LE, PutLE;
    PutGet(s);
    LEPut32(c);
  }

  /** The record is `front`, followed in a multi-item record by the index of its n sizes and its checksum. */
  ghost predicate EndsInIndex(env: Env, itemsPerRecord: int, n: nat, data: seq<byte>, front: seq<byte>, index: seq<byte>)
  {
    if itemsPerRecord <= 1 then front == data && index == []
    else
      && data == front + index + PutLE(env.crc(index), 4)
      && |index| >= 5 && index[|index| - 5] <= 32 && |index| == (index[|index| - 5] * n + 7) / 8 + 5
  }

  /** `front` is how a format stores the payload. */
  ghost predicate StoresPayload(env: Env, format: Format, front: seq<byte>, payload: seq<byte>)
  {
    match format
    case Compressed => if |front| == 0 then payload == [] else env.decompress(front) == Some(payload)
    case Raw => front == payload
    case Uncompressed => |payload| > 0 && front == payload + PutLE(env.crc(payload), 4)
  }

  /** The sizes of n items: those in the index, which add up to the payload, or the payload as one item. */
  ghost predicate StoresSizes(itemsPerRecord: int, n: nat, index: seq<byte>, payload: seq<byte>, sizes: seq<uint32>)
  {
    if itemsPerRecord > 1 then GroupAtTail(index, n) == Ok((sizes, |index|)) && Sum(sizes) == |payload|
    else n > 0 && sizes == [|payload| % TWO32]
  }

  lemma IndexSlices(data: seq<byte>, from: nat)
    requires from + 4 <= |data|
    ensures data == data[..from] + data[from..|data| - 4] + data[|data| - 4..]
  {
  }

  lemma IndexParts(front: seq<byte>, index: seq<byte>, crc: seq<byte>)
    requires |crc| == 4 && |index| >= 5
    ensures var data := front + index + crc;
      && data[|data| - 9] == index[|index| - 5] && data[..|front|] == front
      && data[|front|..|data| - 4] == index && data[|data| - 4..] == crc
  {
  }

  lemma StripLaw(env: Env, itemsPerRecord: int, n: nat, data: seq<byte>, front: seq<byte>, index: seq<byte>)
    ensures StripIndex(env, itemsPerRecord, n, data) == Ok((front, index))
      <==> EndsInIndex(env, itemsPerRecord, n, data, front, index)
  {
    hide PutLE, LE;
    if itemsPerRecord > 1 {
      if EndsInIndex(env, itemsPerRecord, n, data, front, index) {
        IndexParts(front, index, PutLE(env.crc(index), 4));
        StoredCrc(data[|data| - 4..], env.crc(index));
      }
      if StripIndex(env, itemsPerRecord, n, data) == Ok((front, index)) {
        IndexSlices(data, |front|);
        StoredCrc(data[|data| - 4..], env.crc(index));
        assert index[|index| - 5] == data[|data| - 9];
      }
    }
  }

  lemma OpenLaw(env: Env, format: Format, front: seq<byte>, payload: seq<byte>)
    ensures OpenPayload(env, format, front) == Ok(payload) <==> StoresPayload(env, format, front, payload)
  {
    hide PutLE, LE;
    if format.Uncompressed? && |front| >= 4 {
      assert front == front[..|front| - 4] + front[|front| - 4..];
      StoredCrc(front[|front| - 4..], env.crc(front[..|front| - 4]));
    }
    if StoresPayload(env, format, front, payload) && format.Uncompressed? {
      assert front[..|front| - 4] == payload && front[|front| - 4..] == PutLE(env.crc(payload), 4);
    }
  }

  lemma SizesLaw(itemsPerRecord: int, n: nat, index: seq<byte>, payload: seq<byte>, d: Decoded)
    requires itemsPerRecord > 1 ==> |index| >= 5 && |index| == (index[|index| - 5] * n + 7) / 8 + 5
    ensures SizesFrom(itemsPerRecord, n, index, payload) == Ok(d)
      <==> d.payload == payload && StoresSizes(itemsPerRecord, n, index, payload, d.sizes)
  {
    hide Unpacked, Sum;
  }

  ghost predicate StoredRecord(env: Env, format: Format, totalItems: nat, itemsPerRecord: int, recordIdx: int,
                               data: seq<byte>, d: Decoded, front: seq<byte>, index: seq<byte>)
    requires RecordInRange(totalItems, itemsPerRecord, recordIdx)
  {
    var n := ItemsInRecord(totalItems, itemsPerRecord, recordIdx);
    && EndsInIndex(env, itemsPerRecord, n, data, front, index)
    && StoresPayload(env, format, front, d.payload) && StoresSizes(itemsPerRecord, n, index, d.payload, d.sizes)
  }

  /** A record decodes exactly when its bytes are a stored payload, checksum included, followed in a
    multi-item record by the index of its sizes with its own checksum. */
  lemma RecordLaw(env: Env, format: Format, totalItems: nat, itemsPerRecord: int, recordIdx: int, data: seq<byte>, d: Decoded)
    requires RecordInRange(totalItems, itemsPerRecord, recordIdx)
    ensures DecodedRecord(env, format, totalItems, itemsPerRecord, recordIdx, data) == Ok(d)
      <==> exists front, index :: StoredRecord(env, format, totalItems, itemsPerRecord, recordIdx, data, d, front, index)
  {
    hide StripIndex, OpenPayload, SizesFrom, StoresPayload, StoresSizes, ItemsInRecord;
    var n := ItemsInRecord(totalItems, itemsPerRecord, recordIdx);
    if DecodedRecord(env, format, totalItems, itemsPerRecord, recordIdx, data) == Ok(d) {
      var (front, index) := StripIndex(env, itemsPerRecord, n, data).value;
      StripLaw(env, itemsPerRecord, n, data, front, index);
      OpenLaw(env, format, front, OpenPayload(env, format, front).value);
      SizesLaw(itemsPerRecord, n, index, OpenPayload(env, format, front).value, d);
      assert StoredRecord(env, format, totalItems, itemsPerRecord, recordIdx, data, d, front, index);
    }
    if front, index :| StoredRecord(env, format, totalItems, itemsPerRecord, recordIdx, data, d, front, index) {
      StripLaw(env, itemsPerRecord, n, data, front, index);
      OpenLaw(env, format, front, d.payload);
      SizesLaw(itemsPerRecord, n, index, d.payload, d);
    }
  }

  /** What is reported of a multi-item record too short for its index, and of sizes that do not add up. */
  lemma RecordErrors(env: Env, format: Format, totalItems: nat, itemsPerRecord: int, recordIdx: int, data: seq<byte>)
    requires RecordInRange(totalItems, itemsPerRecord, recordIdx) && itemsPerRecord > 1
    ensures var n, r := ItemsInRecord(totalItems, itemsPerRecord, recordIdx),
                        DecodedRecord(env, format, totalItems, itemsPerRecord, recordIdx, data);
      && (|data| < 9 <==> r == Err(ShortRecord))
      && (|data| >= 9 && (data[|data| - 9] > 32 || |data| < 9 + (data[|data| - 9] * n + 7) / 8) ==> r == Err(Corrupt))
    ensures forall front, index, payload, sizes ::
      EndsInIndex(env, itemsPerRecord, ItemsInRecord(totalItems, itemsPerRecord, recordIdx), data, front, index)
      && StoresPayload(env, format, front, payload) && Sum(sizes) != |payload|
      && GroupAtTail(index, ItemsInRecord(totalItems, itemsPerRecord, recordIdx)) == Ok((sizes, |index|)) ==>
        DecodedRecord(env, format, totalItems, itemsPerRecord, recordIdx, data) == Err(Corrupt)
  {
    var n := ItemsInRecord(totalItems, itemsPerRecord, recordIdx);
    hide ItemsInRecord, GroupAtTail, OpenPayload, Sum, StoresPayload, EndsInIndex;
    forall front, index, payload, sizes |
      EndsInIndex(env, itemsPerRecord, n, data, front, index) && StoresPayload(env, format, front, payload)
      && Sum(sizes) != |payload| && GroupAtTail(index, n) == Ok((sizes, |index|))
      ensures DecodedRecord(env, format, totalItems, itemsPerRecord, recordIdx, data) == Err(Corrupt)
    {
      hide StripIndex;
      StripLaw(env, itemsPerRecord, n, data, front, index);
      OpenLaw(env, format, front, payload);
    }
  }

  /** A wrong checksum behind the index of a record is reported as one. */
  lemma BadIndexRefused(env: Env, format: Format, totalItems: nat, itemsPerRecord: int, recordIdx: int,
                        front: seq<byte>, index: seq<byte>, stored: seq<byte>)
    requires RecordInRange(totalItems, itemsPerRecord, recordIdx) && itemsPerRecord > 1 && |stored| == 4
    requires |index| >= 5 && index[|index| - 5] <= 32
    requires |index| == (index[|index| - 5] * ItemsInRecord(totalItems, itemsPerRecord, recordIdx) + 7) / 8 + 5
    requires stored != PutLE(env.crc(index), 4)
    ensures DecodedRecord(env, format, totalItems, itemsPerRecord, recordIdx, front + index + stored) == Err(Checksum)
  {
    hide PutLE, LE, ItemsInRecord;
    IndexParts(front, index, stored);
    StoredCrc(stored, env.crc(index));
  }

  /** So is a wrong checksum behind an Uncompressed payload; without a payload byte the record is too short. */
  lemma BadPayloadRefused(env: Env, totalItems: nat, itemsPerRecord: int, recordIdx: int, data: seq<byte>,
                          front: seq<byte>, index: seq<byte>)
    requires RecordInRange(totalItems, itemsPerRecord, recordIdx)
    requires EndsInIndex(env, itemsPerRecord, ItemsInRecord(totalItems, itemsPerRecord, recordIdx), data, front, index)
    ensures var r := DecodedRecord(env, Uncompressed, totalItems, itemsPerRecord, recordIdx, data);
      && (|front| < 5 ==> r == Err(ShortCrc))
      && (|front| >= 5 && front[|front| - 4..] != PutLE(env.crc(front[..|front| - 4]), 4) ==> r == Err(Checksum))
  {
    hide PutLE, LE, ItemsInRecord, StripIndex, SizesFrom;
    StripLaw(env, itemsPerRecord, ItemsInRecord(totalItems, itemsPerRecord, recordIdx), data, front, index);
    if |front| >= 5 {
      StoredCrc(front[|front| - 4..], env.crc(front[..|front| - 4]));
    }
  }

  // ---------------------------------------------------------------- round trip of one record

  lemma StripRoundTrip(env: Env, itemsPerRecord: nat, front: seq<byte>, sizes: seq<uint32>)
    requires |sizes| > 0 && itemsPerRecord > 1
    ensures StripIndex(env, itemsPerRecord, |sizes|, front + ForIndex(env, sizes)) == Ok((front, GroupBytes(sizes)))
  {
    hide PutLE, LE, RangeWidth, PackedBytes;
    var group := GroupBytes(sizes);
    var crc := PutLE(env.crc(group), 4);
    var data := front + ForIndex(env, sizes);
    var w := RangeWidth(sizes).1;
    LEPut32(env.crc(group));
    assert data == front + group + crc;
    assert data[|data| - 4..] == crc;
    assert data[|data| - META_SIZE] == group[|group| - 5] == w;
    assert data[|front|..|data| - 4] == group;
    assert data[..|front|] == front;
  }

  /** A payload reads back through its format, except that an Uncompressed record refuses the
    empty payload it wrote itself. */
  lemma PayloadRoundTrip(env: Env, format: Format, payload: seq<byte>)
    requires env.Valid() && |payload| < TWO63
    ensures OpenPayload(env, format, FormatPayload(env, format, payload))
      == if format.Uncompressed? && |payload| == 0 then Err(ShortCrc) else Ok(payload)
  {
    hide PutLE, LE;
    match format
    case Compressed => env.EncodeDecode(payload);
    case Raw =>
    case Uncompressed =>
      var data := FormatPayload(env, format, payload);
      LEPut32(env.crc(payload));
      assert data[|data| - 4..] == PutLE(env.crc(payload), 4);
      assert data[..|data| - 4] == payload;
  }

  lemma StripNothing(env: Env, itemsPerRecord: int, n: nat, data: seq<byte>)
    requires itemsPerRecord <= 1
    ensures StripIndex(env, itemsPerRecord, n, data) == Ok((data, []))
  {
  }

  /** The index of a record of any kind strips off its front. */
  lemma IndexRoundTripped(env: Env, itemsPerRecord: nat, front: seq<byte>, sizes: seq<uint32>)
    requires |sizes| > 0
    ensures StripIndex(env, itemsPerRecord, |sizes|,
                       front + if itemsPerRecord > 1 then ForIndex(env, sizes) else [])
      == Ok((front, if itemsPerRecord > 1 then GroupBytes(sizes) else []))
  {
    hide StripIndex, ForIndex, GroupBytes;
    if itemsPerRecord > 1 {
      StripRoundTrip(env, itemsPerRecord, front, sizes);
    } else {
      assert front + [] == front;
      StripNothing(env, itemsPerRecord, |sizes|, front);
    }
  }

  /** The sizes read from a written index are the sizes of the items. */
  lemma SizesRoundTrip(itemsPerRecord: nat, items: seq<Item>)
    requires Small(items) && |items| > 0 && (itemsPerRecord <= 1 ==> |items| == 1)
    ensures SizesFrom(itemsPerRecord, |items|, if itemsPerRecord > 1 then GroupBytes(SizesOf(items)) else [], Flatten(items))
      == Ok(Decoded(SizesOf(items), Flatten(items)))
  {
    hide GroupAtTail, GroupBytes, Flatten, Sum;
    var payload, sizes := Flatten(items), SizesOf(items);
    SumOfSizes(items, |items|);
    assert items[..|items|] == items && sizes[..|sizes|] == sizes;
    if itemsPerRecord > 1 {
      GroupRoundTrip([], sizes);
      assert [] + GroupBytes(sizes) == GroupBytes(sizes);
    } else {
      assert items[..1] == items && items[..0] == [];
      FlattenNone();
      FlattenNext(items, 0);
      assert sizes == [|payload| % TWO32];
    }
  }

  /** Round trip of a record: it decodes to the sizes and bytes of its items exactly when it is
    not an Uncompressed record whose items are all empty. */
  lemma RecordRoundTrip(env: Env, format: Format, totalItems: nat, itemsPerRecord: nat, recordIdx: nat, items: seq<Item>)
    requires env.Valid() && Small(items) && |items| > 0
    requires RecordInRange(totalItems, itemsPerRecord, recordIdx)
    requires |items| == ItemsInRecord(totalItems, itemsPerRecord, recordIdx)
    requires totalItems > 0 && |Flatten(items)| < TWO63
    ensures DecodedRecord(env, format, totalItems, itemsPerRecord, recordIdx,
                          RecordBytes(env, format, itemsPerRecord, items))
      == if format.Uncompressed? && Flatten(items) == [] then Err(ShortCrc)
         else Ok(Decoded(SizesOf(items), Flatten(items)))
  {
    hide StripIndex, OpenPayload, FormatPayload, ForIndex, SizesFrom, GroupBytes, Flatten, ItemsInRecord, SizesOf;
    PayloadRoundTrip(env, format, Flatten(items));
    IndexRoundTripped(env, itemsPerRecord, FormatPayload(env, format, Flatten(items)), SizesOf(items));
    SizesRoundTrip(itemsPerRecord, items);
  }

  /** Item i of a decoded record is the item that was written. */
  lemma ItemRoundTrip(items: seq<Item>, i: nat)
    requires Small(items) && i < |items|
    ensures Decoded(SizesOf(items), Flatten(items)).Fits()
    ensures Decoded(SizesOf(items), Flatten(items)).ItemAt(i) == items[i]
  {
    hide Flatten, Sum;
    assert items[..|items|] == items && SizesOf(items)[..|items|] == SizesOf(items);
    SumOfSizes(items, |items|);
    SumOfSizes(items, i);
    SumOfSizes(items, i + 1);
    FlattenItem(items, i);
  }
}
