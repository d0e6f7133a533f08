/** The record decoder: an object whose size, offset and payload buffers are reused from one
  record to the next. */
module RecordDecoder {
  import opened Bytes
  import opened Results
  import opened Environment
  import opened Slices
  import opened Intpack
  import opened Index
  import opened Records

  lemma PayloadLength(env: Env, format: Format, data: seq<byte>)
    requires env.Valid() && |data| < TWO63
    ensures OpenPayload(env, format, data).Ok? ==> |OpenPayload(env, format, data).value| < TWO63
  {
  }

  lemma ItemBounds(ds: seq<uint32>, i: nat)
    requires i < |ds|
    ensures |PrefixSums(ds)| == |ds| + 1
    ensures PrefixSums(ds)[i] == Sum(ds[..i]) && PrefixSums(ds)[i + 1] == Sum(ds[..i + 1])
    ensures 0 <= Sum(ds[..i]) <= Sum(ds[..i + 1]) <= Sum(ds)
  {
    SumMonotone(ds, i, i + 1);
    SumMonotone(ds, i + 1, |ds|);
    assert ds[..|ds|] == ds;
  }

  class Decoder {
    var format: Format
    var totalItems: uint32
    var itemsPerRecord: uint32

    var decompressed: Slice<byte>
    var sizes: Slice<uint32>
    var offsets: Slice<int>

    ghost predicate Valid()
      reads this
    {
      && decompressed.Valid() && sizes.Valid() && offsets.Valid()
      && decompressed.arr as object != sizes.arr
      && decompressed.arr as object != offsets.arr
      && sizes.arr as object != offsets.arr
    }

    /** The record last decoded. */
    ghost function View(): Decoded
      requires Valid()
      reads this, decompressed.arr, sizes.arr
    {
      Decoded(sizes.Elems(), decompressed.Elems())
    }

    /** A record is loaded: the offsets are the prefix sums of the sizes and stay inside the payload. */
    ghost predicate Loaded()
      requires Valid()
      reads this, decompressed.arr, sizes.arr, offsets.arr
    {
      View().Fits() && offsets.Elems() == PrefixSums(sizes.Elems())
    }

    /** newDecoder, configured as a reader configures a pooled decoder. */
    constructor (format: Format, totalItems: uint32, itemsPerRecord: uint32)
      ensures Valid() && fresh(decompressed.arr) && fresh(sizes.arr) && fresh(offsets.arr)
      ensures this.format == format && this.totalItems == totalItems && this.itemsPerRecord == itemsPerRecord
    {
      this.format, this.totalItems, this.itemsPerRecord := format, totalItems, itemsPerRecord;
      var d := new byte[0];
      var s := new uint32[0];
      var o := new int[0];
      decompressed, sizes, offsets := Slice(d, 0, 0, 0), Slice(s, 0, 0, 0), Slice(o, 0, 0, 0);
    }

    /** append(rd.decompressed[:0], data...): in place while the capacity lasts. */
    method SetPayload(data: seq<byte>)
      requires Valid()
      modifies this`decompressed, decompressed.arr
      ensures Valid() && decompressed.Elems() == data
      ensures decompressed.arr == old(decompressed.arr) || fresh(decompressed.arr)
    {
      var n := |data|;
      if n > decompressed.cap {
        var a := new byte[n](i => 0);
        decompressed := Slice(a, 0, n, n);
      } else {
        decompressed := decompressed.(len := n);
      }
      var arr, off := decompressed.arr, decompressed.off;
      forall i | 0 <= i < n {
        arr[off + i] := data[i];
      }
      assert arr[off..off + n] == data;
    }

    /** The format-specific stage: on success the payload buffer holds the payload. */
    method LoadPayload(env: Env, data: seq<byte>) returns (err: Option<Error>)
      requires Valid()
      modifies this`decompressed, decompressed.arr
      ensures Valid()
      ensures decompressed.arr == old(decompressed.arr) || fresh(decompressed.arr)
      ensures match OpenPayload(env, format, data)
        case Err(e) => err == Some(e)
        case Ok(payload) => err == None && decompressed.Elems() == payload
    {
      match format {
        case Compressed =>
          var decoded := env.Decode(data);
          if decoded.None? {
            return Some(Zstd);
          }
          SetPayload(decoded.value);
        case Raw =>
          SetPayload(data);
        case Uncompressed =>
          if |data| < 5 {
            return Some(ShortCrc);
          }
          var payloadEnd := |data| - 4;
          var stored := Get32(data[payloadEnd..]);
          if stored != env.crc(data[..payloadEnd]) {
            return Some(Checksum);
          }
          SetPayload(data[..payloadEnd]);
      }
      err := None;
    }

    /** Sum of the sizes, kept in an int64; comparing it with a length below 2^63 is exact. */
    method SumSizes(length: nat) returns (matches: bool)
      requires Valid() && sizes.len < TWO32 && length < TWO63
      ensures matches <==> Sum(sizes.Elems()) == length
    {
      hide ToInt64, Sum;
      SumEmpty();
      ToInt64Zero();
      ghost var ds := sizes.Elems();
      var sum := 0;
      for i := 0 to sizes.len
        invariant sum == ToInt64(Sum(ds[..i]))
      {
        var s := sizes.arr[sizes.off + i];
        ToInt64Add(Sum(ds[..i]), s);
        SumNext(ds, i);
        sum := ToInt64(sum + s);
      }
      assert ds[..sizes.len] == ds;
      NoWrap(ds, length);
      matches := sum == length;
    }

    /** The sizes of a multi-item record, which must add up to the payload. */
    method IndexedSizes(n: nat, forIndexBytes: seq<byte>) returns (err: Option<Error>)
      requires Valid() && n < TWO32 && decompressed.len < TWO63
      modifies this`sizes, sizes.arr
      ensures Valid()
      ensures sizes.arr == old(sizes.arr) || fresh(sizes.arr)
      ensures match GroupAtTail(forIndexBytes, n)
        case Err(e) => err == Some(e)
        case Ok((ds, _)) =>
          if Sum(ds) != decompressed.len then err == Some(Corrupt)
          else err == None && sizes.Elems() == ds
    {
      hide GroupAtTail, Sum;
      var values, consumed := DecodeGroup(forIndexBytes, n, sizes);
      sizes := values;
      if consumed.Err? {
        return Some(consumed.error);
      }
      var matches := SumSizes(decompressed.len);
      err := if matches then None else Some(Corrupt);
    }

    /** A one-item record: the size is the payload's length narrowed to uint32. */
    method OneSize()
      requires Valid()
      modifies this`sizes, sizes.arr
      ensures Valid() && sizes.Elems() == [decompressed.len % TWO32]
      ensures sizes.arr == old(sizes.arr) || fresh(sizes.arr)
    {
      var one := EnsureCap(sizes, 1);
      one.arr[one.off] := decompressed.len % TWO32;
      sizes := one;
    }

    method ReserveOffsets(n: nat)
      requires Valid()
      modifies this`offsets
      ensures Valid() && offsets.len == n + 1
      ensures offsets.arr == old(offsets.arr) || fresh(offsets.arr)
    {
      if offsets.cap <= n {
        var a := new int[n + 1](i => 0);
        offsets := Slice(a, 0, n + 1, n + 1);
      } else {
        offsets := offsets.(len := n + 1);
      }
    }

    /** The loop itself: it indexes past the end when there are as many sizes as entries. */
    method FillOffsets() returns (panicked: bool)
      requires Valid() && offsets.len > 0
      modifies offsets.arr
      ensures panicked <==> sizes.len >= offsets.len
      ensures !panicked && offsets.len == sizes.len + 1 ==> offsets.Elems() == PrefixSums(sizes.Elems())
    {
      hide Sum;
      SumEmpty();
      ghost var ds := sizes.Elems();
      var arr, off := offsets.arr, offsets.off;
      arr[off] := 0;
      for i := 0 to sizes.len
        invariant i < offsets.len
        invariant forall k :: off <= k <= off + i ==> arr[k] == Sum(ds[..k - off])
        invariant sizes.Elems() == ds
      {
        if i + 1 >= offsets.len {
          return true;
        }
        SumNext(ds, i);
        arr[off + i + 1] := arr[off + i] + sizes.arr[sizes.off + i];
      }
      assert offsets.len == sizes.len + 1 ==> offsets.Elems() == PrefixSums(ds);
      panicked := false;
    }

    /** The prefix sums, in the reused offset buffer, which gets n + 1 entries. */
    method BuildOffsets(n: nat) returns (panicked: bool)
      requires Valid() && (sizes.len == n || n == 0 < sizes.len)
      modifies this`offsets, offsets.arr
      ensures Valid()
      ensures offsets.arr == old(offsets.arr) || fresh(offsets.arr)
      ensures panicked <==> sizes.len > n
      ensures !panicked ==> offsets.Elems() == PrefixSums(sizes.Elems())
    {
      ReserveOffsets(n);
      panicked := FillOffsets();
    }

    /** The sizes of a loaded payload and their prefix sums. */
    method LayOut(n: nat, forIndexBytes: seq<byte>) returns (err: Option<Error>)
      requires Valid() && n < TWO32 && decompressed.len < TWO63
      requires itemsPerRecord <= 1 ==> n <= 1
      modifies this`sizes, this`offsets, sizes.arr, offsets.arr
      ensures Valid() && decompressed.Elems() == old(decompressed.Elems())
      ensures sizes.arr == old(sizes.arr) || fresh(sizes.arr)
      ensures offsets.arr == old(offsets.arr) || fresh(offsets.arr)
      ensures match SizesFrom(itemsPerRecord, n, forIndexBytes, decompressed.Elems())
        case Err(e) => err == Some(e)
        case Ok(d) => err == None && View() == d && Loaded()
    {
      hide GroupAtTail, Sum, PrefixSums;
      if itemsPerRecord > 1 {
        err := IndexedSizes(n, forIndexBytes);
        if err.Some? {
          return;
        }
      } else {
        OneSize();
        SumOne(decompressed.len % TWO32);
        ModAtMost(decompressed.len, TWO32);
      }
      ghost var ds := sizes.Elems();
      var panicked := BuildOffsets(n);
      assert sizes.Elems() == ds;
      err := if panicked then Some(Panic) else None;
    }

    /** Decode after the index has been stripped. */
    method LoadSizes(env: Env, n: nat, data: seq<byte>, forIndexBytes: seq<byte>) returns (err: Option<Error>)
      requires Valid() && n < TWO32 && |data| < TWO63
      requires env.Valid()
      requires itemsPerRecord <= 1 ==> n <= 1
      modifies this`decompressed, this`sizes, this`offsets, decompressed.arr, sizes.arr, offsets.arr
      ensures Valid()
      ensures decompressed.arr == old(decompressed.arr) || fresh(decompressed.arr)
      ensures sizes.arr == old(sizes.arr) || fresh(sizes.arr)
      ensures offsets.arr == old(offsets.arr) || fresh(offsets.arr)
      ensures match OpenPayload(env, format, data)
        case Err(e) => err == Some(e)
        case Ok(payload) =>
          match SizesFrom(itemsPerRecord, n, forIndexBytes, payload)
          case Err(e) => err == Some(e)
          case Ok(d) => err == None && View() == d && Loaded()
    {
      hide OpenPayload, SizesFrom, Env.Valid, Loaded, View;
      PayloadLength(env, format, data);
      err := LoadPayload(env, data);
      if err == None {
        err := LayOut(n, forIndexBytes);
      }
    }

    /** Decode: decodes a record of any bytes. The outcome and, on success, the record held do
      not depend on what the buffers held before. */
    method Decode(env: Env, record: seq<byte>, recordIdx: int) returns (err: Option<Error>)
      requires Valid() && RecordInRange(totalItems, itemsPerRecord, recordIdx)
      requires env.Valid()
      requires |record| < TWO63
      modifies this`decompressed, this`sizes, this`offsets, decompressed.arr, sizes.arr, offsets.arr
      ensures Valid()
      ensures decompressed.arr == old(decompressed.arr) || fresh(decompressed.arr)
      ensures sizes.arr == old(sizes.arr) || fresh(sizes.arr)
      ensures offsets.arr == old(offsets.arr) || fresh(offsets.arr)
      ensures match DecodedRecord(env, format, totalItems, itemsPerRecord, recordIdx, record)
        case Err(e) => err == Some(e)
        case Ok(d) => err == None && View() == d && Loaded()
    {
      hide ItemsInRecord, GroupAtTail, OpenPayload, Sum, PrefixSums;
      var n := ItemsInRecord(totalItems, itemsPerRecord, recordIdx);
      var data := record;
      var forIndexBytes := [];
      if itemsPerRecord > 1 {
        if |data| < META_SIZE {
          return Some(ShortRecord);
        }
        var width := data[|data| - META_SIZE];
        if width > 32 {
          return Some(Corrupt);
        }
        var packSize := PackSize(width, n);
        var forStart := |data| - META_SIZE - packSize;
        if forStart < 0 {
          return Some(Corrupt);
        }
        forIndexBytes := data[forStart..|data| - 4];
        var storedCRC := Get32(data[|data| - 4..]);
        if storedCRC != env.crc(forIndexBytes) {
          return Some(Checksum);
        }
        data := data[..forStart];
      }
      assert StripIndex(env, itemsPerRecord, n, record) == Ok((data, forIndexBytes));
      err := LoadSizes(env, n, data, forIndexBytes);
    }

    /** Item: the bytes of item i of the loaded record. */
    function Item(i: nat): (item: seq<byte>)
      requires Valid() && Loaded() && i < sizes.len
      reads this, decompressed.arr, sizes.arr, offsets.arr
      ensures item == View().ItemAt(i)
    {
      ItemBounds(sizes.Elems(), i);
      assert offsets.arr[offsets.off + i] == offsets.Elems()[i];
      assert offsets.arr[offsets.off + i + 1] == offsets.Elems()[i + 1];
      decompressed.Elems()[offsets.arr[offsets.off + i]..offsets.arr[offsets.off + i + 1]]
    }

    /** ItemCopy: an owned copy of item i. */
    method ItemCopy(i: nat) returns (copy: array<byte>)
      requires Valid() && Loaded() && i < sizes.len
      ensures fresh(copy) && copy[..] == View().ItemAt(i)
    {
      var item := Item(i);
      copy := new byte[|item|](k requires 0 <= k < |item| => item[k]);
    }
  }

  /** The smallest call of Decode that writes past the offsets: no bytes, no items, one item for each
    record. */
  method DecodeNothing(env: Env) returns (err: Option<Error>)
    requires env.Valid()
    ensures err == Some(Panic)
  {
    var rd := new Decoder(Raw, 0, 1);
    PanicsExactly(env, Raw, 0, 1, 0, []);
    err := rd.Decode(env, [], 0);
  }
}
