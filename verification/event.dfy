/** The binary event codec: an 80-byte header, length-prefixed topics, then the data bytes. */
module EventCodec {
  import opened Bytes
  import opened Results
  import opened Slices

  const HEADER_SIZE := 80
  const FORMAT_VERSION := 2

  /** The fields of an event. The contract ID may be nil; the time is kept as Unix seconds and a fraction
    in nanoseconds. */
  datatype Fields = Fields(
    contractId: Option<seq<byte>>, topics: seq<seq<byte>>, txHash: seq<byte>, eventType: int, dataBytes: seq<byte>,
    seconds: int, nanos: nat, successful: bool,
    // known to ingestion only, not part of the format
    ledgerSequence: uint32, transactionIndex: uint32, operationIndex: uint16, eventIndex: uint16)

  // ---------------------------------------------------------------- encoding

  /** The bytes of a slice; nil has none. */
  function Content(s: Option<seq<byte>>): seq<byte>
  {
    if s.Some? then s.value else []
  }

  function HeaderFlags(v: Fields): byte
  {
    (if |Content(v.contractId)| >= 32 then 1 else 0) + (if v.successful then 2 else 0)
  }

  function Zeros(n: nat): (z: seq<byte>)
    ensures |z| == n
  {
    seq(n, _ => 0)
  }

  /** A 32-byte field: the first 32 bytes of what is there, zeros if that is shorter. */
  function Fixed32(s: seq<byte>): (f: seq<byte>)
    ensures |f| == 32
  {
    if |s| >= 32 then s[..32] else Zeros(32)
  }

  function UnixBytes(seconds: int): (s: seq<byte>)
    ensures |s| == 8
  {
    PutBE(seconds % TWO64, 8)
  }

  function Header(v: Fields): (h: seq<byte>)
    ensures |h| == HEADER_SIZE
  {
    [FORMAT_VERSION, v.eventType % 256, HeaderFlags(v), |v.topics| % 256]
      + Fixed32(Content(v.contractId)) + Fixed32(v.txHash) + UnixBytes(v.seconds) + PutBE(|v.dataBytes|, 4)
  }

  function TopicBytes(topic: seq<byte>): seq<byte>
  {
    PutBE(|topic|, 2) + topic
  }

  ghost function TopicsBytes(topics: seq<seq<byte>>): seq<byte>
  {
    if |topics| == 0 then []
    else TopicsBytes(topics[..|topics| - 1]) + TopicBytes(topics[|topics| - 1])
  }

  ghost function EventBytes(v: Fields): seq<byte>
  {
    Header(v) + TopicsBytes(v.topics) + v.dataBytes
  }

  // ---------------------------------------------------------------- decoding any bytes

  /** The first n topics and where the next one begins. */
  function TopicsAt(data: seq<byte>, n: nat): (r: Result<(seq<seq<byte>>, nat)>)
    requires |data| >= HEADER_SIZE
    ensures r.Ok? ==> |r.value.0| == n && HEADER_SIZE <= r.value.1 <= |data|
  {
    if n == 0 then Ok(([], HEADER_SIZE))
    else
      match TopicsAt(data, n - 1)
      case Err(e) => Err(e)
      case Ok((topics, off)) =>
        if off + 2 > |data| then Err(TruncatedTopic)
        else
          var tLen := BE(data[off..off + 2]);
          if off + 2 + tLen > |data| then Err(TruncatedTopic)
          else Ok((topics + [data[off + 2..off + 2 + tLen]], off + 2 + tLen))
  }

  function HasContractId(flags: byte): bool { flags % 2 == 1 }
  function IsSuccessful(flags: byte): bool { flags / 2 % 2 == 1 }

  /** The event in any byte string that holds one; bytes after it are ignored. */
  function Parsed(data: seq<byte>): Result<Fields>
  {
    if |data| < HEADER_SIZE then Err(ShortEvent)
    else if data[0] != FORMAT_VERSION then Err(EventVersion)
    else
      match TopicsAt(data, data[3])
      case Err(e) => Err(e)
      case Ok((topics, off)) =>
        var n := BE(data[76..80]);
        if off + n > |data| then Err(TruncatedData)
        else Ok(Fields(if HasContractId(data[2]) then Some(data[4..36]) else None, topics, data[36..68], data[1],
                       data[off..off + n], ToInt64(BE(data[68..76])), 0, IsSuccessful(data[2]), 0, 0, 0, 0))
  }

  // ---------------------------------------------------------------- round trips

  /** The events the format can hold. */
  predicate Encodable(v: Fields)
  {
    && (v.contractId.Some? ==> |v.contractId.value| == 32) && |v.txHash| == 32
    && 0 <= v.eventType < 256 && |v.topics| < 256
    && (forall i :: 0 <= i < |v.topics| ==> |v.topics[i]| < 0x1_0000)
    && |v.dataBytes| < TWO32
    && -TWO63 <= v.seconds < TWO63 && v.nanos == 0
    && v.ledgerSequence == 0 && v.transactionIndex == 0 && v.operationIndex == 0 && v.eventIndex == 0
  }

  lemma BEPutFits(v: nat, n: nat)
    requires n in {2, 4, 8} && v < Pow2(8 * n)
    ensures BE(PutBE(v, n)) == v
  {
    hide Pow2, PutBE, BE;
    BEPut(v, n);
    SmallMod(v, Pow2(8 * n));
  }

  lemma BEBelow(s: seq<byte>)
    ensures |s| == 2 ==> BE(s) < 0x1_0000
    ensures |s| == 4 ==> BE(s) < TWO32
    ensures |s| == 8 ==> BE(s) < TWO64
  {
    hide BE, Pow2;
    Pow2Bytes();
    BEBound(s);
  }

  lemma UnixRoundTrip(seconds: int)
    requires -TWO63 <= seconds < TWO63
    ensures ToInt64(BE(UnixBytes(seconds))) == seconds
  {
    hide PutBE, BE, Pow2;
    Pow2Bytes();
    BEPutFits(seconds % TWO64, 8);
  }

  /** What the decoder looks at in a header. */
  lemma HeaderFields(v: Fields, data: seq<byte>)
    requires |data| >= HEADER_SIZE && data[..HEADER_SIZE] == Header(v)
    ensures data[0] == FORMAT_VERSION && data[1] == v.eventType % 256
    ensures data[2] == HeaderFlags(v) && data[3] == |v.topics| % 256
    ensures data[4..36] == Fixed32(Content(v.contractId)) && data[36..68] == Fixed32(v.txHash)
    ensures data[68..76] == UnixBytes(v.seconds) && data[76..80] == PutBE(|v.dataBytes|, 4)
  {
    hide PutBE, UnixBytes, Fixed32, HeaderFlags;
    var h := data[..HEADER_SIZE];
    assert data[4..36] == h[4..36] && data[36..68] == h[36..68];
    assert data[68..76] == h[68..76] && data[76..80] == h[76..80];
  }

  lemma TopicsNext(topics: seq<seq<byte>>, i: nat)
    requires i < |topics|
    ensures TopicsBytes(topics[..i + 1]) == TopicsBytes(topics[..i]) + TopicBytes(topics[i])
  {
    assert topics[..i + 1][..i] == topics[..i];
  }

  /** The bytes of the first i topics are a prefix of the bytes of all. */
  lemma {:induction false} TopicsPrefix(topics: seq<seq<byte>>, i: nat)
    requires i <= |topics|
    ensures TopicsBytes(topics[..i]) <= TopicsBytes(topics)
    decreases |topics| - i
  {
    hide TopicsBytes, TopicBytes;
    assert topics[..|topics|] == topics;
    if i < |topics| {
      TopicsPrefix(topics, i + 1);
      TopicsNext(topics, i);
    }
  }

  lemma NoTopics()
    ensures TopicsBytes([]) == []
  {
  }

  /** What is written behind `front` is found there. */
  lemma Inside(front: seq<byte>, x: seq<byte>, data: seq<byte>)
    requires front + x <= data
    ensures |front| + |x| <= |data| && data[|front|..|front| + |x|] == x
  {
    var whole := front + x;
    assert whole == data[..|whole|];
    assert whole[|front|..] == x;
  }

  lemma PrefixBehind(front: seq<byte>, part: seq<byte>, all: seq<byte>, data: seq<byte>)
    requires part <= all && front + all <= data
    ensures front + part <= data
  {
    var whole := front + all;
    assert whole == data[..|whole|];
    assert front + part == whole[..|front| + |part|];
  }

  lemma TopicInside(header: seq<byte>, before: seq<byte>, topic: seq<byte>, all: seq<byte>, data: seq<byte>)
    requires before + TopicBytes(topic) <= all && header + all <= data
    ensures var off := |header| + |before|;
      && off + 2 + |topic| <= |data|
      && data[off..off + 2] == PutBE(|topic|, 2) && data[off + 2..off + 2 + |topic|] == topic
  {
    hide PutBE;
    var front, size := header + before, PutBE(|topic|, 2);
    PrefixBehind(header, before + TopicBytes(topic), all, data);
    assert header + (before + TopicBytes(topic)) == (front + size) + topic;
    Inside(front + size, topic, data);
    PrefixBehind(front + size, [], topic, data);
    assert (front + size) + [] == front + size;
    Inside(front, size, data);
  }

  /** Topics the format can hold. */
  predicate TopicsFit(topics: seq<seq<byte>>)
  {
    forall i :: 0 <= i < |topics| ==> |topics[i]| < 0x1_0000
  }

  /** The first i topics are found where they were written, behind any header. */
  lemma {:induction false} TopicsRoundTrip(topics: seq<seq<byte>>, data: seq<byte>, i: nat)
    requires TopicsFit(topics) && i <= |topics|
    requires |data| >= HEADER_SIZE && data[..HEADER_SIZE] + TopicsBytes(topics) <= data
    ensures TopicsAt(data, i) == Ok((topics[..i], HEADER_SIZE + |TopicsBytes(topics[..i])|))
  {
    hide TopicsBytes, PutBE, BE, Pow2;
    if i == 0 {
      NoTopics();
      assert topics[..0] == [];
    } else {
      TopicsRoundTrip(topics, data, i - 1);
      TopicsNext(topics, i - 1);
      TopicsPrefix(topics, i);
      var topic := topics[i - 1];
      TopicInside(data[..HEADER_SIZE], TopicsBytes(topics[..i - 1]), topic, TopicsBytes(topics), data);
      Pow2Bytes();
      BEPutFits(|topic|, 2);
      assert topics[..i] == topics[..i - 1] + [topic];
    }
  }

  lemma DecodesBack(v: Fields, suffix: seq<byte>)
    requires Encodable(v)
    ensures Parsed(EventBytes(v) + suffix) == Ok(v)
  {
    hide TopicsBytes, PutBE, BE, Header, TopicsAt, UnixBytes, Pow2;
    var data := EventBytes(v) + suffix;
    var off := HEADER_SIZE + |TopicsBytes(v.topics)|;
    assert Header(v) + TopicsBytes(v.topics) <= data;
    assert data[..HEADER_SIZE] == Header(v);
    assert data[off..off + |v.dataBytes|] == v.dataBytes;
    HeaderFields(v, data);
    TopicsRoundTrip(v.topics, data, |v.topics|);
    assert v.topics[..|v.topics|] == v.topics;
    UnixRoundTrip(v.seconds);
    Pow2Bytes();
    BEPutFits(|v.dataBytes|, 4);
    assert Fixed32(v.txHash) == v.txHash;
    if v.contractId.Some? { assert Fixed32(Content(v.contractId)) == v.contractId.value; }
  }

  lemma {:induction false} TopicsBelow(data: seq<byte>, n: nat)
    requires |data| >= HEADER_SIZE && TopicsAt(data, n).Ok?
    ensures forall i :: 0 <= i < n ==> |TopicsAt(data, n).value.0[i]| < 0x1_0000
  {
    hide BE;
    if n > 0 {
      TopicsBelow(data, n - 1);
      var off := TopicsAt(data, n - 1).value.1;
      BEBelow(data[off..off + 2]);
    }
  }

  /** Whatever the bytes, what the decoder accepts is an event the format can hold. */
  lemma ParsedEncodable(data: seq<byte>)
    requires Parsed(data).Ok?
    ensures Encodable(Parsed(data).value)
  {
    hide BE, TopicsAt;
    TopicsBelow(data, data[3]);
    BEBelow(data[76..80]);
  }

  /** Encoding, then decoding, restores an event exactly when the format can hold it; bytes after the
    event do not matter. */
  lemma EventRoundTrip(v: Fields, suffix: seq<byte>)
    ensures Parsed(EventBytes(v) + suffix) == Ok(v) <==> Encodable(v)
  {
    hide TopicsBytes, PutBE, BE, Header, TopicsAt, Encodable, UnixBytes, Pow2, Parsed;
    if Encodable(v) {
      DecodesBack(v, suffix);
    }
    if Parsed(EventBytes(v) + suffix) == Ok(v) {
      ParsedEncodable(EventBytes(v) + suffix);
    }
  }

  lemma BEGet(s: seq<byte>)
    ensures PutBE(BE(s), |s|) == s
  {
    PutGet(Reversed(s));
    ReversedTwice(s);
  }

  lemma {:induction false} TopicsReencode(data: seq<byte>, n: nat)
    requires |data| >= HEADER_SIZE && TopicsAt(data, n).Ok?
    ensures TopicsBytes(TopicsAt(data, n).value.0) == data[HEADER_SIZE..TopicsAt(data, n).value.1]
  {
    hide BE, PutBE, TopicsBytes;
    if n == 0 {
      NoTopics();
    } else {
      TopicsReencode(data, n - 1);
      var (before, off) := TopicsAt(data, n - 1).value;
      var (topics, end) := TopicsAt(data, n).value;
      BEGet(data[off..off + 2]);
      assert topics[..n - 1] == before && topics[..n] == topics;
      TopicsNext(topics, n - 1);
      assert data[HEADER_SIZE..end] == data[HEADER_SIZE..off] + data[off..off + 2] + data[off + 2..end];
    }
  }

  lemma UnixReencode(s: seq<byte>)
    requires |s| == 8
    ensures UnixBytes(ToInt64(BE(s))) == s
  {
    hide BE, PutBE;
    BEBelow(s);
    BEGet(s);
    assert ToInt64(BE(s)) % TWO64 == BE(s);
  }

  /** No undefined flag is set, and an absent contract ID is all zeros. */
  predicate Canonical(data: seq<byte>)
    requires |data| >= HEADER_SIZE
  {
    data[2] < 4 && (HasContractId(data[2]) || data[4..36] == Zeros(32))
  }

  /** Headers are equal when their fields are. */
  lemma SameHeader(a: seq<byte>, b: seq<byte>)
    requires |a| == HEADER_SIZE <= |b|
    ensures a == b[..HEADER_SIZE] <==>
      (a[..4] == b[..4] && a[4..36] == b[4..36] && a[36..68] == b[36..68] && a[68..76] == b[68..76] && a[76..80] == b[76..80])
  {
    var c := b[..HEADER_SIZE];
    assert c[..4] == b[..4] && c[4..36] == b[4..36] && c[36..68] == b[36..68] && c[68..76] == b[68..76] && c[76..80] == b[76..80];
    assert a == a[..4] + a[4..36] + a[36..68] + a[68..76] + a[76..80];
    assert c == c[..4] + c[4..36] + c[36..68] + c[68..76] + c[76..80];
  }

  /** The flag byte comes back unless an undefined flag is set. */
  lemma FlagsReencode(v: Fields, flags: byte, id: seq<byte>)
    requires v.contractId == (if HasContractId(flags) then Some(id) else None) && |id| == 32
    requires v.successful == IsSuccessful(flags)
    ensures HeaderFlags(v) == flags <==> flags < 4
  {
  }

  /** The contract ID comes back, as zeros if it is absent. */
  lemma IdReencode(v: Fields, flags: byte, id: seq<byte>)
    requires v.contractId == (if HasContractId(flags) then Some(id) else None) && |id| == 32
    ensures Fixed32(Content(v.contractId)) == id <==> HasContractId(flags) || id == Zeros(32)
  {
    if HasContractId(flags) {
      assert id[..32] == id;
    }
  }

  lemma WholeFixed(s: seq<byte>)
    requires |s| == 32
    ensures Fixed32(s) == s
  {
    assert s[..32] == s;
  }

  lemma HeaderReencode(data: seq<byte>, v: Fields)
    requires |data| >= HEADER_SIZE && data[0] == FORMAT_VERSION && v.eventType == data[1]
    requires v.contractId == (if HasContractId(data[2]) then Some(data[4..36]) else None) && v.txHash == data[36..68]
    requires v.successful == IsSuccessful(data[2]) && |v.topics| == data[3]
    requires UnixBytes(v.seconds) == data[68..76] && PutBE(|v.dataBytes|, 4) == data[76..80]
    ensures Header(v) == data[..HEADER_SIZE] <==> Canonical(data)
  {
    var h := Header(v);
    assert h[..HEADER_SIZE] == h;
    HeaderFields(v, h);
    SameHeader(h, data);
    FlagsReencode(v, data[2], data[4..36]);
    IdReencode(v, data[2], data[4..36]);
    hide PutBE, UnixBytes, Header, HeaderFlags, Fixed32, Content, HasContractId, IsSuccessful, Zeros;
    WholeFixed(v.txHash);
    assert h[..4] == [h[0], h[1], h[2], h[3]] && data[..4] == [data[0], data[1], data[2], data[3]];
  }

  /** Decoding, then encoding, gives back the bytes exactly when the header is canonical. */
  lemma EventReencode(data: seq<byte>)
    requires Parsed(data).Ok?
    ensures EventBytes(Parsed(data).value) <= data <==> Canonical(data)
  {
    hide BE, PutBE, TopicsBytes, TopicsAt, UnixBytes;
    var v := Parsed(data).value;
    var off := TopicsAt(data, data[3]).value.1;
    TopicsReencode(data, data[3]);
    UnixReencode(data[68..76]);
    BEGet(data[76..80]);
    assert TopicsBytes(v.topics) + v.dataBytes == data[HEADER_SIZE..off + |v.dataBytes|];
    HeaderReencode(data, v);
    if Header(v) == data[..HEADER_SIZE] {
      assert EventBytes(v) == data[..off + |v.dataBytes|];
    } else {
      assert EventBytes(v)[..HEADER_SIZE] == Header(v);
    }
  }

  // ---------------------------------------------------------------- the layout, byte by byte

  /** A 32-byte field as it is stored: the first 32 bytes of the value, or zeros if it has fewer. */
  ghost predicate Stored32(field: seq<byte>, value: seq<byte>)
  {
    if |value| >= 32 then field == value[..32] else |field| == 32 && forall i :: 0 <= i < 32 ==> field[i] == 0
  }

  lemma HeaderLayout(v: Fields)
    ensures var h := Header(v);
      && h[0] == 2 && h[1] == v.eventType % 256 && h[3] == |v.topics| % 256
      && (h[2] % 2 == 1 <==> |Content(v.contractId)| >= 32) && (h[2] / 2 % 2 == 1 <==> v.successful) && h[2] < 4
      && Stored32(h[4..36], Content(v.contractId)) && Stored32(h[36..68], v.txHash)
      && h[68..76] == PutBE(v.seconds % TWO64, 8) && h[76..80] == PutBE(|v.dataBytes|, 4)
  {
    hide PutBE;
    var h := Header(v);
    assert h[..HEADER_SIZE] == h;
    HeaderFields(v, h);
  }

  /** An event as it is stored: an 80-byte header with every field at its offset, then the topics, then the
    data bytes. */
  lemma EventLayout(v: Fields)
    ensures var b := EventBytes(v);
      && |b| == 80 + |TopicsBytes(v.topics)| + |v.dataBytes|
      && b[0] == 2 && b[1] == v.eventType % 256 && b[3] == |v.topics| % 256
      && (b[2] % 2 == 1 <==> v.contractId.Some? && |v.contractId.value| >= 32)
      && (b[2] / 2 % 2 == 1 <==> v.successful) && b[2] < 4
      && Stored32(b[4..36], Content(v.contractId)) && Stored32(b[36..68], v.txHash)
      && b[68..76] == PutBE(v.seconds % TWO64, 8) && b[76..80] == PutBE(|v.dataBytes|, 4)
      && b[80..80 + |TopicsBytes(v.topics)|] == TopicsBytes(v.topics)
      && b[80 + |TopicsBytes(v.topics)|..] == v.dataBytes
  {
    HeaderLayout(v);
    hide PutBE, TopicsBytes, Header, Stored32;
    var b, h := EventBytes(v), Header(v);
    assert b[..80] == h;
    assert b[4..36] == h[4..36] && b[36..68] == h[36..68] && b[68..76] == h[68..76] && b[76..80] == h[76..80];
  }

  /** The topics as they are stored: each behind its length in two bytes, most significant first. */
  lemma TopicsLayout(topics: seq<seq<byte>>, topic: seq<byte>)
    ensures TopicsBytes([]) == []
    ensures TopicsBytes(topics + [topic]) == TopicsBytes(topics) + (PutBE(|topic|, 2) + topic)
  {
    hide PutBE;
    assert (topics + [topic])[..|topics|] == topics;
  }

  /** The bytes behind a header hold these topics and this data, as its counts say. */
  ghost predicate Holds(data: seq<byte>, topics: seq<seq<byte>>, dataBytes: seq<byte>)
    requires |data| >= HEADER_SIZE
  {
    && |topics| == data[3] && |dataBytes| == BE(data[76..80]) && TopicsFit(topics)
    && TopicsBytes(topics) + dataBytes <= data[HEADER_SIZE..]
  }

  lemma HeldIsParsed(data: seq<byte>, topics: seq<seq<byte>>, dataBytes: seq<byte>)
    requires |data| >= HEADER_SIZE && data[0] == FORMAT_VERSION && Holds(data, topics, dataBytes)
    ensures Parsed(data).Ok? && Parsed(data).value.topics == topics && Parsed(data).value.dataBytes == dataBytes
  {
    hide PutBE, BE, TopicsBytes, TopicsAt;
    var header, all := data[..HEADER_SIZE], TopicsBytes(topics);
    assert data == header + data[HEADER_SIZE..];
    PrefixBehind(header, all + dataBytes, data[HEADER_SIZE..], data);
    PrefixBehind(header, all, all + dataBytes, data);
    TopicsRoundTrip(topics, data, |topics|);
    assert topics[..|topics|] == topics;
    assert header + (all + dataBytes) == (header + all) + dataBytes;
    Inside(header + all, dataBytes, data);
  }

  lemma JoinedPrefix(s: seq<byte>, a: nat, b: nat, c: nat)
    requires a <= b <= c <= |s|
    ensures s[a..b] + s[b..c] <= s[a..]
  {
    assert s[a..b] + s[b..c] == s[a..c] && s[a..c] == s[a..][..c - a];
  }

  lemma ParsedHolds(data: seq<byte>)
    requires Parsed(data).Ok?
    ensures |data| >= HEADER_SIZE && Holds(data, Parsed(data).value.topics, Parsed(data).value.dataBytes)
  {
    hide BE, PutBE, TopicsBytes, TopicsAt;
    var v := Parsed(data).value;
    var off := TopicsAt(data, data[3]).value.1;
    TopicsReencode(data, data[3]);
    TopicsBelow(data, data[3]);
    JoinedPrefix(data, HEADER_SIZE, off, off + |v.dataBytes|);
  }

  lemma {:induction false} TopicErrors(data: seq<byte>, n: nat)
    requires |data| >= HEADER_SIZE && TopicsAt(data, n).Err?
    ensures TopicsAt(data, n) == Err(TruncatedTopic)
  {
    hide BE;
    if n > 0 && TopicsAt(data, n - 1).Err? {
      TopicErrors(data, n - 1);
    }
  }

  /** What the decoder makes of any bytes, offset by offset: it accepts exactly the version-2 headers followed
    by the topics and data they announce. */
  lemma ParsedLayout(data: seq<byte>)
    ensures Parsed(data).Ok? <==>
      |data| >= 80 && data[0] == 2 && exists topics, dataBytes :: Holds(data, topics, dataBytes)
    ensures Parsed(data).Ok? ==>
      var v := Parsed(data).value;
      && v.contractId == (if data[2] % 2 == 1 then Some(data[4..36]) else None)
      && (v.successful <==> data[2] / 2 % 2 == 1)
      && v.eventType == data[1] && v.txHash == data[36..68] && v.seconds == ToInt64(BE(data[68..76])) && v.nanos == 0
      && Holds(data, v.topics, v.dataBytes)
    ensures Parsed(data) == Err(ShortEvent) <==> |data| < 80
    ensures Parsed(data) == Err(EventVersion) <==> |data| >= 80 && data[0] != 2
  {
    if Parsed(data).Ok? {
      ParsedHolds(data);
    }
    hide BE, PutBE, TopicsBytes, TopicsAt, TopicsFit, ToInt64;
    if |data| >= 80 && data[0] == 2 {
      if topics, dataBytes :| Holds(data, topics, dataBytes) {
        HeldIsParsed(data, topics, dataBytes);
      }
      if TopicsAt(data, data[3]).Err? {
        TopicErrors(data, data[3]);
      }
    }
  }

  // ---------------------------------------------------------------- the codec in place

  lemma FirstTopic(data: seq<byte>)
    requires |data| >= HEADER_SIZE
    ensures TopicsAt(data, 0) == Ok(([], HEADER_SIZE))
  {
  }

  lemma {:induction false} TopicErrorStays(data: seq<byte>, n: nat, count: nat)
    requires |data| >= HEADER_SIZE && n <= count && TopicsAt(data, n).Err?
    ensures TopicsAt(data, count) == TopicsAt(data, n)
    decreases count - n
  {
    hide BE;
    if n < count {
      TopicErrorStays(data, n, count - 1);
    }
  }

  /** One more topic; and a topic that cannot be read stops the decoder for good. */
  lemma NextTopic(data: seq<byte>, i: nat, count: nat)
    requires |data| >= HEADER_SIZE && i < count && TopicsAt(data, i).Ok?
    ensures var (topics, off) := TopicsAt(data, i).value;
      if off + 2 > |data| || off + 2 + BE(data[off..off + 2]) > |data| then TopicsAt(data, count) == Err(TruncatedTopic)
      else
        TopicsAt(data, i + 1)
        == Ok((topics + [data[off + 2..off + 2 + BE(data[off..off + 2])]], off + 2 + BE(data[off..off + 2])))
  {
    hide BE;
    if TopicsAt(data, i + 1).Err? {
      TopicErrorStays(data, i + 1, count);
    }
  }

  class Event {
    var contractId: Option<seq<byte>>
    var topics: seq<seq<byte>>
    var txHash: seq<byte>
    var eventType: int
    var dataBytes: seq<byte>
    var seconds: int
    var nanos: nat
    var successful: bool
    var ledgerSequence: uint32
    var transactionIndex: uint32
    var operationIndex: uint16
    var eventIndex: uint16

    function Value(): Fields
      reads this
    {
      Fields(contractId, topics, txHash, eventType, dataBytes, seconds, nanos, successful,
             ledgerSequence, transactionIndex, operationIndex, eventIndex)
    }

    /** Unmarshal: reads an event from any bytes. */
    method Unmarshal(data: seq<byte>) returns (e: Option<Error>)
      modifies this
      ensures e.None? ==> Parsed(data) == Ok(Value())
      ensures e.Some? ==> Parsed(data) == Err(e.value)
      ensures e in {Some(ShortEvent), Some(EventVersion)} ==> Value() == old(Value())
      ensures e in {Some(TruncatedTopic), Some(TruncatedData)} ==> HeaderRead(data)
      ensures e.Some? ==> Kept(old(Value()))
    {
      hide BE, TopicsAt, ToInt64;
      if |data| < HEADER_SIZE {
        return Some(ShortEvent);
      }
      if data[0] != FORMAT_VERSION {
        return Some(EventVersion);
      }
      ReadHeader(data);
      var topicCount := data[3];
      var dataBytesLen := BE(data[76..80]);
      var failed, off := ReadTopics(data, topicCount);
      if failed {
        return Some(TruncatedTopic);
      }
      if off + dataBytesLen > |data| {
        return Some(TruncatedData);
      }
      dataBytes := data[off..off + dataBytesLen];
      ledgerSequence, transactionIndex, operationIndex, eventIndex := 0, 0, 0, 0;
      e := None;
    }

    /** The header fields are those of the bytes. */
    predicate HeaderRead(data: seq<byte>)
      reads this
    {
      && |data| >= HEADER_SIZE && eventType == data[1] && txHash == data[36..68]
      && contractId == (if data[2] % 2 == 1 then Some(data[4..36]) else None)
      && seconds == ToInt64(BE(data[68..76])) && nanos == 0 && successful == (data[2] / 2 % 2 == 1)
    }

    /** The header fields, as Unmarshal sets them. */
    method ReadHeader(data: seq<byte>)
      requires |data| >= HEADER_SIZE
      modifies this`eventType, this`contractId, this`txHash, this`seconds, this`nanos, this`successful
      ensures HeaderRead(data)
    {
      hide BE, ToInt64;
      eventType := data[1];
      var flags := data[2];
      contractId := if HasContractId(flags) then Some(data[4..36]) else None;
      txHash := data[36..68];
      seconds, nanos := ToInt64(BE(data[68..76])), 0;
      successful := IsSuccessful(flags);
    }

    /** The fields Unmarshal sets last still have their old values. */
    predicate Kept(before: Fields)
      reads this
    {
      && dataBytes == before.dataBytes && ledgerSequence == before.ledgerSequence
      && transactionIndex == before.transactionIndex && operationIndex == before.operationIndex
      && eventIndex == before.eventIndex
    }

    /** The topic loop of Unmarshal. */
    method ReadTopics(data: seq<byte>, topicCount: nat) returns (failed: bool, off: nat)
      requires |data| >= HEADER_SIZE
      modifies this`topics
      ensures if failed then TopicsAt(data, topicCount) == Err(TruncatedTopic) else TopicsAt(data, topicCount) == Ok((topics, off))
    {
      hide BE, TopicsAt;
      topics := [];
      off := HEADER_SIZE;
      FirstTopic(data);
      for i := 0 to topicCount
        invariant HEADER_SIZE <= off <= |data| && TopicsAt(data, i) == Ok((topics, off))
      {
        NextTopic(data, i, topicCount);
        if off + 2 > |data| {
          return true, off;
        }
        var tLen := BE(data[off..off + 2]);
        if off + 2 + tLen > |data| {
          return true, off;
        }
        topics := topics + [data[off + 2..off + 2 + tLen]];
        off := off + 2 + tLen;
      }
      failed := false;
    }
  }

  /** s with the bytes from `at` on overwritten by src. */
  function Splice(s: seq<byte>, at: nat, src: seq<byte>): (t: seq<byte>)
    requires at + |src| <= |s|
    ensures |t| == |s|
  {
    s[..at] + src + s[at + |src|..]
  }

  /** Overwriting a part of what was just written. */
  lemma SpliceInside(s: seq<byte>, at: nat, h: seq<byte>, o: nat, src: seq<byte>)
    requires at + |h| <= |s| && o + |src| <= |h|
    ensures Splice(Splice(s, at, h), at + o, src) == Splice(s, at, Splice(h, o, src))
  {
  }

  /** Writing on where the last write ended. */
  lemma SpliceOn(s: seq<byte>, at: nat, h: seq<byte>, src: seq<byte>)
    requires at + |h| + |src| <= |s|
    ensures Splice(Splice(s, at, h), at + |h|, src) == Splice(s, at, h + src)
  {
  }

  /** copy, on a buffer large enough for the source. */
  method CopyAt(a: array<byte>, at: nat, src: seq<byte>)
    requires at + |src| <= a.Length
    modifies a
    ensures a[..] == Splice(old(a[..]), at, src)
  {
    for i := 0 to |src|
      invariant forall k :: 0 <= k < i ==> a[at + k] == src[k]
      invariant forall k :: 0 <= k < at || at + i <= k < a.Length ==> a[k] == old(a[k])
    {
      a[at + i] := src[i];
    }
    ghost var t := Splice(old(a[..]), at, src);
    forall k | 0 <= k < a.Length ensures a[k] == t[k] {
      if at <= k < at + |src| {
        assert a[at + (k - at)] == src[k - at];
      }
    }
  }

  /** A 32-byte field of a cleared buffer is written only when the value is long enough. */
  lemma FieldBuilt(before: seq<byte>, value: seq<byte>, rest: nat)
    ensures var cleared := before + Zeros(32 + rest);
      (if |value| >= 32 then Splice(cleared, |before|, value[..32]) else cleared) == before + Fixed32(value) + Zeros(rest)
  {
  }

  /** The header as it is built, field by field, in a cleared buffer. */
  lemma HeaderBuilt(v: Fields)
    ensures var cleared := Splice(Zeros(80), 0, [FORMAT_VERSION, v.eventType % 256, HeaderFlags(v), |v.topics| % 256]);
      var withId := if |Content(v.contractId)| >= 32 then Splice(cleared, 4, Content(v.contractId)[..32]) else cleared;
      var withHash := if |v.txHash| >= 32 then Splice(withId, 36, v.txHash[..32]) else withId;
      Splice(Splice(withHash, 68, UnixBytes(v.seconds)), 76, PutBE(|v.dataBytes|, 4)) == Header(v)
  {
    hide UnixBytes, PutBE, HeaderFlags, Fixed32;
    var first := [FORMAT_VERSION, v.eventType % 256, HeaderFlags(v), |v.topics| % 256];
    var cleared := Splice(Zeros(80), 0, first);
    var withId := if |Content(v.contractId)| >= 32 then Splice(cleared, 4, Content(v.contractId)[..32]) else cleared;
    var withHash := if |v.txHash| >= 32 then Splice(withId, 36, v.txHash[..32]) else withId;
    assert cleared == first + Zeros(76);
    FieldBuilt(first, Content(v.contractId), 44);
    FieldBuilt(first + Fixed32(Content(v.contractId)), v.txHash, 12);
    assert withHash == first + Fixed32(Content(v.contractId)) + Fixed32(v.txHash) + Zeros(12);
  }

  /** One header field, at offset o of a header whose bytes so far are h. */
  method PutField(a: array<byte>, at: nat, ghost before: seq<byte>, ghost h: seq<byte>, o: nat, src: seq<byte>)
    returns (ghost h': seq<byte>)
    requires at + |h| <= a.Length == |before| && o + |src| <= |h|
    requires a[..] == Splice(before, at, h)
    modifies a
    ensures h' == Splice(h, o, src) && a[..] == Splice(before, at, h')
  {
    hide Splice;
    CopyAt(a, at + o, src);
    SpliceInside(before, at, h, o, src);
    h' := Splice(h, o, src);
  }

  /** The header part of Marshal. */
  method PutHeader(a: array<byte>, at: nat, ev: Event)
    requires at + HEADER_SIZE <= a.Length
    modifies a
    ensures a[..] == Splice(old(a[..]), at, Header(ev.Value()))
  {
    hide UnixBytes, PutBE, Header, Splice, Zeros;
    ghost var before, v := a[..], ev.Value();
    ghost var h := Zeros(HEADER_SIZE);
    CopyAt(a, at, Zeros(HEADER_SIZE));
    var flags: byte := 0;
    if |Content(ev.contractId)| >= 32 {
      flags := flags + 1;
    }
    if ev.successful {
      flags := flags + 2;
    }
    h := PutField(a, at, before, h, 0, [FORMAT_VERSION, ev.eventType % 256, flags, |ev.topics| % 256]);
    if |Content(ev.contractId)| >= 32 {
      h := PutField(a, at, before, h, 4, Content(ev.contractId)[..32]);
    }
    if |ev.txHash| >= 32 {
      h := PutField(a, at, before, h, 36, ev.txHash[..32]);
    }
    h := PutField(a, at, before, h, 68, UnixBytes(ev.seconds));
    h := PutField(a, at, before, h, 76, PutBE(|ev.dataBytes|, 4));
    HeaderBuilt(v);
  }

  /** slices.Grow: room for n more bytes, in place when the capacity allows it. */
  method Grow(s: Slice<byte>, n: nat) returns (t: Slice<byte>)
    requires s.Valid()
    ensures t.Valid() && t.len == s.len && t.cap >= s.len + n && t.Elems() == s.Elems()
    ensures if s.cap - s.len >= n then t == s else fresh(t.arr)
  {
    if s.cap - s.len >= n {
      return s;
    }
    var elems := s.Elems();
    var a := new byte[s.len + n](i requires 0 <= i < s.len + n => if i < |elems| then elems[i] else 0);
    t := Slice(a, 0, s.len, s.len + n);
  }

  method TopicsSize(topics: seq<seq<byte>>) returns (size: nat)
    ensures size == |TopicsBytes(topics)|
  {
    hide TopicsBytes;
    NoTopics();
    size := 0;
    assert topics[..0] == [];
    for i := 0 to |topics|
      invariant size == |TopicsBytes(topics[..i])|
    {
      TopicsNext(topics, i);
      size := size + 2 + |topics[i]|;
    }
    assert topics[..|topics|] == topics;
  }

  lemma SpliceNothing(s: seq<byte>, at: nat)
    requires at <= |s|
    ensures Splice(s, at, []) == s
  {
  }

  /** The topics part of Marshal: each topic behind its length, from `at` on. */
  method PutTopics(a: array<byte>, at: nat, topics: seq<seq<byte>>) returns (off: nat)
    requires at + |TopicsBytes(topics)| <= a.Length
    modifies a
    ensures off == at + |TopicsBytes(topics)|
    ensures a[..] == Splice(old(a[..]), at, TopicsBytes(topics))
  {
    hide TopicsBytes, PutBE, Splice;
    ghost var before := a[..];
    NoTopics();
    off := at;
    assert topics[..0] == [];
    SpliceNothing(before, at);
    for i := 0 to |topics|
      invariant off == at + |TopicsBytes(topics[..i])| && off <= a.Length
      invariant |TopicsBytes(topics[..i])| <= |TopicsBytes(topics)|
      invariant a[..] == Splice(before, at, TopicsBytes(topics[..i]))
    {
      ghost var done := TopicsBytes(topics[..i]);
      TopicsNext(topics, i);
      TopicsPrefix(topics, i + 1);
      CopyAt(a, off, PutBE(|topics[i]|, 2));
      SpliceOn(before, at, done, PutBE(|topics[i]|, 2));
      CopyAt(a, off + 2, topics[i]);
      SpliceOn(before, at, done + PutBE(|topics[i]|, 2), topics[i]);
      assert done + PutBE(|topics[i]|, 2) + topics[i] == done + TopicBytes(topics[i]);
      off := off + 2 + |topics[i]|;
    }
    assert topics[..|topics|] == topics;
  }

  /** The writes of Marshal, in order, from `at` on. */
  method PutEvent(a: array<byte>, at: nat, ev: Event)
    requires at + |EventBytes(ev.Value())| <= a.Length
    modifies a
    ensures a[..] == Splice(old(a[..]), at, EventBytes(ev.Value()))
  {
    hide TopicsBytes, PutBE, Splice, Header;
    ghost var before, v := a[..], ev.Value();
    PutHeader(a, at, ev);
    var off := PutTopics(a, at + HEADER_SIZE, ev.topics);
    SpliceOn(before, at, Header(v), TopicsBytes(v.topics));
    CopyAt(a, off, ev.dataBytes);
    SpliceOn(before, at, Header(v) + TopicsBytes(v.topics), v.dataBytes);
  }

  lemma SpliceEnd(s: seq<byte>, from: nat, at: nat, src: seq<byte>)
    requires from <= at && at + |src| <= |s|
    ensures Splice(s, at, src)[from..at + |src|] == s[from..at] + src
  {
  }

  /** Marshal: appends the event to dst, whose earlier bytes stay what they were; beyond the event
    the shared array is not touched. */
  method Marshal(dst: Slice<byte>, ev: Event) returns (out: Slice<byte>)
    requires dst.Valid()
    modifies dst.arr
    ensures out.Valid() && out.Elems() == old(dst.Elems()) + EventBytes(ev.Value())
    ensures old(dst.cap - dst.len >= |EventBytes(ev.Value())|) ==>
      out.arr == dst.arr && out.off == dst.off
      && dst.arr[..] == Splice(old(dst.arr[..]), dst.off + dst.len, EventBytes(ev.Value()))
    ensures old(dst.cap - dst.len < |EventBytes(ev.Value())|) ==>
      fresh(out.arr) && dst.arr[..] == old(dst.arr[..])
  {
    hide TopicsBytes, PutBE, Splice, Header;
    ghost var v := ev.Value();
    ghost var elems := dst.Elems();
    var topicsSize := TopicsSize(ev.topics);
    var needed := HEADER_SIZE + topicsSize + |ev.dataBytes|;
    assert needed == |EventBytes(v)|;
    var start := dst.len;
    out := Grow(dst, needed);
    out := out.(len := start + needed);
    var base := out.off + start;
    ghost var before := out.arr[..];
    assert before[out.off..base] == elems;
    PutEvent(out.arr, base, ev);
    hide EventBytes;
    SpliceEnd(before, out.off, base, EventBytes(v));
    assert out.Elems() == out.arr[..][out.off..out.off + out.len];
  }
}
