/** The library code the packfile calls and whose internals are not modelled: checksums,
  hashing and compression enter every member as functions of this record. */
module Environment {
  import opened Bytes
  import opened Results

  /** A SHA-256 digest. */
  type Digest = d: seq<byte> | |d| == 32 witness [0, 0, 0, 0, 0, 0, 0, 0, 0, 0, 0, 0, 0, 0, 0, 0, 0, 0, 0, 0, 0, 0, 0, 0, 0, 0, 0, 0, 0, 0, 0, 0]

  /** `Valid` is what is assumed of them: a compressor that inverts on every payload a Go slice can
    hold (lengths below 2^63). */
  datatype Env = Env(
    crc: seq<byte> -> uint32,                        // CRC32C
    sha: seq<byte> -> Digest,                        // SHA-256
    compress: seq<byte> -> seq<byte>,                // zstd frame of a non-empty payload
    decompress: seq<byte> -> Option<seq<byte>>       // None: not a zstd frame
  ) {
    ghost predicate Valid()
    {
      && (forall x :: 0 < |x| < TWO63 ==> |compress(x)| > 0 && decompress(compress(x)) == Some(x))
      && (forall x :: decompress(x).Some? ==> |decompress(x).value| < TWO63)
    }

    /** zstd.Compressor.Encode: empty input is written as nothing at all. */
    function Encode(data: seq<byte>): seq<byte>
    {
      if |data| == 0 then [] else compress(data)
    }

    /** zstd.Decompressor.Decode: empty input is read as an empty payload. */
    function Decode(data: seq<byte>): Option<seq<byte>>
    {
      if |data| == 0 then Some([]) else decompress(data)
    }

    lemma EncodeDecode(data: seq<byte>)
      requires Valid() && |data| < TWO63
      ensures Decode(Encode(data)) == Some(data)
    {
    }
  }
}
