/** Results, options and the error values of the packfile library. */
module Results {

  datatype Option<+T> = None | Some(value: T)

  datatype Error =
    // intpack
    | BadCount          // group size not positive
    | ShortGroup        // fewer than 5 bytes for a group footer
    | BadWidth          // width above 32 bits
    | ShortPayload      // group payload longer than the buffer
    // packfile
    | Corrupt           // structure inconsistent
    | Checksum          // CRC32C mismatch
    | Size              // file size inconsistent with trailer
    | Magic
    | Version
    | GroupSize
    | UnknownFlags
    | TooManyRecords    // record count above 2^32-1
    | RecordTooLarge    // record of 4 GiB or more
    | TooManyItems      // item count above 2^32-1
    | BadItemsPerRecord
    | RecordCountMismatch
    | ShortRecord       // record too short for its item index
    | ShortCrc          // record too short for its CRC32C
    | Zstd              // compressor or decompressor failure
    | OutOfRange        // position out of range
    | Panic             // index out of range at run time
    | Io                // the operating system reported a failure
    | Closed            // writer already closed
    | HashMismatch
    | Cancelled         // the caller's context has ended
    // event
    | ShortEvent
    | EventVersion
    | TruncatedTopic
    | TruncatedData
    // bitmap index
    | KeyNotFound
    | Deserialize
    | Query
    | NoKeys

  datatype Result<+T> = Ok(value: T) | Err(error: Error)
}

/** A slice value as Go has it: a window on a shared array with a length and a capacity. */
module Slices {

  datatype Slice<T> = Slice(arr: array<T>, off: nat, len: nat, cap: nat)
  {
    ghost predicate Valid()
    {
      len <= cap && off + cap <= arr.Length
    }

    function Elems(): seq<T>
      requires Valid()
      reads arr
    {
      arr[off..off + len]
    }
  }
}
