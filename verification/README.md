# packfile verification

A Dafny model of the immutable `packfile` container, the `intpack` bit packer below it, the bitmap
index above it, and the event codec beside it, with proofs that they do what their documentation
promises.

A packfile is a sequence of records (groups of items), a delta-coded offset index, optional
application data and a 64-byte trailer; it is opened from its tail. The model follows the program file
by file:

| file | what it holds |
|---|---|
| `bytes.dfy`, `results.dfy`, `env.dfy` | machine integers, little- and big-endian numbers, errors, slices with length and capacity, and the library functions taken as given |
| `intpack.dfy` | frame-of-reference groups: in-place packing with overlapping 8-byte accesses, unpacking with a fast path and a fallback |
| `index.dfy` | the offset index, encoded forward and decoded backward |
| `records.dfy`, `decoder.dfy` | records in three formats; the decoder with its reused buffers |
| `chunks.dfy`, `contenthash.dfy` | items cut into records; the two-level content hash |
| `fileformat.dfy`, `sealed.dfy` | opening any bytes; the finished file as a function of the items, and the whole-file round trip |
| `laws.dfy` | what index, trailer and content hash bytes mean: which are accepted, what they say, what is reported otherwise |
| `writer.dfy`, `lifecycle.dfy` | the serial writer on a host that may fail at any call; the life of a writer over any sequence of calls |
| `pipeline.dfy` | the concurrent writer as a state machine: producer, bounded channels, workers, reordering writer |
| `reader.dfy`, `verify.dfy` | point reads, coalesced range scans, verification |
| `batches.dfy`, `readitems.dfy` | the batch split of a scattered read and its worker protocol |
| `event.dfy` | the binary event codec |
| `bitmapwriter.dfy`, `bitmapreader.dfy` | the bitmap index on top of a packfile |

Imperative code is modelled as methods and classes and proved against specification functions
(`GroupBytes`, `DecodedIndex`, `DecodedRecord`, `OpenedFile`, `FileOf`, `RangeYields`, `Parsed`, ...);
the laws are then lemmas about these functions. `FileOf` says what a finished file is without any trace
of how it was written, so the serial writer, every interleaving of the concurrent one, the readers and
`Verify` all meet there.

CRC32C, SHA-256, zstd, roaring bitmaps and the perfect hash are functions about which only this is
assumed: decompressing what was compressed restores it, and empty input stays empty (the special case
of `zstd/zstd.go` lines 91-93 and 159-161); deserializing a serialized bitmap restores it; the rank
function is injective into [0, n) on the n stored keys and, for any other key, in range or not found. No
property of CRC32C, SHA-256 or the 128-bit key hash is assumed: where a collision matters, the lemma exhibits
it, or speaks of the keys for which no different byte string among those added has the same hash.

Besides the round trips there is a law for every stored form (`Intpack.GroupLaw`, `Records.RecordLaw`,
`FileLaws.IndexLaw`, `FileLaws.FileLaw`, `EventCodec.ParsedLayout`, ...), stated on bytes at offsets: it says
of any bytes whether they are accepted and what they mean, so that writer and reader cannot agree on another
form.

## Where the code does not meet its promise

- An Uncompressed record without a payload byte is written as four bytes (`packfile/writer.go` lines
  385-388) and refused by the decoder, which asks for five (`packfile/decoder.go` line 141).
  `Verification.EmptyRecordRefused` gives the file; `SealedFile.FileRoundTrip` and
  `Verification.VerifyAccepts` say exactly which files read back.
- A file whose trailer stores itemsPerRecord 0, no records and some items is accepted (`packfile/reader.go`
  lines 223-238); reading a position then indexes past the offsets. `SealedFile.AcceptedAndPanics` gives
  the file, and `SealedFile.ReadPanicsExactly` says that this is the only kind of accepted file in which a
  read panics.
- A block worker returns after a format error (`packfile/writer.go` lines 239-242) and nothing tells the
  producer. Once all workers have returned, `AppendItem` fills the channel and then blocks for good.
  `Pipeline.SendCanHang` says that some run ends so, for any number of workers, exactly in the Compressed
  format; `Pipeline.NoHang` says that as many compressors must fail as there are workers. Finish blocks in
  the same way when it has a partial record to send: `Pipeline.FinishCanHang` says that some run ends so
  exactly in the Compressed format with more than one item for each record. Once its last send has been
  accepted Finish returns, and Close always does (`Pipeline.CloseEnds`).
- The decoder writes past its offsets when a file has no items and a record at most one
  (`packfile/decoder.go` lines 166-184); the model reports it as the outcome `Panic`.
  `RecordDecoder.DecodeNothing` is such a call, `Records.PanicsExactly` says exactly which calls are, and
  `SealedFile.PositionsDecodeSafely` that no read of a position makes one.

## Model

| member | source | states |
|---|---|---|
| `Intpack.BitLen` | intpack/intpack.go:74-74 | the bit length n of x: x fits n bits and no fewer |
| `Intpack.RangeWidth` | intpack/intpack.go:70-80 | the minimum is one of the values, every residual fits the width, and no smaller width does unless the width is the forced 1 |
| `Intpack.PackResiduals` | intpack/intpack.go:85-94 | after the overlapping 8-byte read-modify-writes the buffer, read as one number, holds residual j in bits [j*w, (j+1)*w); no write passes the 7 bytes of slack |
| `Intpack.PackSumField` | intpack/intpack.go:85-94 | packed fields are disjoint: bits [j*w, (j+1)*w) of the packed number are residual j |
| `Intpack.PackSumBound` | intpack/intpack.go:85-94 | the packed number has no bits past n*w, so the slack stays zero |
| `Intpack.EncodeGroup` | intpack/intpack.go:22-34 | the in-place packing produces exactly the bytes the specification of a group denotes |
| `Intpack.FallbackStep` | intpack/intpack.go:122-126 | one step of the byte-wise fallback extends the number read so far by one byte |
| `Intpack.ReadBytewise` | intpack/intpack.go:122-126 | the fallback reads the number of the bytes that are left, up to eight |
| `Intpack.WindowField` | intpack/intpack.go:114-128 | a field read through any 8-byte window that covers it is the field of the whole packed number |
| `Intpack.ReadField` | intpack/intpack.go:114-128 | fast read and fallback agree: both yield bits [j*w, (j+1)*w) of the packed number |
| `Intpack.UnpackResiduals` | intpack/intpack.go:99-130 | the destination holds exactly the unpacked values, whatever it held before |
| `Intpack.EnsureCap` | intpack/intpack.go:132-138 | length n, in place when the capacity allows it |
| `Intpack.DecodeGroup` | intpack/intpack.go:40-66 | on any buffer and count the result, the consumed length and each error are those of the specification; the destination is overwritten in place when large enough |
| `Intpack.GroupRoundTrip` | intpack/intpack.go:22-66 | for every non-empty list and any prefix bytes, decoding at the tail returns the list and consumes exactly the encoded bytes |
| `Intpack.GroupSizeBounds` | intpack/intpack.go:22-34 | an encoded group of n values takes between 6 and 4n+5 bytes |
| `Intpack.GroupLayout` | intpack/intpack.go:22-34 | the stored group, part by part: ceil(n*w/8) packed bytes in which bits [j*w, (j+1)*w) are value j less the minimum, then the width byte, then the minimum in four bytes |
| `Intpack.GroupLaw` | intpack/intpack.go:40-66 | exactly which buffers hold a group of n values at their end, what each value then is, and which error any other buffer gets |
| `Index.GroupDeltas` | packfile/index.go:91-101 | the deltas of one group, or the error for a delta above 2^32-1 |
| `Index.EncodeIndex` | packfile/index.go:79-109 | the grown buffer is the grouped delta index of the offsets with its CRC32C, or the error of the first check that fails |
| `Index.DecodeGroups` | packfile/index.go:37-57 | walking the groups backward in place yields the specified deltas and the unconsumed length, for any bytes |
| `Index.NoWrap` | packfile/index.go:61-70 | a running int64 sum that wraps around cannot end at the index base, so wrap-around is never accepted |
| `Index.SumOffsets` | packfile/index.go:59-73 | the forward pass yields the prefix sums exactly when they arrive at the index base |
| `Index.DecodeIndex` | packfile/index.go:14-74 | for any bytes and counts the outcome is the specified one: plausibility guard, checksum, groups, leftover bytes, final offset, in this order |
| `Index.IndexSizeBounds` | packfile/index.go:14-26 | an encoded index of R offsets takes between 6*ceil(R/128)+4 and 4R+5*ceil(R/128)+4 bytes |
| `Index.IndexRoundTrip` | packfile/index.go:14-109 | for every non-decreasing offset list from 0 with deltas below 2^32, decoding the encoded index returns the list: the plausibility guard never rejects a written index |
| `Index.DecodedOffsets` | packfile/index.go:59-73 | offsets of any accepted index start at 0, never decrease, differ by less than 2^32 and end at the index base |
| `FileLaws.IndexLaw` | packfile/index.go:14-74 | an index is accepted if and only if its bytes are the groups of n record sizes, in order and nothing else, with their checksum, and the sizes add up to the index base; an implausible count is Corrupt, a wrong checksum is reported as such |
| `FileLaws.EncodeLaw` | packfile/index.go:79-109 | non-decreasing offsets are refused exactly for more than 2^32-1 records or a record above 2^32-1 bytes, and whatever is encoded decodes back |
| `Records.RecordSpan` | packfile/decoder.go:68-88 | record k starts at item k*itemsPerRecord, all records but the last are full, and the last ends exactly at totalItems |
| `Records.PositionResolves` | packfile/reader.go:302-303 | every position in range lies in an in-range record at an in-range local index |
| `Records.DecodedPartition` | packfile/decoder.go:99-186 | whatever the bytes, a record that decodes has the number of items itemsInRecord says and sizes that fit the payload: exactly for multi-item records, narrowed to uint32 for single items |
| `Records.PanicsExactly` | packfile/decoder.go:166-184 | decoding writes past its offsets if and only if the file has no items, a record at most one, and the payload opens |
| `RecordDecoder.DecodeNothing` | packfile/decoder.go:166-184 | the concrete call that does: no bytes, no items, one item for each record |
| `Records.PayloadRoundTrip` | packfile/writer.go:373-393 | the payload of every format reads back, except an empty Uncompressed one, which is refused as too short |
| `Records.RecordRoundTrip` | packfile/writer.go:358-394 | a written record decodes to the sizes and payload of its items, in every format, except an empty Uncompressed payload |
| `Records.ItemRoundTrip` | packfile/decoder.go:191-196 | item i cut out of the decoded record is the i-th item written |
| `Records.RecordLaw` | packfile/decoder.go:99-186 | a record decodes to given sizes and payload if and only if its bytes are that payload as its format stores it, an Uncompressed one with the CRC32C of the payload behind it, and then, in a multi-item record, the group of the sizes with its CRC32C |
| `Records.RecordErrors` | packfile/decoder.go:113-129 | a multi-item record shorter than nine bytes is too short for its index; a width above 32, an index longer than the record, or sizes that do not add up to the payload make it corrupt |
| `Records.BadIndexRefused` | packfile/decoder.go:123-126 | a stored checksum other than that of the size index gives the checksum error |
| `Records.BadPayloadRefused` | packfile/decoder.go:140-148 | so does a stored checksum other than that of an Uncompressed payload; fewer than five bytes are too short |
| `RecordDecoder.Decoder.IndexedSizes` | packfile/decoder.go:152-165 | sizes come from the item index, and are accepted only if they add up to the payload length |
| `RecordDecoder.Decoder.FillOffsets` | packfile/decoder.go:181-184 | the offsets buffer becomes the prefix sums of the sizes; the one out-of-range write is reported as a panic |
| `RecordDecoder.Decoder.Decode` | packfile/decoder.go:99-186 | on any record bytes the outcome and the decoded record are those of a function of the bytes alone: reused buffers leave no trace |
| `RecordDecoder.Decoder.Item` | packfile/decoder.go:191-196 | the slice between two prefix sums is in bounds and is the specified item |
| `RecordDecoder.Decoder.ItemCopy` | packfile/decoder.go:200-205 | a fresh array with the bytes of the item |
| `ContentHashing.TotalLength` | packfile/contenthash.go:41-44 | the length of an item given in parts |
| `ContentHashing.AppendParts` | packfile/contenthash.go:47-49 | appending part by part appends the concatenated item |
| `ContentHashing.ContentHasher.constructor` | packfile/contenthash.go:30-37 | a hasher that has been given nothing |
| `ContentHashing.ContentHasher.Add` | packfile/contenthash.go:40-57 | the hasher holds the old items and the new one; parts do not matter, only their concatenation |
| `ContentHashing.ContentHasher.Sum` | packfile/contenthash.go:61-69 | the streaming two-level hash equals the content hash, a function of items and chunk size only |
| `ContentHashing.FrameInjective` | packfile/contenthash.go:40-49 | the length framing is uniquely decodable |
| `ContentHashing.FrameLaw` | packfile/contenthash.go:40-49 | a chunk is framed item by item, four length bytes, least significant first, before each |
| `ContentHashing.HashLaw` | packfile/contenthash.go:40-69 | the content hash is the SHA-256 of one 32-byte SHA-256 digest for each run of chunkSize items, in order |
| `ContentHashing.HashBindsContent` | packfile/contenthash.go:40-69 | item lists with equal hashes are equal, or the lemma returns two different inputs of this computation with one SHA-256 value |
| `Chunks.ConcatChunks` | packfile/writer.go:319-324 | splitting into records loses and reorders nothing |
| `Chunks.ChunksOfBlocks` | packfile/writer.go:319-324 | full blocks and a partial last one are exactly the chunks of the items appended |
| `Chunks.ChunkItem` | packfile/reader.go:302-303 | item i is item i mod k of chunk i div k |
| `Chunks.ChunkSize` | packfile/decoder.go:68-88 | a written chunk has the number of items itemsInRecord computes |
| `FileFormat.TrailerRoundTrip` | packfile/writer.go:495-508 | the 64 trailer bytes parse back to every field, and the stored checksum is that of the first 60 |
| `FileFormat.FlagsRoundTrip` | packfile/writer.go:483-493 | bit 0 is set unless Compressed, bit 1 with a content hash, bit 2 for Raw, no other bit; and format and hash flag are read back |
| `FileFormat.ReadSpeculative` | packfile/reader.go:119-128 | the speculative buffer is the end of the file, and its last 64 bytes are the trailer |
| `SealedFile.TrailerPasses` | packfile/reader.go:130-168 | every trailer that is written passes the checks made on opening, and gives back format, hash flag, counts and hash |
| `FileFormat.ReadTail` | packfile/reader.go:177-210 | the speculative-buffer branch and the fallback read extract the same index and application data |
| `FileFormat.Open` | packfile/reader.go:97-271 | opening any bytes gives the specified result, error by error, or an i/o error exactly when the read of the last 256 KiB, or the second read that a larger tail needs, is refused |
| `FileLaws.TrailerRefused` | packfile/reader.go:115-216 | byte by byte and in this order: size, magic, version, group size, flags, announced sizes, CRC32C of the first 60 trailer bytes, each with its error |
| `FileLaws.FileLaw` | packfile/reader.go:115-271 | a file opens to a given result if and only if its last 64 bytes are a good trailer, its index is accepted and its counts agree, and the result is what the flag bits and the numbers at their offsets say |
| `FileFormat.AcceptedSound` | packfile/reader.go:115-271 | offsets of any accepted file start at 0, never decrease and stay inside the file |
| `FileFormat.AcceptedComplete` | packfile/reader.go:223-238 | the records of an accepted file cover every position if and only if the stored itemsPerRecord is positive or the file has no items: with a stored 0 the cross-check is skipped |
| `SealedFile.PositionsDecodeSafely` | packfile/decoder.go:99-186 | no record that holds a position makes the decoder write past its offsets |
| `SealedFile.ReadPanicsExactly` | packfile/reader.go:302-311 | reading some position of an accepted file panics if and only if the trailer stores itemsPerRecord 0 and claims items |
| `SealedFile.PositionLaw` | packfile/reader.go:302-321 | a position is out of range if and only if it is not one of the items; otherwise the record found by division decides, and the item is the one at the remainder |
| `SealedFile.ItemLaw` | packfile/decoder.go:191-196 | an item begins behind the sum of the sizes before it and has its own size |
| `SealedFile.AcceptedAndPanics` | packfile/reader.go:223-238 | a concrete file that is accepted and whose one position panics |
| `FileFormat.ItemsAddUp` | packfile/decoder.go:68-88 | the item counts of all records add up to totalItems |
| `SealedFile.LayoutOpens` | packfile/writer.go:418-529 | a laid-out file opens to the settings, offsets, application data and hash it was written with |
| `SealedFile.LayoutRecord` | packfile/writer.go:331-344 | record r of a finished file is the r-th record written |
| `SealedFile.FileOpens` | packfile/writer.go:418-529 | for every item list, format, itemsPerRecord and application data the finished file is accepted with the same total, format, hash and data |
| `FileLaws.FinishedLayout` | packfile/writer.go:418-529 | a finished file is the records, the index of their offsets, the application data and 64 bytes more |
| `FileLaws.HashFieldIs` | packfile/writer.go:451-459 | the hash stored is the content hash of the items with hashing on, and 32 zero bytes otherwise |
| `FileLaws.FinishedTrailer` | packfile/writer.go:483-512 | these are, byte by byte: magic, version, flag bits, counts and sizes, the content hash of the items or zeros, group size and CRC32C |
| `SealedFile.FileRecord` | packfile/decoder.go:99-186 | record r of a finished file decodes to its items, exactly unless it is an Uncompressed record without a payload byte, which is refused |
| `SealedFile.FileRoundTrip` | packfile/reader.go:294-322 | reading position i of a finished file yields item i, or the refusal in exactly the one case of an Uncompressed record of empty items |
| `SealedFile.FileReadsBack` | packfile/reader.go:97-322 | with a payload byte in every record, everything written is read back |
| `PackWriter.Writer.constructor` | packfile/writer.go:126-176 | a serial writer with no items on a file just created |
| `PackWriter.Create` | packfile/writer.go:126-176 | 128 items for each record when 0 are asked for, an error and nothing done for a negative number, otherwise a serial writer without items exactly if the file opens |
| `PackWriter.Writer.WriteBlock` | packfile/writer.go:331-344 | the record, or what the failed write left of it, is appended; its start and any error are recorded |
| `PackWriter.Writer.BuildBlock` | packfile/writer.go:358-368 | payload and size index of the pending items; the buffers are emptied |
| `PackWriter.Writer.Flush` | packfile/writer.go:370-394 | the pending items become the next record of the data section |
| `PackWriter.Writer.AppendItem` | packfile/writer.go:294-327 | nil only if the item list has grown by the concatenated parts (by nothing without parts); the recorded error, or the closed error on a closed writer; otherwise the error of the call on the host that failed |
| `PackWriter.Writer.Seal` | packfile/writer.go:443-528 | the part of Finish after the last record: a nil result means the file is exactly the layout of all items |
| `PackWriter.Writer.WriteTail` | packfile/writer.go:468-522 | index, application data and trailer are appended in this order, then the file is synced and closed |
| `PackWriter.Writer.SyncAndClose` | packfile/writer.go:515-522 | nil only after a sync and a close that both went well |
| `PackWriter.Writer.Finish` | packfile/writer.go:418-529 | nil if and only if the items have a finished file and every call on the host went well, a sync and a close last; the file then is exactly that file; otherwise the reason there is none, or the error of the call that failed |
| `PackWriter.Writer.Close` | packfile/writer.go:539-556 | removes the file unless Finish completed, changes no byte of it, and returns an error exactly when closing or removing it fails |
| `PackWriter.WriteAll` | packfile/writer.go:294-529 | on a host that never fails a whole session yields exactly the finished file of the items |
| `PackWriter.OffsetsSnoc` | packfile/writer.go:331-337 | appending a record appends its end to the offsets |
| `Bytes.LittleEndian` | packfile/writer.go:496-508 | byte i of a number as the format stores it is its i-th base-256 digit |
| `Bytes.BigEndian` | event/event.go:82-88 | byte i of a number as events store it is a base-256 digit, most significant first |
| `Lifecycle.StepKeeps` | packfile/writer.go:294-556 | every call keeps the invariant: no closed channel is closed again or sent to, errors are sticky, a closed writer does not change |
| `Lifecycle.RunKeeps` | packfile/writer.go:294-556 | the same over every sequence of calls |
| `Lifecycle.FinishedIff` | packfile/writer.go:418-529 | the writer counts as finished exactly when some Finish of the run returned nil |
| `Lifecycle.FileFate` | packfile/writer.go:539-556 | after any run that ends closed, with removals succeeding, the file exists if and only if some Finish returned nil, and no channel was misused |
| `Lifecycle.ErrorSticks` | packfile/writer.go:294-300 | every later AppendItem and Finish returns the first recorded error |
| `Lifecycle.NothingAfterEnd` | packfile/writer.go:294-300 | over every sequence of calls: after a Close, a Finish that returned nil or a call that failed, every AppendItem and Finish fails, with the recorded error if there is one and otherwise because the writer is closed |
| `Pipeline.FramedItems` | packfile/writer.go:196-207 | cutting a payload by its narrowed sizes frames exactly the items |
| `Pipeline.ProcessedRight` | packfile/writer.go:212-255 | a worker makes of a block the record and the digest the serial writer would |
| `Pipeline.StepConserves` | packfile/writer.go:181-289 | no action loses, duplicates or invents a block: queued, held, resulting, pending, written and lost blocks partition [0, nextBlockID) |
| `Pipeline.AppendWritten` | packfile/writer.go:275-287 | writing the next pending block keeps file, offsets and digests equal to the in-order encoding |
| `Pipeline.TearWritten` | packfile/writer.go:331-337 | a failed write leaves the in-order encoding followed by a part of the next record, whose start is on record |
| `Pipeline.StepKeeps` | packfile/writer.go:181-289 | every action of producer, workers and writer keeps the whole invariant |
| `Pipeline.EveryRun` | packfile/writer.go:181-289 | in every interleaving, failures included, each block is in exactly one place, and file, offsets and digests are the in-order encoding of blocks 0 .. next-1; after a failed write, and then only, the file goes on with a part of record next |
| `Pipeline.DrainedComplete` | packfile/writer.go:432-441 | when the writer has ended without an error, every block sent has been written |
| `Pipeline.SentChunks` | packfile/writer.go:319-324 | the concurrent producer cuts the items into the same records |
| `Pipeline.SameFile` | packfile/writer.go:370-529 | whatever the interleaving, a drained pipeline finishes to the very file the serial path makes of the same items, content hash included |
| `Pipeline.StepWorks` | packfile/writer.go:181-289 | every action of workers and writer reduces the work left |
| `Pipeline.SomeAction` | packfile/writer.go:159-173 | with the work channel closed or full, some action is enabled until the pipeline has ended |
| `Pipeline.ActiveEnds` | packfile/writer.go:181-289 | whatever fails, the work left bounds the actions that can follow until the producer acts again; then the pipeline has ended, or the open work channel has room, or one more action is enabled |
| `Pipeline.DrainEnds` | packfile/writer.go:432-441 | after workCh is closed the pipeline, whatever fails in it, is never stuck and ends after a bounded number of actions; without a reported error it has then written every block |
| `Pipeline.CloseEnds` | packfile/writer.go:545-548 | from any state with an open channel, closing it makes the pipeline end: Close always returns, and so does Finish once its last block, if any, has been sent |
| `Pipeline.HealthyRun` | packfile/writer.go:181-289 | a pipeline in which nothing fails reports no error |
| `Pipeline.FailureReported` | packfile/writer.go:212-289 | a compressor or write that fails during a run is never dropped: once the writer has ended it has reported an error |
| `Pipeline.ReportedError` | packfile/writer.go:262-289 | the error reported is that of a failed write of the run, which AppendItem sees as well, or a compressor error, which it does not see |
| `Pipeline.NothingLeft` | packfile/writer.go:404-410 | with the channel full and open, no action is left if and only if every worker has returned after a format error and the writer has ended |
| `Pipeline.NoHang` | packfile/writer.go:239-242 | a run in which fewer compressors fail than there are workers never leaves AppendItem or Finish waiting forever, nor does any run in another format |
| `Pipeline.FailedBound` | packfile/writer.go:239-242 | the number of workers that have failed grows by at most the number of compressor failures in the run, and by none outside the Compressed format |
| `Pipeline.SendCanHang` | packfile/writer.go:239-242 | for every number of workers and record size, some run leaves the producer waiting forever, with no error it could see, if and only if the format is Compressed |
| `Pipeline.SameHang` | packfile/writer.go:425-430 | Finish waits forever on a partial block in exactly the states in which AppendItem would on a full one |
| `Pipeline.FinishCanHang` | packfile/writer.go:425-430 | some run leaves Finish waiting forever to send its last, partial block if and only if the format is Compressed and records hold more than one item |
| `Reader.ReadItem` | packfile/reader.go:294-322 | the item at a position, or the specified error, whatever the pooled decoder held before; an i/o error exactly when the read is refused |
| `Reader.YieldStep` | packfile/reader.go:368-373 | one more position continues the scan, or ends it where the consumer or an error stops it |
| `Reader.YieldRecord` | packfile/reader.go:358-375 | decodes a record and yields its items inside the range; it goes on only if all were accepted |
| `Reader.BatchEnd` | packfile/reader.go:380-383 | the batch is the longest run of records that fits the buffer, at least one record |
| `Reader.ScanBatch` | packfile/reader.go:400-414 | one read, then the records of the batch decoded once each and in order; every slice stays inside the buffer; it fails exactly when the read is refused |
| `Reader.NextBatch` | packfile/reader.go:379-416 | one turn of the batch loop: shared buffer, or a buffer of its own for a larger record |
| `Reader.ReadRange` | packfile/reader.go:329-419 | yields exactly the items of the range in order, cut where the consumer breaks or a record fails, nothing after; the reads follow one another without overlap, exactly the records of the positions touched are decoded, once each, and a refusal is that of the last read |
| `Verification.HashYields` | packfile/reader.go:590-604 | the content hash of the items a scan yields, or the first of: an error it yields, a record boundary at which the context has ended |
| `Verification.Verify` | packfile/reader.go:582-610 | nil only if the file verifies and the context had not ended at any record boundary; otherwise the verdict on the file, a refused read, or cancellation |
| `Verification.VerifyDecides` | packfile/reader.go:604-609 | when every position reads, a mismatch is reported if and only if the content hash of the items is not the stored one |
| `Verification.VerifyFails` | packfile/reader.go:592-595 | otherwise the error of the first position that does not read |
| `Verification.FileScan` | packfile/reader.go:329-419 | scanning a finished file yields its items in order exactly when all records are readable, and otherwise ends in the refusal of the first that is not |
| `Verification.VerifyAccepts` | packfile/reader.go:582-610 | Verify accepts a sealed file with a hash exactly when every record is readable: the hash is a function of items and itemsPerRecord only |
| `Verification.VerifyBinds` | packfile/reader.go:582-610 | nil from Verify on any accepted file with the content hash and itemsPerRecord sealed for an item list: the file holds this list, or the lemma returns two different strings with one SHA-256 value |
| `Verification.EmptyRecordRefused` | packfile/writer.go:385-388 | a concrete file the writer seals and the reader refuses: one empty Uncompressed item |
| `Batches.MaxPerBatch` | packfile/reader.go:459-459 | the smallest number of positions, at least one, with which `concurrency` batches hold all n |
| `Batches.PositionsOfRecord` | packfile/reader.go:466-470 | distinct ascending positions of one record are fewer than itemsPerRecord apart |
| `Batches.SplitBatches` | packfile/reader.go:459-485 | batches are contiguous runs that cover all positions and touch disjoint records; each is a run of consecutive records, all requested, at most 1 MB unless it is one record, with at most maxPerBatch-1+itemsPerRecord positions; and none ends before it must |
| `Batches.ChainOrder` | packfile/reader.go:459-485 | later batches hold later positions in later records |
| `ReadItemsProtocol.PlanRead` | packfile/reader.go:459-491 | what the workers start from satisfies everything the protocol assumes; a context that has already ended is reported instead |
| `ReadItemsProtocol.CutoutIsRecord` | packfile/reader.go:540-543 | the slice of the batch buffer is exactly the record in the file |
| `ReadItemsProtocol.ServedItemRight` | packfile/reader.go:537-550 | whichever record the worker holds, the item passed on is the one at the position |
| `ReadItemsProtocol.StepKeeps` | packfile/reader.go:491-560 | every action of every worker, whatever fails, keeps the invariant |
| `ReadItemsProtocol.EveryRun` | packfile/reader.go:491-560 | in every interleaving no index is delivered twice, each delivery carries the item at its position, the flag is set only after an error, and a read that ends without an error has delivered every index |
| `ReadItemsProtocol.FirstErrorSticks` | packfile/reader.go:513-516 | the first recorded error is the one returned |
| `ReadItemsProtocol.FailureRecorded` | packfile/reader.go:507-557 | in every run: when a worker meets a failure (ended context, refused read, position that cannot be read, failing callback), it serves nothing more, nobody delivers the rest of its batch, and a read that is over returns an error and has set the flag |
| `ReadItemsProtocol.CancelledRun` | packfile/reader.go:508-511 | once the flag is set nobody starts another batch: later deliveries belong to batches whose worker had already passed the check |
| `ReadItemsProtocol.ErrorOrigin` | packfile/reader.go:513-550 | the error returned is that of a cancelled check, refused read or failing callback of the run, or the error of a requested position that cannot be read |
| `ReadItemsProtocol.HealthyRead` | packfile/reader.go:491-560 | without a fault and with every requested position readable the read returns no error, and when it is over every position has been delivered |
| `ReadItemsProtocol.StepWorks` | packfile/reader.go:507-557 | every action of a worker that has not left reduces the work left |
| `ReadItemsProtocol.RunsEnd` | packfile/reader.go:507-559 | no interleaving goes on forever |
| `ReadItemsProtocol.SomeFinish` | packfile/reader.go:507-559 | from every state all workers can leave without a further fault: none waits for another |
| `EventCodec.PutHeader` | event/event.go:59-83 | the 80 header bytes, built in a cleared buffer, are those of the specification |
| `EventCodec.PutTopics` | event/event.go:85-90 | every topic behind its length, in order |
| `EventCodec.Marshal` | event/event.go:47-94 | dst is extended by exactly the event; earlier bytes and bytes beyond are untouched, and dst is written in place when its capacity allows it |
| `EventCodec.Event.Unmarshal` | event/event.go:112-164 | on any bytes the outcome is the specified one, and no read is out of range; on a header error nothing changes, on any error the data and ingestion fields keep their values |
| `EventCodec.ParsedEncodable` | event/event.go:112-164 | whatever is accepted is an event the format can hold, with the ingestion-only fields zero |
| `EventCodec.EventLayout` | event/event.go:47-94 | every byte of an encoded event: version, type, the two flag bits, topic count, contract ID and hash or zeros, time and data length most significant byte first, topics, data |
| `EventCodec.TopicsLayout` | event/event.go:85-90 | each topic stands behind its length in two bytes, most significant first |
| `EventCodec.ParsedLayout` | event/event.go:112-164 | any bytes are accepted if and only if they are a version-2 header followed by the topics and data it announces; each field is read from its offset, the contract ID by bit 0 and success by bit 1 of byte 2 |
| `EventCodec.EventRoundTrip` | event/event.go:47-164 | decoding an encoded event restores it if and only if the format can hold it; trailing bytes do not matter |
| `EventCodec.EventReencode` | event/event.go:47-164 | encoding an accepted event gives back its bytes if and only if no undefined flag is set and an absent contract ID is zeros |
| `BitmapWriter.Writer.constructor` | bitmapindex/writer.go:42-56 | an index with no keys; a batch size that is not positive becomes 128 |
| `BitmapWriter.Writer.AddKey` | bitmapindex/writer.go:70-79 | the ordinal joins one bitmap, all others are unchanged |
| `BitmapWriter.Writer.Add` | bitmapindex/writer.go:59-68 | the bitmaps are exactly those of all events added: contract ID, if any, and up to four topics |
| `BitmapWriter.TermsDistinct` | bitmapindex/field.go:24-33 | field and key are told apart by what is hashed for them: the key bytes followed by the field byte |
| `BitmapWriter.ScanAgrees` | bitmapindex/writer.go:59-79 | unless a term added is a different byte string with the same hash, the bitmap of a key is the result of a naive scan over the events; it is never smaller |
| `BitmapWriter.RanksCover` | bitmapindex/writer.go:136-146 | a rank function that is injective on n keys into [0, n) reaches every slot, so no slot stays empty |
| `BitmapWriter.Prepare` | bitmapindex/writer.go:134-169 | every bitmap ends up at the rank of its key, behind the first four bytes of the key hash |
| `BitmapWriter.EntriesLong` | bitmapindex/writer.go:165-168 | no entry is empty |
| `BitmapWriter.WritePack` | bitmapindex/writer.go:171-203 | nil only if the packfile holds exactly the entries, in order, synced and closed; after any failure the last call removes the file, unless it could not be created |
| `BitmapWriter.Writer.Finish` | bitmapindex/writer.go:82-203 | a nil result means the packfile is the finished file of the rank-ordered entries; no keys, too many keys and a failing hash builder are errors |
| `BitmapWriter.BuildIndex` | bitmapindex/writer.go:59-203 | a whole session: the bitmaps are those of all events, and a nil result means the packfile holds them by rank |
| `BitmapReader.Lookup` | bitmapindex/reader.go:129-161 | the specified answer for any opened packfile, or an i/o error exactly when the key has a rank and the read of its record is refused |
| `BitmapReader.HashLookupExact` | bitmapindex/reader.go:129-161 | a stored key yields its bitmap; any other hash is found if and only if it shares rank and four-byte fingerprint with a stored key |
| `BitmapReader.LookupAgreesWithScan` | bitmapindex/reader.go:129-161 | unless two different byte strings collide, Lookup returns exactly the ordinals whose event has the key in the field (field 1 the contract ID, 2 to 5 the topics); a key never added is missing unless it shares a four-byte fingerprint at its rank |
| `BitmapReader.LookupOrCollision` | bitmapindex/reader.go:129-161 | the same without a hypothesis: Lookup answers so, or the lemma returns a term that was added whose bytes, key and field, differ from those looked up and have the same 128-bit hash |
| `BitmapReader.FindKeys` | bitmapindex/reader.go:183-199 | the found keys are exactly those with a rank, each with its output slot |
| `BitmapReader.SortedStill` | bitmapindex/reader.go:205-208 | sorting by rank loses no key and duplicates none |
| `BitmapReader.GroupRanks` | bitmapindex/reader.go:210-219 | the positions are ascending and unique, and the groups partition the found keys by rank |
| `BitmapReader.PlanLookup` | bitmapindex/reader.go:164-219 | a query failure is reported exactly when some key has one; otherwise the positions handed to ReadItems are sorted, unique and in range, none if no key has a rank |
| `BitmapReader.NoSharedSlot` | bitmapindex/reader.go:221-240 | callbacks for different positions write different output slots |
| `BitmapReader.Callback` | bitmapindex/reader.go:223-240 | fills the slots of its group and no others, or fails exactly when an entry does not deserialize |
| `BitmapReader.SlotHistory` | bitmapindex/reader.go:221-240 | a slot is nil until its position is delivered, and then keeps what the entry gives it |
| `BitmapReader.LookupKeysExact` | bitmapindex/reader.go:164-245 | the output equals Lookup key by key for every key list, the empty list and lists without a known key included, and every interleaving of the readers |
| `BitmapReader.CallbackWorks` | bitmapindex/reader.go:272-284 | on a written index no callback fails |
| `BitmapReader.HealthyLookup` | bitmapindex/reader.go:221-245 | on a written index the read behind LookupKeys, if nothing in the environment fails, returns no error and no callback fails |
| `BitmapReader.FinishedIndexOpens` | bitmapindex/writer.go:82-203 | what Finish has written opens, and the opened file is that index |
| `BitmapReader.IndexAnswers` | bitmapindex/reader.go:129-245 | from the events added to the answers: Lookup for every key, and LookupKeys in every slot, give the ordinals of the naive scan, for keys no other added key collides with |

## Left out

- PackWriter.Create: the mode is the serial one (the pipeline just started by the concurrent mode is `Pipeline.Initial`); opening the file, with or without the Overwrite option, is a call that succeeds or fails.
- PackWriter.Writer.constructor: the file has been created already.
- EventCodec.EventRoundTrip: an empty but non-nil slice of topics or data is the same value as a nil one.
- SealedFile.Writable: an assumption of the round-trip lemmas, not a claim; it says that item lengths, itemsPerRecord, index size and application data are below 2^32, because the writer narrows them to uint32, and that the payload is below 2^63 bytes.
- Index.EncodedIndex: offsets are unbounded integers; files of 2^63 bytes or more are not modelled.
- Pipeline.StepConserves: block IDs are unbounded, while the program counts them in a uint32; a file with 2^32 blocks has more than 2^32-1 items, and Finish refuses it in any case.
- Pipeline.SameFile: the writer goroutine of the concurrent mode is a state machine on values; its buffers and the pooled size slices are not, so aliasing between pipeline stages is not modelled.
- FileFormat.Open: a file is a byte sequence that does not change; opening it at its path and asking for its size are not modelled.
- Reader.ReadRange: the consumer is the number of yields it accepts before it breaks off; the offsets are required to cover every position, which `FileFormat.AcceptedComplete` characterises (in other accepted files the program indexes past the offsets).
- ReadItemsProtocol.EveryRun: a worker's read, decode and callback are single actions, and its buffers are values; the context is a choice of the environment at each check.
- Verification.Verify: the offsets are required to cover every position; the context is asked at record boundaries as in the program, but the scan is modelled as a list that is complete before it is hashed.
- BitmapReader.Lookup: the rank function answers in range or fails, and the packfile's offsets cover every position; loading the hash file is not modelled.
- PackWriter.Writer.Finish: sync, close and remove are calls that succeed or fail; what they do to the disk is not modelled.
- BitmapWriter.Writer.Finish: building, opening and querying the hash file are one step that succeeds with a ranking or fails; serializing a bitmap cannot fail; the removal of a partly built hash file is not modelled.
- BitmapWriter.KeysOf: the order in which keys are handed to the hash builder is left open; ranks do not depend on it.
- BitmapReader.SortByRank: the library sort is an insertion sort here; only its result matters.
- BitmapReader.LookupKeysExact: callbacks are single actions; `BitmapReader.NoSharedSlot` is why this loses nothing.
- EventCodec.Event.Unmarshal: byte fields are copies, not slices of the input, and the reused topic array is a value, so aliasing with the input is not modelled; of the byte fields only the contract ID tells nil from empty.
- EventCodec.Marshal: topics and data of the event are values, so an event that aliases the unused capacity of dst is not modelled.
- RecordFormat values outside the three named ones, and their String method.
- zstd, CRC32C, SHA-256, roaring bitmaps and streamhash internals: library code.
- Background opening, panic recovery, pools, prefetch and mmap choice, write-back, file permissions, option plumbing: performance or operating-system effects.
- eventstore, rocksdb wrappers, the extractor and the command line: thin layers with nothing further to prove.
