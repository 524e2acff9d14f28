# Tide, verified

Tide is a small streaming media container. A TIDE-1 file is a 72-byte header followed by records; a record
has a fixed part, two canonical ULEB128 integers, a payload, alignment padding and a CRC32C, and a GROUP
record holds further records. This project models the container's core in Dafny and proves what it is for.

The main results, each for all inputs:

- **Streaming.** However a byte string is cut into feeds, the resumable decoder gives the status, events,
  track table and valid prefix of parsing it in one go (`Streaming.ChunkPlanIndependence`), and the decoder
  object with its mutable fields follows that state machine (`DecoderObject.Decoder.Feed`). Nothing is held back
  for the last feed: after any open feeds the events are those of the bytes fed so far (`Progress.EmitsAsItGoes`,
  `Progress.EmitsEachCompleteRecord`).
- **Recovery.** Every prefix of an accepted file parses to OK or PARTIAL, reports the last whole record it
  contains and emits exactly the events up to there (`Recovery.CrashAtAnyByte`). Salvaging the valid prefix of
  any damaged file works, even after an error deep inside a group (`Recovery.RepairSound`,
  `Remux.RepairIsValid`). A burst of up to four altered payload bytes is always caught
  (`Recovery.BurstIsCaught`). PARTIAL can still change exactly when the record at the valid prefix has no
  malformed varint (`Truncation.PartialCurableExactly`).
- **Writing and reading.** The parser undoes the muxer field for field, the footer's self-referential length
  and digest included (`Mux.MuxDecodes`), and the muxer's output is readable exactly when its calls were in
  order (`Mux.MuxAcceptedExactly`). Remuxing is a canonical form (`Remux.RemuxIsCanonical`). Nested groups parse
  to their preorder traversal exactly when they fit the limits, and to RESOURCE otherwise (`Forest.NestedGrammar`).
- **Rules.** Which verdict a header, a frame and a record of each type gets is stated by its bytes and type
  code, inside a parse and at the end of a file (`FrameRules.HeaderVerdict`, `FrameRules.FramedExactly`,
  `RecordRules.LeafVerdict`, `RecordRules.AppendedVerdict`). The checksum is CRC32C by polynomial long division
  (`CrcMeaning.CrcIsRemainder`). Muxing and remuxing succeed whenever the data fits (`MuxRules.MuxSucceeds`,
  `MuxRules.RemuxSucceeds`), and record `k` of a muxed file is numbered `k` (`MuxRules.RecordsAreNumbered`).
- **State.** The catalog invariant holds after every parse (`Catalog.CatalogSafety`); neighbour checks in the
  table records give global order, and each table validator accepts exactly the well-ordered tables
  (`TableSpecs`).
- **Time.** Conversion is exact rounding despite gcd cancellation and truncating division, with no 128-bit
  overflow; it is monotone, and going to a finer base and back recovers the value (`Timeline`). Edit projection
  keeps packets apart (`EditProjection`).
- **Queue and ownership.** The reorder queue is a stable bounded priority queue over every run
  (`ReorderRuns`). Over every run with any number of packet variables, a lease's count is the number of its
  owners plus the references lost by overwriting an owning variable, exactly one per such step; shutting down
  frees every lease without a lost reference exactly once and no other (`Ownership`).

How it is laid out: `Base`, `Arith`, `Bits`, `Codec`, `Rational`, `Checked`, `Crc32c` are the primitives; `Format`,
`Tables` and `Parser` say what the decoder computes as functions; `Prefixes`, `Recovery`, `Catalog`, `Streaming`,
`Progress`, `Truncation`, `Forest`, `TableSpecs`, `FrameRules`, `RecordRules`, `MuxRules`, `CrcMeaning` prove things about those functions; `Reader`, `FrameReader`, `TableReader`, `Decoder`,
`MuxObject`, `RemuxObject`, `Reorder`, `Ownership` hold the loops and the objects with mutable fields, each
proved against the functions. `Writer`, `Mux`, `Remux` are the printing side. A `hide` statement at the head of
a proof names the definitions that proof does not need.

Conventions. A file is a byte sequence. Callbacks are an event log and always return OK. `size_t` is 64 bits
wide. An OR of disjoint shifted fields is written as a sum and the low seven bits of a byte as a remainder; the
alignment test and mask and the XOR of the seek key are the bit operations themselves, defined in `Bits`. Integers
are unbounded, and what is stored or returned has a range-restricted type. `EditProjection.ProjectOne`,
`Timeline.RoundDiv` and `Timeline.TimeConvert` name every sum and product they form with such a type, so there
the proofs also show that no intermediate overflows.

The assumptions of the whole-file theorems can be met: `Forest.NestedGrammar` yields accepted files for every
legal forest within limits, the empty one included, and `MuxRules.MuxSucceeds` and `MuxRules.PacketIsCarried` yield mux runs,
packets with data included, in which every call returns OK.

## Model

| member | source | states |
|---|---|---|
| `Checked64.CheckedAdd` | src/common/checked.c:6-12 | succeeds exactly when the sum fits in 64 bits |
| `Bits.PowerOfTwoBitTest` | src/common/checked.c:33-35 | the bit test on the alignment and its predecessor holds exactly for powers of two |
| `Bits.ClearLowBits` | src/common/checked.c:36-40 | masking with the complement of the alignment less one subtracts the remainder |
| `Bits.BitByBit` | src/format/decoder.c:485-485 | the operators act bit by bit, so the seek key is an exclusive or |
| `Checked64.Align` | src/common/checked.c:30-42 | by the source's bit operations: succeeds exactly for a power of two whose rounding up does not overflow, with the rounded value |
| `Checked64.AlignIsLeast` | src/common/checked.c:30-42 | the aligned size is the least multiple of the alignment not below the size |
| `Rationals.ComputeGcd` | src/common/checked.c:44-51 | the loop computes Euclid's gcd |
| `Timeline.GcdDivides` | src/common/checked.c:44-51 | the gcd is positive and divides both arguments |
| `Timeline.GcdIsGreatest` | src/common/checked.c:44-51 | every common divisor divides the gcd |
| `Timeline.ReducedMeansCoprime` | src/model/time.c:5-9 | a base is valid exactly when both terms are positive and share no divisor but one |
| `Timeline.RationalCell.Reduce` | src/model/time.c:11-20 | in place: the same ratio in lowest terms, or TIMELINE and unchanged |
| `Codec.LERoundTrip` | src/format/reader.c:105-126 | reading little-endian bytes recovers the written integer |
| `Codec.LECanonical` | src/format/reader.c:24-64 | conversely every field is the writer's output for the value read |
| `Codec.UlebSize` | src/format/reader.c:128-135 | the size loop returns the length of the minimal form |
| `Codec.WriteUleb` | src/format/reader.c:137-149 | the writing loop produces the minimal form |
| `Codec.VarintReadsBack` | src/format/reader.c:80-103 | from any byte index on, the reader recovers what was written whatever follows |
| `Codec.VarintIsMinimal` | src/format/reader.c:80-103 | from any byte index on, what the reader accepts is the minimal form of its value |
| `Codec.VarintBijection` | src/format/reader.c:80-149 | every u64 reads back from at most ten bytes; every accepted string is the writer's output for the value returned |
| `FrameRules.UlebValue` | src/format/reader.c:137-149 | the written bytes are the value in groups of seven bits, low group first |
| `FrameRules.UlebShape` | src/format/reader.c:137-149 | every byte but the last has its top bit set, the last does not and is zero only for zero |
| `FrameRules.SignedSpelled` | src/format/reader.c:57-64 | a signed field is the number in range with the same residue modulo 2^64 |
| `ByteReader.Reader.ReadU8` | src/format/reader.c:15-22 | succeeds exactly when a byte is left; advances by one or not at all |
| `ByteReader.Reader.ReadU16` | src/format/reader.c:24-33 | the little-endian field at the cursor, or failure without moving |
| `ByteReader.Reader.ReadU32` | src/format/reader.c:35-45 | the little-endian field at the cursor, or failure without moving |
| `ByteReader.Reader.ReadU64` | src/format/reader.c:47-55 | the field at the cursor exactly when eight bytes are left; a short second half leaves the cursor past the first |
| `ByteReader.Reader.ReadI64` | src/format/reader.c:57-64 | the two's complement field at the cursor exactly when eight bytes are left |
| `ByteReader.Reader.ReadBytes` | src/format/reader.c:66-78 | the slice at the cursor exactly when it is inside the data |
| `ByteReader.Reader.ReadUleb128` | src/format/reader.c:80-103 | the ten-step shift loop computes the canonical varint at the cursor and consumes exactly its bytes |
| `Crc32c.MaskedShift` | src/format/crc32c.c:3-15 | the branch-free step is the conditional polynomial step, which `CrcMeaning` ties to the generator |
| `Crc32c.ComputeCrc` | src/format/crc32c.c:3-15 | the nested loops compute the checksum that `CrcMeaning.CrcIsRemainder` identifies |
| `CrcMeaning.ReflectedGenerator` | src/format/crc32c.c:3-15 | the constant of the loop is the mirror image of the generator 0x1EDC6F41 |
| `CrcMeaning.RemainderIsRegister` | src/format/crc32c.c:3-15 | long division of a shifted message with a start value in front is the bit-serial register |
| `CrcMeaning.CrcIsRemainder` | src/format/crc32c.c:3-15 | for every message the checksum is CRC32C: 32 zeros appended, first 32 bits complemented, remainder by polynomial long division, complemented |
| `CrcMeaning.CheckValue` | src/format/crc32c.c:3-15 | the digits one to nine give 0xe3069283 |
| `CrcMeaning.ThirtyTwoNulls` | src/format/crc32c.c:3-15 | thirty-two zero bytes give 0x8a9136aa, as in section B.4 of RFC 3720 |
| `Crc32c.ShiftDifference` | src/format/crc32c.c:3-15 | the step is linear and can be undone: successors that agree in the top bit fix the difference of the states |
| `Crc32c.Shift8Injective` | src/format/crc32c.c:3-15 | eight steps lose no information |
| `Crc32c.RunInjective` | src/format/crc32c.c:3-15 | for every message the final state determines the initial one |
| `Crc32c.FourBytes` | src/format/crc32c.c:3-15 | from a fixed state, different four-byte words lead to different states |
| `Crc32c.BurstChangesCrc` | src/format/crc32c.c:3-15 | messages of any length that differ only inside four consecutive bytes have different checksums |
| `FrameReader.ValidateHeaderBytes` | src/format/decoder.c:55-123 | the cursor walk over the header gives the verdict of the header rules, in their order |
| `FrameRules.HeaderVerdict` | src/format/decoder.c:55-123 | the verdict on a header from its bytes: each check, its status and their order, required features included |
| `FrameRules.MagicSpelled` | src/format/decoder.c:79-82 | the eight bytes every file starts with |
| `FrameReader.DecodeRecordPrefix` | src/format/decoder.c:168-220 | the cursor walk and checked additions give the frame, TRUNCATED (malformed varints included), FORMAT or RESOURCE |
| `FrameRules.FramedExactly` | src/format/decoder.c:168-220 | a prefix decodes to a frame if and only if the bytes are the prefix of such a record and the window and 64 bits hold it |
| `FrameRules.UnframedVerdict` | src/format/decoder.c:168-220 | every other prefix: missing bytes or unreadable varints TRUNCATED, wrong header size or alignment FORMAT, overflow RESOURCE |
| `FrameRules.FramedVerdict` | src/format/decoder.c:692-712 | a framed record is RESOURCE over the limits, else FORMAT for a nonzero padding byte, else INTEGRITY for a wrong checksum, else good |
| `FrameRules.EventSpelled` | src/format/decoder.c:608-616 | the record event field by field |
| `FrameReader.FrameFits` | src/format/decoder.c:200-212 | the five checked steps succeed exactly when the record's end fits in 64 bits |
| `FrameReader.PaddingIsZero` | src/format/decoder.c:228-233 | the loop accepts exactly all-zero padding |
| `FrameReader.ValidateRecordIntegrity` | src/format/decoder.c:222-244 | FORMAT for padding, else INTEGRITY for a CRC mismatch, else OK |
| `FrameReader.ReadStream` | src/format/decoder.c:254-282 | decodes a descriptor that fills its payload exactly, or fails |
| `FrameReader.ReadPacket` | src/format/decoder.c:294-317 | decodes a packet that fills its payload exactly, or fails |
| `RecordRules.StreamExactly` | src/format/decoder.c:254-282 | a payload decodes to a descriptor if and only if it is its encoding, up to the two bytes not read |
| `RecordRules.PacketExactly` | src/format/decoder.c:294-317 | a payload decodes to a packet if and only if it is its encoding, times in two's complement |
| `TableReader.FindTrack` | src/format/decoder.c:125-135 | the search finds a track exactly when its key is in the table |
| `TableReader.ValidatePacketTable` | src/format/decoder.c:343-391 | entry by entry, the loop gives the status whose acceptance `PacketTableExactly` characterises, and the same error otherwise |
| `TableReader.ValidateEditList` | src/format/decoder.c:392-435 | entry by entry, the loop gives the status whose acceptance `EditListExactly` characterises, TIMELINE and FORMAT told apart |
| `TableReader.ValidateDiscontinuity` | src/format/decoder.c:436-455 | accepts a nonzero epoch for all tracks or for a known track, filling the payload |
| `TableReader.ValidateSeekIndex` | src/format/decoder.c:456-500 | entry by entry, the loop gives the status whose acceptance `SeekIndexExactly` characterises, sort key by XOR included |
| `TableReader.ValidateCheckpoint` | src/format/decoder.c:501-530 | entry by entry, the loop gives the status whose acceptance `CheckpointExactly` characterises |
| `TableReader.ValidateIndexDirectory` | src/format/decoder.c:531-565 | entry by entry, the loop gives the status whose acceptance `IndexDirectoryExactly` characterises |
| `TableReader.ComputeDigest` | src/format/crc32c.c:17-27 | the loop fills 32 bytes with eight words derived from the CRC of the data |
| `RecordRules.DigestIs` | src/format/crc32c.c:17-27 | the digest is the checksum XOR eight given masks, word by word |
| `TableReader.ValidateFooter` | src/format/decoder.c:566-591 | FORMAT unless the footer names its own end; INTEGRITY unless the digest is that of everything before it |
| `Tables.PacketTableOrdered` | src/format/decoder.c:343-391 | in an accepted table all sequences increase, all byte ranges are disjoint, entries sit where the payload says and fill it |
| `Tables.EditListOrdered` | src/format/decoder.c:392-435 | accepted edits are sound and their output intervals pairwise disjoint and in order |
| `Tables.IndexDirectoryOrdered` | src/format/decoder.c:531-565 | generations increase, time ranges never overlap, offsets point before the record, entries fill the payload |
| `TableSpecs.PacketTableExactly` | src/format/decoder.c:343-391 | accepted if and only if the entries fill the payload, are sound and are pairwise ordered |
| `TableSpecs.EditListExactly` | src/format/decoder.c:392-435 | OK if and only if the edits fill the payload, are sound and pairwise disjoint in order; FORMAT if only bytes are left over; else TIMELINE |
| `TableSpecs.SeekIndexExactly` | src/format/decoder.c:456-500 | accepted if and only if every entry names a known track and points between header and index, and keys are globally sorted |
| `TableSpecs.CheckpointExactly` | src/format/decoder.c:501-530 | accepted if and only if the prefix offset is not past the record and every listed track is known |
| `TableSpecs.IndexDirectoryExactly` | src/format/decoder.c:531-565 | accepted if and only if the entries fill the payload, are sound and pairwise ordered |
| `RecordRules.LeafVerdict` | src/format/decoder.c:597-682 | inside a parse, every record without children gets the verdict of its type code and payload bytes, and any other required type UNSUPPORTED |
| `RecordRules.LeafEffect` | src/format/decoder.c:597-682 | an accepted descriptor adds its track and event, a packet its event, anything else nothing |
| `RecordRules.GroupVerdict` | src/format/decoder.c:633-665 | a short group or a wrong child length is FORMAT, too deep is RESOURCE, a truncated child is FORMAT, else the children decide |
| `RecordRules.AppendedVerdict` | src/format/decoder.c:684-764 | a complete record of any such type after a file that parses: the verdict on the whole file is RESOURCE over the limits, else that of type and payload |
| `Prefixes.DecodePrefixExtends` | src/format/decoder.c:168-220 | a verdict on a record prefix other than TRUNCATED does not change when more bytes arrive |
| `Prefixes.DecodePrefixSame` | src/format/decoder.c:168-220 | a frame depends on its header bytes and on the window being long enough, nothing else |
| `Prefixes.NextRecordExtends` | src/format/decoder.c:684-715 | the same for the whole record, limits and CRC included |
| `Prefixes.NextRecordCut` | src/format/decoder.c:684-715 | cutting a good record short makes it truncated, never corrupt |
| `Prefixes.NextRecordWithin` | src/format/decoder.c:684-715 | bytes after a good record do not matter to it |
| `Prefixes.HeaderAgrees` | src/format/decoder.c:55-123 | the header verdict depends on the first 72 bytes only |
| `Prefixes.ProcessAgrees` | src/format/decoder.c:597-682 | processing a record, children included, looks at nothing past its end |
| `Prefixes.ParseAgrees` | src/format/decoder.c:684-723 | parsing a range looks at nothing past its end |
| `Prefixes.ParseResumes` | src/format/decoder.c:684-723 | parsing a prefix and resuming at the valid prefix is parsing the whole; a hard verdict on the prefix is final |
| `Prefixes.ProcessNotTruncated` | src/format/decoder.c:657-664 | a complete record never asks for more bytes, whatever its children do |
| `Prefixes.TruncatedInside` | src/format/decoder.c:684-723 | a truncated parse leaves the valid prefix at the start of the record it could not complete |
| `Recovery.ProcessGrows` | src/format/decoder.c:597-682 | events are only appended, the record's own first, and nested calls move the valid prefix only inside the payload |
| `Recovery.ParseNeverPartial` | src/format/decoder.c:684-764 | PARTIAL is only ever the caller's reading of a truncated tail |
| `Recovery.CrashAtAnyByte` | src/format/decoder.c:684-764 | every prefix of an accepted file is OK or PARTIAL, reports the greatest top-level boundary in it and emits exactly the events of the records ending by then |
| `Recovery.SalvageParse` | src/format/decoder.c:684-723 | re-parsing up to the reported prefix never meets a hard error and repeats the events |
| `Recovery.RepairSound` | src/repair/scanner.c:12-71 | re-parsing the scanned prefix is OK or PARTIAL with a prefix of the events, after any scan status; after OK or PARTIAL it reproduces everything |
| `Recovery.BurstInRecord` | src/format/decoder.c:222-244 | up to four altered consecutive payload bytes turn a good record into INTEGRITY |
| `Recovery.BurstIsCaught` | src/format/decoder.c:684-764 | the same in a whole file: INTEGRITY, valid prefix at the damaged record, only the earlier records' events |
| `Recovery.HeaderBurstIsCaught` | src/format/decoder.c:55-123 | a burst in the file header is refused with no event and no valid prefix |
| `Catalog.ProcessKeeps` | src/format/decoder.c:597-682 | every record, children included, keeps the catalog invariant |
| `Catalog.ParseKeeps` | src/format/decoder.c:684-723 | every range of records keeps the catalog invariant |
| `Catalog.FoundIsSound` | src/format/decoder.c:692-712 | a verified record is framed by its own bytes, alignment included, is within limits and passes padding and CRC |
| `Catalog.CatalogSafety` | src/format/decoder.c:125-166 | after any parse: distinct keys within the limit, every record event is a verified record, every stream and packet event decodes the verified record just before it, every packet follows its stream |
| `Streaming.FeedIsOnTrack` | src/format/decoder.c:789-881 | each feed either keeps the run on track for the one-shot result or ends it with exactly that result |
| `Streaming.RunIsSettled` | src/format/decoder.c:789-881 | a whole plan from any intermediate state ends with the one-shot result |
| `Streaming.ChunkPlanIndependence` | src/format/decoder.c:789-881 | for every split within the aggregate limit, status, events, tracks and valid prefix equal the one-shot parse; later feeds change and consume nothing |
| `Streaming.OversizeChangesNothing` | src/format/decoder.c:808-811 | a chunk over the aggregate limit is RESOURCE with nothing consumed, and the decoder goes on exactly as before |
| `Streaming.ClosedDecoderTakesNothing` | src/format/decoder.c:802-807 | a cancelled decoder answers CANCELLED, a finished one INVALID_ARGUMENT, unchanged |
| `Streaming.FeedTakesAll` | src/format/decoder.c:808-881 | every other feed consumes its whole chunk, and the one that announces the end finishes the decoder |
| `Progress.FeedIsCurrent` | src/format/decoder.c:815-852 | one open feed leaves the state of parsing everything buffered |
| `Progress.VerdictIsFinal` | src/format/decoder.c:684-764 | a hard verdict on a prefix, events included, is the verdict on everything that starts with it |
| `Progress.EmitsAsItGoes` | src/format/decoder.c:815-852 | after any open feeds, events, tracks, valid prefix and verdict are those of the bytes fed so far |
| `Progress.EmitsEachCompleteRecord` | src/format/decoder.c:815-852 | at every byte of an accepted file, however fed, the decoder is open and has emitted exactly the records that end by then |
| `Progress.EventBeforeTheEnd` | src/format/decoder.c:829-852 | a header and one complete record: the event is out before the end is announced |
| `Truncation.VarintCurableExactly` | src/format/reader.c:80-103 | an unreadable varint stays so for every continuation exactly when a padded or overlong byte is already there |
| `Truncation.PrefixCurableExactly` | src/format/decoder.c:179-194 | a truncated record prefix can get another verdict if and only if neither varint is malformed |
| `Truncation.PaddedIsMalformed` | src/format/decoder.c:190-194 | a padded varint after the fixed part is a concrete family that is truncated for ever |
| `Truncation.MalformedIsCorruption` | src/format/decoder.c:179-194 | a prefix with a malformed varint is never the start of a good record |
| `Truncation.PartialCurableExactly` | src/format/decoder.c:684-764 | a PARTIAL file can become anything else if and only if its header is short or the record at the valid prefix has no malformed varint |
| `DecoderObject.Decoder.AddTrack` | src/format/decoder.c:137-166 | FORMAT for a known key, RESOURCE at the limit, else the table grows by one snapshot |
| `DecoderObject.Decoder.OnStream` | src/format/decoder.c:254-292 | the object's table and log change as the stream rule says |
| `DecoderObject.Decoder.OnPacket` | src/format/decoder.c:294-331 | the object's log changes as the packet rule says |
| `DecoderObject.Decoder.OnSimple` | src/format/decoder.c:333-595 | dispatches each table type to its validator, with the verdicts `RecordRules.LeafVerdict` states by type code |
| `DecoderObject.Decoder.CheckGroupMeta` | src/format/decoder.c:640-656 | FORMAT for a short or inconsistent group, RESOURCE at the depth limit |
| `DecoderObject.Decoder.OnRecord` | src/format/decoder.c:597-682 | the recursive method changes the object exactly as the recursive function says |
| `DecoderObject.Decoder.OnRecords` | src/format/decoder.c:684-723 | the cursor loop changes the object exactly as the recursive function says |
| `DecoderObject.Decoder.ParseBuffered` | src/format/decoder.c:829-880 | resumes at the saved offset and sets offset, terminal flag and status as the state machine says |
| `DecoderObject.Decoder.Feed` | src/format/decoder.c:789-881 | one call is one step of the streaming state machine, every field included |
| `DecoderObject.ParseTideBytes` | src/format/decoder.c:725-764 | the one-shot entry point computes the parse |
| `DecoderObject.DecodeInChunks` | src/format/decoder.c:789-881 | driving the object over any plan yields the one-shot parse of the concatenation |
| `Writer.DecodesPrefix` | src/format/writer.c:58-71 | the decoder recovers every field of a written prefix whatever follows |
| `Writer.RecordLayout` | src/format/writer.c:73-95 | payload, zero padding and CRC lie where the frame says |
| `Writer.RecordRoundTrip` | src/format/writer.c:37-96 | at any offset and whatever follows, a written record is found with all fields and its payload, passes padding and CRC, and ends where the writer stopped; over the limits it is RESOURCE |
| `FrameRules.RecordSpelled` | src/format/writer.c:58-71 | the written prefix field by field, reserved byte zero |
| `Writer.StreamRoundTrip` | src/format/writer.c:98-125 | decoding an encoded descriptor gives it back |
| `Writer.PacketRoundTrip` | src/format/writer.c:127-160 | decoding an encoded packet gives it back, signed times included |
| `Writer.HeaderRoundTrip` | src/format/writer.c:10-35 | a written header is 72 bytes and whatever follows is accepted, or RESOURCE for a reader whose record limit is below the hint |
| `FrameRules.HeaderSpelled` | src/format/writer.c:10-35 | the written header place by place, checksum included |
| `Mux.CallParses` | src/mux/mux.c:58-95 | a call in order extends a file that parses to one that parses, adding exactly its events |
| `Mux.RunParses` | src/mux/mux.c:58-95 | the same for every run of calls |
| `Mux.RunLog` | src/mux/mux.c:58-95 | the streams and packets a reader sees are those of the calls, in order |
| `Mux.FooterFits` | src/mux/mux.c:97-125 | the dry run's length is the final record's length whatever the payload's contents |
| `Mux.FooterAccepted` | src/mux/mux.c:97-125 | the self-referential length and the prefix digest pass the footer check |
| `Mux.CloseParses` | src/mux/mux.c:97-125 | closing a file that parses gives one that parses to its end |
| `Mux.MuxDecodes` | src/mux/mux.c:58-148 | for every all-OK run in order, the closed file is accepted to its end with the same streams and packets field for field |
| `Mux.RefusedForGood` | src/format/decoder.c:684-723 | no bytes written after a refused record can mend the file |
| `Mux.MuxAcceptedExactly` | src/mux/mux.c:58-148 | for every all-OK run, the closed file is accepted if and only if keys are distinct, streams at most 64 and packets after their descriptors |
| `Mux.DuplicateIsWrittenAndRefused` | src/mux/mux.c:58-75 | writing a small descriptor twice returns OK throughout and yields a file no reader accepts |
| `MuxRules.DefaultsSpelled` | src/common/limits.c:3-16 | the default limits |
| `MuxRules.CallExactly` | src/mux/mux.c:58-95 | a call succeeds if and only if the base is reduced or the duration nonnegative, the payload fits alone and the record fits the file |
| `MuxRules.CloseExactly` | src/mux/mux.c:97-125 | a close succeeds if and only if the footer fits alone and at the end of the file |
| `MuxRules.CallSpelled` | src/mux/mux.c:58-95 | the record a call appends: type, flags zero, alignment 8, sequence, payload bytes; the next sequence |
| `MuxRules.StartSpelled` | src/mux/mux.c:23-56 | a new muxer holds a header with the fixed identifier and sequence zero |
| `MuxRules.CloseSpelled` | src/mux/mux.c:97-125 | the footer holds the length of the whole file, no directory, checkpoint zero and the digest of all before it |
| `MuxRules.RunFits` | src/mux/mux.c:58-95 | every run of sound calls, packets with data included, succeeds while there is room |
| `MuxRules.MuxSucceeds` | src/mux/mux.c:58-148 | sound calls that fit the default limits are all accepted with the close, and in order they read back field for field |
| `MuxRules.PacketIsCarried` | src/mux/mux.c:77-95 | a stream and a packet with data: written, read back, and a fixed point of remuxing |
| `MuxRules.RunLayout` | src/mux/mux.c:58-95 | call `k` of a run gives record `k`, numbered on, followed by its event |
| `MuxRules.RecordsAreNumbered` | src/mux/mux.c:58-125 | record `k` of a muxed file carries sequence `k`, and the footer comes last with the next number |
| `MuxObject.Buffer.Append` | src/common/checked.c:53-115 | appends the bytes exactly when the total is within the limit, else changes nothing |
| `MuxObject.MakePrefix` | src/format/writer.c:58-71 | the prefix bytes of a record |
| `MuxObject.MakePadding` | src/format/writer.c:73-77 | the padding up to the aligned size, failing exactly on 64-bit overflow |
| `MuxObject.AppendBody` | src/format/writer.c:79-89 | three appends succeed exactly when their total fits, and otherwise leave exactly the pieces before the first that does not |
| `MuxObject.AppendCrc` | src/format/writer.c:90-95 | appends the CRC of everything since the record's start |
| `MuxObject.WriteRecord` | src/format/writer.c:37-96 | exact status and exact buffer: the record on success, the pieces that fitted on failure |
| `MuxObject.LeftoverIsPart` | src/format/writer.c:79-95 | what a refused record leaves is a proper part of it, with every piece that fitted, after the intact earlier bytes |
| `MuxObject.EncodePayload` | src/format/writer.c:98-160 | INVALID_ARGUMENT exactly for an unreduced base or a negative duration, RESOURCE when it does not fit; on success appends exactly the payload |
| `MuxObject.WriteHeader` | src/format/writer.c:10-35 | exact status; appends the header or nothing |
| `MuxObject.CreateMuxer` | src/mux/mux.c:23-56 | a muxer whose buffer is the file header |
| `MuxObject.Muxer.Write` | src/mux/mux.c:58-95 | INVALID_ARGUMENT exactly for an unreduced base or a negative duration; exact status, buffer and sequence on success and failure |
| `MuxObject.Muxer.Close` | src/mux/mux.c:97-125 | OK exactly when the model's close is; then the buffer is the model's closed file |
| `Remux.CopyInOrder` | src/cli/main.c:86-110 | the catalog invariant makes the copied calls in order and they carry exactly the streams and packets |
| `Remux.RewriteIsCanonical` | src/cli/main.c:86-116 | rewriting anything that parsed keeps streams and packets and is a fixed point of remuxing |
| `Remux.RemuxIsCanonical` | src/cli/main.c:63-121 | remuxing an accepted file keeps both lists; remuxing the result gives identical bytes |
| `MuxRules.CopySpelled` | src/cli/main.c:86-110 | a remux adds every stream in order, then writes every packet in order |
| `MuxRules.RewriteSpelled` | src/cli/main.c:74-78 | the remuxed file has the movie base 1/1000 |
| `MuxRules.RemuxNeedsOk` | src/cli/main.c:79-86 | a file that does not parse to its end is not remuxed; without a valid header nothing is repaired |
| `MuxRules.RemuxSucceeds` | src/cli/main.c:63-121 | an accepted file whose content fits the default limits is always remuxed, with the same streams and packets |
| `Remux.RepairIsValid` | src/repair/scanner.c:44-115 | the repaired file is accepted to its end, canonical, and carries a prefix of what the scan saw, all of it after OK or PARTIAL |
| `RemuxObject.Demuxer.Collect` | src/demux/demux.c:20-83 | the callbacks collect exactly the streams and packets of the log |
| `RemuxObject.Demuxer.Next` | src/demux/demux.c:140-148 | yields the packet at the cursor or WOULD_BLOCK |
| `RemuxObject.OpenDemux` | src/demux/demux.c:100-138 | the parse's status; holds its streams and packets unless refused |
| `RemuxObject.CopyAll` | src/cli/main.c:86-116 | the two loops and the close produce the rewritten file exactly when every mux call succeeds |
| `RemuxObject.RemuxBytes` | src/cli/main.c:63-121 | the remux command computes the remuxed file |
| `RemuxObject.RepairBytes` | src/repair/scanner.c:12-115 | scan and repair compute the repaired file |
| `Forest.LeafProcesses` | src/format/decoder.c:617-623 | a skippable leaf is reported and otherwise ignored |
| `Forest.GroupProcesses` | src/format/decoder.c:633-665 | a written group reports itself, then its children, if they fit, and is RESOURCE if not |
| `Forest.ForestParses` | src/format/decoder.c:684-723 | a region holding a serialised forest parses to its preorder traversal exactly when it fits, else to RESOURCE |
| `Forest.NestedGrammar` | src/format/decoder.c:597-723 | a serialised forest is accepted if and only if every node fits the size and depth limits and the header hint is allowed; events are then the preorder traversal with true offsets and sizes; else RESOURCE |
| `Forest.DepthIsTrue` | src/format/decoder.c:657-659 | with a depth limit up to 255 the eight-bit counter never wraps in an accepted forest, so reported depths are true |
| `Forest.NothingIsTooDeep` | src/format/decoder.c:653-659 | with a larger limit the counter wraps below it and nesting is never refused |
| `Forest.ChildrenInsideParent` | src/format/decoder.c:633-665 | on any bytes, every record reported under a group lies strictly inside its payload |
| `Forest.RecordsInside` | src/format/decoder.c:684-723 | on any bytes, every record reported from a range lies inside it |
| `Timeline.RoundIsRounding` | src/model/time.c:22-51 | the specification value is the floor, the ceiling or the nearest integer with ties to even |
| `Timeline.RoundingMonotone` | src/model/time.c:22-51 | rounding is monotone in the numerator, hence unique, in each mode |
| `Timeline.RoundingScales` | src/model/time.c:66-78 | cancelling a common factor does not change a rounding |
| `Timeline.AdjustRounds` | src/model/time.c:30-46 | correcting the truncated quotient gives the rounding, for either sign |
| `Timeline.RoundDiv` | src/model/time.c:22-51 | OK with the rounding exactly when it fits in i64, else TIMELINE, for every numerator and denominator whose doubled remainder is defined; no intermediate leaves 128 bits |
| `Timeline.NoOverflow` | src/model/time.c:66-79 | after cancellation every product stays below 2^127 in magnitude |
| `Timeline.CancelledRounding` | src/model/time.c:66-79 | rounding the cancelled fraction is rounding value*source/destination |
| `Timeline.ConversionIsExact` | src/model/time.c:53-80 | the converted value is the floor, ceiling or nearest-even rounding of value*source/destination, written out in products |
| `Timeline.TimeConvert` | src/model/time.c:53-80 | exact conversion for every value, pair of bases and mode; TIMELINE exactly for invalid bases or a result outside i64 |
| `Timeline.ConversionMonotone` | src/model/time.c:53-80 | conversion is monotone in the value in each mode |
| `Timeline.RoundTripRecovers` | src/model/time.c:53-80 | to a finer base and back recovers the value: nearest-even both ways, or floor there and ceiling back |
| `EditProjection.ProjectOne` | src/model/edit.c:5-40 | the loop computes the projection, no i64 intermediate overflows |
| `EditProjection.OverlapsMeans` | src/model/edit.c:26-30 | to overlap is to share a moment |
| `EditProjection.ProjectStep` | src/model/edit.c:15-38 | on any list, edit by edit: what is TIMELINE, what is projected and where, and when the next edit decides |
| `EditProjection.ProjectionIsTranslation` | src/model/edit.c:5-40 | a projected packet is its overlap with the first overlapping edit moved by that edit's offset, inside its output interval |
| `EditProjection.ProjectionKeepsApart` | src/model/edit.c:5-40 | over ordered edits, disjoint packets that project stay disjoint |
| `EditProjection.AcceptedEditsKeepApart` | src/format/decoder.c:392-435 | the same for every list the EDIT_LIST validator accepts |
| `EditProjection.ProjectionOutcome` | src/model/edit.c:5-40 | on a validated list the status is decided by source-side overflow up to the first overlap, then by whether there is an overlap; the output side never overflows |
| `Reorder.LessByFields` | src/index/reorder.c:5-19 | the comparison is epoch, then presentation time, then decode time, then sequence number |
| `Reorder.LessIsStrictWeakOrder` | src/index/reorder.c:5-19 | the comparison is asymmetric, transitive and its negation transitive |
| `Reorder.InsertInPlace` | src/index/reorder.c:68-76 | shifting from the end inserts after all items that are not greater |
| `Reorder.ShiftDown` | src/index/reorder.c:91-93 | the loop leaves exactly the items after the first, in order, one slot down |
| `Reorder.InsertSorted` | src/index/reorder.c:68-76 | insertion keeps the queue sorted |
| `Reorder.InitQueue` | src/index/reorder.c:21-30 | an empty queue; a zero limit is refused |
| `Reorder.ReorderQueue.Push` | src/index/reorder.c:45-78 | RESOURCE at the limit with nothing changed, else a stable insertion and an emptied source; count within capacity within limit |
| `Reorder.ReorderQueue.PopReady` | src/index/reorder.c:80-96 | moves out the item with the least fields and keeps the rest in order |
| `ReorderRuns.EveryRunKeeps` | src/index/reorder.c:45-96 | over every run: bounded, sorted with ties in arrival order, accepted pushes equal pops plus residents |
| `ReorderRuns.ResidentsByFields` | src/index/reorder.c:5-96 | after any run, residents ascend by epoch, presentation time, decode time, sequence number and arrival, on fields alone |
| `ReorderRuns.PushTakesBelowLimit` | src/index/reorder.c:52-54 | a push is accepted exactly while the queue is below its limit |
| `ReorderRuns.PopTakesLeast` | src/index/reorder.c:80-96 | after any run, the next pop takes the packet with the least fields of all residents |
| `ReorderRuns.StableOrderIsUnique` | src/index/reorder.c:5-19 | a multiset of arrivals has one stable order |
| `ReorderRuns.DrainIsStableSort` | src/index/reorder.c:80-96 | draining after any run yields the stable sort of the residents |
| `ReorderRuns.DriveQueue` | src/index/reorder.c:45-96 | driving the queue object through any run pops and holds exactly what the history says, residents ascending by fields |
| `Ownership.Leases.CreateCopy` | src/model/lease.c:14-37 | a new lease with one reference |
| `Ownership.Leases.Retain` | src/model/lease.c:39-44 | one more reference, nothing else changed |
| `Ownership.Leases.Release` | src/model/lease.c:46-54 | one reference fewer; freed exactly at the last, and every lease is live or was freed once |
| `Ownership.LeasedInsert` | src/index/reorder.c:68-77 | copies made while shifting neither add nor lose an owner |
| `Ownership.BalancedRelease` | src/model/lease.c:46-54 | dropping one owner and releasing once keeps counts equal to owners |
| `Ownership.PopKeepsBalanceExactly` | src/index/reorder.c:89-90 | popping keeps counts equal to owners if and only if the output owns no lease; otherwise the overwritten lease has exactly one reference too many |
| `Ownership.LostExactlyByOverwriting` | src/index/reorder.c:89-90 | over every run, exactly one reference is lost for each step that overwrites an owning variable |
| `Ownership.Session.InitVar` | src/model/packet.c:7-11 | clears a variable without releasing; a lease it owned becomes a lost reference |
| `Ownership.Session.ResetVar` | src/model/packet.c:13-18 | the handle is emptied; its lease has one reference fewer, and is freed exactly if that was the last |
| `Ownership.Session.WriteMux` | src/mux/mux.c:77-95 | whatever became of the record, the packet is reset: the variable is empty, its lease released once, nothing else changes hands |
| `Ownership.Session.CreateThenWrite` | src/mux/mux.c:89-90 | creating into an empty variable and writing frees exactly that lease, once, and leaves every handle and count as it was |
| `Ownership.Session.CreateThenReset` | src/model/packet.c:13-18 | the same for a reset |
| `Ownership.StepByKind` | src/model/packet.c:7-33 | what each operation does to the handles it names, place by place |
| `Ownership.Session.Move` | src/model/packet.c:20-33 | a move between two variables releases the destination's lease and empties the source; onto itself it is refused and changes nothing |
| `Ownership.Session.Create` | src/model/lease.c:14-37 | a caller's variable owns a new lease; whatever it owned is lost |
| `Ownership.Session.AddPacket` | src/demux/demux.c:53-83 | the next slot owns a new lease, earlier slots unchanged; conservation kept |
| `Ownership.Session.Next` | src/demux/demux.c:140-148 | moves the packet at the cursor into any variable, releasing what it held and emptying the slot; conservation kept |
| `Ownership.Session.Push` | src/index/reorder.c:45-78 | ownership moves into the queue on success and stays with the caller otherwise |
| `Ownership.Session.PopReady` | src/index/reorder.c:80-96 | ownership of the least item moves to the variable; a lease the variable owned is lost; the stale slot owns nothing |
| `Ownership.Session.RetainVar` | src/model/lease.c:39-44 | a retained reference is one more owner |
| `Ownership.Session.ReleaseRetained` | src/model/lease.c:46-54 | the caller's last retained reference is released |
| `Ownership.Session.CloseDemux` | src/demux/demux.c:168-183 | every slot of the capacity is reset, moved-out ones harmlessly; conservation kept |
| `Ownership.Session.DestroyQueue` | src/index/reorder.c:32-43 | exactly the counted items are released, never the stale slots |
| `Ownership.Session.Perform` | src/demux/demux.c:140-183 | each operation changes the handles as the step function says and keeps conservation |
| `Ownership.Session.RunAll` | src/demux/demux.c:140-183 | any run over any number of variables ends where the step function says, with every count equal to owners plus lost references |
| `Ownership.Session.Shutdown` | src/demux/demux.c:168-183 | from any reachable state, shutting down frees every lease without a lost reference exactly once, and the others never |

## Left out

- File input and output, `tide_source`, allocation failure, NULL arguments, and callbacks that return a status other than OK.
- Diagnostics: `tide_error`, `on_error` and message texts.
- The command line except the remux loop, the tools, the fuzz targets and the tests.
- `src/index/index_builder.c` and stream-configuration copies in the demuxer: appends without a hard property.
- The demuxer's selected-track filter, the defaulting of mux and demux options, closing without a footer, and `tide_limits_full`.
- Capacity growth of byte buffers (`tide_buffer_reserve`): only contents and the aggregate limit are modelled; fixed scratch arrays are sequences.
- `max_file_size` and `reorder_depth`, which the modelled code never reads.
- Checkpoint digests, edit-rate scaling, reorder watermarks and interleaving: described in `04_tide_streaming_media_container.md` but not implemented in the code.
- A rule that the footer is the last record or that a seek index is ordered by track and time: the code checks only the footer's own end and a key that mixes the two by XOR, so neither is claimed.
- `docs/DECISIONS.md` (ADR-004) says callbacks are made at the final feed only; the code makes them as records complete, the model follows the code, and `Progress.EmitsAsItGoes` and `Progress.EventBeforeTheEnd` prove it.
- Memory ordering of the lease atomics and wrap-around of the 32-bit reference count: retain and release are atomic steps on an unbounded count. Leases stand for their payloads; payload bytes are in the packet data.
- Rounding modes outside the three named ones.
- Streaming.ChunkPlanIndependence: assumes the total length is within the aggregate buffer limit, as a feed beyond it fails before parsing; `Streaming.Feed` itself models that failure.
- Progress.EmitsAsItGoes: assumes the bytes fed so far are within the aggregate buffer limit, for the same reason.
- Progress.EmitsEachCompleteRecord: assumes the same of the first `k` bytes.
- Timeline.RoundDiv: assumes that doubling the remainder stays inside 128 bits when rounding to nearest, because C leaves the overflow undefined; `TimeConvert` always meets this.
- MuxRules.MuxSucceeds: gives a sufficient bound on the data (128 bytes a record for overhead); the exact condition call by call is `MuxRules.CallExactly`.
