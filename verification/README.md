# A verified model of TemporalStore's codecs, ledgers and views

The project models six parts of TemporalStore and proves what they promise for every input, every run or
every interleaving.

- **Blocks.** `Lz4.dfy` gives the LZ4 block format as a datatype with a printer and a meaning, and proves the
  hand-written decoder accepts exactly the printed blocks; `Lz4Refusals.dfy` says how it refuses the others.
  `Protobuf.dfy` gives the Protocol Buffers wire format (varints, fixed fields, omitted defaults, unknown
  fields, groups, merging of repeats) for any schema. `ProtobufSize.dfy` shows that what is written for a
  message, unless it has enumerations, is the shortest of its encodings, `ProtobufMerge.dfy` what each further
  field does to a message, `Utf8Text.dfy` which texts there are, and `WireLayout.dfy` the bytes of each message
  with its literal keys. `BlockImage.dfy` builds the block record.
- **Streams.** `Checksum.dfy` proves the table-driven CRC32C equal to the bitwise division, and that no change
  of up to four neighbouring bytes keeps it; `FooterMark.dfy` and `CheckValue.dfy` work it out on given bytes.
  `StreamMessages.dfy`, `StreamFormat.dfy` and `StreamRoundTrip.dfy` give the layout of a blob (header block,
  data blocks, footers, open tail) and its reader as functions; `StreamWriter.dfy` is the writer class and
  `StreamReader.dfy` the two-pass reader. `StreamShapes.dfy` says what the reader makes of any bytes, with the
  numbers of the layout written out. `StreamCut.dfy` and `StreamDamage.dfy` say what is read of a blob that was
  cut off or changed, `StreamExamples.dfy` holds blobs at which a promise fails, and `TokenLimit.dfy` the run
  that no token past 41 bytes survives. `BlockStream.dfy` joins blocks and streams.
- **Allocation counters.** `AllocLedger.dfy`, `AllocProbe.dfy` (one thread, with scopes and panics),
  `AllocHeap.dfy` (against the live heap) and `AllocInterleaving.dfy` (many threads and one span).
- **Frame reader.** `FrameReport.dfy`: the independent reader of log frames and the offset checks.
- **Fit.** `LeastSquares.dfy`: the least-squares line of a measurement sweep.
- **Context tree.** `Topology.dfy`: visibility in the collapsible tree of the monitoring console.

`Bytes.dfy` and `Totals.dfy` hold shared definitions.

Readings of the source that matter:

- Machine widths are explicit: bytes, 16-, 32- and 64-bit fields carry their ranges, a slice is shorter than
  2^63 bytes, and the length of a record wraps at 2^32 as the cast does.
- Protobuf encoding and decoding come from the Protocol Buffers "Encoding" document, since the library that
  implements them is not part of the repository: default values are omitted, the last scalar wins, repeated
  messages append, strings must be UTF-8, unknown fields are skipped and nesting stops at 100.
- Atomics are sequentially consistent, although the source uses relaxed ordering. The system allocator
  succeeds, and frees and reallocations name live blocks with their true sizes.
- Floating point is real arithmetic. SHA-256 is a function parameter. Footer stamps (time and truncation
  offset) are a function parameter indexed by how many stamps were taken.
- Arithmetic that overflows panics, as in a build with overflow checks. A panic of the writer (a footer that
  outgrows its slot, a stream offset beyond 64 bits) is the result `ok == false`, one of the stream reader (a block
  offset beyond 64 bits) is `OffsetOverflow`, a panic of the block decoder is `ReservationPanic`, and a panic of
  measured work is a result of the work tree.

Promises the code keeps only under a condition, each with its exact condition and an input at which it fails:

- A blob that continues another (nonzero previous-block checksum) is unreadable once its first block closes: the
  writer seeds that block's checksum and the reader does not (`StreamRoundTrip.ReadsBack`,
  `StreamExamples.ContinuedBlob`).
- A record of 4 GiB or more is misread, and so is a header message (`StreamRoundTrip.ReadsBack`,
  `StreamExamples.LongRecord`, `StreamExamples.LongHeader`).
- A blob cut off in a closed block can give records that nobody wrote, since five zero bytes read as an empty
  record (`StreamCut.CutGivesOnlyWritten`, `StreamExamples.PhantomAppears`). A cut inside a record's length
  bytes is an error, although a cut elsewhere in the data is not (`StreamCut.CutBlobReads`).
- A footer that outgrows its slot makes the writer panic (`StreamWriter.BlobWriter.Append`). With a token of up to
  41 bytes none does; for every longer one some run of appends comes to such a footer
  (`StreamWriter.TokenAlwaysFits`, `TokenLimit.LongTokenPanics`), and over 99 bytes every closing fails
  (`StreamWriter.TokenEverFits`, `StreamExamples.LongToken`). A stated size that cannot be reserved makes the
  decoder panic (`BlockImage.DecodePanics`, `BlockImage.PanicOccurs`).
- A span that frees all it takes reports nothing outstanding only without reallocations
  (`AllocHeap.BalancedSpan`, `AllocHeap.ReallocIsOutstanding`).
- The chunk column can be below the request column (`AllocHeap.ChunkColumnExact`, `AllocHeap.ShrinkThenGrow`,
  `AllocHeap.OldBlockGrows`).
- A span's residual can be negative under threads: it cannot, however the run goes on, exactly when nothing is on
  its way to a row as the span opens (`AllocInterleaving.ResidualAllocsExact`, `AllocInterleaving.ResidualBytesExact`,
  `AllocInterleaving.NegativeResidual`, `AllocInterleaving.NegativeBytes`).
- The reported contiguous coverage need not be a contiguous run (`FrameReport.CoverageIsRun`,
  `FrameReport.SpoiledFrameIsCovered`), nor need receipts that pass the checks tile
  (`FrameReport.ReceiptsTile`, `FrameReport.LastReceiptUnchecked`).
- The ancestor walk of the context tree can go on for ever (`Topology.WalkExits`, `Topology.WalkAroundTwo`).

## Model

| member | source | states |
|---|---|---|
| Lz4.Decompress | crates/temporalstore-rust/src/block_image.rs:134-186 | For every byte string and stated size: panics exactly for a size of 2^63 or more, which cannot be reserved; otherwise accepted exactly when the source is the print of a well-formed block whose meaning has that size, and then the output is that meaning; an accepted output is at most 255 times the source; the working output never exceeds the stated size plus the source length |
| Lz4.DecompressLoop | crates/temporalstore-rust/src/block_image.rs:147-185 | The loop over a cursor and a growing output gives the outcome (bytes or the error) that sequence-by-sequence decoding of the remaining input gives, for every input |
| Lz4.AcceptsExactlyBlocks | crates/temporalstore-rust/src/block_image.rs:134-186 | Acceptance characterised in both directions by the printed blocks, and the output fixed by any block that prints the source |
| Lz4.DecodesSerialised | crates/temporalstore-rust/src/block_image.rs:147-181 | Parse undoes print: decoding the print of any well-formed block gives its meaning, for all literal and match lengths and all offsets that reach back into the output, also starting from earlier output |
| Lz4.DecodedIsSerialised | crates/temporalstore-rust/src/block_image.rs:147-185 | Every accepted input is the print of a well-formed block and the output is its meaning, including the empty input and a block that ends right after a match |
| Lz4.SerialiseInjective | crates/temporalstore-rust/src/block_image.rs:147-181 | An input is the print of at most one block, the low nibble of a final literals-only token being part of the block |
| Lz4.BudgetOnlyRejects | crates/temporalstore-rust/src/block_image.rs:172-185 | The size check only rejects: decoding with a stated size succeeds exactly when decoding without one gives an output of that length, and the bytes are equal |
| Lz4.OutputOnlyGrows | crates/temporalstore-rust/src/block_image.rs:147-181 | Decoding never shortens what has been written |
| Lz4Refusals.LiteralLengthCutOff | crates/temporalstore-rust/src/block_image.rs:137-152 | A literal length that runs to the end of the input is refused as such |
| Lz4Refusals.LiteralsCutOff | crates/temporalstore-rust/src/block_image.rs:149-155 | More literals than bytes are refused as such |
| Lz4Refusals.MatchCutOff | crates/temporalstore-rust/src/block_image.rs:161-170 | After the literals: one byte for an offset of two, an offset of zero or past the output, and a match length that never ends, each with its own refusal |
| Lz4Refusals.MatchReads | crates/temporalstore-rust/src/block_image.rs:161-180 | A match that goes past the stated size is refused; any other is copied and decoding goes on |
| Lz4Refusals.EndReads | crates/temporalstore-rust/src/block_image.rs:157-185 | At the end of the input the output has the stated size or is refused, both sizes told |
| Lz4Refusals.RunDigits | crates/temporalstore-rust/src/block_image.rs:137-146 | A length past its nibble is bytes of 255 and the remainder |
| Lz4.ExpansionBound | crates/temporalstore-rust/src/block_image.rs:137-181 | A decode adds at most 255 bytes for each byte of input, from any earlier output and under any budget |
| Lz4.CopiedIsPeriodic | crates/temporalstore-rust/src/block_image.rs:175-180 | A match, overlapping itself or not, is the periodic extension of the bytes it points back to |
| Lz4.CopyMatch | crates/temporalstore-rust/src/block_image.rs:175-180 | The byte-by-byte copy loop leaves earlier bytes unchanged and appends exactly the periodic extension |
| Lz4.ExtendLength | crates/temporalstore-rust/src/block_image.rs:137-146 | The length loop reads a run of 255s and its final byte, and fails exactly when the input ends first |
| Lz4.ReadLength | crates/temporalstore-rust/src/block_image.rs:150-153 | A nibble below 15 is the length; 15 continues into the input |
| Lz4.TakeLiterals | crates/temporalstore-rust/src/block_image.rs:148-160 | Literals are taken whole or the error is the specified one, and are no longer than the input used |
| Lz4.TakeMatch | crates/temporalstore-rust/src/block_image.rs:161-180 | Offset, length, reach and size errors come out in the source order, and a match that passes extends the output as specified and stays within the stated size |
| Protobuf.MessageRoundTrip | crates/temporalstore-rust/src/block_image.rs:33-66 | For every schema and every message of its type, decoding the canonical wire bytes (defaults omitted) gives the message back |
| Protobuf.DecodedIsTyped | crates/temporalstore-rust/src/block_image.rs:104-107 | Whatever bytes decode, with any field order, repeats and unknown fields, decode to a message of the schema |
| ProtobufMerge.MergeMore | crates/temporalstore-rust/src/block_image.rs:107-107 | For every schema: a message followed by more bytes decodes like the message, and then the rest on top of it |
| ProtobufMerge.VarintFieldSets | crates/temporalstore-rust/src/block_image.rs:33-65 | For every schema: after any message that decodes, a key of wire type 0 and a varint set that field alone, cut to its width |
| ProtobufMerge.FixedFieldSets | crates/temporalstore-rust/src/block_image.rs:34-35 | The same for eight bytes under wire type 1 and four under wire type 5 |
| ProtobufMerge.DataFieldSets | crates/temporalstore-rust/src/block_image.rs:48-49 | The same for a length and bytes under wire type 2; a text must be UTF-8 |
| ProtobufMerge.RowFieldAdds | crates/temporalstore-rust/src/stream_format.rs:90-91 | The same for a list of messages: one row more, if the bytes are one |
| ProtobufMerge.OtherWireRefused | crates/temporalstore-rust/src/block_image.rs:107-107 | A known tag under another wire type is refused |
| ProtobufMerge.UnknownTagIgnored | crates/temporalstore-rust/src/block_image.rs:107-107 | A field under a tag the schema does not have changes nothing |
| Utf8Text.Utf8Exactly | crates/temporalstore-rust/examples/shared_store_append_blob_conformance_report.rs:72-73 | A text field takes exactly the UTF-8 encodings of sequences of Unicode scalar values |
| WireLayout.VarintDigits | crates/temporalstore-rust/src/stream_format.rs:147-157 | A varint is the base-128 digits, lowest first, with the top bit on all but the last, and no byte more than it takes |
| WireLayout.LittleEndianDigits | crates/temporalstore-rust/src/stream_format.rs:162-162 | Each byte is its base-256 digit, lowest first |
| WireLayout.BigEndianDigits | crates/temporalstore-rust/examples/shared_store_append_blob_conformance_report.rs:1139-1143 | Each byte is its base-256 digit, highest first |
| ProtobufSize.DecodedIsNoShorter | crates/temporalstore-rust/src/stream_format.rs:396-405 | No bytes that decode to a message without enumerations are fewer than the bytes written for it |
| BlockImage.HeaderRoundTrip | crates/temporalstore-rust/src/block_image.rs:33-66 | The twelve-field block header survives its own encoding |
| WireLayout.BlockHeaderBytes | crates/temporalstore-rust/src/block_image.rs:33-65 | The header message is twelve literal keys, each followed by its own field and absent at the default |
| WireLayout.BlockHeaderNumbers | crates/temporalstore-rust/src/block_image.rs:33-65 | After any header that decodes, each of the ten literal keys and a varint set exactly their own field |
| WireLayout.BlockHeaderBucketAndKey | crates/temporalstore-rust/src/block_image.rs:34-49 | The same for the bucket in eight bytes and the key |
| BlockImage.EncodeBlockImage | crates/temporalstore-rust/src/block_image.rs:82-98 | Succeeds exactly outside the write-ahead log and with a header message below 64 KiB; then the payload is the size, the message of the header with sizes and compression set here, and the data, and decodes to just that; otherwise says which of the two it was |
| BlockImage.DecodeBlockImage | crates/temporalstore-rust/src/block_image.rs:101-127 | Every payload gets the specified image, error or panic, and accepted data has the size the header states |
| BlockImage.PayloadReads | crates/temporalstore-rust/src/block_image.rs:101-127 | What is read of any header message of up to 65535 bytes and anything stored after it: the image, or which error |
| BlockImage.ShortPayloadRefused | crates/temporalstore-rust/src/block_image.rs:102-106 | A payload shorter than its size prefix or than its header is refused |
| BlockImage.ImageRoundTrip | crates/temporalstore-rust/src/block_image.rs:82-127 | Decoding an encoded block gives the data and the header with its two sizes set to the data length and compression 0 |
| BlockImage.EncodeInjective | crates/temporalstore-rust/src/block_image.rs:82-98 | Two blocks encode alike exactly when data and all header fields other than the two sizes and the compression agree |
| BlockImage.AcceptedSizes | crates/temporalstore-rust/src/block_image.rs:101-127 | An accepted payload is two bytes, the stated header and the stated data, and its data has the stated raw size in both compression arms |
| BlockImage.RewriteKeepsBlock | crates/temporalstore-rust/src/block_image.rs:82-127 | Decoding, encoding again and decoding gives the same data and a header that differs only in stored size and compression |
| BlockImage.CompressedImageReads | crates/temporalstore-rust/src/block_image.rs:101-127 | A payload whose header, however encoded, is marked LZ4 is accepted exactly when its stored bytes print a well-formed block that its header describes, of a size that can be reserved; its data is that block's meaning |
| BlockImage.DecodePanics | crates/temporalstore-rust/src/block_image.rs:123-135 | Decoding panics exactly for an LZ4 payload stored at its stated size whose header claims 2^63 bytes or more |
| BlockImage.PanicOccurs | crates/temporalstore-rust/src/block_image.rs:123-135 | Such a payload of under 100 bytes |
| BlockImage.KeyAlwaysFits | crates/temporalstore-rust/src/block_image.rs:83-92 | All headers outside the log with a key of a given length fit exactly when the length is at most 65451 |
| BlockImage.KeyEverFits | crates/temporalstore-rust/src/block_image.rs:83-92 | Some header with a key of a given length fits exactly when the length is at most 65531 |
| Checksum.BuildEntry | crates/temporalstore-rust/src/checksum.rs:32-41 | The eight-round inner loop computes eight steps of the bitwise division |
| Checksum.BuildTable | crates/temporalstore-rust/src/checksum.rs:28-46 | Every one of the 256 table entries is its index after eight division steps |
| Checksum.TableStep | crates/temporalstore-rust/src/checksum.rs:76-85 | One table lookup equals eight bitwise division steps, for every register and byte |
| Checksum.Crc32cUpdateTable | crates/temporalstore-rust/src/checksum.rs:76-85 | The table-driven loop computes the bitwise CRC32C from any seed |
| CheckValue.CheckValueOfCrc32c | crates/temporalstore-rust/src/checksum.rs:225-229 | CRC32C of the digits 1 to 9 is the published check value |
| Checksum.StreamCrcChains | crates/temporalstore-rust/src/stream_format.rs:49-51 | Checksumming in pieces, each seeded with the last, is checksumming the concatenation |
| Checksum.StreamCrcSeedMatters | crates/temporalstore-rust/src/stream_format.rs:49-51 | Two seeds give the same checksum of the same bytes exactly when they are equal |
| Checksum.DivideFew | crates/temporalstore-rust/src/stream_format.rs:49-51 | Up to four bytes act on the checksum register as one number xored in and stepped through |
| Checksum.BurstChangesCrc | crates/temporalstore-rust/src/stream_format.rs:49-51 | Replacing up to four neighbouring bytes by others changes the checksum, whatever the seed and the bytes around them |
| FooterMark.MarkIsNoRecord | crates/temporalstore-rust/src/stream_format.rs:455-468 | The first fourteen bytes of a footer message, read as a record, never pass the record checksum |
| StreamMessages.BlobHeaderRoundTrip | crates/temporalstore-rust/src/stream_format.rs:54-106 | The blob header with its repeated blob list survives its encoding |
| StreamMessages.FooterRoundTrip | crates/temporalstore-rust/src/stream_format.rs:108-133 | The block footer survives its encoding |
| WireLayout.BlobHeaderIsParts | crates/temporalstore-rust/src/stream_format.rs:76-106 | The blob header message is thirteen literal keys, each followed by its own field and absent at the default |
| WireLayout.InfoIsParts | crates/temporalstore-rust/src/stream_format.rs:54-73 | So is the entry of a listed blob, with eight |
| WireLayout.FooterIsParts | crates/temporalstore-rust/src/stream_format.rs:108-133 | So is the block footer message, with eleven |
| StreamMessages.SizeFieldKeepsSize | crates/temporalstore-rust/src/stream_format.rs:179-187 | Filling in the fixed-width header size does not change the encoded size, so the placeholder pass gives the final length |
| StreamFormat.HeaderBlockHoldsHeader | crates/temporalstore-rust/src/stream_format.rs:141-145 | The header block is never smaller than the header and its eight-byte struct |
| StreamShapes.HeaderBlockEndsBlock | crates/temporalstore-rust/src/stream_format.rs:139-145 | The header block is the shortest that holds the header and ends where data at the start offset can begin |
| StreamShapes.HeaderBlockBytes | crates/temporalstore-rust/src/stream_format.rs:179-194 | The header block is size, checksum, message and zeros |
| StreamShapes.FinishedIs | crates/temporalstore-rust/src/stream_format.rs:180-188 | The writer sets magic, version and size, the size being that of the message it stands in, and keeps all other fields |
| StreamShapes.WrittenIs | crates/temporalstore-rust/src/stream_format.rs:345-358 | What reads back is that header, the records, and the footers of the closed blocks in order |
| StreamShapes.HeaderReads | crates/temporalstore-rust/src/stream_format.rs:388-408 | What any size, stored checksum and message read as: the header, or which of the five errors |
| StreamShapes.ShortHeaderRefused | crates/temporalstore-rust/src/stream_format.rs:385-392 | Fewer than eight bytes, or fewer than the size says, are refused |
| StreamShapes.BlobReads | crates/temporalstore-rust/src/stream_format.rs:409-410 | After a header that reads comes the data region, at the end of the header block, or an error when there is none |
| StreamShapes.OtherMagicRefused | crates/temporalstore-rust/src/stream_format.rs:397-399 | A header message with another magic, under its right checksum, is refused |
| StreamShapes.FooterReadsAs | crates/temporalstore-rust/src/stream_format.rs:428-441 | What any message, size and stored checksum at the end of a block read as: the footer, or which of the four errors |
| StreamShapes.LargeFooterRefused | crates/temporalstore-rust/src/stream_format.rs:430-432 | A footer size over 120 is refused, whatever the block holds |
| StreamShapes.BlockReadsAs | crates/temporalstore-rust/src/stream_format.rs:442-449 | With a footer that reads, the block is its first bytes, if they are inside the data area and the checksum agrees |
| StreamShapes.BlockIs | crates/temporalstore-rust/src/stream_format.rs:167-176 | A closed block is its data, zeros, the footer message, its size and its checksum |
| StreamShapes.LengthReadsAs | crates/temporalstore-rust/src/stream_format.rs:360-376 | A length is up to five bytes that continue up to the last, worth their base-128 digits modulo 2^32 |
| StreamShapes.NoLength | crates/temporalstore-rust/src/stream_format.rs:360-376 | Five bytes that all continue, or an end before the last byte, are no length |
| StreamShapes.RecordReadsAs | crates/temporalstore-rust/src/stream_format.rs:455-476 | Any length, stored checksum and payload read as a record under its position, or as a checksum error |
| StreamShapes.RecordsStop | crates/temporalstore-rust/src/stream_format.rs:455-463 | Where there is no length there is an error; where the length reaches past the end the records stop |
| StreamFormat.RecordHeaderSize | crates/temporalstore-rust/src/stream_format.rs:147-164 | A record header is five to nine bytes for every payload |
| StreamWriter.BlobWriter.constructor | crates/temporalstore-rust/src/stream_format.rs:223-245 | For every header on a block boundary, a new writer holds the header block, no records, and satisfies the writer invariant |
| StreamWriter.NewWriter | crates/temporalstore-rust/src/stream_format.rs:223-245 | Refuses exactly the start offsets that do not begin a block |
| StreamWriter.BlobWriter.Append | crates/temporalstore-rust/src/stream_format.rs:262-278 | Every append keeps the invariant (bytes are the layout of the records so far, the running checksum is that of the open block, every footer tells the truth) and adds one record under the id it returns; it succeeds exactly when each block that this append closes, given outright by the state before it, has a footer that fits its slot and is followed by an offset below 2^64; a record that fits the open block never fails, nor does one under a token of up to 41 bytes well inside 64 bits |
| StreamWriter.BlobWriter.AppendAcrossBlocks | crates/temporalstore-rust/src/stream_format.rs:280-335 | Padding, splitting over any number of blocks and closing each with its footer lays down exactly the record, at the id returned, exactly when every such block can be closed |
| StreamWriter.BlobWriter.LayDown | crates/temporalstore-rust/src/stream_format.rs:293-333 | The placement loop gets through exactly when every block foreseen before it can be closed, and then all bytes of the record are placed, its header in one block, and every block closed on the way is described by its footer |
| StreamWriter.BlobWriter.CloseBlock | crates/temporalstore-rust/src/stream_format.rs:297-318 | Closes the block exactly when the offset after it is below 2^64 and the footer fits its slot; the footer carries block number, offsets, sequence, stamp and left-over size, the block checksum restarts, and the length advances by the footer |
| StreamWriter.Appending.MidwayFooter | crates/temporalstore-rust/src/stream_format.rs:298-312 | At any point of the loop, the footer it makes is the one worked out before the append for that block: its data, checksum, number, offset and left-over size |
| StreamWriter.Appending.FailsByFooter | crates/temporalstore-rust/src/stream_format.rs:168-169 | Well inside 64 bits an append fails exactly when one of its footers outgrows its slot |
| StreamWriter.BlobWriter.AppendWithinBlock | crates/temporalstore-rust/src/stream_format.rs:267-272 | A record that fits the open block is placed at the current length without a footer |
| StreamWriter.BlobWriter.PlaceBytes | crates/temporalstore-rust/src/stream_format.rs:320-332 | One chunk advances the placement of the record, the checksum and the log by exactly its bytes |
| StreamWriter.BlobWriter.Pad | crates/temporalstore-rust/src/stream_format.rs:287-292 | Padding fills the data area of the block and is not data |
| StreamWriter.BlobWriter.WrittenReadsBack | crates/temporalstore-rust/src/stream_format.rs:384-478 | In every reachable writer state, reading its bytes gives header, records with their ids and footers exactly when the header message is below 4 GiB, the previous-block checksum is zero or no block is closed, and every payload is below 4 GiB |
| StreamWriter.BlobWriter.WrittenCut | crates/temporalstore-rust/src/stream_format.rs:412-478 | In every reachable writer state, its bytes cut at any offset of the body read as the cut theorems say |
| StreamWriter.FooterBounds | crates/temporalstore-rust/src/stream_format.rs:299-312 | A writer's footer takes 19 to 77 bytes besides its token |
| StreamWriter.TokenAlwaysFits | crates/temporalstore-rust/src/stream_format.rs:167-176 | All footers of a writer with a token of a given length fit their slot exactly when the length is at most 41 |
| StreamWriter.TokenEverFits | crates/temporalstore-rust/src/stream_format.rs:167-176 | Some footer of a writer with a token of a given length fits its slot exactly when the length is at most 99 |
| StreamWriter.WidestIsTooLong | crates/temporalstore-rust/src/stream_format.rs:167-176 | A footer with every field at its widest fits its slot exactly when its token has at most 41 bytes |
| TokenLimit.LongTokenPanics | crates/temporalstore-rust/src/stream_format.rs:167-176 | For every token of more than 41 bytes, a run of appends reaches a writer and a record at which a footer outgrows its slot although all offsets fit |
| TokenLimit.LateFails | crates/temporalstore-rust/src/stream_format.rs:298-312 | After 2^56 empty records far into a stream, a record with a five-byte length closes a block whose footer is at its widest, its checksum not zero |
| StreamRoundTrip.ReadsBack | crates/temporalstore-rust/src/stream_format.rs:384-478 | Reading a laid-out blob gives back what was written exactly when the header message is below 4 GiB, the previous-block checksum is zero or no block is closed, and every payload is below 4 GiB; a seeded first block is a block checksum error |
| StreamRoundTrip.StripsBlocks | crates/temporalstore-rust/src/stream_format.rs:416-449 | Blocks with right checksums, and an open one, all come back exactly when the offset of the last of them is below 2^64; otherwise the offset overflows |
| StreamRoundTrip.SeededBlockRejected | crates/temporalstore-rust/src/stream_format.rs:233-244 | A first closed block whose checksum was seeded by a nonzero previous-block checksum is always rejected, because the reader starts at zero |
| StreamRoundTrip.LongRecordsMisread | crates/temporalstore-rust/src/stream_format.rs:159-164 | A record of 4 GiB or more, whose stated length wraps, is never read back as written |
| StreamRoundTrip.LongHeaderMisread | crates/temporalstore-rust/src/stream_format.rs:183-193 | A header message of 4 GiB or more, whose stated size wraps, is never read back as it was |
| StreamRoundTrip.LocatesRecords | crates/temporalstore-rust/src/stream_format.rs:469-474 | The ids the reader recovers are the stream offsets the records were written at |
| StreamRoundTrip.IdsGrow | crates/temporalstore-rust/src/stream_format.rs:262-278 | Ids strictly grow in append order and start at the blob's start offset |
| StreamCut.CutBlobReads | crates/temporalstore-rust/src/stream_format.rs:412-477 | A blob cut at any offset of its body: in the data of a block it reads as its complete records, or is a truncated-header error exactly when the cut falls in a length; in the padding or footer of a closed block it reads as its complete records and one empty record for every five zeros, until enough of the footer message follows to be a checksum error; a record that the block ends in is taken together with those bytes |
| StreamCut.CutGivesOnlyWritten | crates/temporalstore-rust/src/stream_format.rs:422-425 | A cut blob gives only records that were written exactly when the kept padding and footer hold fewer than five zeros or enough of the message to be refused, and do not complete a record the block ends in: with up to four missing bytes when they differ from those, with more when the checksum does |
| StreamCut.PassesChecksum | crates/temporalstore-rust/src/stream_format.rs:464-468 | Other bytes in place of the last bytes of a payload pass its checksum, when they are at most four, exactly when they are those bytes |
| StreamCut.CutHeaderReads | crates/temporalstore-rust/src/stream_format.rs:384-410 | A blob cut in its header block is refused, with the error that belongs to the place of the cut |
| StreamCut.SlotReads | crates/temporalstore-rust/src/stream_format.rs:455-476 | What zeros followed by the start of a footer message read as |
| StreamCut.ResumedReads | crates/temporalstore-rust/src/stream_format.rs:455-476 | What an unfinished record followed by other bytes reads as: nothing, a checksum error, or a payload put together from both |
| StreamExamples.PhantomAppears | crates/temporalstore-rust/src/stream_format.rs:422-425 | A written blob cut five bytes past the data of its closed block reads with an empty record that nobody wrote |
| StreamExamples.ContinuedBlob | crates/temporalstore-rust/src/stream_format.rs:233-244 | A writer with a previous-block checksum of 1 and one record over a block long writes a blob that is a block checksum error |
| StreamExamples.LongRecord | crates/temporalstore-rust/src/stream_format.rs:159-164 | A writer with one record of 2^32 bytes writes a blob that does not read back |
| StreamExamples.LongHeader | crates/temporalstore-rust/src/stream_format.rs:179-193 | A writer whose blob name takes 2^32 bytes, with no records, writes a blob that does not read back |
| StreamExamples.LongToken | crates/temporalstore-rust/src/stream_format.rs:167-169 | A new writer with a token of 100 bytes cannot append a record over a block long |
| StreamDamage.DamagedRecordRefused | crates/temporalstore-rust/src/stream_format.rs:464-468 | After any whole records and before any bytes, a record with up to four neighbouring payload bytes changed is a record checksum error |
| StreamDamage.DamagedRecordCrcRefused | crates/temporalstore-rust/src/stream_format.rs:464-468 | So is one with its stored checksum changed |
| StreamDamage.DamagedHeaderRefused | crates/temporalstore-rust/src/stream_format.rs:393-395 | A blob with up to four neighbouring bytes of its header message changed is a header checksum error |
| StreamDamage.DamagedHeaderCrcRefused | crates/temporalstore-rust/src/stream_format.rs:393-395 | So is one with its header's stored checksum changed |
| StreamDamage.DamagedFooterRefused | crates/temporalstore-rust/src/stream_format.rs:434-436 | A blob with up to four neighbouring bytes of the footer message of a closed block changed is a footer checksum error |
| StreamDamage.DamagedFooterCrcRefused | crates/temporalstore-rust/src/stream_format.rs:434-436 | So is one with a footer's stored checksum changed |
| StreamDamage.OtherFooterMagicRefused | crates/temporalstore-rust/src/stream_format.rs:438-440 | A block whose footer has another magic, under its right checksum, is refused |
| StreamDamage.DamagedBlobRefused | crates/temporalstore-rust/src/stream_format.rs:445-447 | A blob with up to four neighbouring data bytes of a closed block changed is a block checksum error |
| StreamDamage.DamagedTailRefused | crates/temporalstore-rust/src/stream_format.rs:455-468 | A blob with up to four neighbouring payload bytes changed in the open block is a record checksum error |
| StreamReader.Read | crates/temporalstore-rust/src/stream_format.rs:384-478 | The two-pass reader gives the specified contents or error on every byte string, a block offset past 64 bits among the errors |
| StreamReader.StripFooters | crates/temporalstore-rust/src/stream_format.rs:412-450 | The first pass takes down where each block begins, in 64 bits, checks every full block and keeps its data, and stops at the first fault |
| StreamReader.CutRecords | crates/temporalstore-rust/src/stream_format.rs:452-476 | The second pass cuts the joined stream into the specified records and stops at an unfinished one |
| StreamReader.FindId | crates/temporalstore-rust/src/stream_format.rs:469-474 | Counting the block starts at or before a logical position finds its stream offset |
| StreamReader.ReadLengthAt | crates/temporalstore-rust/src/stream_format.rs:360-376 | The loop over value, shift and index reads the varint cut to 32 bits, and rejects exactly an input that ends early or a fifth byte that continues |
| BlockStream.BlocksSurvive | crates/temporalstore-rust/src/block_image.rs:82-127 | Blocks encoded, appended to a stream, read and decoded come back in order with their data, stamped headers and increasing ids, whenever the stream reads back |
| AllocLedger.Slot | crates/temporalstore-rust/src/alloc_probe.rs:254-268 | Each class has its own row, inverse to the list of classes |
| AllocLedger.SlotsAreDense | crates/temporalstore-rust/src/alloc_probe.rs:232-268 | The listed classes fill all eleven rows in order |
| AllocLedger.Summed | crates/temporalstore-rust/src/alloc_probe.rs:469-473 | The summing loop adds all rows in all four columns |
| AllocLedger.LedgerPlus | crates/temporalstore-rust/src/alloc_probe.rs:479-485 | Rows add one by one, and the sum of the joined ledger is the joined sum |
| AllocLedger.LedgerSince | crates/temporalstore-rust/src/alloc_probe.rs:487-493 | Rows subtract one by one |
| AllocLedger.SumSince | crates/temporalstore-rust/src/alloc_probe.rs:469-493 | For ledgers that only grew, summing the difference is differencing the sums |
| AllocLedger.SpanPlus | crates/temporalstore-rust/src/alloc_probe.rs:612-623 | Joining spans adds their totals, their rows and both residuals |
| AllocProbe.CountingAllocator.Alloc | crates/temporalstore-rust/src/alloc_probe.rs:108-115 | Totals, chunk column and the current class row move by exactly this allocation |
| AllocProbe.CountingAllocator.Dealloc | crates/temporalstore-rust/src/alloc_probe.rs:117-122 | Frees move the free columns of the totals and of the current class row |
| AllocProbe.CountingAllocator.Realloc | crates/temporalstore-rust/src/alloc_probe.rs:127-143 | A reallocation is charged as one call with its growth, if any, and its chunk growth, if any |
| AllocProbe.CountingAllocator.Enter | crates/temporalstore-rust/src/alloc_probe.rs:396-402 | Entering a class returns the class it replaces |
| AllocProbe.CountingAllocator.Leave | crates/temporalstore-rust/src/alloc_probe.rs:408-410 | Leaving restores the class that was replaced |
| AllocProbe.CountingAllocator.Perform | crates/temporalstore-rust/src/alloc_probe.rs:376-388 | Running any tree of work, with panics at any depth, changes the counters as the specification does |
| AllocProbe.CountingAllocator.Measure | crates/temporalstore-rust/src/alloc_probe.rs:553-586 | A span over any work, panicking or not, restores the class, and its totals, rows and residuals are exactly those of the work's events |
| AllocProbe.RunCharges | crates/temporalstore-rust/src/alloc_probe.rs:376-411 | For every work tree: the class afterwards is the class before, and totals and every row grow by exactly the events with that innermost class |
| AllocProbe.NestingIsIdempotent | crates/temporalstore-rust/src/alloc_probe.rs:376-411 | Nesting a class in itself changes nothing |
| AllocProbe.EveryEventHasOneRow | crates/temporalstore-rust/src/alloc_probe.rs:339-363 | In all four columns the totals are the rows summed plus what happened with no class |
| AllocProbe.ResidualIsUnclassified | crates/temporalstore-rust/src/alloc_probe.rs:579-592 | On one thread a span's residuals, in calls and bytes, are exactly what was allocated with no class in scope |
| AllocHeap.HeapLaw | crates/temporalstore-rust/src/alloc_probe.rs:639-722 | Over every run, requested minus freed bytes is the change in live bytes plus what reallocs shrank, and outstanding calls are the change in live blocks plus the reallocs |
| AllocHeap.BalancedSpan | crates/temporalstore-rust/src/alloc_probe.rs:645-647 | A span that ends with as many blocks as it began reports nothing outstanding exactly when it made no reallocation |
| AllocHeap.ReallocIsOutstanding | crates/temporalstore-rust/src/alloc_probe.rs:645-647 | A run that frees the one block it takes, after one reallocation, reports one call outstanding |
| AllocHeap.ChunkColumnCoversNeed | crates/temporalstore-rust/src/alloc_probe.rs:108-143 | When a chunk always exceeds its request, the chunk column covers the largest request each block reached, less the room old blocks already had |
| AllocHeap.ChunkColumnExact | crates/temporalstore-rust/src/alloc_probe.rs:108-143 | The chunk column covers the request column whatever chunks the allocator picks exactly when the requests of the run total no more than that need |
| AllocHeap.ChunkColumnCoversGrowth | crates/temporalstore-rust/src/alloc_probe.rs:632-634 | A run that grows only its own blocks and shrinks none has a chunk column at least its request column |
| AllocHeap.ShrinkThenGrow | crates/temporalstore-rust/src/alloc_probe.rs:127-143 | Without the no-shrink condition the claim fails: 199 requested bytes against 112 chunk bytes |
| AllocHeap.OldBlockGrows | crates/temporalstore-rust/src/alloc_probe.rs:127-143 | Without the own-blocks condition the claim fails: growing a block from before the span adds 4 to one column and 0 to the other |
| AllocInterleaving.NextConserves | crates/temporalstore-rust/src/alloc_probe.rs:108-143 | Every step of every thread keeps the totals equal to the rows plus the unclassified allocations plus the charges still on their way to a row |
| AllocInterleaving.ThreadKeeps | crates/temporalstore-rust/src/alloc_probe.rs:339-350 | A thread's step keeps the invariant that ties the loads of an open span to the counters |
| AllocInterleaving.LoadKeeps | crates/temporalstore-rust/src/alloc_probe.rs:521-568 | A load of the span keeps it too: rows after totals at open, rows before totals at close |
| AllocInterleaving.RunKeeps | crates/temporalstore-rust/src/alloc_probe.rs:521-568 | The invariant holds in every state of every interleaving |
| AllocInterleaving.ResidualAllocsBound | crates/temporalstore-rust/src/alloc_probe.rs:553-587 | In every interleaving a span's call residual is at least minus the number of threads between their total and their row when it opened, so not negative when there were none |
| AllocInterleaving.ResidualBytesBound | crates/temporalstore-rust/src/alloc_probe.rs:553-591 | The same for bytes, against the bytes pending when the byte total is read |
| AllocInterleaving.ResidualAllocsReached | crates/temporalstore-rust/src/alloc_probe.rs:553-587 | From every reachable state the run can go on so that a span opened there has a call residual of exactly minus the number of threads between their total and their row |
| AllocInterleaving.ResidualBytesReached | crates/temporalstore-rust/src/alloc_probe.rs:553-591 | The same for bytes, from every reachable state in which the byte total is the next load |
| AllocInterleaving.ResidualAllocsExact | crates/temporalstore-rust/src/alloc_probe.rs:553-587 | However the run goes on, a span opened in a reachable state has a call residual that is not negative, exactly when no thread is between its total and its row there |
| AllocInterleaving.ResidualBytesExact | crates/temporalstore-rust/src/alloc_probe.rs:553-591 | The same for bytes, from the load of the byte total on |
| AllocInterleaving.NegativeResidual | crates/temporalstore-rust/src/alloc_probe.rs:541-547 | One thread that has counted a call, and a span opened on it: call residual minus one |
| AllocInterleaving.NegativeBytes | crates/temporalstore-rust/src/alloc_probe.rs:541-547 | One thread that has added eight bytes to the total, and a span whose byte total is then read: byte residual minus eight |
| FrameReport.FrameRoundTrip | crates/temporalstore-rust/examples/shared_store_append_blob_conformance_report.rs:60-84 | The nine-field frame message survives its encoding |
| WireLayout.FrameIsParts | crates/temporalstore-rust/examples/shared_store_append_blob_conformance_report.rs:60-84 | The frame message is nine literal keys, each followed by its own field and absent at the default |
| FrameReport.HexDigits | crates/temporalstore-rust/examples/shared_store_append_blob_conformance_report.rs:107-113 | Hex is two lower-case digits to a byte, the high one first |
| FrameReport.HexInjective | crates/temporalstore-rust/examples/shared_store_append_blob_conformance_report.rs:107-113 | Equal hex digests mean equal digests |
| FrameReport.ValidateOffsetFrames | crates/temporalstore-rust/examples/shared_store_append_blob_conformance_report.rs:1132-1182 | The loop with its early exits counts exactly the matching receipts, says all matched exactly when each does, and reports the end of the last match |
| FrameReport.MatchMeans | crates/temporalstore-rust/examples/shared_store_append_blob_conformance_report.rs:1133-1175 | A receipt matches exactly when its bytes are one length-prefixed frame for this shard and place whose digest, in one of the four known shapes, agrees with its payload and whose size follows that shape's rule; no unknown shape matches |
| FrameReport.WrittenFramesAllMatch | crates/temporalstore-rust/examples/shared_store_append_blob_conformance_report.rs:1117-1183 | Entries in any mix of the four shapes, framed and appended back to back, all match, and coverage is the blob length |
| FrameReport.CoverageIsRun | crates/temporalstore-rust/examples/shared_store_append_blob_conformance_report.rs:1131-1182 | For receipts that pass both offset checks from offset 0, every offset below the reported coverage lies in a matching frame exactly when no non-empty receipt fails before a matching one |
| FrameReport.SpoiledFrameIsCovered | crates/temporalstore-rust/examples/shared_store_append_blob_conformance_report.rs:1174-1182 | Any two appended entries with one byte of the first length flipped: one frame matches, coverage is the whole blob, and offset 0 is in no matching frame |
| FrameReport.EmptyCommandsWritable | crates/temporalstore-rust/examples/shared_store_append_blob_conformance_report.rs:60-84 | Two empty commands are such entries, for every shard and digest function |
| FrameReport.MonotonicExactly | crates/temporalstore-rust/examples/shared_store_append_blob_conformance_report.rs:1232-1236 | The first offset check holds exactly when of every two receipts the earlier is not reversed and ends before the later starts |
| FrameReport.ContiguousExactly | crates/temporalstore-rust/examples/shared_store_append_blob_conformance_report.rs:1238-1242 | The second holds exactly when the lengths of the first few receipts always add up to the range they span |
| FrameReport.ReceiptsTile | crates/temporalstore-rust/examples/shared_store_append_blob_conformance_report.rs:1232-1242 | Receipts that pass both pairwise checks put every offset of the spanned range and no other in exactly one receipt, with lengths summing to the span, exactly when the last receipt is not reversed or all earlier ones are empty |
| FrameReport.LastReceiptUnchecked | crates/temporalstore-rust/examples/shared_store_append_blob_conformance_report.rs:1232-1242 | A reversed last receipt passes both checks and breaks the tiling |
| FrameReport.WrittenReceiptsTile | crates/temporalstore-rust/examples/shared_store_append_blob_conformance_report.rs:1232-1242 | Receipts of back-to-back appends pass both checks and cover the blob |
| LeastSquares.DenominatorIsSpread | crates/temporalstore-rust/examples/one_append_amplification_report.rs:349-355 | The denominator is never negative and is zero exactly when all points share an abscissa |
| LeastSquares.NormalEquations | crates/temporalstore-rust/examples/one_append_amplification_report.rs:349-361 | The returned rate and envelope satisfy both normal equations, also on the zero-denominator branch |
| LeastSquares.FlatFit | crates/temporalstore-rust/examples/one_append_amplification_report.rs:355-361 | With one abscissa for all points the rate is zero and the envelope the mean |
| LeastSquares.ErrorAbove | crates/temporalstore-rust/examples/one_append_amplification_report.rs:349-361 | Any other line's squared error exceeds the returned one's by the summed squared distance between the lines at the points |
| LeastSquares.FitIsBest | crates/temporalstore-rust/examples/one_append_amplification_report.rs:349-361 | The returned line has the least squared error of all lines; a line ties with it exactly when the two agree at every point |
| LeastSquares.FitIsUnique | crates/temporalstore-rust/examples/one_append_amplification_report.rs:356-361 | It is the only best line exactly when the denominator is not zero |
| LeastSquares.ExactFit | crates/temporalstore-rust/examples/one_append_amplification_report.rs:349-367 | The reported worst residual is zero exactly when some line passes through all points |
| LeastSquares.FitRecoversLine | crates/temporalstore-rust/examples/one_append_amplification_report.rs:349-367 | Points of a line with two distinct abscissas give that line back, with residual zero |
| LeastSquares.WorstIsLargest | crates/temporalstore-rust/examples/one_append_amplification_report.rs:362-365 | No point lies further above or below the line than the reported worst residual, and some point lies exactly that far |
| Topology.IndexFindsNode | tools/temporalstore-monitoring-ui/app.js:2082-2083 | With distinct ids the index finds every node under its id |
| Topology.IndexIsLast | tools/temporalstore-monitoring-ui/app.js:2083-2083 | Of nodes with one id the index keeps the last |
| Topology.NodesAreTheFeed | tools/temporalstore-monitoring-ui/app.js:2082-2082 | A node has the id of the feed, and as parent the text the feed gives, empty when it is missing, null or empty |
| Topology.EdgesAreLinks | tools/temporalstore-monitoring-ui/app.js:2095-2106 | There is an edge from a parent to a child exactly when a node with that id names that parent and the parent exists |
| Topology.EdgesJoin | tools/temporalstore-monitoring-ui/app.js:2095-2106 | Edges come in the order of their nodes |
| Topology.OneEdgePerChild | tools/temporalstore-monitoring-ui/app.js:2095-2106 | With distinct ids no two edges have the same child |
| Topology.WalksEnd | tools/temporalstore-monitoring-ui/app.js:2132-2141 | Walks up the parents all end exactly when no walk comes back to its start |
| Topology.WalkExits | tools/temporalstore-monitoring-ui/app.js:2132-2141 | The loop leaves for a node exactly when its parents run out within the number of nodes plus one steps or some id above it is collapsed; otherwise every turn finds one more existing, uncollapsed parent |
| Topology.WalkAroundTwo | tools/temporalstore-monitoring-ui/app.js:2132-2141 | Two nodes that name each other: the walk never ends with nothing collapsed, and ends with one of them collapsed |
| Topology.TreeState.HasCollapsedAncestor | tools/temporalstore-monitoring-ui/app.js:2132-2141 | Wherever the loop ends at all, it answers whether some id above the node, existing or not, is collapsed |
| Topology.TreeState.VisibleGraph | tools/temporalstore-monitoring-ui/app.js:2025-2029 | The drawn nodes and edges are the specified filters of all nodes and edges, in order |
| Topology.ParentIsVisible | tools/temporalstore-monitoring-ui/app.js:2027-2027 | The existing parent of a visible node is visible |
| Topology.VisibleJoin | tools/temporalstore-monitoring-ui/app.js:2027-2027 | Visible nodes keep the order of the nodes |
| Topology.VisibleEdges | tools/temporalstore-monitoring-ui/app.js:2029-2108 | With distinct ids the visible edges are exactly one for each visible node with an existing parent, in node order |
| Topology.KeepJoin | tools/temporalstore-monitoring-ui/app.js:2029-2029 | An edge is kept, in its place, exactly when both its ends are visible |
| Topology.CollapseAllShows | tools/temporalstore-monitoring-ui/app.js:2557-2563 | After collapse-all a node is visible exactly when the feed gives it no parent (missing, null or empty), or a parent that is a node without one, or a parent that is no node and was not collapsed before |
| Topology.CollapseHidesBelow | tools/temporalstore-monitoring-ui/app.js:2132-2141 | Collapsing one more id hides exactly the nodes strictly below it |
| Topology.TreeState.CollapseAll | tools/temporalstore-monitoring-ui/app.js:2557-2565 | An id is collapsed afterwards exactly when it was before or is a node that some node names as parent, and no node of that id lacks a parent; clears the selected edge |
| Topology.TreeState.ExpandAll | tools/temporalstore-monitoring-ui/app.js:2555-2565 | Leaves no node of any topology hidden |
| Topology.TreeState.Toggle | tools/temporalstore-monitoring-ui/app.js:2569-2579 | Flips one id and no other |

## Left out

- Lz4.Decompress: running out of memory for a size that could be reserved is not modelled.
- StreamWriter.BlobWriter.Append: says nothing of the object after a panic, which ends the writer.
- StreamWriter.BlobWriter.WrittenCut: takes blobs whose header message and payloads are below 4 GiB, the others being misread uncut.
- StreamCut.CutBlobReads: takes the same blobs.
- StreamCut.CutHeaderReads: takes header messages below 4 GiB.
- StreamWriter.TokenEverFits: ranges over all footers with the field ranges that closing a block is proved to keep to; that a run reaches one with 99 bytes of token is not stated.
- StreamCut.CutGivesOnlyWritten: takes the same blobs; where the footer's message, and not only its zeros, completes a record, the condition names what the rest of the at most 127 kept bytes reads as.
- AllocProbe.CountingAllocator.Perform: the counters are unbounded; 64-bit wrap-around of a counter is not modelled.
- AllocInterleaving.ResidualAllocsBound: frees, the chunk column and the free columns are not stepped, since the residuals read none of them.
- FrameReport.ValidateOffsetFrames: fetching the object from the store is replaced by its bytes.
- LeastSquares.FitIsBest: the empty sweep, for which the source computes a NaN, and rounding are not modelled.
- Topology.TreeState.HasCollapsedAncestor: takes the nodes whose walk ends, which `Topology.WalkExits` says exactly.
- Topology.CollapseAllShows: ids and parents are the texts they print as, so a numeric parent 0 is not modelled; the merge with fallback data is not either.
- The SSE4.2 checksum path and its choice at run time: one instruction whose semantics the repository does not define.
- Error texts (each error is a constructor), buffer capacities, and `block_address` (one line of arithmetic).
- `documented_glibc_chunk`, `malloc_usable_size`, report lines, shares and averages of the allocation probe: easy members or foreign code.
- The build without the counting feature, thread-local teardown, and panics in destructors.
- Sorting of children, labels, coordinates, metadata and HTML of the context tree: drawing only.
- Raft, the shared store, leases, replay, compaction and temporal compression: their implementing files are not part of this model.
