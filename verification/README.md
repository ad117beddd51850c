# A verified model of the LZ4 library, xxHash and two small algorithms

The vendored LZ4 1.9.4 library compresses and decompresses blocks, streams of blocks and
frames. These Dafny modules model its algorithms in the form the C code has, loops over
arrays and contexts that are updated in place, and prove that they mean what the formats
say. Two more algorithms of the repository are modelled beside it: the pattern expansion
of docopt and the DNS cache of the tunnel engine.

| modules | what they model |
|---|---|
| Basics, BlockFormat, SourceParse | what a block means, byte by byte, how it is laid out, and when a parse of a source is correct |
| MatchCount, OverlapCopy, Emitter, BlockWriter | word-wise counting, wild and overlapping copies, writing sequences and last literals in the three output modes |
| FastTable, FastTrace, FastCompressor, FastStream | the fast compressor for any hash function, what its blocks owe to the scan, and its streaming state: table reuse, renormalisation, saved and loaded dictionaries |
| HashChain, SearchedRuns, LazyParser, OptimalParser | the hash-chain index and search, what blocks owe to it, the lazy parser as a machine over its labels, and the dynamic-programming parser |
| DecoderSpec, DecoderState, Decoder, BlockApi | the block decoder (shortcut, fast loop, safe loop, full and partial, with dictionaries) as a machine over its labels, the entry points and their round trips |
| InPlace | the unsafe decoder in a buffer that holds its own input |
| RingBuffer, RingLimits, RingOvershoot | the example program: sender and receiver with unsynchronised rings; the rings for which it fails |
| HashWords, Xxh32, Xxh64, HashValues | one-shot and streaming hashes, and published values of them |
| FrameFormat, FrameHistory, FrameBuffers | what a frame means and how it is laid out; how much history linked blocks need |
| FrameDict, FrameDecoderState, FrameDecoder, FrameChunks | the resumable frame decoder, stage by stage, and decoding by many calls |
| FrameBounds, FrameBlockWriter, FrameBuffering, FrameCompressor, FrameRoundTrip | bounds, the buffering frame compressor, whole sessions and the frame round trip |
| DocoptTransform | the pattern expansion of docopt.py |
| DnsCache | the DNS cache under any interleaving of calls |

Pointers are positions in sequences or arrays. Machine words are naturals with explicit
wrap-around where it matters. The hash functions of the compressors are parameters:
correctness does not depend on them. Within one call a hash function maps positions to
buckets; over a run it maps a window of bytes and a position, so that a position gets
another bucket when it holds other bytes. Input, output, the clock and the inner resolver
are parameters too.

Six places where the code and its documentation differ, or where a promise has a limit:

- An output area of no bytes takes the zero token only; other valid blocks with empty
  content are rejected (`BlockApi.DecompressNothing`).
- `LZ4F_compressBound_internal` counts blocks in 32 bits; `FrameBounds.BoundIsEnough`
  says exactly when the bound is one, `FrameBounds.BoundTooSmall` gives a source for
  which it is not.
- `lz4.h` allows a sender's ring of any size if the receiver's is larger by one message.
  With such a receiver, all messages come out if and only if the sender's ring is larger than two messages, or
  messages have at most 12 bytes (`RingBuffer.RoundTrips`; `RingBuffer.RoundTrip` for one
  direction, `RingLimits.FailingRun` for the other). The overlap test of
  `LZ4_compress_fast_continue` misses a message that ends where the history ends. The
  rings of the example are larger.
- `LZ4_DECODER_RING_BUFFER_SIZE` leaves 15 bytes between the end of a copy and the
  farthest byte a match may refer to. The size is right if copies overshoot by at most 15
  bytes (`RingBuffer.ReceiveAnySource`) and wrong if the copy of an empty run of literals
  leaves 16 (`RingOvershoot.FailingSource`), as the one of the fast loop does
  (lz4.c:2018-2025).
- A receiver's ring that is larger than the sender's by one message leaves 13 bytes for
  blocks of this library (`RingBuffer.SizesOk`, `RingBuffer.DocumentedSizesAreOk`).
  `LZ4_wildCopy32` (lz4.c:496-510) may leave up to 31, for which 18 bytes more are enough.
  That fewer are not enough is shown for rings of at most 64 KB and messages that are
  longer than 24 bytes and than what copies overshoot (`RingOvershoot.FailingOvershoot`),
  among them the rings of the example (`RingOvershoot.ExampleIsTooFar`).
- The hint of `LZ4F_decompress` counts the checksum of a compressed block twice
  (lz4frame.c:1802-1804). `FrameDecoder.HintFits` says exactly when it asks for more than
  the frame has.

## Model

| member | source | states |
|---|---|---|
| BlockFormat.ParseEncodedBlock | openvpn3/src/main/cpp/lz4/doc/lz4_Block_format.md:25-108 | every block laid out as described, token, extended lengths, literals, offset, is read back exactly as it was |
| BlockFormat.ParseAfterSequences | openvpn3/src/main/cpp/lz4/doc/lz4_Block_format.md:25-108 | sequences in front of bytes that parse are read back in order, and the rest as before |
| BlockFormat.DocumentedLengths | openvpn3/src/main/cpp/lz4/doc/lz4_Block_format.md:54-70 | the examples of the description: lengths of 15, 48 and 280 have the bytes 0, 33, and 255 and 10 behind their token field |
| BlockFormat.DocumentedLayout | openvpn3/src/main/cpp/lz4/doc/lz4_Block_format.md:25-108 | a block byte by byte: the two halves of the token, the literal, the offset in little-endian order, the last literals |
| BlockFormat.CopyMatchAt | openvpn3/src/main/cpp/lz4/doc/lz4_Block_format.md:72-84 | each byte of a match equals the byte `offset` places before it, also where the match overlaps itself |
| SourceParse.CopyOfMatch | openvpn3/src/main/cpp/lz4/lib/lz4.c:243-247 | copying a match found in the source reproduces the source bytes it stands for |
| SourceParse.TilesContent | openvpn3/src/main/cpp/lz4/lib/lz4.c:243-247 | literals and matches that tile the source stand for exactly the source |
| SourceParse.BlockSize | openvpn3/src/main/cpp/lz4/lib/lz4.h:205-212 | every block of n bytes takes at most n + n/255 + 16 bytes: LZ4_COMPRESSBOUND is a bound for every parse |
| MatchCount.Count | openvpn3/src/main/cpp/lz4/lib/lz4.c:658-684 | the word-wise count is the length of the longest common run before the limit |
| OverlapCopy.TablesKeepThePeriod | openvpn3/src/main/cpp/lz4/lib/lz4.c:453-454 | inc32table and dec64table, for each offset below 8, step to a place of the same period |
| OverlapCopy.CopyMatchSafely | openvpn3/src/main/cpp/lz4/lib/lz4.c:2300-2328 | eight bytes through the tables, then wild copies: the result is the byte-by-byte match copy for every offset, and nothing before the match or behind the allowed overshoot changes |
| OverlapCopy.CopyMatchFast | openvpn3/src/main/cpp/lz4/lib/lz4.c:2098-2107 | the 16-byte steps of the fast loop give the same bytes as copying one at a time |
| OverlapCopy.RepeatPattern | openvpn3/src/main/cpp/lz4/lib/lz4.c:513-546 | LZ4_memcpy_using_offset repeats the last `offset` bytes, for offsets 1, 2, 4 and all others |
| FastTable.TestCandidate | openvpn3/src/main/cpp/lz4/lib/lz4.c:1040-1076 | an entry of the table is taken as a match only if four bytes agree, at a distance of at most 65535 within the usable history, for any hash function and any earlier-position table |
| FastCompressor.FindMatch | openvpn3/src/main/cpp/lz4/lib/lz4.c:983-1076 | the accelerating scan stops at a genuine match or at the margin of the source, indexes only positions it has passed, and does not miss the first candidate; the trace it returns makes the table, and every probe in front of the match has missed |
| FastCompressor.CatchUp | openvpn3/src/main/cpp/lz4/lib/lz4.c:1078-1080 | growing a match backwards keeps it a match and stays behind the anchor and the history |
| FastCompressor.CountMatch | openvpn3/src/main/cpp/lz4/lib/lz4.c:1136-1157 | the count across the border between external history and block is the length of the whole match |
| FastCompressor.EmitSequence | openvpn3/src/main/cpp/lz4/lib/lz4.c:1082-1200 | a sequence is written exactly as the format lays it out; a limited compressor gives up only if five last literals would not fit behind the sequence, a filling one goes on exactly if there is room for the literals and 11 bytes; a match is as long as it may be unless it is cut to leave six bytes |
| FastCompressor.ClearPositions | openvpn3/src/main/cpp/lz4/lib/lz4.c:1160-1180 | after a match was shortened, no table entry points behind the new position |
| FastCompressor.CompressValidated | openvpn3/src/main/cpp/lz4/lib/lz4.c:910-1302 | whatever the hash, the acceleration and the table, a positive result is a block for the consumed source that keeps all parsing restrictions, in all three output modes; of every run of literals the byte behind a match and all probes of the scan have missed, and every match is as long as it may be; failure means that such a block does not fit; a filled destination has at most one byte left; blocks of up to 12 bytes are all literals, and a first candidate that matches is used |
| FastTrace.FirstProbes | openvpn3/src/main/cpp/lz4/lib/lz4.c:690-1030 | the scan advances by `acceleration` bytes for 64 probes and by one more for the next 64 |
| FastTrace.MissedMeans | openvpn3/src/main/cpp/lz4/lib/lz4.c:1040-1076 | a miss in a trace: the latest position entered before it with the same hash, or what the bucket held, is no match |
| FastTrace.SecondMissed | openvpn3/src/main/cpp/lz4/lib/lz4.c:966-1030 | a thorough block without a match: the second byte did not match what was in its bucket |
| BlockWriter.FinishBlock | openvpn3/src/main/cpp/lz4/lib/lz4.c:1266-1302 | the last literals complete the block; when filling, they are cut to what fits, and not one more would fit; failure returns the block that does not fit |
| BlockWriter.FillTail | openvpn3/src/main/cpp/lz4/lib/lz4hc.c:766-784 | after an overflow a part of the match is emitted, or the literals in front of it are cut: either way no more than ten literals follow behind it |
| FastStream.Stream.TableIsUsable | openvpn3/src/main/cpp/lz4/lib/lz4.c:1042-1073 | why stale entries do no harm: each is in the history, explicitly skipped, or further away than 64 KB |
| FastStream.Stream.PrepareTable | openvpn3/src/main/cpp/lz4/lib/lz4.c:863-902 | a reused table is reset or put out of reach by a gap of 64 KB, and 16-bit indexes stay below the limit |
| FastStream.Stream.Renorm | openvpn3/src/main/cpp/lz4/lib/lz4.c:1612-1629 | renormalisation keeps every distance inside the 64 KB window and puts all other entries out of reach |
| FastStream.Stream.ChooseHistory | openvpn3/src/main/cpp/lz4/lib/lz4.c:1647-1668 | what is left of the history ends where it did, is not overwritten by the block unless the block ends behind it, and never is a tiny external one; a history that the block does not end in is kept |
| FastStream.Stream.CompressFastContinue | openvpn3/src/main/cpp/lz4/lib/lz4.c:1632-1707 | a block of the stream is a block behind a final part of the previous history, as thorough as its scan, or such a block does not fit; afterwards the stream history ends with the block |
| FastStream.Stream.CompressFastReset | openvpn3/src/main/cpp/lz4/lib/lz4.c:1378-1413 | one independent block with a table that holds whatever earlier calls left, as thorough as its scan, or such a block does not fit; the index stays small over any number of calls |
| FastStream.Stream.ResetFast | openvpn3/src/main/cpp/lz4/lib/lz4.c:1525-1527 | the stream is ready for linked blocks and has no history |
| FastStream.Stream.LoadDict | openvpn3/src/main/cpp/lz4/lib/lz4.c:1541-1581 | the history is the last 64 KB of the dictionary, and the buckets hold the latest of every third position in it, and nothing else |
| FastStream.Stream.SaveDict | openvpn3/src/main/cpp/lz4/lib/lz4.c:1739-1763 | the last bytes of the history are moved, nothing else changes, and the stream refers to the copy |
| HashChain.HcContext.InitInternal | openvpn3/src/main/cpp/lz4/lib/lz4hc.c:100-117 | a reused context keeps its tables: a gap of 64 KB puts old entries out of reach |
| HashChain.HcContext.Insert | openvpn3/src/main/cpp/lz4/lib/lz4hc.c:120-141 | all positions before ip are linked: heads are the latest of their hash, chains lead to the previous one or out of the window |
| HashChain.QuickTests | openvpn3/src/main/cpp/lz4/lib/lz4hc.c:278-290 | a candidate that beats the best length passes the quick tests, so that they lose nothing |
| HashChain.WiderPasses | openvpn3/src/main/cpp/lz4/lib/lz4hc.c:278-310 | the same when the search looks back: a candidate whose match around ip is wider than the best one passes both tests |
| HashChain.MeasuredIsWidest | openvpn3/src/main/cpp/lz4/lib/lz4hc.c:291-310 | what is measured around a candidate, backwards to iLow and forwards to the limit, is the widest match at its distance |
| HashChain.HcContext.NextInChain | openvpn3/src/main/cpp/lz4/lib/lz4hc.c:411-413 | following a 16-bit delta leads to the previous position of the same hash, without underflow |
| HashChain.HcContext.JumpInRun | openvpn3/src/main/cpp/lz4/lib/lz4hc.c:341-410 | the jump inside a run of one byte yields only genuine matches and a smaller index; if it records none, it leads to a place where the four bytes match |
| HashChain.HcContext.WalkChain | openvpn3/src/main/cpp/lz4/lib/lz4hc.c:270-440 | what the search keeps is a genuine match around ip, within the limits, as long as it may be and not shorter than before; if it finds nothing although the attempts reach the end of the chain, the four bytes stand nowhere in the window, also with pattern analysis and chain swap; it ends |
| HashChain.HcContext.InsertAndGetWiderMatch | openvpn3/src/main/cpp/lz4/lib/lz4hc.c:239-446 | the widest match found around ip really repeats its bytes, within 65535 and not before iLow, and cannot go on further on either side; nothing is found only if there is nothing, and with enough attempts, without pattern analysis and chain swap, no match around ip in the window is wider |
| HashChain.NaiveSearchIsLongest | openvpn3/src/main/cpp/lz4/lib/lz4hc.c:449-462 | the scan of every position in the window finds the longest match, the nearest one on ties |
| HashChain.HcContext.InsertAndFindBestMatch | openvpn3/src/main/cpp/lz4/lib/lz4hc.c:449-462 | with enough attempts, and without pattern analysis and chain swap, the chain walk returns what the scan of the whole window returns |
| Emitter.EncodeSequenceHC | openvpn3/src/main/cpp/lz4/lib/lz4hc.c:467-548 | a sequence is written exactly; overflow is reported before anything behind the limit is written |
| LazyParser.StepSearch2 | openvpn3/src/main/cpp/lz4/lib/lz4hc.c:599-626 | from _Search2: at most two bytes after ML0, the next state is again one of genuine matches, or ML1 is emitted |
| LazyParser.StepSearch3 | openvpn3/src/main/cpp/lz4/lib/lz4hc.c:627-732 | from _Search3: after squeezing, restoring and trimming, ML1 and ML2 still repeat at least four bytes each, inside the limits |
| LazyParser.CompressHashChain | openvpn3/src/main/cpp/lz4/lib/lz4hc.c:553-788 | in every run each encoded sequence is a usable match, and the block stands for the consumed source, all of it unless filling; no literal that an exhaustive search can match is passed over but in the four bytes in front of a match, a match is cut only in front of the next one, and one that more than four literals follow is beaten by no wider match that an exhaustive search finds at its end (up to 128 attempts); failure means that such a block does not fit; a filled destination has at most one byte left; the label machine terminates |
| SearchedRuns.MatchIsUsed | openvpn3/src/main/cpp/lz4/lib/lz4hc.c:585-612 | a match that an exhaustive search can find is not lost: a block of the HC compressors without matches has no such position |
| SearchedRuns.ScanFindsMatch | openvpn3/src/main/cpp/lz4/lib/lz4hc.c:449-462 | where there is such a match is where the scan of every position in the window finds at least four bytes |
| SearchedRuns.FinishSearched | openvpn3/src/main/cpp/lz4/lib/lz4hc.c:734-784 | the end of both parsers: overflow and last literals keep what has been searched, in every mode |
| OptimalParser.UpdatePrices | openvpn3/src/main/cpp/lz4/lib/lz4hc.c:1479-1525 | every entry that a match updates is a literal step or a genuine match step |
| OptimalParser.ReverseTraversal | openvpn3/src/main/cpp/lz4/lib/lz4hc.c:1530-1548 | the traversal ends exactly at position 0 and leaves a forward path to the last match |
| OptimalParser.Replay | openvpn3/src/main/cpp/lz4/lib/lz4hc.c:1550-1564 | the forward replay emits every recorded match and covers the stretch without gap |
| OptimalParser.ChoosePath | openvpn3/src/main/cpp/lz4/lib/lz4hc.c:1371-1530 | whatever the prices, also with the immediate exit, the table holds a path of literals and genuine matches of at least 4 bytes, and at least one match: four literals never are cheaper than the first one |
| OptimalParser.CompressOptimal | openvpn3/src/main/cpp/lz4/lib/lz4hc.c:1330-1626 | in all three modes what is written is a block for the consumed source; no literal that an exhaustive search can match is passed over but within LZ4_OPT_NUM bytes of a match; failure means that such a block does not fit; a filled destination has at most one byte left |
| BlockApi.CompressHC | openvpn3/src/main/cpp/lz4/lib/lz4hc.c:800-860 | each compression level runs its parser, and a positive result is a block behind the given history, searched as the level owes; failure means that such a block does not fit |
| DecoderSpec.NextLiterals | openvpn3/src/main/cpp/lz4/doc/lz4_Block_format.md:110-137 | what the end-of-block conditions give a decoder at each token: where the literals end, how much room is left, that the offset reaches back |
| Decoder.ReadVariableLength | openvpn3/src/main/cpp/lz4/lib/lz4.c:1899-1930 | the length bytes are read as the format defines them, and running out of input is noticed |
| Decoder.CopyFromDict | openvpn3/src/main/cpp/lz4/lib/lz4.c:2066-2095 | a match that starts in the external dictionary continues at the start of the prefix |
| Decoder.FastLoop | openvpn3/src/main/cpp/lz4/lib/lz4.c:1995-2109 | the fast loop keeps the meaning of what is decoded, stays inside the output and hands over with the format position intact |
| Decoder.SafeLoop | openvpn3/src/main/cpp/lz4/lib/lz4.c:2114-2329 | the safe loop ends, finished or with an error, and an error means that the input was not acceptable |
| Decoder.DecompressGeneric | openvpn3/src/main/cpp/lz4/lib/lz4.c:1937-2339 | a result is the content of the whole block, every valid block that fits is decoded; in partial decoding, exactly as many bytes as the area takes; nothing before the area changes |
| Decoder.NoOutput | openvpn3/src/main/cpp/lz4/lib/lz4.c:1976-1982 | an output area of no bytes: partial decoding yields nothing, full decoding takes the zero token only |
| BlockApi.NoContent | openvpn3/src/main/cpp/lz4/lib/lz4.c:1976-1982 | the valid blocks of no content are the sixteen single tokens without literals |
| BlockApi.DecompressNothing | openvpn3/src/main/cpp/lz4/lib/lz4.c:1976-1982 | of these sixteen, an output area of no bytes takes the zero token and rejects the others |
| BlockApi.DecompressSafe | openvpn3/src/main/cpp/lz4/lib/lz4.c:2345-2350 | into at least one byte: success exactly gives the content of a parsed block, and no valid block that fits is rejected |
| BlockApi.DecompressSafePartial | openvpn3/src/main/cpp/lz4/lib/lz4.c:2353-2359 | of a valid block exactly the first min(target, content) bytes |
| BlockApi.DecompressUsingDict | openvpn3/src/main/cpp/lz4/lib/lz4.c:2612-2625 | the same behind a dictionary in front of the output or elsewhere |
| BlockApi.BlockDecodes | openvpn3/src/main/cpp/lz4/lib/lz4.c:910-1302 | what any of the compressors emits is a valid block and stands for what it consumed |
| BlockApi.CompressFast | openvpn3/src/main/cpp/lz4/lib/lz4.c:1346-1365 | never fails with LZ4_COMPRESSBOUND bytes, and with fewer only if a block by the same scan does not fit; the block is as thorough as the scan |
| BlockApi.RepeatIsUsed | openvpn3/src/main/cpp/lz4/lib/lz4.c:966-1076 | a source that begins with a repetition in the same bucket is not left without a match |
| BlockApi.RoundTripFast | openvpn3/src/main/cpp/lz4/lib/lz4.c:1416-1440 | a positive result of the fast compressor decodes to exactly the input |
| BlockApi.CompressDestSize | openvpn3/src/main/cpp/lz4/lib/lz4.c:1444-1458 | all of the source is consumed, or all of the destination is filled but for at most one byte, by a block as thorough as the scan |
| BlockApi.RoundTripDestSize | openvpn3/src/main/cpp/lz4/lib/lz4.c:1461-1479 | what was written decodes to exactly the consumed prefix of the source |
| BlockApi.RoundTripHC | openvpn3/src/main/cpp/lz4/lib/lz4hc.c:939-975 | the same for every HC level and output mode |
| InPlace.MarginHolds | openvpn3/src/main/cpp/lz4/lib/lz4.h:629-630 | with compressedSize at most decompressedSize, at every sequence the unread input is ahead of the unwritten output by no more than decompressedSize/256 + 16 |
| InPlace.NeverCatchesUp | openvpn3/src/main/cpp/lz4/lib/lz4.h:595-630 | writing never passes the next unread byte |
| InPlace.SequenceLayout | openvpn3/src/main/cpp/lz4/doc/lz4_Block_format.md:25-108 | what parses as a sequence has exactly the described layout |
| InPlace.DecompressInPlace | openvpn3/src/main/cpp/lz4/lib/lz4.c:1795-1889 | every valid block at the end of a buffer of the stated size is decoded in place: whole content, whole block read, nothing in front changed |
| RingBuffer.CompressInRing | openvpn3/src/main/cpp/lz4/lib/lz4.c:1632-1707 | what the sender does for each message, in any ring that holds one: the block is right for the ring as it is after the message was written, the first candidate of the search is not missed, and buckets that no position has keep their entries |
| RingBuffer.Send | openvpn3/src/main/cpp/lz4/examples/blockStreaming_ringBuffer.c:48-79 | as long as a message does not cover the history, it becomes a block behind a part of the text, and the ring stays in order across the wrap |
| RingBuffer.NotYetOverwritten | openvpn3/src/main/cpp/lz4/examples/blockStreaming_ringBuffer.c:24-28 | a byte that is neither overwritten by the receiver nor by what its copies leave behind is still the byte of the text |
| RingBuffer.DecodeInRing | openvpn3/src/main/cpp/lz4/lib/lz4.c:1995-2329 | every block is decoded to its length; if no match starts in what the copies of the block leave behind their ends, it is decoded to the message |
| RingBuffer.DecompressSafeContinue | openvpn3/src/main/cpp/lz4/lib/lz4.c:2524-2561 | each received block that is readable in this sense decodes to the message, in prefix mode, behind an external dictionary or both |
| RingBuffer.RoundTrip | openvpn3/src/main/cpp/lz4/examples/blockStreaming_ringBuffer.c:48-111 | all messages come out as they went in, for every hash function and whatever copies leave behind them, although the rings wrap around at different messages |
| RingBuffer.DocumentedSizesAreOk | openvpn3/src/main/cpp/lz4/lib/lz4.h:458-460 | a receiver's ring larger by one message allows copies to overshoot by 13 bytes |
| RingBuffer.ReceiveAnySource | openvpn3/src/main/cpp/lz4/lib/lz4.h:436-455 | a ring of LZ4_DECODER_RING_BUFFER_SIZE decodes the blocks of any source that respects the block size, if copies overshoot by at most 15 bytes |
| RingLimits.FailingRun | openvpn3/src/main/cpp/lz4/lib/lz4.h:458-460 | for every sender's ring that RoundTrip excludes there are messages of which the last does not come out, with every hash function that tells two words apart |
| RingLimits.Hash5Separates | openvpn3/src/main/cpp/lz4/lib/lz4.c:764-774 | LZ4_hash5 tells the words apart on which the failing runs rely |
| RingOvershoot.FailingSource | openvpn3/src/main/cpp/lz4/lib/lz4.h:436-455 | when a copy of no literals leaves 16 bytes of the block behind it, there are blocks that a ring of LZ4_DECODER_RING_BUFFER_SIZE does not decode |
| RingOvershoot.FailingOvershoot | openvpn3/src/main/cpp/lz4/lib/lz4.h:458-460 | when copies overshoot further than SizesOk allows for, and leave zeros, there are messages of this library's compressor that do not come out of a receiver's ring of the documented size |
| FrameFormat.ParseEncodedHeader | openvpn3/src/main/cpp/lz4/lib/lz4frame.c:1291-1380 | a frame header is read back exactly, whatever follows it |
| FrameFormat.FlagBits | openvpn3/src/main/cpp/lz4/doc/lz4_Frame_format.md:124-187 | where the descriptor has the version and each option |
| FrameFormat.DescriptorBytes | openvpn3/src/main/cpp/lz4/doc/lz4_Frame_format.md:188-240 | the order of the optional fields of the descriptor, and what the four block size identifiers stand for |
| FrameFormat.EmptyFrame | openvpn3/src/main/cpp/lz4/doc/lz4_Frame_format.md:62-104 | a whole frame byte by byte: magic number, descriptor, header checksum, end mark, content checksum |
| FrameFormat.BlockBytes | openvpn3/src/main/cpp/lz4/doc/lz4_Frame_format.md:251-290 | the size of a block in little-endian order, and the bit of one that is stored |
| FrameFormat.ParsePartHeader | openvpn3/src/main/cpp/lz4/lib/lz4frame.c:1341-1349 | the first bytes of a header tell its size |
| FrameFormat.BeforeNext | openvpn3/src/main/cpp/lz4/doc/lz4_Frame_format.md:250-302 | the content in front of the next block is the content so far and the content of the block, which is valid behind it |
| FrameHistory.DecodableCovers | openvpn3/src/main/cpp/lz4/doc/lz4_Frame_format.md:154-162 | a linked block needs no more than the last 64 KB: it means the same behind every region that ends with them |
| FrameDecoder.UpdateDict | openvpn3/src/main/cpp/lz4/lib/lz4frame.c:1470-1535 | in all its cases (empty, prefix, large output, within tmpOut, joined) the dictionary afterwards ends with the last 64 KB of the content |
| FrameDecoder.EnoughForInput | openvpn3/src/main/cpp/lz4/lib/lz4frame.c:1624-1637 | buffers kept from an earlier frame that are large enough for the output are large enough for the input |
| FrameDecoder.DecodeBlockHeader | openvpn3/src/main/cpp/lz4/lib/lz4frame.c:1671-1701 | a block header leads to the stage of the block that stands there, or to the end of the frame |
| FrameDecoder.StageCopyDirect | openvpn3/src/main/cpp/lz4/lib/lz4frame.c:1703-1744 | any part of an uncompressed block may be copied; counters, checksums and history advance with it |
| FrameDecoder.DecodeDirect | openvpn3/src/main/cpp/lz4/lib/lz4frame.c:1828-1862 | a block decoded into the output is the next part of the content and joins the history |
| FrameDecoder.SelectDict | openvpn3/src/main/cpp/lz4/lib/lz4frame.c:1835-1849 | the dictionary given to the block decoder ends with the last 64 KB of the output so far |
| FrameDecoder.DecodeToTmp | openvpn3/src/main/cpp/lz4/lib/lz4frame.c:1864-1902 | a block decoded into tmpOut lies behind the history it needs and waits to be flushed |
| FrameDecoder.StageFlushOut | openvpn3/src/main/cpp/lz4/lib/lz4frame.c:1904-1924 | any part of a waiting block may be flushed; the history stays usable |
| FrameDecoder.MoveHistory | openvpn3/src/main/cpp/lz4/lib/lz4frame.c:2023-2053 | at the end of a call the history moves out of the output buffer and still covers the content |
| FrameDecoder.Dctx.Step | openvpn3/src/main/cpp/lz4/lib/lz4frame.c:1585-2021 | one stage keeps what holds of the context, reads only frame bytes and writes only the next content; every step makes measurable progress or ends the call |
| FrameDecoder.Dctx.Decompress | openvpn3/src/main/cpp/lz4/lib/lz4frame.c:1556-2053 | a call ends with 0 exactly at the end of the frame, else because its input is read or its output full; it never reads past the frame nor writes outside the output; the hint goes beyond the frame only as HintFits says |
| FrameDecoder.HintFits | openvpn3/src/main/cpp/lz4/lib/lz4frame.c:1795-1810 | the bytes a call asks for are never more than the frame has left, except in the last block of a frame with block checksums and without a content checksum, where they are four too many |
| FrameChunks.DecodeInPieces | openvpn3/src/main/cpp/lz4/lib/lz4frame.c:1538-1556 | however input and output are cut, the output is a beginning of the content, all of it when the frame ends; calls that offer something end after at most as many calls as the frame and its content have bytes |
| FrameChunks.DecodeStable | openvpn3/src/main/cpp/lz4/lib/lz4frame.c:1538-1556 | the same with one output buffer that is kept (stableDst) |
| FrameBounds.OptimalBSID | openvpn3/src/main/cpp/lz4/lib/lz4frame.c:351-364 | the smallest block size that holds the source, if smaller than the requested one |
| FrameBounds.FrameBoundIsStable | openvpn3/src/main/cpp/lz4/lib/lz4frame.c:398-450 | the bound for the adjusted preferences equals the bound for the caller's own, so that the choice of another block size is harmless |
| FrameBounds.BoundIsEnough | openvpn3/src/main/cpp/lz4/lib/lz4frame.c:371-396 | the bound leaves room for all blocks stored uncompressed and the end of the frame if and only if the number of blocks fits 32 bits |
| FrameBounds.BoundTooSmall | openvpn3/src/main/cpp/lz4/lib/lz4frame.c:382-394 | one block more than 32 bits can count: the bound is short by four bytes per block |
| FrameBounds.FrameBoundValues | openvpn3/src/main/cpp/lz4/lib/lz4frame.c:371-406 | the bound of an empty source, and of one byte more than a block with all checksums |
| FrameBlockWriter.MakeBlock | openvpn3/src/main/cpp/lz4/lib/lz4frame.c:825-850 | a block of the frame with its checksum, stored only if a block by the thorough scan does not fit in one byte less, else shorter; it means the given bytes behind the content so far, and the stream history follows |
| FrameBuffering.CompleteBlock | openvpn3/src/main/cpp/lz4/lib/lz4frame.c:962-986 | a buffered block is completed from the source and written; nothing of the input is lost |
| FrameBuffering.FullBlocks | openvpn3/src/main/cpp/lz4/lib/lz4frame.c:988-996 | the full blocks of the source are written in order |
| FrameBuffering.KeepHistory | openvpn3/src/main/cpp/lz4/lib/lz4frame.c:1009-1031 | the history is preserved where the next call needs it, and a full block can be buffered again |
| FrameBuffering.FlushBuffer | openvpn3/src/main/cpp/lz4/lib/lz4frame.c:1121-1136 | all that was buffered becomes a block |
| FrameCompressor.Cctx.CompressBegin | openvpn3/src/main/cpp/lz4/lib/lz4frame.c:677-785 | fails only below 19 bytes; otherwise the header is written and the context holds an empty input |
| FrameCompressor.Cctx.CompressUpdate | openvpn3/src/main/cpp/lz4/lib/lz4frame.c:930-1046 | fails exactly below LZ4F_compressBound_internal; otherwise all input is compressed or buffered and the bytes written continue the frame |
| FrameCompressor.Cctx.Flush | openvpn3/src/main/cpp/lz4/lib/lz4frame.c:1104-1143 | fails exactly for lack of room; otherwise nothing is left in the buffer |
| FrameCompressor.Cctx.CompressEnd | openvpn3/src/main/cpp/lz4/lib/lz4frame.c:1151-1187 | the bytes written since the beginning are a well-formed frame whose content is the whole input, unless another content size was announced |
| FrameCompressor.Cctx.OpenMeans | openvpn3/src/main/cpp/lz4/lib/lz4frame.c:930-1046 | at any time between calls: the blocks written mean all input but the buffered bytes, which are less than a block, and without autoFlush a full block can be buffered |
| FrameCompressor.Cctx.OpenElsewhere | openvpn3/src/main/cpp/lz4/lib/lz4frame.c:1009-1020 | without stableSrc the caller may reuse its source memory between calls |
| FrameRoundTrip.CompressFrame | openvpn3/src/main/cpp/lz4/lib/lz4frame.c:420-465 | too small exactly below LZ4F_compressFrameBound of the caller's own preferences; otherwise the output is a frame whose content is the source, and whose blocks are stored only if that is so |
| FrameRoundTrip.Session | openvpn3/src/main/cpp/lz4/lib/lz4frame.c:1048-1187 | any sequence of updates and flushes makes a frame whose content is all input, and whose blocks are stored only if the scan finds none that is shorter |
| FrameRoundTrip.RoundTrip | openvpn3/src/main/cpp/lz4/lib/lz4frame.c:1538-1556 | whatever session made a frame and however it is cut for decoding, the input comes out |
| HashValues.Nothing32 | openvpn3/src/main/cpp/lz4/lib/xxhash.c:263-389 | the hash of no bytes, seed 0, is 0x02CC5D05 |
| HashValues.Sentence32 | openvpn3/src/main/cpp/lz4/lib/xxhash.c:263-389 | the hash of the 39 bytes "Nobody inspects the spammish repetition", seed 0, is 0xE2293B2F |
| HashValues.SeededNothing32 | openvpn3/src/main/cpp/lz4/lib/xxhash.c:263-389 | the hash of no bytes, with the seed 2654435761 of the xxHash self-test, is 0x36B78AE7 |
| HashValues.SeededStripe32 | openvpn3/src/main/cpp/lz4/lib/xxhash.c:263-389 | the first 16 bytes of the sentence with that seed, one stripe computed step by step |
| HashValues.Nothing64 | openvpn3/src/main/cpp/lz4/lib/xxhash.c:666-852 | the hash of no bytes, seed 0, is 0xEF46DB3751D8E999 |
| HashValues.Sentence64 | openvpn3/src/main/cpp/lz4/lib/xxhash.c:666-852 | the hash of the sentence, seed 0, is 0xFBCEA83C8A378BF1 |
| HashValues.SelfTest64 | openvpn3/src/main/cpp/lz4/lib/xxhash.c:666-852 | the hash of 14 bytes of the self-test, with that seed, is 0x5B9611585EFCC9CB |
| HashValues.SeededStripe64 | openvpn3/src/main/cpp/lz4/lib/xxhash.c:666-852 | the first 32 bytes of the sentence with that seed, one stripe computed step by step |
| Xxh32.Finalize | openvpn3/src/main/cpp/lz4/lib/xxhash.c:290-345 | the fall-through switch is the loop of four-byte and one-byte steps |
| Xxh32.OneShot | openvpn3/src/main/cpp/lz4/lib/xxhash.c:351-389 | the hash by whole stripes and a tail |
| Xxh32.State.Update | openvpn3/src/main/cpp/lz4/lib/xxhash.c:451-513 | the state stands for everything hashed since the reset, with a wrapping length and a sticky flag |
| Xxh32.State.Digest | openvpn3/src/main/cpp/lz4/lib/xxhash.c:526-543 | the one-shot hash of everything since the reset, also past 2^32 bytes |
| Xxh32.HashParts | openvpn3/src/main/cpp/lz4/lib/xxhash.c:437-543 | however the input is cut, streaming gives the one-shot hash of the whole |
| Xxh64.Finalize | openvpn3/src/main/cpp/lz4/lib/xxhash.c:701-808 | the fall-through switch is the loop of eight-, four- and one-byte steps |
| Xxh64.OneShot | openvpn3/src/main/cpp/lz4/lib/xxhash.c:810-852 | the hash by whole stripes and a tail |
| Xxh64.State.Digest | openvpn3/src/main/cpp/lz4/lib/xxhash.c:980-1003 | the one-shot hash of everything since the reset, as long as the wrapped length tells whether there was a stripe |
| Xxh64.HashParts | openvpn3/src/main/cpp/lz4/lib/xxhash.c:898-1003 | however the input is cut, streaming gives the one-shot hash of the whole |
| DocoptTransform.Transform | openvpn3/src/main/cpp/fmt/support/docopt.py:72-96 | the loop ends on every tree; the result is a choice between lists of leaves that has the same cases as the tree, each as a multiset of leaves |
| DocoptTransform.Splice | openvpn3/src/main/cpp/fmt/support/docopt.py:91-94 | replacing a branch by its children, twice if repeated, keeps the cases of a list |
| DocoptTransform.Fork | openvpn3/src/main/cpp/fmt/support/docopt.py:87-90 | one list for each alternative: together they have the cases of the list |
| DocoptTransform.SpliceWeight | openvpn3/src/main/cpp/fmt/support/docopt.py:91-94 | the measure of the queue falls although OneOrMore doubles its children |
| DocoptTransform.ForkWeight | openvpn3/src/main/cpp/fmt/support/docopt.py:87-90 | the measure of the queue falls although the list is copied for each alternative |
| DnsCache.CachedResolver.Resolve | ovpnengine-src/wgdnscache.go:42-62 | one call alone: a live entry is served, else the inner answer is returned and, if positive, stored for TTL; the other names stay, unless 512 are stored |
| DnsCache.AloneResolves | ovpnengine-src/wgdnscache.go:42-62 | the steps of a call with nothing in between have the effect of that call |
| DnsCache.RunsAreSafe | ovpnengine-src/wgdnscache.go:42-62 | in every interleaving: at most 512 entries, none nil, and every hit is an answer the inner resolver gave for that name to a call begun less than the TTL before |
| DnsCache.StoredIsServed | ovpnengine-src/wgdnscache.go:42-62 | through stores for other names, as long as fewer than 512 names are stored, an answer is served to every call that begins before it expires, and the inner resolver is not asked |
| DnsCache.OnlyAnswersAreStored | ovpnengine-src/wgdnscache.go:50-60 | failures and nil answers leave the cache as it is |

## Left out

- RingBuffer.DecompressSafeContinue: copies proceed byte by byte and then leave arbitrary bytes behind their ends, within the output area; which bytes, and the order of reads and writes inside a wide copy, are not modelled there.
- RingBuffer.ReceiveAnySource: the synchronized mode of lz4.h:452-457, with rings of the same size and the same block boundaries, is not modelled; nor are empty blocks.
- Xxh64.State.Digest: past 2^64 bytes the wrapped length may hide that there was a stripe; one call cannot hash that much.
- FrameCompressor.Cctx.CompressUpdate: sources of more blocks than 32 bits can count are excluded, since the bound then is too small.
- FrameRoundTrip.Session: no chunk is larger than 2^48 - 2^32 bytes, for the same reason.
- FrameDecoder.Dctx.Step: well-formed frames only, as for Decompress.
- FrameRoundTrip.CompressFrame: sources of more blocks than 32 bits can count are excluded, as for CompressUpdate.
- FrameDecoder.Dctx.Decompress: well-formed frames from a fresh or completed context; which error a malformed frame yields, skippable frames, frame info queries and a reset in the middle of a frame are not modelled.
- Offset 0 in a block: invalid in the format; the model copies zeros.
- Linked frames at HC levels: LZ4_compress_HC_continue, its external dictionary and LZ4_saveDictHC; the frame compressor is modelled below level 3.
- LZ4F_uncompressedUpdate and switching between the two kinds of update within a frame.
- Dictionaries for frames (CDict, LZ4F_decompress_usingDict) and attached streams (usingDictCtx).
- Internal buffers of the frame contexts: sequences in a record for the decoder; for the compressor, the front of a memory shared with the caller. Block decoders and compressors called by the frame layer run on an array of their own whose result is copied.
- The total size counted by the frame compressor and the remaining size counted by the frame decoder do not wrap at 2^64.
- LZ4_NbCommonBytes and other intrinsics: the position of the first differing byte of a word.
- Overflow of the 32-bit length accumulator in the decoder, address wrap-around, alignment, big-endian branches, allocation failure, custom allocators.
- The byPtr table type, LZ4_compress_forceExtDict, deprecated and obsolete wrappers.
- Price optimality of the optimal parser: the prices are heuristic.
- SearchedRuns.MatchIsUsed: a search is exhaustive if the attempts reach the end of its chain; what is found by fewer attempts is not claimed, nor which of several matches is taken.
- FastStream.Stream.CompressFastContinue: what the table knew of the history when the scan began is any table of that size, except for the first candidate (FirstBack) and for entries that are kept (EntriesKept).
- OptimalParser.CompressOptimal: inside a stretch of at most 4096 bytes around a match, literals may be passed over as the prices tell.
- lz4file.c, bench.c, datagen.c, the other examples and the fuzzers.
- The rest of docopt.py and of the Go engine: input and output, or no hard property.
