# Magiskboot: a verified model of its compression stack and containers

magiskboot unpacks and repacks Android boot images. The model covers the code on which the bytes of such an image
depend: the LZ4 block codec, the LZ4 frame layer, the optimal parser of LZ4HC, xxHash, the LZ4 legacy stream, the newc
cpio archive with its commands, and the layout of boot and vendor_boot images. `dafny verify dfyconfig.toml` checks all
of it.

## How it is built

Code that works in place is imperative here too. Output buffers and hash tables are arrays that methods modify, contexts
such as `LZ4_stream_t`, `LZ4F_dctx`, `LZ4F_cctx`, `XXH32_state_t` and `CpioArchive` are classes, and every loop of the
source is a loop with invariants. Each is proved against a specification that copies one byte at a time or reads a whole
stream at once:

| files | what they specify or implement |
|---|---|
| Bytes, BlockFormat, BlockEncoding | bytes and words; the reference block decoder `Decode`, the end-of-block restrictions `Conforms`, the encoding of a list of sequences |
| Memory, BlockDecoder | wild copies and overlap tricks; `LZ4_decompress_generic` with fast loop, shortcut, three dictionary modes and partial decoding |
| SequenceWriter, BlockCompressor, Lz4Stream, BlockCodec | `LZ4_compress_generic_validated`, the streaming context with its renormalisation, the round trip |
| XxHash32, XxHash64 | one-shot hash, streaming state, their equality |
| FrameFormat, FrameReference | frame headers; a frame decoder on whole streams, and what it means to stand at a point of it |
| FrameHistory, FrameDecoder, FrameStreams | `LZ4F_updateDict` and the resumable `LZ4F_decompress`; decoding in arbitrary slices |
| FrameEncoding, FrameCompressor | what written blocks hold; `LZ4F_compressBegin`, `Update`, `flush`, `End`, `compressFrame` |
| Lz4HcChains, Lz4HcSearch, Lz4HcOptimal, Lz4HcCodec | chain tables as a full scan, match search with its heuristics, the price-driven parser with its in-place reversal |
| LegacyStream, FileFormats | the legacy container; `check_fmt` and `check_fmt_lg` |
| CpioFormat, CpioArchive, CpioCommands | header fields and names; the archive's bytes; the commands and their batches |
| BootHeader, BootImage, VendorRamdisk, BootRepack | header versions, `parse_image`, the fragment table, `unpack` and `repack` |

A pointer is an index into a buffer. `Conforms` says where a block may end and how far matches may reach; what the
compressors write conforms, and what conforms is never refused by the decoders. `Run` is the frame decoder on the whole
stream: the frame ends, or the input runs out before, or there is no frame. `strict` makes it insist on conforming
blocks. `Leads`, `Ends` and `Stuck` compare two places of a frame by what `Run` makes of the rest of the stream, so that
a call of `LZ4F_decompress` can be judged without the calls before it.

## Where the code differs from its comments or its purpose

Each of these is a theorem. It says exactly when the code does what it should, or "Left out" names the inputs that stay
open.

- `LZ4_memcpy_using_offset` writes more than 8 bytes behind its end, and up to 12, if and only if the offset is not 1, 2
  or 4 and the match is shorter than 8 bytes: `BlockDecoder.CopyUsingOffset`. Its comment speaks of 8.
- A length of 16843010 or more bytes 255 wraps the 32-bit sum of `read_variable_length`: `BlockFormat.WidthMatters`.
  Blocks written by the compressors are never affected: `BlockFormat.ConformingIgnoresWidth`.
- `LZ4F_resetDecompressionContext` leaves the count of missing bytes, and a next frame without a size is then
  never completed: `FrameReference.StaleCount`.
- A header may carry a content size or dictionary id of 0, which the writer never prints:
  `FrameFormat.ParsedHeaderPrints`.
- `lz4f_decompress` reports success for every frame that is cut off, at whatever byte, with a prefix of the content:
  `FrameStreams.Lz4fDecompress`, `FrameStreams.Lz4fCutOff`. On conforming blocks it succeeds without a frame if and only
  if the input runs out, as it does for the magic number alone: `FrameStreams.MagicAlone`. It also stops, with success
  and no output, behind a skippable frame: `FrameReference.SkippableInFront`.
- XXH64 keeps no flag for lengths that wrap 2^64; exactly when that spoils the digest says `XxHash64.DigestIsHash`.
- `check_fmt_lg` can loop for ever or answer wrongly when offset and size wrap: `FileFormats.LoopEnds`,
  `FileFormats.AnswerIsRight`, `FileFormats.WrappingSizeHangs`.
- The legacy reader refuses what the writer makes of empty input, and more than 256 MB: `LegacyStream.RoundTrip`.
- A cpio entry named `..` or as the trailer does not survive dump and load, and any data under `..` that do not start
  like an archive make the dump unreadable: `CpioArchive.RoundTrip`, `CpioArchive.DataTakenForHeader`.
- `mv` onto the same name loses the entry: `CpioCommands.MoveKeeps`.
- `repack` does not zero the sizes of extra and recovery_dtbo, and one to four bytes of extra data in a version 0 image
  make it look like a newer version: `BootRepack.RepackRestores`, `BootRepack.NotRestored`,
  `BootRepack.OneByteLost`.

## Model

| member | source | states |
|---|---|---|
| `BlockFormat.SelfReferenceIsCopy` | external/lz4/lz4.c:2112-2130 | a run each of whose bytes repeats the byte `offset` before it (zeros for offset 0) is exactly the byte-at-a-time copy; this turns what the strided copies write, stated by the `Memory` and `CopyUsingOffset` rows, into the reference decoding |
| `BlockFormat.ConformingDecodes` | external/lz4/lz4.c:217-221 | a block that meets the end-of-block restrictions decodes, and to exactly the announced number of bytes |
| `BlockFormat.ConformingTail` | external/lz4/lz4.c:1991-2036 | at a token of a conforming block at least 1 + min(5, bytes still to come) bytes of input are left, which is why the decoder's input-side limit may only be hit by the last sequence |
| `BlockFormat.ConformingIgnoresWidth` | external/lz4/lz4.c:1707-1729 | in a conforming block of less than 4 GB no length sum reaches 2^32, so the 32-bit accumulator of the decoder is exact |
| `BlockFormat.ShortInputIgnoresWidth` | external/lz4/lz4.c:1707-1729 | for any input below 16843010 bytes, conforming or not, decoding with 32-bit sums equals decoding with exact sums |
| `BlockFormat.WidthMatters` | external/lz4/lz4.c:1712-1726 | for every run of k bytes 255 the 32-bit sum is the real length if and only if 255 k < 2^32 |
| `BlockFormat.HistoryInFront` | external/lz4/lz4.c:227-230 | putting bytes in front of the history changes nothing once the block decoded or the history had 65535 bytes: the whole decoding just gets them in front |
| `BlockFormat.ConformsWithHistory` | external/lz4/lz4.c:217-230 | the end-of-block restrictions survive a longer history, and any replacement by at least 65535 bytes |
| `Memory.WildCopy8Within` | external/lz4/lz4.c:407-415 | copying in 8-byte strides behind itself writes, up to the exact overshoot end, the byte at that distance before each place, and nothing else |
| `Memory.WildCopy32Within` | external/lz4/lz4.c:462-470 | the same for 32-byte turns of two 16-byte copies at distances of 16 or more |
| `Memory.WildCopy8In` | external/lz4/lz4.c:407-415 | from read-only memory: source bytes up to the overshoot end, nothing outside it |
| `Memory.WildCopy32In` | external/lz4/lz4.c:462-470 | the 32-byte variant of the same promise |
| `Memory.SpreadShortOffset` | external/lz4/lz4.c:2122-2130 | after the inc32/dec64 trick eight bytes repeat at `offset` (offset 0 gives zeros) and the continuation source lies 8 to 14 bytes back |
| `Memory.ContinuedPeriod` | external/lz4/lz4.c:417-418 | copying on at those table distances keeps the period `offset` for any length: each distance is a multiple of the offset |
| `Memory.CopyForward` | external/lz4/lz4.c:2112-2113 | the byte-by-byte overlap loop repeats every byte at its distance |
| `BlockDecoder.ReadVariableLength` | external/lz4/lz4.c:1707-1729 | consumes the 255s up to the first smaller byte, returns their sum modulo 2^32, and tells which limit was hit |
| `BlockDecoder.LiteralLength` | external/lz4/lz4.c:1976-1983 | the literal length read is the reference one or provably overruns the input; refusal happens only on non-conforming blocks |
| `BlockDecoder.FastLiterals` | external/lz4/lz4.c:1801-1841 | the literals of the fast loop extend the output by the reference literals although they are copied in strides of 16 or 32 bytes; the jump to the safe path keeps the decoder's place |
| `BlockDecoder.CopyUsingOffset` | external/lz4/lz4.c:475-506 | for every offset, 0 included, whether by repeated pattern or table: the bytes up to the end repeat at that offset; for offsets 1, 2 and 4 at most 8 bytes behind it are written, for any other strides of 8 are, which pass 8 bytes (up to 12) if and only if the match is shorter than 8 |
| `BlockDecoder.ExtDictCopy` | external/lz4/lz4.c:1881-1911 | a match that starts in the external dictionary and may run on into the output, overlapping itself, is the byte-at-a-time copy over history and output; nothing past the match is written |
| `BlockDecoder.MatchLength` | external/lz4/lz4.c:2061-2068 | match length as in the reference; refusal only on non-conforming blocks |
| `BlockDecoder.FastMatch` | external/lz4/lz4.c:1843-1923 | one match of the fast loop: either the reference copy with 64 bytes of room kept, or a hand-over to the safe path with nothing lost, or an error that no conforming block causes |
| `BlockDecoder.FastLoop` | external/lz4/lz4.c:1796-1926 | the whole fast loop refines the reference decoder up to the label at which it leaves |
| `BlockDecoder.SafeToken` | external/lz4/lz4.c:1930-1983 | the two-stage shortcut ends at the next token, at the match copy or at the literal copy, each time with the reference output so far |
| `BlockDecoder.ShortcutMatch` | external/lz4/lz4.c:1958-1969 | 18 bytes copied on behalf of a match of 4 to 18 bytes at distance 8 or more: the match is the reference copy |
| `BlockDecoder.SafeLiterals` | external/lz4/lz4.c:1985-2052 | literals of the safe loop: full decoding ends exactly at the end of the input, partial decoding where the source lets it; errors only for non-conforming blocks or a window that is too small |
| `BlockDecoder.CopyNearEnd` | external/lz4/lz4.c:2137-2145 | strides up to 7 bytes before the window's end and single bytes behind them repeat the match and never leave the window |
| `BlockDecoder.SafeMatch` | external/lz4/lz4.c:2071-2150 | a match of the safe loop in all three dictionary modes is the reference copy; it is refused only if non-conforming or too long for the window |
| `BlockDecoder.PartialMatch` | external/lz4/lz4.c:2106-2120 | a match cut by the window ends partial decoding with a prefix of the reference output |
| `BlockDecoder.SafeLoop` | external/lz4/lz4.c:1928-2151 | from any label the fast loop may jump to, the safe loop ends with the reference decoding, or with an error that has one of two reasons |
| `BlockDecoder.DecompressGeneric` | external/lz4/lz4.c:1737-2165 | writes only the window; a non-negative full result is the reference decoding of the input; a conforming block that fits always succeeds with its size; partial decoding of a conforming block returns min(target, size) bytes, a prefix |
| `BlockDecoder.DecompressSafe` | external/lz4/lz4.c:2170-2176 | the same without history, as the public function promises it |
| `BlockDecoder.DecompressSafePartial` | external/lz4/lz4.c:2178-2185 | for every conforming block and every target: min(target, capacity, size) bytes, a prefix of the full decoding |
| `BlockDecoder.DecompressSafeUsingDict` | external/lz4/lz4.c:2404-2417 | whichever of the four variants is chosen by place and size of the dictionary, a success is the decoding behind that history |
| `BlockDecoder.DecompressForceExtDict` | external/lz4/lz4.c:2222-2230 | decoding with a dictionary elsewhere in memory |
| `BlockDecoder.DecompressWithSmallPrefix` | external/lz4/lz4.c:2213-2220 | decoding behind a prefix of any size below 64 KB |
| `BlockDecoder.DecompressWithPrefix64k` | external/lz4/lz4.c:2197-2203 | with 64 KB in front the offset test may be dropped, and a success still decodes behind exactly the given history |
| `BlockEncoding.GenuineParseRoundTrip` | external/lz4/lz4.c:851-1240 | any list of genuine sequences, encoded, decodes to the data it came from and conforms to the end-of-block restrictions |
| `BlockEncoding.ParseSize` | external/lz4/lz4.h:171-171 | the sequences that cover n bytes take at most n + n/255 bytes, however many there are |
| `BlockEncoding.BlockSize` | external/lz4/lz4.h:171-171 | a whole block of n bytes takes at most n + n/255 + 2 |
| `SequenceWriter.WriteLiterals` | external/lz4/lz4.c:1021-1046 | token and literals as encoded; wild-copy overshoot stays below the limit; refusal only in limited mode |
| `SequenceWriter.WriteMatchLength` | external/lz4/lz4.c:1097-1135 | adds the length to the token and writes exactly its extension, leaving five bytes of room |
| `SequenceWriter.WriteLongMatchLength` | external/lz4/lz4.c:1123-1133 | 255s written four at a time ahead of the position, then corrected: exactly the extension, never past the limit |
| `SequenceWriter.WriteLastLiterals` | external/lz4/lz4.c:1204-1231 | the last literals as encoded, or nothing written |
| `BlockCompressor.EligibleIsReadable` | external/lz4/lz4.c:984-1007 | an entry that passes the index test lies 1 to 65535 back and its four bytes can be read where they are, also at the end of an external dictionary; in the 16-bit table this needs no distance test |
| `BlockCompressor.PutIndex` | external/lz4/lz4.c:736-746 | entering a position keeps every table entry below the next position, whatever the hash function |
| `BlockCompressor.FindMatch` | external/lz4/lz4.c:927-1015 | a search that ends with a match has found four equal bytes at a distance of 1 to 65535; the table invariant holds either way |
| `BlockCompressor.Count` | external/lz4/lz4.c:602-626 | the longest common prefix within the limit, for both register sizes |
| `BlockCompressor.CatchUp` | external/lz4/lz4.c:1017-1019 | a match extended backwards is still a match, never before the anchor or the start of its segment |
| `BlockCompressor.MatchCode` | external/lz4/lz4.c:1075-1095 | the match is counted to its true end, across the boundary between dictionary and block, but for the last five bytes |
| `BlockCompressor.WriteMatch` | external/lz4/lz4.c:1048-1136 | offset and match length complete a genuine sequence; failure only in limited mode |
| `BlockCompressor.NextMatch` | external/lz4/lz4.c:1142-1197 | a match directly behind the last one is genuine, and the position is entered in the table either way |
| `BlockCompressor.WriteRunOfMatches` | external/lz4/lz4.c:1017-1197 | the goto _next_match loop: a run of matches keeps the output an encoding of a genuine parse |
| `BlockCompressor.CompressLoop` | external/lz4/lz4.c:921-1202 | the main loop: what is written is a genuine parse of everything before the anchor |
| `BlockCompressor.CompressValidated` | external/lz4/lz4.c:851-1240 | for every input, table, dictionary mode and acceleration: nothing outside [dst, olimit) is written, 0 is returned only in limited mode, and the result decodes to the input behind the history, conforms, and has at most n + n/255 + 2 bytes |
| `Lz4Stream.Stream.PrepareTable` | external/lz4/lz4.c:805-843 | the table kept for the next independent block has no entry that block could mistake for its own |
| `Lz4Stream.Stream.CompressFastExtState` | external/lz4/lz4.c:1284-1305 | with enough room never 0; a result decodes without history to the input |
| `Lz4Stream.Stream.CompressFastReset` | external/lz4/lz4.c:1316-1351 | the same although the table may still hold entries of earlier, unrelated blocks |
| `Lz4Stream.Stream.ResetFast` | external/lz4/lz4.c:1461-1463 | leaves a stream fit for linked compression without history |
| `Lz4Stream.Stream.Renorm` | external/lz4/lz4.c:1545-1561 | before indices pass 2^31 they are shifted: an entry within 64 KB keeps its distance, any other ends out of reach, and at least 64 KB of history stay |
| `Lz4Stream.Stream.CompressFastContinue` | external/lz4/lz4.c:1565-1637 | over whole runs of calls, wherever the source lies: the block decodes behind the stream's history, and the new history is an end of the old one with the source |
| `Lz4Stream.Stream.SaveDict` | external/lz4/lz4.c:1668-1684 | keeps the last min(size, 64 KB, available) bytes as history at their new place |
| `Lz4Stream.LongerHistory` | external/lz4/lz4.c:1565-1637 | a block made with some history decodes behind any longer one that ends in it |
| `BlockCodec.BlockDecodes` | external/lz4/lz4.c:1707-1729 | a compressed block decodes to the same content with the decoder's 32-bit sums |
| `BlockCodec.RoundTrip` | external/lz4/lz4.c:1354-1376 | for every input up to LZ4_MAX_INPUT_SIZE: compressing into LZ4_compressBound bytes gives 0 < n <= size + size/255 + 2, and decoding those n bytes succeeds if and only if the input fits, returning it |
| `XxHash32.StripesSplit` | external/lz4/xxhash.c:351-389 | stripes consumed in two parts equal stripes consumed at once |
| `XxHash32.Finalize` | external/lz4/xxhash.c:290-348 | the unrolled switch over the remaining length is the loop of word and byte steps |
| `XxHash32.OneShot` | external/lz4/xxhash.c:351-389 | the in-place stripe loop and the tail compute the hash of the whole input |
| `XxHash32.CountMore` | external/lz4/xxhash.c:464-465 | the 32-bit length and the sticky flag always say, despite wrapping, whether 16 bytes have been seen |
| `XxHash32.DigestIsHash` | external/lz4/xxhash.c:526-543 | lanes, held bytes, wrapped length and flag determine the hash of everything taken in |
| `XxHash32.State.Reset` | external/lz4/xxhash.c:437-448 | a state that stands for the empty input |
| `XxHash32.State.Update` | external/lz4/xxhash.c:451-512 | the state stands for what it stood for, followed by the input, whatever was held |
| `XxHash32.State.Digest` | external/lz4/xxhash.c:526-543 | the one-shot hash of all the input, of any length |
| `XxHash32.HashPieces` | external/lz4/xxhash.c:437-543 | for every division of the data into updates the digest is the one-shot hash |
| `XxHash64.StripesSplit` | external/lz4/xxhash.c:810-852 | stripes of 32 bytes in two parts equal stripes at once |
| `XxHash64.Finalize` | external/lz4/xxhash.c:701-808 | the unrolled switch is the loop of 8-byte, 4-byte and 1-byte steps |
| `XxHash64.OneShot` | external/lz4/xxhash.c:810-852 | the stripe loop and the tail compute the 64-bit hash |
| `XxHash64.AvalancheUndone` | external/lz4/xxhash.c:687-696 | the final mixing is injective: multiplications have inverses modulo 2^64, and a shifted exclusive or is undone from the top bit down |
| `XxHash64.TailUndone` | external/lz4/xxhash.c:701-808 | different values stay different through the tail of any input, so a wrong start always shows |
| `XxHash64.DigestIsHash` | external/lz4/xxhash.c:981-1003 | there is no sticky flag here: lanes, held bytes and wrapped length give the hash if and only if fewer than 2^64 bytes were hashed, or the wrapped total is at least 32, or the lanes happen to merge into what stands for no stripes |
| `XxHash64.State.Reset` | external/lz4/xxhash.c:898-909 | a state that stands for the empty input |
| `XxHash64.State.Update` | external/lz4/xxhash.c:911-969 | the state stands for what it stood for, followed by the input |
| `XxHash64.State.Digest` | external/lz4/xxhash.c:981-1003 | the one-shot hash of all the input if and only if the same condition holds |
| `XxHash64.HashPieces` | external/lz4/xxhash.c:898-1003 | for every division of the data into updates the digest is the one-shot hash if and only if that condition holds, so always below 2^64 bytes |
| `FrameFormat.HeaderRoundTrip` | external/lz4/lz4frame.c:1113-1236 | the header written for any valid preferences parses back to them, whatever follows, and LZ4F_headerSize agrees |
| `FrameFormat.ParsedHeaderPrints` | external/lz4/lz4frame.c:1113-1205 | conversely a header that parses is the header written for its fields if and only if no optional field is present with value 0 |
| `FrameFormat.HeaderExtends` | external/lz4/lz4frame.c:1113-1205 | once decided, the outcome does not depend on the bytes behind the header; a short header stays short until its announced size is there |
| `FrameReference.StrictRun` | external/lz4/lz4frame.c:1384-1879 | a frame whose blocks conform is decoded alike by the reference that insists on conformance and the one that does not |
| `FrameReference.HeaderKnown` | external/lz4/lz4frame.c:1417-1447 | a header known in full, in any number of pieces, leads to the frame or skippable frame it announces, or no frame exists |
| `FrameReference.BlockHeaderKnown` | external/lz4/lz4frame.c:1502-1532 | what each block header leads to; a size over the maximum leaves no frame |
| `FrameReference.RawStep` | external/lz4/lz4frame.c:1534-1572 | part of a raw block taken in adds exactly those bytes to content, history and checksum |
| `FrameReference.BlockKnown` | external/lz4/lz4frame.c:1610-1721 | a block at hand in full leads to its decoded content, or there is no frame |
| `FrameReference.SuffixKnown` | external/lz4/lz4frame.c:1746-1793 | the frame ends exactly when the checksum is that of the content |
| `FrameReference.SkipStep` | external/lz4/lz4frame.c:1830-1840 | a skippable frame ends after its announced number of bytes and has no content |
| `FrameReference.Truncated` | external/lz4/lz4frame.c:1384-1879 | where input is still needed, its end is the end of the input, with the content so far, and not an error |
| `FrameReference.MoreFrame` | external/lz4/lz4frame.c:1384-1879 | more input never changes the verdict on a whole frame or on an error; where the input ran out it keeps the content so far as a prefix |
| `FrameReference.FrameCutShort` | external/lz4/lz4frame.c:1384-1879 | a frame cut off anywhere runs out of input, with a prefix of its content |
| `FrameReference.SkippableInFront` | external/lz4/lz4frame.c:1795-1840 | a skippable frame ends at once with no content, whatever comes behind it |
| `FrameReference.StaleCount` | external/lz4/lz4frame.c:1097-1102 | the count of missing bytes is not cleared by a reset: after an abandoned frame the next one is decoded as if nothing had happened, unless it has a header without a size, and then it never ends |
| `FrameHistory.WindowDecodes` | external/lz4/lz4frame.c:1295-1362 | a block that decodes behind the kept window decodes alike behind the whole history |
| `FrameHistory.WindowConforms` | external/lz4/lz4frame.c:1295-1362 | a block that conforms behind the whole history conforms behind the kept window, so the decoder never refuses it |
| `FrameHistory.DecodeWithDict` | external/lz4/lz4frame.c:1654-1721 | decoding with a window in front of the output or elsewhere: success is the decoding behind everything sent |
| `FrameHistory.History.Prepare` | external/lz4/lz4frame.c:1451-1470 | a new frame starts with a buffer that is large enough and the given dictionary |
| `FrameHistory.History.UpdateDict` | external/lz4/lz4frame.c:1295-1362 | in all five cases, between blocks and while a block is being flushed, `dict` and `dictSize` address a window on everything sent |
| `FrameHistory.History.CopyInFront` | external/lz4/lz4frame.c:1329-1341 | history copied in front of tmpOut makes the buffer up to the block's end a window |
| `FrameHistory.History.AppendToTmp` | external/lz4/lz4frame.c:1343-1352 | appending to a history already in tmpOutBuffer, shortened to 64 KB if there is no room |
| `FrameHistory.History.JoinIntoTmp` | external/lz4/lz4frame.c:1354-1361 | the end of a history elsewhere is joined with the new bytes in tmpOutBuffer |
| `FrameHistory.History.MoveIntoTmp` | external/lz4/lz4frame.c:1322-1341 | while tmpOut is flushed the history comes in front of it and its block stays in place |
| `FrameHistory.History.FlushBlock` | external/lz4/lz4frame.c:1724-1744 | as much of the block as fits is handed over, in order, and the window follows |
| `FrameHistory.History.DecodeOut` | external/lz4/lz4frame.c:1654-1683 | a block decoded into the caller's buffer is the decoding behind the frame's history, and the window includes it |
| `FrameHistory.History.DecodeIntoTmp` | external/lz4/lz4frame.c:1685-1721 | a block decoded into tmpOut leaves the history it will need in place |
| `FrameHistory.History.Keep` | external/lz4/lz4frame.c:1844-1874 | at the end of a call nothing needed lies in the caller's buffer any more |
| `FrameHistory.History.KeepWhileFlushing` | external/lz4/lz4frame.c:1852-1863 | in the middle of a block's output the history is saved in front of the block |
| `FrameHistory.History.KeepBetweenBlocks` | external/lz4/lz4frame.c:1864-1873 | otherwise the last 64 KB are saved at the start of tmpOutBuffer |
| `FrameDecoder.KeptBuffersSuffice` | external/lz4/lz4frame.c:1451-1465 | buffers of an earlier frame, judged by one size alone, are large enough for both uses |
| `FrameDecoder.Decompressor.DecodeHeader` | external/lz4/lz4frame.c:1113-1205 | state and result for every outcome of parsing: error, skippable, short, complete |
| `FrameDecoder.Decompressor.ReadFrameHeader` | external/lz4/lz4frame.c:1417-1429 | from the stream or by storing its bytes, the machine stands where the reference does |
| `FrameDecoder.Decompressor.StoreHeader` | external/lz4/lz4frame.c:1431-1446 | a header that arrives in pieces gives the same outcome as one that arrives whole |
| `FrameDecoder.Decompressor.Reset` | external/lz4/lz4frame.c:1097-1102 | ready for a new frame, with the count of missing bytes left over |
| `FrameDecoder.Decompressor.StartFrame` | external/lz4/lz4frame.c:1448-1472 | a frame starts with empty content, fresh checksum and enough room |
| `FrameDecoder.Decompressor.ReadBlockHeader` | external/lz4/lz4frame.c:1475-1532 | a block header in any slicing leads where the reference goes |
| `FrameDecoder.Decompressor.CopyRaw` | external/lz4/lz4frame.c:1534-1572 | a raw block in any slicing: output, checksums and history all get the same bytes |
| `FrameDecoder.Decompressor.CheckRawChecksum` | external/lz4/lz4frame.c:1574-1608 | passes exactly on the checksum of the whole raw block |
| `FrameDecoder.Decompressor.ReadBlock` | external/lz4/lz4frame.c:1610-1637 | a compressed block is collected whole, from one piece of input or many |
| `FrameDecoder.Decompressor.DecodeBlock` | external/lz4/lz4frame.c:1639-1721 | checksum, then decoding into either buffer: the reference content, or an error that is right |
| `FrameDecoder.Decompressor.FlushTmpOut` | external/lz4/lz4frame.c:1724-1744 | what waits is delivered in order and only what fits |
| `FrameDecoder.Decompressor.ReadSuffix` | external/lz4/lz4frame.c:1746-1777 | the size check, and the end of a frame without checksum |
| `FrameDecoder.Decompressor.CheckSuffix` | external/lz4/lz4frame.c:1779-1793 | the frame ends exactly when the content checksum agrees |
| `FrameDecoder.Decompressor.Pass` | external/lz4/lz4frame.c:1412-1842 | one turn of the 15-stage switch keeps the invariant, follows the reference, and stops only for lack of input or room |
| `FrameDecoder.Decompressor.KeepHistory` | external/lz4/lz4frame.c:1844-1874 | between calls the machine depends on its own buffers only |
| `FrameDecoder.Decompressor.Decompress` | external/lz4/lz4frame.c:1384-1879 | a call on any slice with any room: errors are right for every continuation; 0 means the frame ended here with exactly the bytes delivered; otherwise the machine is where the reference is, and input plus room guarantee progress |
| `FrameDecoder.Decompressor.DecompressUsingDict` | external/lz4/lz4frame.c:1886-1899 | the same with a dictionary, which counts only until the header is complete |
| `FrameDecoder.Decompressor.Unfinished` | external/lz4/lz4frame.c:1384-1879 | a stream that ended at any stop would have run out of input, and what was delivered is a prefix of the content so far |
| `FrameStreams.OneResult` | external/lz4/lz4frame.c:1384-1879 | on input of conforming blocks the kind of result is fixed: complete exactly for a frame, truncated exactly when the input runs out, failed exactly otherwise, so slicing cannot matter |
| `FrameStreams.DecodeSliced` | external/lz4/lz4frame.c:1384-1879 | for all positive input slices and output rooms, chosen call by call, the loop ends with a correct result: the frame, a prefix of the content when the input ran out, or an error where no frame of conforming blocks goes on |
| `FrameStreams.Lz4fDecompress` | src/boot_crypto.cpp:137-163 | a frame gives success and its content; input that runs out inside a frame gives success and a prefix; on conforming blocks success is reported if and only if it is one of these two |
| `FrameStreams.CutFrame` | src/boot_crypto.cpp:137-163 | every proper beginning of a frame of conforming blocks, at whatever byte it is cut, is input that runs out |
| `FrameStreams.MagicAlone` | src/boot_crypto.cpp:137-163 | the four bytes of the magic number are such an input: success, with no output |
| `FrameEncoding.WriteMore` | external/lz4/lz4frame.c:825-927 | blocks appended to blocks hold the appended contents |
| `FrameEncoding.RawWrites` | external/lz4/lz4frame.c:740-763 | a raw block holds its own bytes |
| `FrameEncoding.BlockWrites` | external/lz4/lz4frame.c:740-763 | a compressed block holds what it decodes to behind the frame's history |
| `FrameEncoding.FrameComplete` | external/lz4/lz4frame.c:986-1022 | header, blocks and end mark are a frame of the content, whatever follows |
| `FrameEncoding.WholeFrame` | external/lz4/lz4frame.c:986-1022 | the reference decodes it to the content and stops right behind it |
| `FrameEncoding.BoundIsRoom` | external/lz4/lz4frame.c:324-349 | the closed formula of the bound is the room of the blocks when none shrinks, plus the end mark |
| `FrameEncoding.SmallerBlocksSameBound` | external/lz4/lz4frame.c:389-401 | choosing a smaller block size for a small source does not change the bound that was checked |
| `FrameCompressor.OptimalBSID` | external/lz4/lz4frame.c:304-316 | the smallest known block size that holds the source, never more than requested |
| `FrameCompressor.Compressor.MakeBlock` | external/lz4/lz4frame.c:740-763 | a block is stored compressed or raw within its bound, and holds the source behind everything before |
| `FrameCompressor.Compressor.Begin` | external/lz4/lz4frame.c:598-700 | the header is written if and only if 19 bytes are there, and the state is that of an empty frame |
| `FrameCompressor.Compressor.LocalSaveDict` | external/lz4/lz4frame.c:809-814 | the last 64 KB of history move to tmpBuff and remain the stream's history |
| `FrameCompressor.Compressor.Update` | external/lz4/lz4frame.c:825-927 | for every run of calls, also when a stable source keeps the history: the input so far is what the blocks decode to, then what waits in tmpBuff; no call exceeds the bound or leaves tmpBuff; errors exactly as coded |
| `FrameCompressor.Compressor.Flush` | external/lz4/lz4frame.c:938-974 | nothing waits afterwards |
| `FrameCompressor.Compressor.End` | external/lz4/lz4frame.c:986-1022 | header, all blocks and the end are a frame of all the input; it refuses only for lack of room or a wrong announced size, and the context is fit for another LZ4F_compressBegin |
| `FrameCompressor.Compressor.Adjust` | external/lz4/lz4frame.c:385-395 | the preferences really used: smaller blocks, independent when one suffices, the true content size |
| `FrameCompressor.Compressor.CompressFrame` | external/lz4/lz4frame.c:373-471 | fails if and only if the capacity is below LZ4F_compressFrameBound, otherwise writes a frame of the source within it |
| `FrameStreams.Lz4fCompress` | src/boot_crypto.cpp:124-135 | the buffer of the bound's size always suffices |
| `FrameStreams.Lz4fRoundTrip` | src/boot_crypto.cpp:124-163 | lz4f_decompress gives back every input lz4f_compress was given, although one side uses prefixes and the other external dictionaries |
| `FrameStreams.Lz4fCutOff` | src/boot_crypto.cpp:124-163 | whatever lz4f_compress wrote, cut off after any number of bytes: lz4f_decompress reports success, with some first part of the data |
| `FrameStreams.SlicedRoundTrip` | external/lz4/lz4frame.c:373-471 | for any preferences, any slices and rooms, and any bytes behind the frame: the input comes back and those bytes are left |
| `FrameStreams.FrameFollowed` | external/lz4/lz4frame.c:1384-1879 | a frame followed by anything decodes to its content and leaves the rest |
| `Lz4HcChains.IndexedMore` | external/lz4/lz4hc.c:118-136 | one insertion keeps the tables an exact description of all positions entered |
| `Lz4HcChains.ChainIsScan` | external/lz4/lz4hc.c:409-409 | from a position on, following the chain table meets what a full scan finds |
| `Lz4HcChains.WalkIsScan` | external/lz4/lz4hc.c:270-274 | from the hash table's entry the walk meets exactly the positions in the window with that hash, latest first |
| `Lz4HcChains.ScanIsExact` | external/lz4/lz4hc.c:270-274 | a position is met if and only if it lies in the range and has the hash |
| `Lz4HcChains.NothingIndexed` | external/lz4/lz4hc.c:100-114 | at the start of new data old entries are all out of reach |
| `Lz4HcChains.Index.Insert` | external/lz4/lz4hc.c:118-136 | after inserting up to a target the tables describe every position below it |
| `Lz4HcChains.Index.InitInternal` | external/lz4/lz4hc.c:100-114 | new indices start at least 64 KB above every old one, or the tables are cleared |
| `Lz4HcSearch.CountPattern` | external/lz4/lz4hc.c:169-200 | exactly how far the bytes continue the pattern, for both register sizes |
| `Lz4HcSearch.ReverseCountPattern` | external/lz4/lz4hc.c:202-220 | exactly how far the bytes before are the pattern, down to the limit |
| `Lz4HcSearch.TryCandidate` | external/lz4/lz4hc.c:280-294 | a candidate either becomes the best match, truly matching, or is provably not longer |
| `Lz4HcSearch.FasterChain` | external/lz4/lz4hc.c:313-335 | the chain switched to starts inside the match and its step is one the table holds |
| `Lz4HcSearch.InsideRun` | external/lz4/lz4hc.c:337-405 | a jump inside a repeated byte stays below the position searched for, and any match it reports is real |
| `Lz4HcSearch.FindWider` | external/lz4/lz4hc.c:235-443 | a match longer than asked for is real, within 65535 and the last five bytes; without the heuristics no candidate of the first maxNbAttempts of the full scan has a longer one |
| `Lz4HcOptimal.PriceIsSize` | external/lz4/lz4hc.c:1260-1283 | the price of a sequence is the number of bytes that encode it |
| `Lz4HcOptimal.LastPriceIsSize` | external/lz4/lz4hc.c:1260-1267 | likewise for the last literals, but for their token |
| `Lz4HcOptimal.FindLonger` | external/lz4/lz4hc.c:1291-1311 | a match found, also when cut to 18 for decompression speed, can be written |
| `Lz4HcOptimal.FillFirst` | external/lz4/lz4hc.c:1376-1410 | fills every cell up to three behind the first match for this segment |
| `Lz4HcOptimal.AddLiterals` | external/lz4/lz4hc.c:1498-1506 | three cells of literals behind the last match, all of this segment |
| `Lz4HcOptimal.TryLiterals` | external/lz4/lz4hc.c:1448-1461 | cheaper literals in front of a match keep every cell sound |
| `Lz4HcOptimal.TryMatch` | external/lz4/lz4hc.c:1463-1497 | cheaper or new ends of a match keep every cell up to the last position sound and fresh |
| `Lz4HcOptimal.Explore` | external/lz4/lz4hc.c:1412-1512 | no stale cell is read, and the choice ends the segment with a literal or a real match |
| `Lz4HcOptimal.Turned` | external/lz4/lz4hc.c:1521-1532 | one turn of the reversal moves the step to where it starts and keeps the path behind it |
| `Lz4HcOptimal.Reverse` | external/lz4/lz4hc.c:1517-1532 | the in-place reversal turns the cells' back pointers into a forward walk that tiles the segment |
| `Lz4HcOptimal.WriteMatchLengthHc` | external/lz4/lz4hc.c:522-537 | 255s in pairs: exactly the extension, with room for the last literals |
| `Lz4HcOptimal.EncodeSequenceHc` | external/lz4/lz4hc.c:463-544 | a genuine sequence joins the parse; failure only in limited mode |
| `Lz4HcOptimal.EmitPath` | external/lz4/lz4hc.c:1534-1548 | the recorded walk is emitted as genuine sequences, its literals taken along by the next match |
| `Lz4HcOptimal.CompressSegment` | external/lz4/lz4hc.c:1376-1548 | fill, explore, reverse and emit keep the output a genuine parse and the index exact |
| `Lz4HcOptimal.CompressOptimal` | external/lz4/lz4hc.c:1314-1615 | for every input and every parameter of the levels: the block decodes to the input, conforms, keeps within bound and limit, and is 0 only in limited mode |
| `Lz4HcCodec.HcState.ResetFast` | external/lz4/lz4hc.c:1027-1039 | a context is zeroed after a failure, otherwise its tables are kept |
| `Lz4HcCodec.HcState.CompressFastReset` | external/lz4/lz4hc.c:935-945 | over whole runs on one context: a block decodes to its input, and with enough room it is never 0 |
| `Lz4HcCodec.RoundTrip` | external/lz4/lz4hc.c:935-967 | levels 10 and above into a buffer of LZ4_compressBound bytes: decoding succeeds if and only if the data fit, and gives them back |
| `LegacyStream.HoldsContent` | src/boot_crypto.cpp:165-235 | a stream of the writer's blocks has one content, that of the reader |
| `LegacyStream.Compress` | src/boot_crypto.cpp:165-183 | writes the magic number and blocks that hold the input |
| `LegacyStream.Decompress` | src/boot_crypto.cpp:191-235 | success is the content of all blocks up to the end; on the writer's streams it fails exactly when empty or over 256 MB, with the reason coded |
| `LegacyStream.RoundTrip` | src/boot_crypto.cpp:165-235 | for every input: it comes back if and only if it has between 1 byte and 256 MB |
| `FileFormats.LegacyMagicDecides` | src/bootimg.cpp:65-99 | of all formats, LZ4 legacy is chosen if and only if its magic number stands first |
| `FileFormats.LoopEnds` | src/bootimg.cpp:303-311 | for every buffer, wrapping sizes included: check_fmt_lg returns within size + 1 turns if no offset repeats, and never otherwise |
| `FileFormats.AnswerIsRight` | src/bootimg.cpp:300-314 | when it returns, the answer is right if and only if no sum wrapped on the way or the answer is the LG variant |
| `FileFormats.NarrowIsRight` | src/bootimg.cpp:300-314 | without wrapping sums it returns, and with the right answer |
| `FileFormats.CheckFormatLg` | src/bootimg.cpp:300-314 | the loop itself, on every buffer on which it returns, gives that answer |
| `FileFormats.WrappingSizeHangs` | src/bootimg.cpp:303-311 | an eight-byte stream on which the loop never ends |
| `FileFormats.CompressedIsLegacy` | src/bootimg.cpp:300-314 | what lz4_legacy_compress writes for up to 256 MB is recognised as LZ4 legacy |
| `CpioFormat.HexRoundTrip` | src/cpio.cpp:39-73 | a 32-bit number survives printing and strtoul |
| `CpioFormat.NormalizeIdempotent` | src/cpio.cpp:135-159 | normalising twice is normalising once |
| `CpioFormat.NormalizePath` | src/cpio.cpp:135-159 | the two loops compute the segments that count, joined by single slashes |
| `CpioFormat.SplitPath` | src/cpio.cpp:136-150 | the first loop finds exactly the segments that are neither empty nor "." |
| `CpioArchive.EntryTurn` | src/cpio.cpp:225-275 | a written entry at an aligned place is read with its own name, numbers and data, and the reader ends where the writer did |
| `CpioArchive.EntryLoads` | src/cpio.cpp:196-276 | so reading it adds that entry under its normalised name |
| `CpioArchive.TrailerLoads` | src/cpio.cpp:239-254 | behind a trailer the next magic string, if any, starts another archive |
| `CpioArchive.BlindData` | src/cpio.cpp:239-254 | no magic string begins in the data or padding of an entry whose data hold none, not even across its end, so the search behind a trailer name finds the next header |
| `CpioArchive.RoundTrip` | src/cpio.cpp:161-303 | unless the data of an entry ".." start with the magic string, or those of one named as the trailer contain it: load(dump(m)) is refused if ".." has data and is m without the special names otherwise, so it is m if and only if neither name occurs |
| `CpioArchive.Overlay` | src/cpio.cpp:239-254 | two dumps with a multiple of four zeros between them load as the first overridden by the second; neither may have data under "..", or the magic string in the data of an entry named as the trailer |
| `CpioArchive.LoadsTidy` | src/cpio.cpp:161-279 | whatever file is loaded, all names are normalised and all entries fit the format again |
| `CpioArchive.Rewritten` | src/cpio.cpp:161-303 | an archive loaded from any file, whose special entries hold no start of another archive, is kept by dump and load if and only if it has no entry named ".." or as the trailer |
| `CpioArchive.DataTakenForHeader` | src/cpio.cpp:236-238 | the data of an entry "..", as loaded from a name like "/..", are read as the next header: in a dump any data that do not start with the magic string make the reader refuse the file |
| `CpioCommands.AscendingIsUnique` | src/cpio.cpp:288-294 | the map alone fixes the order in which entries are written |
| `CpioCommands.DumpIsUnique` | src/cpio.cpp:281-303 | one archive has one dump |
| `CpioCommands.DumpIsStable` | src/cpio.cpp:161-303 | dump, load and dump again gives the file byte for byte |
| `CpioCommands.MoveKeeps` | src/cpio.cpp:351-361 | mv keeps the entry if and only if the names differ; onto the same name it is lost |
| `CpioCommands.MoveBack` | src/cpio.cpp:351-361 | moving back undoes a move if and only if it overwrote nothing |
| `CpioCommands.Archive.Search` | src/cpio.cpp:210-249 | both search loops find the first magic string of their range |
| `CpioCommands.Archive.LoadEntry` | src/cpio.cpp:225-275 | one turn of the loader does what the recursive reader does |
| `CpioCommands.Archive.Load` | src/cpio.cpp:161-279 | the loader accepts exactly the files the reader accepts, with its entries |
| `CpioCommands.Archive.Dump` | src/cpio.cpp:281-303 | writes the entries in ascending order, numbered, and the trailer |
| `CpioCommands.Archive.Exists` | src/cpio.cpp:305-307 | whether the normalised path is in the archive |
| `CpioCommands.Archive.Test` | src/cpio.cpp:309-318 | 1, 2 or 0 by the first kind of known file present |
| `CpioCommands.Archive.Add` | src/cpio.cpp:320-335 | one entry set, permission bits kept and type set, or nothing if the source cannot be read |
| `CpioCommands.Archive.Mkdir` | src/cpio.cpp:337-345 | one directory entry set |
| `CpioCommands.Archive.Rm` | src/cpio.cpp:347-349 | one entry removed, and whether it was there |
| `CpioCommands.Archive.Mv` | src/cpio.cpp:351-361 | assign, then erase, or nothing |
| `CpioCommands.Archive.Execute` | src/cpio.cpp:370-434 | one command has exactly its effect, ends the run with its code, or changes nothing |
| `CpioCommands.Commands` | src/cpio.cpp:363-441 | a run: the exit code, and the file rewritten only at its successful end and only if something changed |
| `CpioCommands.RunMore` | src/cpio.cpp:370-435 | a list of commands is its first part followed by the rest |
| `CpioCommands.Batching` | src/cpio.cpp:363-441 | if the first of two calls succeeds and leaves an archive that dump and load keep: one call with all commands leaves the same file as the two calls if and only if the whole list succeeds or the first call left the file alone |
| `BootHeader.FieldsApart` | src/bootimg.hpp:119-207 | in every header version different sections have their sizes in different bytes |
| `BootHeader.SizeSet` | src/bootimg.hpp:225-420 | a size set is read back if the version has it, and no other size changes |
| `BootImage.ParseImage` | src/bootimg.cpp:473-505 | the nine get_block steps give the recursive offsets and refuse exactly when a block ends behind the mapping |
| `BootImage.ParsedIsWellCut` | src/bootimg.cpp:461-505 | payload and tail partition the mapping; blocks are page-aligned, ascending and disjoint |
| `VendorRamdisk.TableRoundTrip` | src/bootimg.hpp:209-215 | a fragment table that is written is read back |
| `VendorRamdisk.WriteFragments` | src/bootimg.cpp:774-798 | the loop records each fragment's size and the running offset while the ramdisk grows |
| `VendorRamdisk.RetabledTiles` | src/bootimg.cpp:774-798 | the new offsets are prefix sums: the entries tile the ramdisk, each with its fragment |
| `BootRepack.NewSizes` | src/bootimg.cpp:698-863 | every size of the new header, and that nothing deciding version or page size changes |
| `BootRepack.DetectedAgain` | src/bootimg.hpp:129-144 | the version is recognised again unless a version 0 size of extra data in the shared field looks like a newer version |
| `BootRepack.RepackRestores` | src/bootimg.cpp:683-1002 | parsing the repacked image gives back every block if and only if each section's size can be recorded and the version is still recognised, a condition on image and files |
| `BootRepack.NotRestored` | src/bootimg.cpp:698-703 | two inputs that fail: one byte of extra data in version 0, and a version 1 image without its recovery_dtbo file |
| `BootRepack.OneByteLost` | src/bootimg.cpp:698-703 | a concrete one: an empty version 0 image with pages of 2048 bytes, to which one byte of extra data is added |
| `BootRepack.FragmentsRestored` | src/bootimg.cpp:772-858 | from a repacked vendor image every ramdisk fragment is read back through the rewritten table |
| `BootRepack.UnpackedContents` | src/bootimg.cpp:611-671 | unpacking and repacking writes every block but ramdisk and table as it was |
| `BootRepack.UnpackedIsRecordable` | src/bootimg.cpp:611-863 | the files that unpack leaves can be repacked if and only if the table's size is that of its entries |
| `BootRepack.Header.SetSize` | src/bootimg.hpp:298-300 | the setter writes its own field and nothing else, and nothing at all where a version has none |
| `BootRepack.WriteBlocks` | src/bootimg.cpp:724-863 | blocks, padding to the page, and their sizes in the header |
| `BootRepack.Repack` | src/bootimg.cpp:683-1002 | the file written: new header, header page, padded blocks, the rest |

## Left out

- BlockDecoder.DecompressSafePartial: says nothing of the content it returns for blocks that do not conform; where it
  writes and how much it returns is promised for them as well.
- FrameCompressor.Compressor.MakeBlock: compression levels below 3 only, as are the theorems on whole frames; the
  program uses level 0. LZ4F_compressBlockHC for independent blocks and LZ4_compress_HC_continue, which levels from 3 on
  select, are not composed with the frame compressor.
- Lz4HcSearch.FindWider: with pattern analysis, chain swap or favorDecSpeed it promises a real match, not that nothing
  longer was passed over; those heuristics skip candidates on purpose.
- FrameStreams.Lz4fDecompress: for input with a block that does not conform it says what success means, not when it is
  reported. LZ4_decompress_generic takes some such blocks and refuses others, depending on whether the fast loop was
  built in and on whether the history is a prefix or elsewhere, and so on how a stream is sliced.
- FrameStreams.DecodeSliced: likewise.
- CpioArchive.RoundTrip: open for archives in which the data of an entry named `..` start with the magic string, or those
  of an entry named as the trailer contain it; such data are read as further headers.
- CpioArchive.Overlay: only for archives that can be read back without a refusal.
- LZ4 blocks: LZ4_loadDict, dictCtx attachment (LZ4_attach_dictionary, CDict), the byPtr table of 32-bit machines, the
  fillOutput/destSize variants, the LZ4_decompress_fast family, partial decoding with a dictionary, and source and
  destination that overlap in memory.
- LZ4HC: the lazy parser of levels 3 to 9 (LZ4HC_compress_hashChain), external dictionaries, dictCtx and streaming.
- LZ4_NbCommonBytes: the position of the first differing byte, not the bit tricks that find it; little-endian machines
  only.
- LZ4F: LZ4F_getFrameInfo, stableDst, a NULL destination, stableSrc without automatic flushing, failing allocations, and
  the unsigned cast of the number of blocks in the bound. The decoder's staging buffers for headers and blocks are one
  sequence.
- Streams keep their history as a value with its address, not as memory that a caller could overwrite.
- xxHash: the canonical byte order forms and state copies.
- Boot images: loaders in front of the header (AMONET, NOOKHD, ACCLAIM, DHTB, BLOB, ChromeOS), MTK headers, zImage
  kernels, the split of a kernel from its device tree, AVB footers and vbmeta, the header text file, and recompression of
  sections: files are written in the form they have. The id of an image is a parameter, as is what follows the blocks.
- cpio: splitting a command line at white space (commands are lists of words).
- File, mapping and environment access, logging, zlib, OpenSSL, bzip2, xz and lzma: not part of this model; file contents
  are byte sequences, writes are complete.
