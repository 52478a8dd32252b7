# The LZ4 library, modelled and proved

This project models the LZ4 library that lives under `openvpn/src/main/cpp/lz4/lib`: the block codec, the HC
compressor, the frame layer and xxHash, in the form the library has. Streams, contexts, tables and hash states are
classes whose methods update them; memory is one sequence or array of bytes and pointers are indices into it; gotos
are loops with an explicit phase.

- **The format.** `BlockFormat.Decode` is a byte-at-a-time decoder of a block after a history, and
  `FrameFormat.ParseFrame` says what a frame stands for. Everything else is proved against these two. `Block32` is what
  the library's decoder makes of any bytes, and where that is what the format says.
- **Block compressors.** The fast compressor (`FastTable` to `FastContinue`) with its output regimes, history modes,
  table reuse, dictionaries and unbounded streams; the HC compressor (`HcTables` to `HcApi`) with the wider match
  search, the lazy three-match parser, the optimal parser, its window and its stream. `Alias` is about a dictionary
  that starts where the source does. `Runs`, `FastRun` and `HcRun` are whole runs of blocks.
- **Block decoder.** `DecoderCopies` to `DecoderRing`: the strided copies, the decoding loop, partial, dictionary and
  in-place decoding, and the stream decoder in a ring buffer.
- **Frame compressor.** `FrameEncoding` to `FrameSession`: header, blocks, private buffer, capacity, one-shot calls,
  and every sequence of update and flush calls, at all compression levels, with and without a dictionary.
- **Frame decoder.** `FrameHistory` to `FrameReader`: the resumable state machine with its moving window, whole frames
  cut in any way, and frame after frame. `FrameRoundTrip` and `FrameWhole` join the two ends.
- **xxHash.** `Xxh32` and `Xxh64`: one-shot functions and streaming states.

Nothing was executed. Hash tables enter the proofs only through the range of the hash and through equal positions
hashing equally. Pointers are indices, NULL is an address that no buffer has, and allocation succeeds at an address
that is a parameter.

## Model

| member | source | states |
|---|---|---|
| BlockFormat.DecodeBlock | openvpn/src/main/cpp/lz4/lib/lz4.c:214-226 | A list of sequences whose matches are genuine, encoded one after the other and closed by literals, decodes to exactly the text they tile, after any history. |
| BlockFormat.BlockWithinBound | openvpn/src/main/cpp/lz4/lib/lz4.h:170-171 | Every such block for n bytes has at most n + n/255 + 16 bytes. |
| BlockFormat.DecodeSuffix | openvpn/src/main/cpp/lz4/lib/lz4.c:2404-2417 | More history in front changes nothing for a block that decodes without it. |
| BlockShape.RestSize | openvpn/src/main/cpp/lz4/lib/lz4.h:502-516 | From every sequence on, the rest of a well-formed block is at most its decoded size plus a 255th of it and a constant. |
| BlockShape.InplaceMarginHolds | openvpn/src/main/cpp/lz4/lib/lz4.h:502-554 | At every token of a block placed at the end of the in-place buffer, the distance between reading and writing exceeds the largest copy overshoot. |
| MatchLength.CommonLengthIsCommon | openvpn/src/main/cpp/lz4/lib/lz4.c:602-626 | The common length is common, and maximal up to the limit. |
| MatchLength.Count | openvpn/src/main/cpp/lz4/lib/lz4.c:602-626 | Comparing in words of 8, the differing word settled byte-wise, then 4, 2 and 1, gives exactly the common length. |
| MatchLength.CountBack | openvpn/src/main/cpp/lz4/lib/lz4hc.c:138-153 | The backward counter gives the longest common extension that the two lower limits allow. |
| MatchLength.CountPattern | openvpn/src/main/cpp/lz4/lib/lz4hc.c:169-200 | The forward pattern counter gives the exact number of bytes that repeat the pattern. |
| MatchLength.ReverseCountPattern | openvpn/src/main/cpp/lz4/lib/lz4hc.c:202-224 | The backward pattern counter gives the exact number of bytes in front that repeat the pattern. |
| FastSearch.FindMatch | openvpn/src/main/cpp/lz4/lib/lz4.c:926-1013 | The search in growing steps ends; a match it finds is four equal bytes within distance 65535, in the segment its index says; all entries stay below the current index. |
| FastSearch.CatchUp | openvpn/src/main/cpp/lz4/lib/lz4.c:1016-1018 | The backward extension is the same match, moved back as far as bytes agree and segment and anchor allow. |
| FastSearch.Measure | openvpn/src/main/cpp/lz4/lib/lz4.c:1075-1095 | The length counted to the end of the dictionary and on from the start of the source is the length of a genuine match that ends by matchlimit, also where the pointer test takes a match in the source for one in the dictionary. |
| Alias.TameIsExact | openvpn/src/main/cpp/lz4/lib/lz4.c:1081-1095 | If a dictionary of k bytes starts where a source of n bytes does, the length of every match in the source is right for every content if and only if n < 14, or n < k + 7, or k = 4 and n = 14. |
| Alias.RunIsHarmful | openvpn/src/main/cpp/lz4/lib/lz4.c:1081-1095 | For all other sizes from k = 5 on, a source and a match in it that come out wrong. |
| Alias.FourIsHarmful | openvpn/src/main/cpp/lz4/lib/lz4.c:1081-1095 | The same for k = 4 and n of 15 or more. |
| FastEncoder.Emit | openvpn/src/main/cpp/lz4/lib/lz4.c:1020-1138 | One sequence: refused, rewound or written exactly as the output regime demands, with all 8-byte and 4-byte stores inside the output; a shortened match is a genuine one. |
| FastCompressor.ClearFrom | openvpn/src/main/cpp/lz4/lib/lz4.c:1097-1121 | Clearing the hashes on [ip, filledIp] leaves no entry at or beyond ip, even if positions collide. |
| FastCompressor.EncodeMatch | openvpn/src/main/cpp/lz4/lib/lz4.c:1045-1141 | From a match in hand: sequence written, table free of entries at or beyond its end; or the output was too small. |
| FastCompressor.CompressJob | openvpn/src/main/cpp/lz4/lib/lz4.c:851-1240 | For every table its callers may leave: termination; the block decodes to what was consumed, obeys the end-of-block rules and the output limit; 0 only if the output is smaller than the bound; a fill-output block that stopped early leaves at most one byte; the table fits the next call. |
| FastStream.Stream.CompressGeneric | openvpn/src/main/cpp/lz4/lib/lz4.c:1246-1281 | The same for a stream in each history mode, with the new state of all its fields. |
| FastApi.CompressFastExtState | openvpn/src/main/cpp/lz4/lib/lz4.c:1284-1306 | One-shot compression with a state: the block decodes to the source, and 0 only if the output is smaller than the bound. |
| FastApi.CompressDefault | openvpn/src/main/cpp/lz4/lib/lz4.c:1354-1376 | The same on a state of its own. |
| FastApi.CompressDestSize | openvpn/src/main/cpp/lz4/lib/lz4.c:1382-1415 | Fill-output compression: at most the target size, decoding to exactly the consumed prefix, all of it when the target reaches the bound, and at most one byte unused when the input was cut. |
| FastApi.PrepareTable | openvpn/src/main/cpp/lz4/lib/lz4.c:805-843 | When the table is cleared, what becomes of currentOffset, and that no dictionary is left. |
| FastApi.CompressFastReset | openvpn/src/main/cpp/lz4/lib/lz4.c:1316-1351 | On any reusable state the block is as from a fresh one, and the state is reusable again, also when 0 was returned. |
| FastApi.CompressMany | openvpn/src/main/cpp/lz4/lib/lz4.c:1309-1351 | Any sequence of such calls from LZ4_initStream, successful or not: every block decodes to its own source. |
| FastHistory.RenormDictT | openvpn/src/main/cpp/lz4/lib/lz4.c:1545-1562 | Rescaling keeps the stream's invariant and every index that still counts; the dictionary keeps its end. |
| FastHistory.LoadDict | openvpn/src/main/cpp/lz4/lib/lz4.c:1475-1515 | The stream knows the end of the dictionary, which is in place, and no entry points in front of it. |
| FastHistory.AttachDictionary | openvpn/src/main/cpp/lz4/lib/lz4.c:1517-1542 | An attached dictionary is the history of the stream that was reset. |
| FastHistory.SaveDict | openvpn/src/main/cpp/lz4/lib/lz4.c:1668-1684 | The saved bytes are the end of the history in their new place, however they overlap the old one; with a dictionary still attached, unless data has come after it and none is saved. |
| FastHistory.SavedNothing | openvpn/src/main/cpp/lz4/lib/lz4.c:1668-1684 | In that case the stream goes back to the dictionary, which for some contents of any sizes is not the end of the history. |
| FastHistory.IndexNamesByte | openvpn/src/main/cpp/lz4/lib/lz4.c:1565-1635 | A live index names the history byte at distance currentOffset - index. |
| FastHistory.Oversize | openvpn/src/main/cpp/lz4/lib/lz4.c:1613-1635 | A source beyond LZ4_MAX_INPUT_SIZE leaves sane bookkeeping if and only if it came in prefix mode or does not exceed the index space in use. |
| FastContinue.CompressFastContinue | openvpn/src/main/cpp/lz4/lib/lz4.c:1565-1638 | In prefix, external and attached dictionary mode, after any history, the block decodes to its source after that history and the stream knows the longer history, also when 0 was returned; with the new addresses and offset. |
| FastContinue.TracksReady | openvpn/src/main/cpp/lz4/lib/lz4.c:1565-1600 | Renorming, invalidating tiny dictionaries and trimming overlapping ones lose no byte that the call still uses. |
| FastContinue.SameSourceAgain | openvpn/src/main/cpp/lz4/lib/lz4.c:1584-1600 | Compressing a buffer again from its start, with more of it, is such a case: excluded, with a match that comes out wrong. |
| FastContinue.AttachedThenElsewhere | openvpn/src/main/cpp/lz4/lib/lz4.c:1596-1625 | Dictionary, empty block at a, block at a, block elsewhere: the last call is not allowed, all others are, and so is going on behind the block. |
| FastContinue.StrayIsHarmful | openvpn/src/main/cpp/lz4/lib/lz4.c:1603-1625 | For all sizes of dictionary, intermediate data and source there are contents for which a match found in the dictionary is wrong in the real history. |
| FastRun.CompressRun | openvpn/src/main/cpp/lz4/lib/lz4.c:1565-1638 | Any number of blocks from LZ4_initStream, the caller's memory changing between them: every nonempty result decodes to its source after all earlier data. |
| Runs.RoundTripThroughRing | openvpn/src/main/cpp/lz4/lib/lz4.c:2295-2359 | The blocks of a run, decoded one after the other into a ring buffer, give back all the data. |
| HcTables.HcTable.Insert | openvpn/src/main/cpp/lz4/lib/lz4hc.c:117-136 | Hash entries and chain deltas reach only earlier positions of the window, and all positions up to ip are entered. |
| HcMatchFinder.TryPattern | openvpn/src/main/cpp/lz4/lib/lz4hc.c:337-406 | The repeated-pattern jump claims only lengths that are really equal, in prefix and dictionary. |
| HcMatchFinder.InsertAndGetWiderMatch | openvpn/src/main/cpp/lz4/lib/lz4hc.c:235-443 | Whenever the result improves on `longest`, its span equals the bytes at the match, lies within distance 65535, and starts and ends within the limits, across prefix, external and attached dictionary. |
| HcEncoder.EmitSequence | openvpn/src/main/cpp/lz4/lib/lz4hc.c:463-545 | A sequence is written exactly as the format says, or refused when the limit says so, with its 8-byte stores inside the output. |
| HcParser.CorrectedOk | openvpn/src/main/cpp/lz4/lib/lz4hc.c:624-641 | The corrected second match is genuine, keeps its end, and starts at least four bytes behind the first one, where the shortened first one ends. |
| HcParser.CompressHashChain | openvpn/src/main/cpp/lz4/lib/lz4hc.c:549-784 | For all tables that fit the window the lazy parser ends; its block decodes to what was consumed with the end-of-block rules and the output limit; and nothing behind the end minus 9 has been entered. It reads nothing behind a dictionary. |
| HcOptimal.SequencePriceIsSize | openvpn/src/main/cpp/lz4/lib/lz4hc.c:1271-1283 | The price of a sequence is the number of bytes its encoding has. |
| HcOptimal.LiteralsPriceIsSize | openvpn/src/main/cpp/lz4/lib/lz4hc.c:1260-1268 | The price of literals is the number of bytes of a last run, but for its token. |
| HcOptimal.Reverse | openvpn/src/main/cpp/lz4/lib/lz4hc.c:1517-1534 | The backward walk reaches 0, and its rewrite in place makes the forward walk visit the same hops in reverse. |
| HcOptimal.CompressOptimal | openvpn/src/main/cpp/lz4/lib/lz4hc.c:1314-1602 | The optimal parser ends and emits only genuine matches; block, limits and tables as for the lazy one. |
| HcStream.ResetStreamHCFast | openvpn/src/main/cpp/lz4/lib/lz4hc.c:1027-1039 | Any stream, dirty or not, has an empty history again and tables no entry of which reaches the new index space. |
| HcStream.LoadDictHC | openvpn/src/main/cpp/lz4/lib/lz4hc.c:1056-1075 | The stream knows the last 64 KB of the dictionary, with valid tables. |
| HcStream.AttachHCDictionary | openvpn/src/main/cpp/lz4/lib/lz4hc.c:1077-1081 | The attached dictionary is the history of the stream. |
| HcStream.SetExternalDict | openvpn/src/main/cpp/lz4/lib/lz4hc.c:1083-1099 | The prefix becomes the external dictionary, and the tables are valid for the new window. |
| HcStream.SaveDictHC | openvpn/src/main/cpp/lz4/lib/lz4hc.c:1158-1180 | The saved bytes are the end of the history in their new place; with an attached dictionary the whole history is kept if all of the prefix or 64 KB were saved, or the dictionary is empty. |
| HcSaved.SavedExactly | openvpn/src/main/cpp/lz4/lib/lz4hc.c:1158-1180 | And only then: for all sizes and places, saving keeps the history of every content if and only if that condition holds. |
| HcSaved.SaveThousandOfFive | openvpn/src/main/cpp/lz4/lib/lz4hc.c:1158-1180 | An input: dictionary attached, 5000 bytes compressed, 1000 saved; behind them the dictionary is still attached, taken to end where the 1000 bytes start, and the history is not in place. |
| HcSaved.LostBytesAreHarmful | openvpn/src/main/cpp/lz4/lib/lz4hc.c:413-440 | For all sizes of dictionary, data, saved part (within reach) and source there are contents for which a match the stream sees across the gap is none in the history. |
| HcHistory.IndexNamesByte | openvpn/src/main/cpp/lz4/lib/lz4hc.c:1101-1135 | An index of the window names the history byte at its distance from the end. |
| HcHistory.NextInPlace | openvpn/src/main/cpp/lz4/lib/lz4hc.c:1101-1135 | Reloading, switching and trimming segments lose no byte that the window still shows, and the source joins it. |
| HcApi.CompressHCFastReset | openvpn/src/main/cpp/lz4/lib/lz4hc.c:935-945 | One-shot compression at every level on a used stream: the block decodes to the source. |
| HcApi.CompressHC | openvpn/src/main/cpp/lz4/lib/lz4hc.c:954-967 | The same on a stream of its own. |
| HcApi.CompressHCContinue | openvpn/src/main/cpp/lz4/lib/lz4hc.c:1101-1144 | At every level, in every history mode, the block decodes to its source after the history, and the stream knows the longer one. |
| HcRun.CompressRun | openvpn/src/main/cpp/lz4/lib/lz4hc.c:1101-1144 | Any number of HC blocks from LZ4_initStreamHC: every nonempty result decodes to its source after all earlier data. |
| DecoderCopies.TablesGiveMultiples | openvpn/src/main/cpp/lz4/lib/lz4.c:416-417 | With inc32table and dec64table the distance after the first eight bytes is a multiple of the offset and at least 8. |
| DecoderCopies.CopyWithin | openvpn/src/main/cpp/lz4/lib/lz4.c:2108-2150 | The overlapping copy in strides gives exactly the byte-at-a-time result, bytes 0 at offset 0, and overshoots only within the output. |
| DecoderLengths.ReadVariableLength | openvpn/src/main/cpp/lz4/lib/lz4.c:1707-1728 | For any bytes: the 32-bit sum of a length that ends in front of lencheck; else whether it was complete, or a run of bytes 255, when lencheck was reached. |
| Block32.SameMeaning | openvpn/src/main/cpp/lz4/lib/lz4.c:1707-1728 | What the decoder makes of a block (lengths modulo 2^32, bytes 0 for an offset of 0) is what the format says if and only if no length that it reads reaches 2^32 and no offset is 0. |
| Block32.WrappingBlockDecodes | openvpn/src/main/cpp/lz4/lib/lz4.c:1976-1982 | A block of 16843026 bytes that has no meaning in the format, and is decoded to its last 15 bytes by every rule the decoder has. |
| Block32.ZeroOffsetBlockDecodes | openvpn/src/main/cpp/lz4/lib/lz4.c:2122-2131 | A block of 13 bytes with an offset of 0, which the decoder takes for four bytes 0. |
| Block32.ShortIsRegular | openvpn/src/main/cpp/lz4/lib/lz4.c:1707-1728 | In up to 16843010 bytes no length can overflow: there only an offset of 0 makes the difference. |
| Block32.DecodeWindow32 | openvpn/src/main/cpp/lz4/lib/lz4.c:2322-2359 | A history of 65535 bytes is enough for any block: with more in front it succeeds only if it does without. |
| BlockDecoder.DecompressGeneric | openvpn/src/main/cpp/lz4/lib/lz4.c:1737-2151 | For any bytes: the loop ends and changes nothing outside the output; a result that is not negative means that output, prefix and dictionary hold what the bytes mean to the decoder after the history; well-formed blocks that fit succeed. |
| DecoderApi.DecompressSafe | openvpn/src/main/cpp/lz4/lib/lz4.c:2171-2176 | For any bytes without history: a result that is not negative is the size of their decoding, in 32-bit lengths always, in the format's if and only if the block is regular; well-formed blocks succeed. |
| DecoderApi.DecompressSafePartial | openvpn/src/main/cpp/lz4/lib/lz4.c:2179-2185 | For a well-formed block exactly the first min(target, capacity, size) bytes; for any bytes nothing outside the output changes. |
| DecoderApi.DecompressSafeUsingDict | openvpn/src/main/cpp/lz4/lib/lz4.c:2404-2417 | The same as DecompressSafe, after a dictionary in front of the output or elsewhere, of any size. |
| DecoderApi.DecompressInPlace | openvpn/src/main/cpp/lz4/lib/lz4.h:502-554 | A well-formed block smaller than its content, at the end of a buffer with the in-place margin, decodes right over itself. |
| DecoderStream.StreamDecode.DecompressSafeContinue | openvpn/src/main/cpp/lz4/lib/lz4.c:2322-2359 | Rolling prefix, first dictionary and switch of buffer, for any bytes: what a successful call gives is the block's meaning after all the decoder sees, and after everything decoded so far as long as it sees no more than that; well-formed blocks succeed; the new state knows where the history is. |
| DecoderStream.PrefixTwice | openvpn/src/main/cpp/lz4/lib/lz4.c:2348-2356 | After a call that fails, or decodes nothing, away from the prefix the decoder sees its prefix twice. |
| DecoderStream.BeyondDecodes | openvpn/src/main/cpp/lz4/lib/lz4.c:2336-2347 | It then accepts a block whose match reaches back further than everything decoded. |
| DecoderRing.DecodeStream | openvpn/src/main/cpp/lz4/lib/lz4.c:2295-2359 | A stream of any length in a ring of LZ4_decoderRingBufferSize() bytes, wrapping when less than a block is left: every block comes out right. |
| FrameEncoding.HeaderParses | openvpn/src/main/cpp/lz4/lib/lz4frame.c:669-699 | The header is read back with every field, whatever follows it. |
| FrameEncoding.SoFarBlock | openvpn/src/main/cpp/lz4/lib/lz4frame.c:736-763 | One more block, compressed or raw, adds exactly its content to what the frame stands for. |
| FrameEncoding.FrameParses | openvpn/src/main/cpp/lz4/lib/lz4frame.c:986-1022 | With end mark and checksum the frame parses to the header and exactly the content, and nothing is left over. |
| FrameBound.BoundIsBudget | openvpn/src/main/cpp/lz4/lib/lz4frame.c:324-349 | The capacity formula is what full blocks, the flushed rest and the end of the frame cost. |
| FrameBound.BoundEnough | openvpn/src/main/cpp/lz4/lib/lz4frame.c:719-730 | LZ4F_compressBound() covers the bound LZ4F_compressUpdate() checks, whatever is buffered. |
| FrameBound.EmptyBoundCoversEnd | openvpn/src/main/cpp/lz4/lib/lz4frame.c:318-322 | The bound for no input covers LZ4F_flush() and LZ4F_compressEnd(). |
| FrameBound.ProposeBSID | openvpn/src/main/cpp/lz4/lib/lz4frame.c:304-316 | The smallest block size that holds the source, if it is below the requested one. |
| FrameBound.OptimalKeepsBound | openvpn/src/main/cpp/lz4/lib/lz4frame.c:304-361 | Changing the block size this way does not change the one-shot bound. |
| FrameCodec.CreateCDict | openvpn/src/main/cpp/lz4/lib/lz4frame.c:490-512 | The copy holds the last 64 KB of the dictionary, and both streams are loaded with it. |
| FrameCodec.WriteBlock | openvpn/src/main/cpp/lz4/lib/lz4frame.c:740-763 | Header, data or source, and checksum, as the format says, in no more than the raw block takes. |
| FrameBackend.Backend.Compress | openvpn/src/main/cpp/lz4/lib/lz4frame.c:766-807 | The selected function, fast or HC, with or without dictionary: a block for the source after the history its mode allows, or none if it would not be smaller; the stream ready for the next block, and where its segments are now. |
| FrameBackend.Backend.Save | openvpn/src/main/cpp/lz4/lib/lz4frame.c:809-814 | The last 64 KB move to the private buffer and are all that the stream still knows. |
| FrameBackend.Backend.Select | openvpn/src/main/cpp/lz4/lib/lz4frame.c:614-636 | A stream of the right kind, initialised when the kind changes. |
| FrameBlocks.MakeBlock | openvpn/src/main/cpp/lz4/lib/lz4frame.c:736-763 | The frame written so far stands for the source too, and the stream carries on, whether the block was compressed or stored raw. |
| FrameSource.SourceBlocks | openvpn/src/main/cpp/lz4/lib/lz4frame.c:868-891 | Full blocks, and with autoFlush the rest, within the room the bound foresees. |
| FrameCompress.KeepHistory | openvpn/src/main/cpp/lz4/lib/lz4frame.c:893-910 | Afterwards the buffer has room for a block again, and, unless the source is stable, nothing the stream knows is in the caller's memory. |
| FrameEncoder.CompressUpdate | openvpn/src/main/cpp/lz4/lib/lz4frame.c:825-926 | It fails exactly when no frame has begun or the room is below the internal bound; it writes at most that bound; the invariant with tmpInSize below the block size and tmpIn + blockSize inside tmpBuff is kept; the frame and the buffer stand for all data given. |
| FrameEncoder.Flush | openvpn/src/main/cpp/lz4/lib/lz4frame.c:938-973 | Nothing stays buffered; when it fails, what it writes, and the same invariant. |
| FrameEncoder.CompressEnd | openvpn/src/main/cpp/lz4/lib/lz4frame.c:986-1022 | What has been written is a frame for exactly the data given; the size check is exact modulo 2^64; the room LZ4F_compressBound() announces for no input suffices; the context can be used again. |
| FrameEncoder.EndFits | openvpn/src/main/cpp/lz4/lib/lz4frame.c:318-349 | In every state between calls the last flush and the end fit that bound. |
| FrameBegin.WriteHeader | openvpn/src/main/cpp/lz4/lib/lz4frame.c:669-699 | Magic number, FLG, BD, optional fields and checksum byte are exactly the header of these preferences. |
| FrameBegin.CompressBegin | openvpn/src/main/cpp/lz4/lib/lz4frame.c:598-702 | From any context that is free: the header is written, and the invariant holds with nothing given so far; an error exactly below 19 bytes of room. |
| FrameOneShot.OneShotBound | openvpn/src/main/cpp/lz4/lib/lz4frame.c:351-404 | The bound for the preferences the caller asked for is the bound for those that are used. |
| FrameOneShot.CompressFrameUsingCDict | openvpn/src/main/cpp/lz4/lib/lz4frame.c:373-419 | It fails if and only if the room is below LZ4F_compressFrameBound() of the caller's own preferences; else it writes at most that, and the result is one frame for exactly the source. |
| FrameOneShot.CompressFrame | openvpn/src/main/cpp/lz4/lib/lz4frame.c:429-476 | The same on a context on the stack that only pretends to have a buffer. |
| FrameSession.CompressSession | openvpn/src/main/cpp/lz4/lib/lz4frame.c:598-1022 | LZ4F_compressBegin, any sequence of updates and flushes of any sizes, the caller's memory reused between them, and LZ4F_compressEnd: the bytes put out are one frame with the header asked for, standing for exactly the concatenated data. |
| FrameRoundTrip.LongerDict | openvpn/src/main/cpp/lz4/lib/lz4frame.c:490-512 | A frame stands for the same with every dictionary that ends with its own, so the decoder may use the whole of it. |
| FrameRoundTrip.RoundTrip | openvpn/src/main/cpp/lz4/lib/lz4frame.c:598-1899 | What CompressSession puts out, decoded with any cutting of input and output, is exactly the data given: linked or not, buffered or not, at every level, with or without a dictionary. |
| FrameWhole.ThereAndBack | openvpn/src/main/cpp/lz4/lib/lz4frame.c:490-1899 | The same with contexts, dictionary, memory and buffers made here: for all preferences, dictionaries, sequences of calls and ways of cutting, the data that comes back is the data given. |
| FrameHistory.UpdateDict | openvpn/src/main/cpp/lz4/lib/lz4frame.c:1295-1362 | Through every branch the dictionary ends with the part of the history that later blocks can reach, flushed or still waiting to be flushed. |
| FrameHeaderDecoder.DecodeHeader | openvpn/src/main/cpp/lz4/lib/lz4frame.c:1113-1205 | For a frame that parses: no error, the fields of its header, or how many bytes are still needed. |
| FrameDecoder.DecodeBlockHeader | openvpn/src/main/cpp/lz4/lib/lz4frame.c:1475-1532 | End mark, raw or compressed block, with size and state as the frame has them. |
| FrameBlockDecoder.CopyDirectStage | openvpn/src/main/cpp/lz4/lib/lz4frame.c:1534-1573 | Raw blocks in pieces of any size: output, checksums, remaining size and history. |
| FrameDataDecoder.DecodeSelected | openvpn/src/main/cpp/lz4/lib/lz4frame.c:1639-1722 | A compressed block, decoded straight into the output or into the private buffer, with its history in place. |
| FrameDecompress.FlushOutStage | openvpn/src/main/cpp/lz4/lib/lz4frame.c:1724-1744 | Flushing in pieces of any size keeps the history. |
| FrameDecompress.PreserveHistory | openvpn/src/main/cpp/lz4/lib/lz4frame.c:1844-1874 | Afterwards nothing a linked frame still needs is in the caller's output. |
| FrameCalls.Decompress | openvpn/src/main/cpp/lz4/lib/lz4frame.c:1384-1879 | One call of any sizes: no error, input and output advance through the frame and its content as far as either lasts, and 0 is returned exactly at the end of the frame. |
| FrameCalls.InvStays | openvpn/src/main/cpp/lz4/lib/lz4frame.c:1384-1879 | Between calls the caller may do anything with memory that is not private and not its dictionary. |
| FrameReader.DecompressUsingDict | openvpn/src/main/cpp/lz4/lib/lz4frame.c:1886-1899 | The same with a predefined dictionary, given again with every call. |
| FrameReader.ResetDecompressionContext | openvpn/src/main/cpp/lz4/lib/lz4frame.c:1097-1102 | In the middle of a frame the context is fit for another one if and only if frameRemainingSize is 0. |
| FrameReader.DecodeFrame | openvpn/src/main/cpp/lz4/lib/lz4frame.c:1384-1899 | Every way of cutting input and output, with each call's input and output anywhere in areas that are used again, gives exactly the content, consumes exactly the frame and leaves the context ready for another. |
| FrameReader.DecodeFrames | openvpn/src/main/cpp/lz4/lib/lz4frame.c:1384-1899 | One context decodes any number of frames that follow each other. |
| Xxh32.OneShot | openvpn/src/main/cpp/lz4/lib/xxhash.c:290-389 | The one-shot loops give the hash of the whole input. |
| Xxh32.State.Update | openvpn/src/main/cpp/lz4/lib/xxhash.c:451-513 | For every split of the input the state stands for all of it, with the length kept modulo 2^32 and the sticky large_len flag. |
| Xxh32.State.Digest | openvpn/src/main/cpp/lz4/lib/xxhash.c:526-543 | The digest is the one-shot hash of everything given. |
| Xxh64.OneShot | openvpn/src/main/cpp/lz4/lib/xxhash.c:701-852 | The one-shot loops give the hash of the whole input. |
| Xxh64.State.Update | openvpn/src/main/cpp/lz4/lib/xxhash.c:911-968 | For every split of the input the state stands for all of it. |
| Xxh64.State.Digest | openvpn/src/main/cpp/lz4/lib/xxhash.c:980-1003 | The digest is the one-shot hash of everything given, as long as the 64-bit length tells short input from long. |
| Xxh64.CounterTellsUpTo64Bits | openvpn/src/main/cpp/lz4/lib/xxhash.c:980-1003 | It does for every length below 2^64, and beyond exactly when the wrapped length is 32 or more. |

## Left out

- The Android application, JNI code, command line tools and other libraries of the repository: no part of this codec.
- LZ4_FAST_DEC_LOOP, which ARM builds with clang do not use: only the safe decoding loop is modelled.
- LZ4_decompress_fast and its relatives, LZ4_compress_forceExtDict, the HC destSize entry points and other deprecated
  or test-only calls. The HC parsers themselves are proved for the fill-output limit too.
- Distance arithmetic of 32-bit builds, endianness and alignment. size_t has 64 bits, and one frame update takes less
  than 2^47 bytes, so that the block count fits 32.
- DecoderApi.DecompressSafePartial: what the output holds is stated for well-formed blocks with offsets from 1 on. At
  offset 0 the last bytes of a partial call are left as they were.
- BlockDecoder.DecompressGeneric: partial decoding with an external dictionary is not covered, because no entry point
  asks for it; the copy from an external dictionary is taken to read its whole source first; prefix mode with 64 KB in
  front knows 65535 of them, which is all an offset can reach.
- FastContinue.CompressFastContinue: a negative maxOutputSize is excluded. For a source beyond LZ4_MAX_INPUT_SIZE in
  external dictionary mode there is no statement on the stream afterwards (FastHistory.Oversize).
- Alias.TameIsExact: the condition is exact for the length counted for a match; whether the hash table offers that
  match depends on the hash.
- FastHistory.ResetStreamFast: a table that was never used but whose offset has come close to 2 GB is excluded.
- FastApi.CompressFastReset: a table no block has been entered in whose offset is not 0 is excluded: entering two-byte
  indices from 64 KB on is against the assertion in lz4.c:744, and stores them truncated. LZ4_loadDict or
  LZ4_attach_dictionary leave one; the frame compressor does after an empty frame with a dictionary, below the HC
  levels, so FrameEncoder.CompressEnd promises a context that is free for a new frame in all cases but that one.
- HcSaved.LostBytesAreHarmful: speaks of the bytes the stream sees and of a match in them; whether the tables offer that
  match depends on the hash.
- HcApi.CompressHCContinue: a base that is still NULL is a lowLimit of 0. At levels 10 to 12 three bytes behind a
  segment that has become a dictionary must be readable: with chainSwap a candidate may be one of its last three bytes,
  and four bytes are compared there (lz4hc.c:300, 314-330).
- LZ4F_getFrameInfo, version and error-name functions, custom allocation, and allocation failure.
- FrameBegin.CompressBegin: one context holds one block stream of each kind, where the library reuses one piece of
  memory for both; blockSizeID is 0 or 4 to 7; the new buffer's address is a parameter and its zeroing is left out.
- FrameBlocks.MakeBlock: the compressor writes to a buffer of its own that has the size it is told, before the block
  joins the output.
- FrameEncoder.CompressUpdate: in a linked frame a stable source (stableSrc) is only covered together with autoFlush,
  as the one-shot calls use it. Source, private buffer and dictionary copy are apart, and three readable bytes follow
  each, which only levels 10 to 12 need.
- FrameEncoder.CompressEnd: requires a frame that has begun; the code also writes an end mark if none has.
- FrameCalls.Decompress: for frames that parse. What each malformed frame is answered with is not stated. A content
  size of 0 in a header is not checked against the content, as in the code. stableDst is covered for one call, not in
  FrameReader.DecodeFrame.
- FrameReader.DecodeFrame: the two hash states in the frame decoder are represented by the bytes given to them, which
  is what Xxh32.State proves of its own; buffers are at fixed addresses in one memory, apart from the caller's.
- FrameReader.ResetDecompressionContext: decoding after a reset with frameRemainingSize not 0 is not covered; a frame
  without a content size then ends in an error.
- Collision behaviour of the hashes, compression ratio and speed.
