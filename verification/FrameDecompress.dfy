/** The end of LZ4F_decompress: frame suffix, skippable frames, the main loop, the preservation of history
    between calls; and what a whole sequence of calls does to a frame. */
module FrameDecompress {
  import opened Bytes
  import opened DecoderCopies
  import opened Memory
  import opened DecoderApi
  import opened DecoderStream
  import opened FrameFormat
  import opened FrameHistory
  import opened FrameState
  import opened FrameHeaderDecoder
  import opened FrameDecoder
  import opened FrameBlockDecoder
  import opened FrameDataDecoder

  // ---------- flushing ----------

  lemma FlushStands(base: int, st: St, st1: St, m: seq<byte>, r: Run)
    requires st.stage == FlushOut && Body(base, st, m, r) && Unflushed(base, st, m) && Boundary(r, st.pos, st.dec)
    requires st.info.linked ==> (
      && FlushIn(m, TmpS(base, st), r.dict + st.out)
      && (st.dict == base && st.dictSize > 0 ==> st.dict + st.dictSize == st.tmpOut + st.tmpOutStart))
    requires st1 == if st.tmpOutStart == st.tmpOutSize then st.(stage := GetBlockHeader) else st
    ensures Stands(base, st1, m, r) && !Done(st1, r)
  {
    hide Body, Boundary, FlushIn, Unflushed;
    UnflushedFacts(base, st, m);
    BodySame(base, st, st1, m, r);
    assert st.dec[..|st.dec|] == st.dec;
  }

  /** dstage_flushOut */
  method FlushOutStage(d: Dctx, mem: array<byte>, dstPtr: int, dstEnd: int, dstStart: int, hasDst: bool, ghost c: Ctx,
      ghost m: seq<byte>, ghost srcPtr: int)
    returns (v: Verdict, dst1: int)
    requires mem[..] == m && Home(d, c.base) && During(c, StateOf(d), m, srcPtr, dstPtr) && d.dStage == FlushOut
    requires dstEnd == c.dstEnd && dstStart == c.dst && (!hasDst ==> dstPtr == dstEnd)
    modifies d, mem
    ensures Stepped(c, StateOf(d), mem[..], srcPtr, dst1, v) && Touched(c, m, mem[..])
    ensures v == Again ==> d.dStage == GetBlockHeader
  {
    hide Stands, Aligned, Geometry, SizesOk, RunOk, During, Inv, Body, Touched, Boundary, FlushIn, Unflushed;
    ghost var st := StateOf(d);
    DuringParts(c, st, m, srcPtr, dstPtr);
    FlushingFacts(c.base, st, m, c.r);
    UnflushedFacts(c.base, st, m);
    dst1 := dstPtr;
    if hasDst {
      var sizeToCopy := Min(d.tmpOutSize - d.tmpOutStart, dstEnd - dstPtr);
      FlushPiece(d, mem, dstPtr, sizeToCopy, dstStart, c, st, m, srcPtr);
      dst1 := dstPtr + sizeToCopy;
    } else {
      TouchedNothing(c, m);
    }
    ghost var st1 := StateOf(d);
    if d.tmpOutStart == d.tmpOutSize {
      d.dStage := GetBlockHeader;
      v := Again;
    } else {
      v := Stop(BH_SIZE);
    }
    FlushStands(c.base, st1, StateOf(d), mem[..], c.r);
    AlignedRead(c, st1, StateOf(d), mem[..], srcPtr, dst1, 0);
    DuringMade(c, StateOf(d), mem[..], srcPtr, dst1);
  }

  // ---------- suffix ----------

  /** LZ4F_resetDecompressionContext */
  method ResetContext(d: Dctx)
    modifies d
    ensures StateOf(d) == ResetState(old(StateOf(d)))
  {
    d.dStage := GetFrameHeader;
    d.dict := NULL;
    d.dictSize := 0;
  }

  ghost function ResetState(st: St): St { st.(stage := GetFrameHeader, dict := NULL, dictSize := 0) }

  lemma EndedFacts(base: int, st: St, m: seq<byte>, r: Run)
    requires Stands(base, st, m, r) && RunOk(r) && (st.stage == GetSuffix || st.stage == StoreSuffix)
    ensures r.frame.Content? && InfoIs(st, r) && Ended(st, r) && st.remaining == 0 && st.out == st.dec == r.frame.full
    ensures st.stage == GetSuffix ==> st.pos == r.frame.bodyEnd
    ensures st.stage == StoreSuffix ==> (
      && r.frame.hd.contentChecksum && st.pos == r.frame.bodyEnd + st.tmpInSize && 0 <= st.tmpInSize < 4
      && Buffered(m, InAt(base), st.tmpInSize, r.s, r.frame.bodyEnd))
    ensures r.frame.end == r.frame.bodyEnd + CrcSize(r.frame.hd.contentChecksum)
    ensures r.frame.hd.contentChecksum ==>
      st.xxh == r.frame.full && r.frame.end <= |r.s| && Le32(r.s, r.frame.bodyEnd) == Crc(r.frame.full)
  {
    hide RunOk, InfoIs, BufferReady, Buffered, Le32, Crc, Boundary;
    InfoFields(st, r);
    ContentSizeRange(r);
    ContentFacts(r);
    if st.stage == StoreSuffix { BufferedIn(m, InAt(base), st.tmpInSize, r.s, r.frame.bodyEnd); }
  }

  lemma EndedSame(st: St, st1: St, r: Run)
    requires Ended(st, r) && st1.info == st.info && st1.maxBlockSize == st.maxBlockSize
      && st1.maxBufferSize == st.maxBufferSize
    requires st1.tmpInCapacity == st.tmpInCapacity && st1.remaining == st.remaining && st1.xxh == st.xxh
      && st1.dec == st.dec && st1.out == st.out
    ensures Ended(st1, r)
  {
  }

  /** The frame is complete. */
  lemma FrameDone(c: Ctx, st: St, m: seq<byte>, srcPtr: int, dstPtr: int)
    requires Geometry(c, |m|) && Aligned(c, st, m, srcPtr, dstPtr) && RunOk(c.r)
      && SizesOk(st.maxBufferSize, st.tmpInCapacity)
    requires st.pos == c.r.frame.end && st.out == st.dec == FullOf(c.r) && st.remaining == 0
    ensures During(c, ResetState(st), m, srcPtr, dstPtr) && Done(ResetState(st), c.r)
  {
    hide Geometry, RunOk, SizesOk, Buffered, FullOf;
    PrivateIn(c, |m|);
  }

  /** The content checksum at `at` is compared with that of everything decoded. */
  method CheckSuffix(d: Dctx, mem: array<byte>, at: int, ghost c: Ctx, ghost st: St, ghost m: seq<byte>,
      ghost srcPtr: int, ghost dstPtr: int) returns (v: Verdict)
    requires mem[..] == m && StateOf(d) == st && Geometry(c, |m|) && Aligned(c, st, m, srcPtr, dstPtr) && RunOk(c.r)
    requires SizesOk(st.maxBufferSize, st.tmpInCapacity) && c.r.frame.Content? && c.r.frame.hd.contentChecksum
    requires st.pos == c.r.frame.end && st.out == st.dec == c.r.frame.full && st.remaining == 0
      && st.xxh == c.r.frame.full
    requires Le32(c.r.s, c.r.frame.bodyEnd) == Crc(c.r.frame.full) && Buffered(m, at, 4, c.r.s, c.r.frame.bodyEnd)
    modifies d
    ensures Stepped(c, StateOf(d), m, srcPtr, dstPtr, v) && v == Stop(0)
  {
    hide Geometry, Aligned, RunOk, SizesOk, Buffered, Le32, Crc, During, Done;
    var readCRC := ReadLE32(mem, at, 0, 4, c.r.s, c.r.frame.bodyEnd);
    var resultCRC := Digest(d.xxh);
    if readCRC != resultCRC { return Fail(ContentChecksumInvalid); }
    FrameDone(c, st, m, srcPtr, dstPtr);
    ResetContext(d);
    return Stop(0);
  }

  lemma StandsInSuffix(base: int, st: St, m: seq<byte>, r: Run)
    requires st.stage == StoreSuffix && Ended(st, r) && r.frame.Content? && r.frame.hd.contentChecksum
      && st.remaining == 0
    requires st.pos == r.frame.bodyEnd + st.tmpInSize && 0 <= st.tmpInSize < 4
    requires Buffered(m, InAt(base), st.tmpInSize, r.s, r.frame.bodyEnd)
    ensures Stands(base, st, m, r) && !Done(st, r)
  {
    hide Ended, Buffered;
  }

  lemma NothingBuffered(m: seq<byte>, addr: int, s: seq<byte>, i: int)
    requires 0 <= addr <= |m| && 0 <= i <= |s|
    ensures Buffered(m, addr, 0, s, i)
  {
  }

  /** dstage_getSuffix */
  method GetSuffixStage(d: Dctx, mem: array<byte>, srcPtr: int, srcEnd: int, ghost c: Ctx, ghost m: seq<byte>,
      ghost dstPtr: int) returns (v: Verdict, src1: int)
    requires mem[..] == m && Home(d, c.base) && srcEnd == c.srcEnd && During(c, StateOf(d), m, srcPtr, dstPtr)
      && d.dStage == GetSuffix
    modifies d
    ensures Stepped(c, StateOf(d), m, src1, dstPtr, v) && srcPtr <= src1 && (v == Again ==> d.dStage == StoreSuffix)
  {
    hide Stands, Aligned, Geometry, SizesOk, RunOk, During, Inv, InfoIs, Ended, Buffered, Le32, Crc, Done;
    ghost var st := StateOf(d);
    DuringParts(c, st, m, srcPtr, dstPtr);
    EndedFacts(c.base, st, m, c.r);
    InfoFields(st, c.r);
    if d.frameRemainingSize != 0 { return Fail(FrameSizeWrong), srcPtr; }
    if !d.info.contentChecksum {
      FrameDone(c, st, m, srcPtr, dstPtr);
      ResetContext(d);
      return Stop(0), srcPtr;
    }
    if srcEnd - srcPtr < 4 {
      d.tmpInSize := 0;
      d.dStage := StoreSuffix;
      PrivateIn(c, |m|);
      EndedSame(st, StateOf(d), c.r);
      NothingBuffered(m, InAt(c.base), c.r.s, c.r.frame.bodyEnd);
      StandsInSuffix(c.base, StateOf(d), m, c.r);
      AlignedRead(c, st, StateOf(d), m, srcPtr, dstPtr, 0);
      DuringMade(c, StateOf(d), m, srcPtr, dstPtr);
      return Again, srcPtr;
    }
    InputBytes(c, st, m, srcPtr, dstPtr, 4);
    src1 := srcPtr + 4;
    d.pos := d.pos + 4;
    AlignedRead(c, st, StateOf(d), m, srcPtr, dstPtr, 4);
    v := CheckSuffix(d, mem, srcPtr, c, StateOf(d), m, src1, dstPtr);
  }

  /** dstage_storeSuffix */
  method StoreSuffixStage(d: Dctx, mem: array<byte>, srcPtr: int, srcEnd: int, ghost c: Ctx, ghost m: seq<byte>,
      ghost dstPtr: int) returns (v: Verdict, src1: int)
    requires mem[..] == m && Home(d, c.base) && srcEnd == c.srcEnd && During(c, StateOf(d), m, srcPtr, dstPtr)
      && d.dStage == StoreSuffix
    modifies d, mem
    ensures Stepped(c, StateOf(d), mem[..], src1, dstPtr, v) && Touched(c, m, mem[..]) && v.Stop?
  {
    hide Stands, Aligned, Geometry, SizesOk, RunOk, During, Inv, InfoIs, Ended, Buffered, Le32, Crc, Done, Touched,
      Agree;
    ghost var st := StateOf(d);
    DuringParts(c, st, m, srcPtr, dstPtr);
    EndedFacts(c.base, st, m, c.r);
    var sizeToCopy := Min(4 - d.tmpInSize, srcEnd - srcPtr);
    Fill(d, mem, d.tmpIn, srcPtr, sizeToCopy, 0, c, st, m, dstPtr);
    src1 := srcPtr + sizeToCopy;
    if d.tmpInSize < 4 {
      EndedSame(st, StateOf(d), c.r);
      StandsInSuffix(c.base, StateOf(d), mem[..], c.r);
      DuringMade(c, StateOf(d), mem[..], src1, dstPtr);
      return Stop(4 - d.tmpInSize), src1;
    }
    v := CheckSuffix(d, mem, d.tmpIn, c, StateOf(d), mem[..], src1, dstPtr);
  }

  // ---------- skippable frames ----------

  lemma SkipFacts(base: int, st: St, m: seq<byte>, r: Run)
    requires Stands(base, st, m, r) && RunOk(r)
    requires st.stage == GetSFrameSize || st.stage == StoreSFrameSize || st.stage == SkipSkippable
    ensures InSkippable(st, r) && r.frame.Skippable? && 8 <= |r.s| && r.frame.end == 8 + Le32(r.s, 4) <= |r.s|
    ensures st.stage == GetSFrameSize ==> st.pos == 4
    ensures st.stage == StoreSFrameSize ==> (
      && 4 <= st.tmpInSize == st.pos < st.tmpInTarget == 8 && Buffered(m, HeaderAt(base) + 4, st.tmpInSize - 4, r.s, 4))
    ensures st.stage == SkipSkippable ==> 0 <= st.tmpInTarget && st.pos + st.tmpInTarget == r.frame.end
  {
    hide RunOk, Le32, Buffered, InfoIs, Boundary;
    SkippableFacts(r);
  }

  lemma InSkippableSame(st: St, st1: St, r: Run)
    requires InSkippable(st, r) && st1.out == st.out && st1.dec == st.dec && st1.remaining == st.remaining
    requires st1.dict == st.dict && st1.dictSize == st.dictSize
    ensures InSkippable(st1, r)
  {
  }

  lemma StandsSkipping(base: int, st: St, m: seq<byte>, r: Run)
    requires InSkippable(st, r) && st.stage == SkipSkippable && 0 <= st.tmpInTarget
      && st.pos + st.tmpInTarget == r.frame.end
    ensures Stands(base, st, m, r) && !Done(st, r)
  {
  }

  lemma StandsInSkipSize(base: int, st: St, m: seq<byte>, r: Run)
    requires InSkippable(st, r) && st.stage == StoreSFrameSize && 4 <= st.tmpInSize == st.pos < st.tmpInTarget == 8
    requires Buffered(m, HeaderAt(base) + 4, st.tmpInSize - 4, r.s, 4)
    ensures Stands(base, st, m, r) && !Done(st, r)
  {
    hide Buffered;
  }

  /** The size field of a skippable frame is at `at`. */
  method DecodeSFrameSize(d: Dctx, mem: array<byte>, at: int, ghost c: Ctx, ghost st: St, ghost m: seq<byte>,
      ghost srcPtr: int, ghost dstPtr: int)
    requires !Over(st.stage)
    requires mem[..] == m && StateOf(d) == st && Geometry(c, |m|) && Aligned(c, st, m, srcPtr, dstPtr) && RunOk(c.r)
    requires SizesOk(st.maxBufferSize, st.tmpInCapacity) && InSkippable(st, c.r) && st.pos == 8
      && Buffered(m, at, 4, c.r.s, 4)
    requires c.r.frame.end == 8 + Le32(c.r.s, 4)
    modifies d`info, d`tmpInTarget, d`dStage
    ensures During(c, StateOf(d), m, srcPtr, dstPtr) && !Done(StateOf(d), c.r) && d.dStage == SkipSkippable
  {
    hide Geometry, Aligned, RunOk, SizesOk, Buffered, Le32, During, Done, Stands, InSkippable;
    var sFrameSize := ReadLE32(mem, at, 0, 4, c.r.s, 4);
    Le32Range(c.r.s, 4);
    d.info := d.info.(contentSize := sFrameSize);
    d.tmpInTarget := sFrameSize;
    d.dStage := SkipSkippable;
    InSkippableSame(st, StateOf(d), c.r);
    StandsSkipping(c.base, StateOf(d), m, c.r);
    AlignedRead(c, st, StateOf(d), m, srcPtr, dstPtr, 0);
    DuringMade(c, StateOf(d), m, srcPtr, dstPtr);
  }

  lemma CollectSize(c: Ctx, st: St, m: seq<byte>, srcPtr: int, dstPtr: int)
    requires During(c, st, m, srcPtr, dstPtr) && st.stage == GetSFrameSize
    ensures var st1 := st.(tmpInSize := 4, tmpInTarget := 8, stage := StoreSFrameSize);
      During(c, st1, m, srcPtr, dstPtr) && !Done(st1, c.r)
  {
    hide Stands, Aligned, Geometry, SizesOk, RunOk, During, Inv, Buffered, Le32, InSkippable;
    var st1 := st.(tmpInSize := 4, tmpInTarget := 8, stage := StoreSFrameSize);
    DuringParts(c, st, m, srcPtr, dstPtr);
    SkipFacts(c.base, st, m, c.r);
    PrivateIn(c, |m|);
    InSkippableSame(st, st1, c.r);
    NothingBuffered(m, HeaderAt(c.base) + 4, c.r.s, 4);
    StandsInSkipSize(c.base, st1, m, c.r);
    AlignedRead(c, st, st1, m, srcPtr, dstPtr, 0);
    DuringMade(c, st1, m, srcPtr, dstPtr);
  }

  /** dstage_getSFrameSize */
  method GetSFrameSizeStage(d: Dctx, mem: array<byte>, srcPtr: int, srcEnd: int, ghost c: Ctx, ghost m: seq<byte>,
      ghost dstPtr: int) returns (v: Verdict, src1: int)
    requires mem[..] == m && Home(d, c.base) && srcEnd == c.srcEnd && During(c, StateOf(d), m, srcPtr, dstPtr)
      && d.dStage == GetSFrameSize
    modifies d
    ensures Stepped(c, StateOf(d), m, src1, dstPtr, v) && v == Again
    ensures srcPtr < src1 || (src1 == srcPtr && d.dStage == StoreSFrameSize)
  {
    hide Stands, Aligned, Geometry, SizesOk, RunOk, During, Inv, Buffered, Le32, Done, InSkippable;
    ghost var st := StateOf(d);
    DuringParts(c, st, m, srcPtr, dstPtr);
    SkipFacts(c.base, st, m, c.r);
    if srcEnd - srcPtr >= 4 {
      InputBytes(c, st, m, srcPtr, dstPtr, 4);
      d.pos := d.pos + 4;
      AlignedRead(c, st, StateOf(d), m, srcPtr, dstPtr, 4);
      InSkippableSame(st, StateOf(d), c.r);
      DecodeSFrameSize(d, mem, srcPtr, c, StateOf(d), m, srcPtr + 4, dstPtr);
      return Again, srcPtr + 4;
    }
    d.tmpInSize := 4;
    d.tmpInTarget := 8;
    d.dStage := StoreSFrameSize;
    CollectSize(c, st, m, srcPtr, dstPtr);
    return Again, srcPtr;
  }

  /** dstage_storeSFrameSize */
  method StoreSFrameSizeStage(d: Dctx, mem: array<byte>, srcPtr: int, srcEnd: int, ghost c: Ctx, ghost m: seq<byte>,
      ghost dstPtr: int) returns (v: Verdict, src1: int)
    requires mem[..] == m && Home(d, c.base) && srcEnd == c.srcEnd && During(c, StateOf(d), m, srcPtr, dstPtr)
      && d.dStage == StoreSFrameSize
    modifies d, mem
    ensures Stepped(c, StateOf(d), mem[..], src1, dstPtr, v) && Touched(c, m, mem[..])
    ensures v == Again ==> srcPtr < src1
  {
    hide Stands, Aligned, Geometry, SizesOk, RunOk, During, Inv, Buffered, Le32, Done, InSkippable, Touched, Agree;
    ghost var st := StateOf(d);
    DuringParts(c, st, m, srcPtr, dstPtr);
    SkipFacts(c.base, st, m, c.r);
    var sizeToCopy := Min(d.tmpInTarget - d.tmpInSize, srcEnd - srcPtr);
    Fill(d, mem, d.header, srcPtr, sizeToCopy, 4, c, st, m, dstPtr);
    src1 := srcPtr + sizeToCopy;
    InSkippableSame(st, StateOf(d), c.r);
    if d.tmpInSize < d.tmpInTarget {
      StandsInSkipSize(c.base, StateOf(d), mem[..], c.r);
      DuringMade(c, StateOf(d), mem[..], src1, dstPtr);
      return Stop(d.tmpInTarget - d.tmpInSize), src1;
    }
    DecodeSFrameSize(d, mem, d.header + 4, c, StateOf(d), mem[..], src1, dstPtr);
    v := Again;
  }

  lemma SkippedAll(st: St, r: Run)
    requires InSkippable(st, r)
    ensures st.out == st.dec == FullOf(r) && st.remaining == 0
  {
  }

  /** dstage_skipSkippable */
  method SkipSkippableStage(d: Dctx, mem: array<byte>, srcPtr: int, srcEnd: int, ghost c: Ctx, ghost m: seq<byte>,
      ghost dstPtr: int) returns (v: Verdict, src1: int)
    requires mem[..] == m && Home(d, c.base) && srcEnd == c.srcEnd && During(c, StateOf(d), m, srcPtr, dstPtr)
      && d.dStage == SkipSkippable
    modifies d
    ensures Stepped(c, StateOf(d), m, src1, dstPtr, v) && v.Stop?
  {
    hide Stands, Aligned, Geometry, SizesOk, RunOk, During, Inv, Le32, Done, InSkippable;
    ghost var st := StateOf(d);
    DuringParts(c, st, m, srcPtr, dstPtr);
    SkipFacts(c.base, st, m, c.r);
    var skipSize := Min(d.tmpInTarget, srcEnd - srcPtr);
    src1 := srcPtr + skipSize;
    d.tmpInTarget := d.tmpInTarget - skipSize;
    d.pos := d.pos + skipSize;
    AlignedRead(c, st, StateOf(d), m, srcPtr, dstPtr, skipSize);
    InSkippableSame(st, StateOf(d), c.r);
    if d.tmpInTarget != 0 {
      StandsSkipping(c.base, StateOf(d), m, c.r);
      DuringMade(c, StateOf(d), m, src1, dstPtr);
      return Stop(d.tmpInTarget), src1;
    }
    SkippedAll(StateOf(d), c.r);
    FrameDone(c, StateOf(d), m, src1, dstPtr);
    ResetContext(d);
    return Stop(0), src1;
  }

  // ---------- history between calls ----------

  /** The stages in which later blocks may still need history. */
  predicate BlocksFollow(stage: Stage)
  {
    match stage
    case Init | GetBlockHeader | StoreBlockHeader | CopyDirect | GetBlockChecksum => true
    case GetCBlock | StoreCBlock | FlushOut => true
    case _ => false
  }

  /** Nothing of the history is left in the caller's memory. */
  ghost predicate Preserved(base: int, st: St)
  {
    st.info.linked && BlocksFollow(st.stage) ==> st.dict == base || st.dict == NULL
  }

  lemma BodyOf(base: int, st: St, m: seq<byte>, r: Run)
    requires Stands(base, st, m, r) && BlocksFollow(st.stage) && st.stage != Init
    ensures Body(base, st, m, r) && (st.stage != FlushOut ==> st.out == st.dec)
  {
    hide Body, Boundary, InBlock, Unflushed, Buffered;
  }

  /** The history may move to the front of the private buffer without anything else changing. */
  lemma StandsMoved(base: int, st: St, st1: St, m: seq<byte>, m1: seq<byte>, r: Run)
    requires Stands(base, st, m, r) && BlocksFollow(st.stage) && st.stage != Init && st.stage != FlushOut
    requires st1 == st.(dict := st1.dict, dictSize := st1.dictSize, tmpOut := st1.tmpOut)
    requires HistoryIn(base, st1, m1, r) && Agree(m, m1, base, base + KB64)
    ensures Stands(base, st1, m1, r) && !Done(st1, r)
  {
    hide HistoryIn, Boundary, InfoIs, Totals, BufferReady, Buffered, BlockOk, BlockData, Le32, DataSize, Agree;
    BodyOf(base, st, m, r);
    BodyFacts(base, st, m, r);
    InfoIsSame(st, st1, r);
    TotalsSame(st, st1, r);
    ReadyLimits(st, st1);
    if st.stage == StoreBlockHeader { BufferedFrame(m, m1, InAt(base), st.tmpInSize, r.s, st.pos - st.tmpInSize, base,
      base + KB64); }
    if st.stage == StoreCBlock { BufferedFrame(m, m1, InAt(base), st.tmpInSize, r.s, st.pos - st.tmpInSize, base,
      base + KB64); }
    if st.stage == GetBlockChecksum { BufferedFrame(m, m1, HeaderAt(base), st.tmpInSize, r.s, st.pos - st.tmpInSize,
      base, base + KB64); }
  }

  lemma MovedKept(base: int, st: St, st1: St, m: seq<byte>, m1: seq<byte>, r: Run)
    requires HistoryIn(base, st, m, r) && st.info.linked && st.out == st.dec && BufferReady(st) && 0 <= base
    requires st1 == st.(dict := base, dictSize := Min(st.dictSize, KB64), tmpOut := base + Min(st.dictSize, KB64))
    requires DictIn(m, st.dict, st.dictSize) && base + st1.dictSize <= |m1|
    requires m1[base..base + st1.dictSize] == DictBytes(m, st.dict, st.dictSize)[st.dictSize - st1.dictSize..]
    ensures HistoryIn(base, st1, m1, r)
  {
    hide Kept, DictBytes;
    var hist, k := r.dict + st.out, st1.dictSize;
    DictInBounds(m, st.dict, st.dictSize);
    var d := DictBytes(m, st.dict, st.dictSize)[st.dictSize - k..];
    assert d + [] == d && hist + [] == hist;
    JoinedKept(m, st.dict, st.dictSize, hist, k, m1, base, []);
  }

  lemma DictMoved(c: Ctx, st: St, st1: St, m: seq<byte>, m1: seq<byte>, srcPtr: int, dstPtr: int)
    requires During(c, st, m, srcPtr, dstPtr) && st.info.linked && BlocksFollow(st.stage) && st.stage != Init
      && st.stage != FlushOut
    requires st1 == st.(dict := c.base, dictSize := Min(st.dictSize, KB64), tmpOut := c.base + Min(st.dictSize, KB64))
    requires DictIn(m, st.dict, st.dictSize) && |m1| == |m| && 0 <= c.base && c.base + PRIVATE <= |m|
    requires Agree(m, m1, c.base, c.base + st1.dictSize)
    requires m1[c.base..c.base + st1.dictSize] == DictBytes(m, st.dict, st.dictSize)[st.dictSize - st1.dictSize..]
    ensures During(c, st1, m1, srcPtr, dstPtr) && !Done(st1, c.r) && Touched(c, m, m1)
  {
    hide Stands, Aligned, Geometry, SizesOk, RunOk, During, Inv, Body, HistoryIn, BufferReady, Touched, Agree,
      DictBytes;
    DuringParts(c, st, m, srcPtr, dstPtr);
    BodyOf(c.base, st, m, c.r);
    BodyFacts(c.base, st, m, c.r);
    AgreeWider(m, m1, c.base, c.base + st1.dictSize, c.base, c.base + KB64);
    MovedKept(c.base, st, st1, m, m1, c.r);
    StandsMoved(c.base, st, st1, m, m1, c.r);
    AlignedFrame(c, st, m, m1, c.base, c.base + KB64, srcPtr, dstPtr);
    AlignedPrivate(c, st, st1, m1, srcPtr, dstPtr);
    TouchedBy(c, m, m1, c.base, c.base + KB64);
    DuringMade(c, st1, m1, srcPtr, dstPtr);
  }

  lemma DictOfBody(c: Ctx, st: St, m: seq<byte>, srcPtr: int, dstPtr: int)
    requires During(c, st, m, srcPtr, dstPtr) && st.info.linked && BlocksFollow(st.stage) && st.stage != Init
    ensures DictIn(m, st.dict, st.dictSize) && 0 <= st.dictSize && 0 <= c.base && c.base + PRIVATE <= |m|
  {
    hide Stands, Aligned, Geometry, SizesOk, RunOk, During, Inv, Body, HistoryIn;
    DuringParts(c, st, m, srcPtr, dstPtr);
    BodyOf(c.base, st, m, c.r);
    BodyFacts(c.base, st, m, c.r);
    LinkedDict(c.base, st, m, c.r);
  }

  /** ... away from a block being flushed. */
  method PreserveDict(d: Dctx, mem: array<byte>, ghost c: Ctx, ghost st: St, ghost m: seq<byte>, ghost srcPtr: int,
      ghost dstPtr: int)
    requires mem[..] == m && Home(d, c.base) && StateOf(d) == st && During(c, st, m, srcPtr, dstPtr) && st.info.linked
    requires BlocksFollow(st.stage) && st.stage != Init && st.stage != FlushOut
    modifies d, mem
    ensures During(c, StateOf(d), mem[..], srcPtr, dstPtr) && !Done(StateOf(d), c.r) && Touched(c, m, mem[..])
    ensures d.dict == c.base && StateOf(d) == st.(dict := d.dict, dictSize := d.dictSize, tmpOut := d.tmpOut)
  {
    hide During, Touched, Agree, DictBytes, DictIn, Done, BlocksFollow, SameTail;
    DictOfBody(c, st, m, srcPtr, dstPtr);
    var newDictSize := Min(d.dictSize, KB64);
    MoveToFront(mem, d.tmpOutBuffer, d.dict, d.dictSize, newDictSize, m);
    d.dict := d.tmpOutBuffer;
    d.dictSize := newDictSize;
    d.tmpOut := d.tmpOutBuffer + newDictSize;
    DictMoved(c, st, StateOf(d), m, mem[..], srcPtr, dstPtr);
  }

  lemma AlignedPrivate(c: Ctx, st: St, st1: St, m: seq<byte>, srcPtr: int, dstPtr: int)
    requires Aligned(c, st, m, srcPtr, dstPtr) && Geometry(c, |m|)
    requires st1.pos == st.pos && st1.out == st.out && st1.dict == c.base && 0 <= st1.dictSize <= PRIVATE
    ensures Aligned(c, st1, m, srcPtr, dstPtr)
  {
    hide Buffered;
  }

  /** ... in the middle of a block being flushed. */
  method PreserveFlushing(d: Dctx, mem: array<byte>, ghost c: Ctx, ghost st: St, ghost m: seq<byte>, ghost srcPtr: int,
      ghost dstPtr: int)
    requires mem[..] == m && Home(d, c.base) && StateOf(d) == st && During(c, st, m, srcPtr, dstPtr) && st.info.linked
      && st.stage == FlushOut
    requires st.dict != c.base
    modifies d, mem
    ensures During(c, StateOf(d), mem[..], srcPtr, dstPtr) && !Done(StateOf(d), c.r) && Touched(c, m, mem[..])
    ensures d.dict == c.base && StateOf(d) == st.(dict := d.dict, dictSize := d.dictSize)
  {
    hide Stands, Aligned, Geometry, SizesOk, RunOk, During, Inv, Body, HistoryIn, BufferReady, Touched, Agree, Boundary,
      Unflushed, FlushIn, Kept;
    DuringParts(c, st, m, srcPtr, dstPtr);
    FlushingFacts(c.base, st, m, c.r);
    BodyFacts(c.base, st, m, c.r);
    UnflushedFacts(c.base, st, m);
    ReadyLimits(st, st);
    TmpSame(d, c.base);
    FlushFacts(m, TmpS(c.base, st), c.r.dict + st.out);
    KeptOf(c.base, st, m, c.r);
    PreserveInFront(d, mem, m, c.r.dict + st.out);
    FlushMoved(c, st, StateOf(d), m, mem[..]);
    AlignedFrame(c, st, m, mem[..], c.base, st.tmpOut, srcPtr, dstPtr);
    AlignedPrivate(c, st, StateOf(d), mem[..], srcPtr, dstPtr);
    TouchedBy(c, m, mem[..], c.base, st.tmpOut);
    DuringMade(c, StateOf(d), mem[..], srcPtr, dstPtr);
  }

  lemma KeptOf(base: int, st: St, m: seq<byte>, r: Run)
    requires HistoryIn(base, st, m, r) && st.info.linked
    ensures Kept(m, st.dict, st.dictSize, r.dict + st.out, |st.dec| - |st.out|)
      && DictOk(TmpS(base, st), st.dict, st.dictSize)
  {
    hide Kept;
  }

  lemma FlushMoved(c: Ctx, st: St, st1: St, m: seq<byte>, m1: seq<byte>)
    requires Body(c.base, st, m, c.r) && Boundary(c.r, st.pos, st.dec) && Unflushed(c.base, st, m)
      && st.stage == FlushOut && st.info.linked
    requires FlushIn(m, TmpS(c.base, st), c.r.dict + st.out) && Agree(m, m1, c.base, st.tmpOut)
    requires st1 == st.(dict := c.base, dictSize := st.tmpOut - c.base + st.tmpOutStart)
    requires Kept(m1, c.base, st1.dictSize, c.r.dict + st.out, |st.dec| - |st.out|)
    ensures Stands(c.base, st1, m1, c.r) && !Done(st1, c.r)
  {
    hide Kept, Boundary, InfoIs, Totals, FlushIn, Agree, Unflushed;
    BodyFacts(c.base, st, m, c.r);
    InfoIsSame(st, st1, c.r);
    TotalsSame(st, st1, c.r);
    UnflushedFacts(c.base, st, m);
    UnflushedFrame(c.base, st, m, m1, c.base, st.tmpOut);
    UnflushedSame(c.base, st, st1, m1);
    FlushInFrame(m, m1, TmpS(c.base, st), c.r.dict + st.out, c.base, st.tmpOut);
  }

  lemma UnflushedSame(base: int, st: St, st1: St, m: seq<byte>)
    requires Unflushed(base, st, m) && st1 == st.(dict := st1.dict, dictSize := st1.dictSize)
    ensures Unflushed(base, st1, m)
  {
  }

  /** The end of LZ4F_decompress: history that only the caller's memory holds is saved, unless the caller
      has promised to keep it. */
  method PreserveHistory(d: Dctx, mem: array<byte>, stableDst: bool, ghost c: Ctx, ghost m: seq<byte>,
      ghost srcPtr: int, ghost dstPtr: int)
    requires mem[..] == m && Home(d, c.base) && During(c, StateOf(d), m, srcPtr, dstPtr) && d.dStage != Init
    modifies d, mem
    ensures During(c, StateOf(d), mem[..], srcPtr, dstPtr) && Touched(c, m, mem[..])
      && (Done(StateOf(d), c.r) <==> Done(old(StateOf(d)), c.r))
    ensures !stableDst ==> Preserved(c.base, StateOf(d))
    ensures d.dStage == old(d.dStage) && d.tmpInTarget == old(d.tmpInTarget)
  {
    hide Stands, Aligned, Geometry, SizesOk, RunOk, During, Inv, Touched;
    ghost var st := StateOf(d);
    TouchedNothing(c, m);
    if d.info.linked && d.dict != d.tmpOutBuffer && d.dict != NULL && !stableDst && BlocksFollow(d.dStage) {
      if d.dStage == FlushOut {
        PreserveFlushing(d, mem, c, st, m, srcPtr, dstPtr);
      } else {
        PreserveDict(d, mem, c, st, m, srcPtr, dstPtr);
      }
    }
  }
}
