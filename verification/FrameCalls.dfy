/** Whole calls of LZ4F_decompress, and whole frames: every way of cutting input and output gives the
    same content, consumes exactly the frame, and returns 0 only at its end. */
module FrameCalls {
  import opened Bytes
  import opened DecoderCopies
  import opened Memory
  import opened DecoderApi
  import opened DecoderStream
  import opened FrameFormat
  import opened FrameHistory
  import opened FrameState
  import opened FrameHeaderDecoder
  import opened FrameDecoder
  import opened FrameBlockDecoder
  import opened FrameDataDecoder
  import opened FrameDecompress

  // ---------- the loop ----------

  /** Stages in an order in which they may follow each other without reading input. */
  function Rank(stage: Stage): nat
  {
    match stage
    case GetFrameHeader => 20 case StoreFrameHeader => 19 case Init => 18 case GetCBlock => 16 case StoreCBlock => 15
    case FlushOut => 14 case CopyDirect => 13 case GetBlockChecksum => 12
    case GetBlockHeader => 10 case StoreBlockHeader => 9
    case GetSuffix => 8 case StoreSuffix => 7 case GetSFrameSize => 6 case StoreSFrameSize => 5 case SkipSkippable => 4
  }

  function ErrorOf(v: Verdict): Error
  {
    match v case Fail(error) => error case _ => NoError
  }

  /** One turn of the loop: the stage that is due. */
  method RunStage(d: Dctx, mem: array<byte>, srcPtr: int, srcEnd: int, dstPtr: int, dstEnd: int, dstStart: int,
      hasDst: bool, ghost c: Ctx, ghost m: seq<byte>)
    returns (v: Verdict, src1: int, dst1: int)
    requires mem[..] == m && Home(d, c.base) && During(c, StateOf(d), m, srcPtr, dstPtr) && !Done(StateOf(d), c.r)
    requires srcEnd == c.srcEnd && dstEnd == c.dstEnd && dstStart == c.dst && (!hasDst ==> c.dst == dstEnd)
    modifies d, mem
    ensures Stepped(c, StateOf(d), mem[..], src1, dst1, v) && Touched(c, m, mem[..])
    ensures v == Again ==> srcPtr < src1 || (srcPtr == src1 && Rank(d.dStage) < Rank(old(d.dStage)))
  {
    hide Stands, Aligned, Geometry, SizesOk, RunOk, During, Inv, Touched, Done, Stepped;
    DuringParts(c, StateOf(d), m, srcPtr, dstPtr);
    TouchedNothing(c, m);
    src1, dst1 := srcPtr, dstPtr;
    match d.dStage
    case GetFrameHeader => v, src1 := GetFrameHeaderStage(d, mem, srcPtr, srcEnd, c, m, dstPtr);
    case StoreFrameHeader => v, src1 := StoreFrameHeaderStage(d, mem, srcPtr, srcEnd, c, m, dstPtr);
    case Init =>
      InitDone(c, StateOf(d), m, srcPtr, dstPtr);
      InitStage(d, c);
      v := Again;
      SteppedAgain(c, StateOf(d), m, srcPtr, dstPtr);
    case GetBlockHeader => v, src1 := GetBlockHeaderStage(d, mem, srcPtr, srcEnd, dstPtr, dstEnd, c, m);
    case StoreBlockHeader => v, src1 := StoreBlockHeaderStage(d, mem, srcPtr, srcEnd, dstPtr, dstEnd, c, m);
    case GetCBlock => v, src1, dst1 := GetCBlockStage(d, mem, srcPtr, srcEnd, dstPtr, dstEnd, dstStart, c, m);
    case StoreCBlock => v, src1, dst1 := StoreCBlockStage(d, mem, srcPtr, srcEnd, dstPtr, dstEnd, dstStart, c, m);
    case _ => v, src1, dst1 := RunOtherStage(d, mem, srcPtr, srcEnd, dstPtr, dstEnd, dstStart, hasDst, c, m);
  }

  method RunOtherStage(d: Dctx, mem: array<byte>, srcPtr: int, srcEnd: int, dstPtr: int, dstEnd: int, dstStart: int,
      hasDst: bool, ghost c: Ctx, ghost m: seq<byte>)
    returns (v: Verdict, src1: int, dst1: int)
    requires mem[..] == m && Home(d, c.base) && During(c, StateOf(d), m, srcPtr, dstPtr) && !Done(StateOf(d), c.r)
    requires srcEnd == c.srcEnd && dstEnd == c.dstEnd && dstStart == c.dst && (!hasDst ==> c.dst == dstEnd)
    requires match d.dStage
             case CopyDirect | GetBlockChecksum | FlushOut | GetSuffix | StoreSuffix => true
             case GetSFrameSize | StoreSFrameSize | SkipSkippable => true
             case _ => false
    modifies d, mem
    ensures Stepped(c, StateOf(d), mem[..], src1, dst1, v) && Touched(c, m, mem[..])
    ensures v == Again ==> srcPtr < src1 || (srcPtr == src1 && Rank(d.dStage) < Rank(old(d.dStage)))
  {
    hide Stands, Aligned, Geometry, SizesOk, RunOk, During, Inv, Touched, Done, Stepped;
    DuringParts(c, StateOf(d), m, srcPtr, dstPtr);
    TouchedNothing(c, m);
    src1, dst1 := srcPtr, dstPtr;
    match d.dStage
    case CopyDirect => v, src1, dst1 := CopyDirectStage(d, mem, srcPtr, srcEnd, dstPtr, dstEnd, dstStart, hasDst, c, m);
    case GetBlockChecksum => v, src1 := GetBlockChecksumStage(d, mem, srcPtr, srcEnd, c, m, dstPtr);
    case FlushOut => v, dst1 := FlushOutStage(d, mem, dstPtr, dstEnd, dstStart, hasDst, c, m, srcPtr);
    case GetSuffix => v, src1 := GetSuffixStage(d, mem, srcPtr, srcEnd, c, m, dstPtr);
    case StoreSuffix => v, src1 := StoreSuffixStage(d, mem, srcPtr, srcEnd, c, m, dstPtr);
    case GetSFrameSize => v, src1 := GetSFrameSizeStage(d, mem, srcPtr, srcEnd, c, m, dstPtr);
    case StoreSFrameSize => v, src1 := StoreSFrameSizeStage(d, mem, srcPtr, srcEnd, c, m, dstPtr);
    case SkipSkippable => v, src1 := SkipSkippableStage(d, mem, srcPtr, srcEnd, c, m, dstPtr);
  }

  lemma SteppedAgain(c: Ctx, st: St, m: seq<byte>, srcPtr: int, dstPtr: int)
    requires During(c, st, m, srcPtr, dstPtr) && !Done(st, c.r)
    ensures Stepped(c, st, m, srcPtr, dstPtr, Again)
  {
    hide During, Done;
  }

  lemma SteppedParts(c: Ctx, st: St, m: seq<byte>, srcPtr: int, dstPtr: int, v: Verdict)
    requires Stepped(c, st, m, srcPtr, dstPtr, v)
    ensures During(c, st, m, srcPtr, dstPtr) && !v.Fail? && c.src <= srcPtr <= c.srcEnd && c.dst <= dstPtr <= c.dstEnd
    ensures v == Again ==> !Done(st, c.r)
    ensures v.Stop? ==> (
      && 0 <= v.hint && (v.hint == 0 <==> Done(st, c.r)) && Resumable(st)
      && (Done(st, c.r) || srcPtr == c.srcEnd || dstPtr == c.dstEnd))
  {
    hide During, Done;
    DuringParts(c, st, m, srcPtr, dstPtr);
  }

  /** The context of a call that finds the decoder in state st. */
  ghost function CallOf(st: St, base: int, src: int, srcSize: int, dst: int, dstCapacity: int, r: Run): Ctx
  {
    Ctx(base, src, src + srcSize, dst, dst + dstCapacity, st.pos, st.out, r)
  }

  /** LZ4F_decompress.  For a frame that parses there is no error; the input consumed and the output
      produced advance through the frame and its content, as far as either lasts; the result is 0
      exactly when the frame ends here. */
  method Decompress(d: Dctx, mem: array<byte>, dst: int, dstCapacity: int, hasDst: bool, src: int, srcSize: int,
      stableDst: bool, ghost c: Ctx, ghost m: seq<byte>)
    returns (hint: int, produced: int, consumed: int, error: Error)
    requires mem[..] == m && Home(d, c.base) && c == CallOf(StateOf(d), c.base, src, srcSize, dst, dstCapacity, c.r)
    requires During(c, StateOf(d), m, src, dst) && !Done(StateOf(d), c.r) && (!hasDst ==> dstCapacity == 0)
    modifies d, mem
    ensures error == NoError && 0 <= consumed <= srcSize && 0 <= produced <= dstCapacity
    ensures During(c, StateOf(d), mem[..], src + consumed, dst + produced) && Touched(c, m, mem[..])
    ensures 0 <= hint && (hint == 0 <==> Done(StateOf(d), c.r))
    ensures hint != 0 ==> consumed == srcSize || produced == dstCapacity
    ensures hint != 0 ==> Resumable(StateOf(d))
    ensures !stableDst ==> Preserved(c.base, StateOf(d))
  {
    hide Stands, Aligned, Geometry, SizesOk, RunOk, During, Inv, Touched, Done, Stepped, Preserved;
    DuringParts(c, StateOf(d), m, src, dst);
    TouchedNothing(c, m);
    SteppedAgain(c, StateOf(d), m, src, dst);
    var srcPtr, dstPtr, v := src, dst, Again;
    while v == Again
      invariant Stepped(c, StateOf(d), mem[..], srcPtr, dstPtr, v) && Touched(c, m, mem[..])
      invariant c.src <= srcPtr <= c.srcEnd
      decreases v == Again, c.srcEnd - srcPtr, Rank(d.dStage)
    {
      ghost var m1 := mem[..];
      SteppedParts(c, StateOf(d), m1, srcPtr, dstPtr, v);
      v, srcPtr, dstPtr := RunStage(d, mem, srcPtr, src + srcSize, dstPtr, dst + dstCapacity, dst, hasDst, c, m1);
      SteppedParts(c, StateOf(d), mem[..], srcPtr, dstPtr, v);
      TouchedTrans(c, m, m1, mem[..]);
    }
    ghost var m2 := mem[..];
    SteppedParts(c, StateOf(d), m2, srcPtr, dstPtr, v);
    if v.Fail? { return 0, 0, 0, ErrorOf(v); }
    PreserveHistory(d, mem, stableDst, c, m2, srcPtr, dstPtr);
    TouchedTrans(c, m, m2, mem[..]);
    return v.hint, dstPtr - dst, srcPtr - src, NoError;
  }

  // ---------- between calls ----------

  /** What the context relies on between calls: its private memory, and the dictionary while that is
      the caller's. */
  ghost predicate Untouched(base: int, st: St, m: seq<byte>, m1: seq<byte>)
  {
    && |m| == |m1| && 0 <= base && base + PRIVATE <= |m| && m1[base..base + PRIVATE] == m[base..base + PRIVATE]
    && (!Over(st.stage) && st.dict != base && DictIn(m, st.dict, st.dictSize) && st.dictSize > 0 ==>
         m1[st.dict..st.dict + st.dictSize] == m[st.dict..st.dict + st.dictSize])
  }

  lemma PrivateSlice(base: int, st: St, m: seq<byte>, m1: seq<byte>, a: int, n: int)
    requires Untouched(base, st, m, m1) && base <= a && 0 <= n && a + n <= base + PRIVATE
    ensures m1[a..a + n] == m[a..a + n]
  {
    SliceOfSlice(m, base, base + PRIVATE, a - base, a - base + n);
    SliceOfSlice(m1, base, base + PRIVATE, a - base, a - base + n);
  }

  lemma BufferedStays(base: int, st: St, m: seq<byte>, m1: seq<byte>, addr: int, k: int, s: seq<byte>, i: int)
    requires Untouched(base, st, m, m1) && Buffered(m, addr, k, s, i) && base <= addr && addr + k <= base + PRIVATE
    ensures Buffered(m1, addr, k, s, i)
  {
    PrivateSlice(base, st, m, m1, addr, k);
  }

  lemma DictStays(base: int, st: St, m: seq<byte>, m1: seq<byte>)
    requires Untouched(base, st, m, m1) && !Over(st.stage) && DictIn(m, st.dict, st.dictSize)
      && (st.dict == base ==> st.dictSize <= PRIVATE)
    ensures DictIn(m1, st.dict, st.dictSize)
      && DictBytes(m1, st.dict, st.dictSize) == DictBytes(m, st.dict, st.dictSize)
  {
    if st.dict == base && st.dictSize > 0 { PrivateSlice(base, st, m, m1, base, st.dictSize); }
  }

  lemma DictIsStays(base: int, st: St, m: seq<byte>, m1: seq<byte>, r: Run)
    requires Untouched(base, st, m, m1) && !Over(st.stage) && DictIs(base, st, m, r)
    ensures DictIs(base, st, m1, r)
  {
    hide DictBytes, Untouched;
    DictStays(base, st, m, m1);
  }

  lemma HistoryStays(base: int, st: St, m: seq<byte>, m1: seq<byte>, r: Run)
    requires Untouched(base, st, m, m1) && !Over(st.stage) && HistoryIn(base, st, m, r) && BufferReady(st)
    ensures HistoryIn(base, st, m1, r)
  {
    hide DictBytes, Untouched, SameTail, Need;
    DictInHistory(base, st, m, r);
    DictStays(base, st, m, m1);
  }

  lemma BodyStays(base: int, st: St, m: seq<byte>, m1: seq<byte>, r: Run)
    requires Untouched(base, st, m, m1) && !Over(st.stage) && Body(base, st, m, r)
    ensures Body(base, st, m1, r)
  {
    hide Untouched, HistoryIn, InfoIs, Totals;
    HistoryStays(base, st, m, m1, r);
  }

  lemma FlushingStays(base: int, st: St, m: seq<byte>, m1: seq<byte>, r: Run)
    requires Untouched(base, st, m, m1) && !Over(st.stage) && Flushing(base, st, m, r)
    ensures Flushing(base, st, m1, r)
  {
    hide Untouched, Boundary, Body, EndsWith;
    BodyStays(base, st, m, m1, r);
    BodyFacts(base, st, m, r);
    ReadyLimits(st, st);
    UnflushedFacts(base, st, m);
    SameSize(base, st, m, m1);
    PrivateSlice(base, st, m, m1, st.tmpOut, st.tmpOutSize);
    PrivateSlice(base, st, m, m1, st.tmpOut, st.tmpOutStart);
  }

  lemma SameSize(base: int, st: St, m: seq<byte>, m1: seq<byte>)
    requires Untouched(base, st, m, m1)
    ensures |m| == |m1|
  {
  }

  /** Between calls the caller may do anything with the rest of memory. */
  lemma InvStays(base: int, st: St, m: seq<byte>, m1: seq<byte>, r: Run)
    requires Inv(base, st, m, r) && Untouched(base, st, m, m1)
    ensures Inv(base, st, m1, r)
  {
    hide Untouched, RunOk, SizesOk, DictIs, InfoIs, Boundary, Body, Buffered, RawUpTo, InCompressed, Flushing, Ended,
      InSkippable, Le32, DataSize;
    SameSize(base, st, m, m1);
    match st.stage
    case GetFrameHeader => if !Done(st, r) { DictIsStays(base, st, m, m1, r); }
    case StoreFrameHeader =>
      DictIsStays(base, st, m, m1, r);
      BufferedStays(base, st, m, m1, HeaderAt(base), st.tmpInSize, r.s, 0);
    case Init => DictIsStays(base, st, m, m1, r);
    case StoreBlockHeader =>
      BodyStays(base, st, m, m1, r);
      BufferedStays(base, st, m, m1, InAt(base), st.tmpInSize, r.s, st.pos - st.tmpInSize);
    case GetBlockChecksum =>
      BodyStays(base, st, m, m1, r);
      BufferedStays(base, st, m, m1, HeaderAt(base), st.tmpInSize, r.s, st.pos - st.tmpInSize);
    case StoreCBlock =>
      BodyStays(base, st, m, m1, r);
      BodyFacts(base, st, m, r);
      TargetPositive(st, r);
      BufferedStays(base, st, m, m1, InAt(base), st.tmpInSize, r.s, st.pos - st.tmpInSize);
    case FlushOut => FlushingStays(base, st, m, m1, r);
    case StoreSuffix => BufferedStays(base, st, m, m1, InAt(base), st.tmpInSize, r.s, st.pos - st.tmpInSize);
    case GetSuffix | GetSFrameSize | SkipSkippable =>
    case StoreSFrameSize => BufferedStays(base, st, m, m1, HeaderAt(base) + 4, st.tmpInSize - 4, r.s, 4);
    case GetBlockHeader | CopyDirect | GetCBlock => BodyStays(base, st, m, m1, r);
  }

  // ---------- a whole frame ----------

  lemma WithinBlock(r: Run, i: int, dec: seq<byte>, pos: int, out: seq<byte>)
    requires Boundary(r, i, dec) && pos < i + BH_SIZE && RunOk(r) && |out| <= |dec| && dec[..|out|] == out
    ensures pos < r.frame.end && |out| <= |FullOf(r)| && FullOf(r)[..|out|] == out
  {
    hide RunOk, Blocks;
    DecodedWithin(r, i, dec);
    ContentFacts(r);
    assert r.frame.full[..|out|] == r.frame.full[..|dec|][..|out|];
  }

  lemma RawWithin(st: St, r: Run, left: int)
    requires RawUpTo(st, r, left) && RunOk(r) && r.frame.Content?
    requires st.pos < st.blockStart + BH_SIZE + DataSize(Le32(r.s,
      st.blockStart)) + CrcSize(r.frame.hd.blockChecksum) + BH_SIZE
    ensures st.pos < r.frame.end && |st.out| <= |FullOf(r)| && FullOf(r)[..|st.out|] == st.out
  {
    hide Boundary, RunOk, Le32, DataSize, BlockData, RawUpTo, InBlock, NextBlock;
    RawUpToFacts(st, r, left);
    RawSlice(st, r, left, 0);
    RawOutIs(st, r, left);
    var data := BlockData(r.s, st.blockStart);
    assert (st.blockOut + data)[..|st.out|] == st.out;
    WithinBlock(r, NextBlock(r.s, st.blockStart, r.frame.hd), st.blockOut + data, st.pos, st.out);
  }

  lemma RawOutIs(st: St, r: Run, left: int)
    requires RawUpTo(st, r, left)
    ensures 0 <= DataSize(Le32(r.s, st.blockStart)) - left <= |BlockData(r.s, st.blockStart)|
    ensures st.out == st.blockOut + BlockData(r.s, st.blockStart)[..DataSize(Le32(r.s, st.blockStart)) - left]
  {
    hide Le32, DataSize, BlockData, InBlock;
  }

  lemma DataWithin(st: St, r: Run)
    requires InCompressed(st, r) && InfoIs(st, r) && RunOk(r)
      && st.pos < st.blockStart + BH_SIZE + st.tmpInTarget + BH_SIZE
    ensures st.pos < r.frame.end && |st.out| <= |FullOf(r)| && FullOf(r)[..|st.out|] == st.out
  {
    hide Boundary, RunOk, Le32, DataSize, BlockData, InCompressed, InfoIs, BlockDecodes, HistoryOf, More, Crc;
    CompressedFacts(st, r);
    var upTo := st.dec + More(st, r);
    assert upTo[..|st.out|] == st.out;
    WithinBlock(r, st.blockStart + BH_SIZE + st.tmpInTarget, upTo, st.pos, st.out);
  }

  lemma BeforeBlocks(base: int, st: St, m: seq<byte>, r: Run)
    requires Stands(base, st, m, r) && RunOk(r) && !Done(st, r)
    requires match st.stage
             case GetFrameHeader | StoreFrameHeader | GetSFrameSize | StoreSFrameSize => true
             case SkipSkippable | StoreSuffix => true
             case _ => false
    requires Resumable(st)
    ensures st.pos < r.frame.end && |st.out| <= |FullOf(r)| && FullOf(r)[..|st.out|] == st.out
  {
    hide RunOk, DictIs, Stands, Boundary, Buffered, Le32, InfoIs, Done;
    if r.frame.Content? {
      NoContentSize(r);
      ContentFacts(r);
      DecodedWithin(r, r.frame.hd.size, []);
      assert r.frame.full[..|r.frame.full|] == r.frame.full && r.frame.full[..0] == [];
    } else {
      SkippableFacts(r);
      Le32Range(r.s, 4);
    }
    match st.stage
    case GetFrameHeader => AtStartFacts(base, st, m, r);
    case StoreFrameHeader => InHeaderFacts(base, st, m, r);
    case StoreSuffix => EndedFacts(base, st, m, r);
    case _ => SkipFacts(base, st, m, r);
  }

  lemma InBlocks(base: int, st: St, m: seq<byte>, r: Run)
    requires Stands(base, st, m, r) && RunOk(r) && BlocksFollow(st.stage) && st.stage != Init
    ensures st.pos < r.frame.end && |st.out| <= |FullOf(r)| && FullOf(r)[..|st.out|] == st.out
  {
    hide RunOk, Stands, Boundary, Buffered, Le32, InfoIs, Body, RawUpTo, InCompressed, Unflushed, DataSize;
    BodyOf(base, st, m, r);
    BodyFacts(base, st, m, r);
    InfoFields(st, r);
    assert st.dec[..|st.dec|] == st.dec;
    match st.stage
    case GetBlockHeader =>
      AtBlockFacts(base, st, m, r);
      WithinBlock(r, st.pos, st.dec, st.pos, st.out);
    case StoreBlockHeader =>
      AtBlockFacts(base, st, m, r);
      BoundaryStep(r, st.pos - st.tmpInSize, st.dec);
      WithinBlock(r, st.pos - st.tmpInSize, st.dec, st.pos, st.out);
    case CopyDirect =>
      RawFacts(base, st, m, r);
      RawUpToFacts(st, r, st.tmpInTarget);
      RawWithin(st, r, st.tmpInTarget);
    case GetBlockChecksum =>
      ChecksumFacts(base, st, m, r);
      RawWithin(st, r, 0);
    case GetCBlock | StoreCBlock =>
      DataFacts(base, st, m, r);
      TargetPositive(st, r);
      DataWithin(st, r);
    case FlushOut =>
      FlushingFacts(base, st, m, r);
      UnflushedFacts(base, st, m);
      BoundaryStep(r, st.pos, st.dec);
      WithinBlock(r, st.pos, st.dec, st.pos, st.out);
  }

  lemma FrameInStream(r: Run)
    requires RunOk(r)
    ensures r.frame.end <= |r.s|
  {
    hide RunOk, Boundary, Le32, Crc;
    if r.frame.Content? {
      ContentFacts(r);
      DecodedWithin(r, r.frame.hd.size, []);
    } else {
      SkippableFacts(r);
    }
  }

  /** As long as the frame is not done, input is missing, and the output is the start of the content. */
  lemma StillWithin(base: int, st: St, m: seq<byte>, r: Run)
    requires Inv(base, st, m, r) && !Done(st, r) && Resumable(st)
    ensures st.pos < r.frame.end <= |r.s| && |st.out| <= |FullOf(r)| && FullOf(r)[..|st.out|] == st.out
  {
    hide RunOk, Stands, SizesOk, Done, FullOf;
    FrameInStream(r);
    if BlocksFollow(st.stage) { InBlocks(base, st, m, r); } else { BeforeBlocks(base, st, m, r); }
  }
}
