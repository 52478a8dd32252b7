/** Where a decoding context stands in its frame: the invariant of LZ4F_decompress, stage by stage. */
module FrameState {
  import opened Bytes
  import opened BlockFormat
  import opened DecoderCopies
  import opened Memory
  import opened DecoderApi
  import opened DecoderStream
  import opened FrameFormat
  import opened FrameHistory

  /** The fields of a context, as a value. */
  datatype St = St(info: FrameInfo, stage: Stage, remaining: int, maxBlockSize: int, maxBufferSize: int,
                   tmpInSize: int, tmpInTarget: int, dict: int, dictSize: int,
                   tmpOut: int, tmpOutSize: int, tmpOutStart: int, xxh: seq<byte>, blockXxh: seq<byte>,
                   tmpInCapacity: int, pos: int, out: seq<byte>, dec: seq<byte>, blockStart: int, blockOut: seq<byte>)

  ghost function StateOf(d: Dctx): St
    reads d
  {
    St(d.info, d.dStage, d.frameRemainingSize, d.maxBlockSize, d.maxBufferSize, d.tmpInSize, d.tmpInTarget, d.dict,
      d.dictSize, d.tmpOut, d.tmpOutSize, d.tmpOutStart, d.xxh, d.blockXxh, d.tmpInCapacity, d.pos, d.out, d.dec,
      d.blockStart, d.blockOut)
  }

  /** The private addresses of a context. */
  ghost predicate Home(d: Dctx, base: int)
  {
    && d.tmpOutBuffer == d.lo == base && d.tmpIn == InAt(base) && d.header == HeaderAt(base) && d.hi == base + PRIVATE
  }

  const PRIVATE: int := TMP_OUT_MAX + TMP_IN_MAX + 19

  function InAt(base: int): int { base + TMP_OUT_MAX }

  function HeaderAt(base: int): int { base + TMP_OUT_MAX + TMP_IN_MAX }

  /** The stream of input from the start of a frame on, its dictionary, which the caller keeps at dictAt,
      and what it parses to. */
  datatype Run = Run(s: seq<byte>, dict: seq<byte>, dictAt: int, frame: Frame)

  ghost predicate RunOk(r: Run) { ParseFrame(r.s, r.dict) == Some(r.frame) }

  function FullOf(r: Run): seq<byte> { if r.frame.Content? then r.frame.full else [] }

  // ---------- buffers ----------

  predicate SizesFor(id: int, maxBufferSize: int, capacity: int)
  {
    && 4 <= id <= 7 && capacity == BlockSize(id) + 4
    && (maxBufferSize == BlockSize(id) || maxBufferSize == BlockSize(id) + 2 * KB64)
  }

  /** Buffer sizes come in pairs. */
  ghost predicate SizesOk(maxBufferSize: int, capacity: int)
  {
    maxBufferSize == 0 || exists id :: SizesFor(id, maxBufferSize, capacity)
  }

  function BufferNeeded(maxBlockSize: int, linked: bool): int { maxBlockSize + if linked then 2 * KB64 else 0 }

  /** Reusing a large enough output buffer never leaves too small an input buffer: the sizes grow
      by a factor of four. */
  lemma BuffersFit(maxBufferSize: int, capacity: int, id: int, linked: bool)
    requires SizesOk(maxBufferSize, capacity) && 4 <= id <= 7 && BufferNeeded(BlockSize(id), linked) <= maxBufferSize
    ensures BlockSize(id) + 4 <= capacity && maxBufferSize <= TMP_OUT_MAX && capacity <= TMP_IN_MAX
  {
  }

  ghost predicate BufferReady(st: St)
  {
    && BufferNeeded(st.maxBlockSize, st.info.linked) <= st.maxBufferSize <= TMP_OUT_MAX
    && st.maxBlockSize + 4 <= st.tmpInCapacity <= TMP_IN_MAX && KB64 <= st.maxBlockSize
  }

  /** k bytes at addr are the stream's from i on. */
  ghost predicate Buffered(m: seq<byte>, addr: int, k: int, s: seq<byte>, i: int)
  {
    0 <= k && 0 <= addr && addr + k <= |m| && 0 <= i && i + k <= |s| && m[addr..addr + k] == s[i..i + k]
  }

  ghost function TmpS(base: int, st: St): Tmp
  {
    Tmp(base, st.maxBufferSize, st.tmpOut, st.tmpOutSize, st.tmpOutStart, base, base + PRIVATE)
  }

  // ---------- history ----------

  /** The caller's dictionary is in place. */
  ghost predicate DictIs(base: int, st: St, m: seq<byte>, r: Run)
  {
    && DictIn(m, st.dict, st.dictSize) && DictBytes(m, st.dict, st.dictSize) == r.dict
    && (st.dictSize == 0 || (st.dict == r.dictAt != base && Apart(st.dict, st.dictSize, base, PRIVATE)))
  }

  ghost predicate HistoryIn(base: int, st: St, m: seq<byte>, r: Run)
  {
    if st.info.linked then
      && Kept(m, st.dict, st.dictSize, r.dict + st.out, |st.dec| - |st.out|)
      && DictOk(TmpS(base, st), st.dict, st.dictSize)
    else DictIs(base, st, m, r) && st.tmpOut == base
  }

  // ---------- position ----------

  ghost predicate InfoIs(st: St, r: Run)
  {
    && r.frame.Content? && 4 <= r.frame.hd.blockSizeID <= 7
    && st.info == FrameInfo(false, r.frame.hd.linked, r.frame.hd.blockChecksum, r.frame.hd.contentChecksum,
                            r.frame.hd.contentSize, r.frame.hd.blockSizeID, r.frame.hd.dictID)
    && st.maxBlockSize == BlockSize(r.frame.hd.blockSizeID)
  }

  /** At a block header, after the content dec. */
  ghost predicate Boundary(r: Run, i: int, dec: seq<byte>)
  {
    0 <= i && r.frame.Content? && Blocks(r.s, i, r.frame.hd, r.dict, dec) == Some((r.frame.full, r.frame.bodyEnd))
  }

  /** Checksum and size so far count everything decoded. */
  ghost predicate Totals(st: St, r: Run)
  {
    && r.frame.Content? && (r.frame.hd.contentChecksum ==> st.xxh == st.dec)
    && st.remaining == if r.frame.hd.contentSize == 0 then 0 else r.frame.hd.contentSize - |st.dec|
  }

  ghost predicate Body(base: int, st: St, m: seq<byte>, r: Run)
  {
    InfoIs(st, r) && Totals(st, r) && BufferReady(st) && HistoryIn(base, st, m, r)
  }

  /** Inside the block at blockStart. */
  ghost predicate InBlock(st: St, r: Run)
  {
    && Boundary(r, st.blockStart, st.blockOut)
    && BlockOk(r.s, st.blockStart, r.frame.hd, r.dict, st.blockOut) && Le32(r.s, st.blockStart) != 0
  }

  ghost predicate AtStart(base: int, st: St, m: seq<byte>, r: Run)
  {
    st.pos == 0 && st.out == st.dec == [] && st.remaining == 0 && DictIs(base, st, m, r)
  }

  /** The frame is finished and the context reset. */
  ghost predicate Done(st: St, r: Run)
  {
    && st.stage == GetFrameHeader && st.pos == r.frame.end && st.out == st.dec == FullOf(r)
    && st.remaining == 0 && st.dict == NULL && st.dictSize == 0
  }

  ghost predicate InHeader(base: int, st: St, m: seq<byte>, r: Run)
  {
    && st.out == st.dec == [] && st.remaining == 0 && DictIs(base, st, m, r)
    && st.pos == st.tmpInSize < st.tmpInTarget <= MAX_FH_SIZE && Buffered(m, HeaderAt(base), st.tmpInSize, r.s, 0)
    && (st.tmpInTarget == MIN_FH_SIZE
        || (r.frame.Content? && MIN_FH_SIZE <= st.tmpInSize && st.tmpInTarget == r.frame.hd.size))
  }

  ghost predicate AtInit(base: int, st: St, m: seq<byte>, r: Run)
  {
    && InfoIs(st, r) && st.pos == r.frame.hd.size && st.out == st.dec == [] && DictIs(base, st, m, r)
    && st.remaining == r.frame.hd.contentSize && Boundary(r, st.pos, [])
  }

  ghost predicate AtBlock(base: int, st: St, m: seq<byte>, r: Run)
  {
    Body(base, st, m, r) && st.out == st.dec && Boundary(r, st.pos, st.dec)
  }

  ghost predicate InBlockHeader(base: int, st: St, m: seq<byte>, r: Run)
  {
    && Body(base, st, m, r) && st.out == st.dec && Boundary(r, st.pos - st.tmpInSize, st.dec)
    && st.tmpInSize < BH_SIZE && Buffered(m, InAt(base), st.tmpInSize, r.s, st.pos - st.tmpInSize)
  }

  /** `left` bytes of the raw block are still to come. */
  ghost predicate RawUpTo(st: St, r: Run, left: int)
  {
    var n := DataSize(Le32(r.s, st.blockStart));
    && InBlock(st, r) && IsRaw(Le32(r.s, st.blockStart)) && 0 <= left <= n && n <= |BlockData(r.s, st.blockStart)|
    && st.out == st.dec == st.blockOut + BlockData(r.s, st.blockStart)[..n - left]
    && (r.frame.hd.blockChecksum ==> st.blockXxh == BlockData(r.s, st.blockStart)[..n - left])
  }

  ghost predicate InRaw(base: int, st: St, m: seq<byte>, r: Run)
  {
    && Body(base, st, m, r) && RawUpTo(st, r, st.tmpInTarget)
    && st.pos == st.blockStart + BH_SIZE + DataSize(Le32(r.s, st.blockStart)) - st.tmpInTarget
  }

  ghost predicate InBlockChecksum(base: int, st: St, m: seq<byte>, r: Run)
  {
    && Body(base, st, m, r) && RawUpTo(st, r, 0) && r.frame.hd.blockChecksum && st.tmpInSize < 4
    && st.pos - st.tmpInSize == st.blockStart + BH_SIZE + DataSize(Le32(r.s, st.blockStart))
    && Buffered(m, HeaderAt(base), st.tmpInSize, r.s, st.pos - st.tmpInSize)
  }

  ghost predicate InCompressed(st: St, r: Run)
  {
    && InBlock(st, r) && !IsRaw(Le32(r.s, st.blockStart)) && st.out == st.dec == st.blockOut
    && st.tmpInTarget == DataSize(Le32(r.s, st.blockStart)) + CrcSize(r.frame.hd.blockChecksum)
  }

  ghost predicate AtData(base: int, st: St, m: seq<byte>, r: Run)
  {
    Body(base, st, m, r) && InCompressed(st, r) && st.pos == st.blockStart + BH_SIZE
  }

  ghost predicate InData(base: int, st: St, m: seq<byte>, r: Run)
  {
    && Body(base, st, m, r) && InCompressed(st, r) && st.pos == st.blockStart + BH_SIZE + st.tmpInSize
    && st.tmpInSize < st.tmpInTarget && Buffered(m, InAt(base), st.tmpInSize, r.s, st.pos - st.tmpInSize)
  }

  /** The private buffer holds a decoded block, of which the output has the first part. */
  ghost predicate Unflushed(base: int, st: St, m: seq<byte>)
  {
    && base <= st.tmpOut && 0 <= st.tmpOutStart <= st.tmpOutSize <= |st.dec|
       && st.tmpOut + st.tmpOutSize <= base + st.maxBufferSize
    && 0 <= base && base + st.maxBufferSize <= |m|
    && m[st.tmpOut..st.tmpOut + st.tmpOutSize] == st.dec[|st.dec| - st.tmpOutSize..]
    && st.out == st.dec[..|st.dec| - (st.tmpOutSize - st.tmpOutStart)]
  }

  ghost predicate Flushing(base: int, st: St, m: seq<byte>, r: Run)
  {
    && Body(base, st, m, r) && Boundary(r, st.pos, st.dec) && Unflushed(base, st, m)
    && (st.info.linked ==>
      && FlushIn(m, TmpS(base, st), r.dict + st.out)
      && (st.dict == base && st.dictSize > 0 ==> st.dict + st.dictSize == st.tmpOut + st.tmpOutStart))
  }

  ghost predicate Ended(st: St, r: Run)
  {
    && InfoIs(st, r) && Totals(st, r) && BufferReady(st) && st.out == st.dec == r.frame.full
  }

  ghost predicate AtSuffix(base: int, st: St, m: seq<byte>, r: Run)
  {
    Ended(st, r) && st.pos == r.frame.bodyEnd
  }

  ghost predicate InSuffix(base: int, st: St, m: seq<byte>, r: Run)
  {
    && Ended(st, r) && r.frame.hd.contentChecksum && st.pos == r.frame.bodyEnd + st.tmpInSize && st.tmpInSize < 4
    && st.remaining == 0 && Buffered(m, InAt(base), st.tmpInSize, r.s, r.frame.bodyEnd)
  }

  ghost predicate InSkippable(st: St, r: Run)
  {
    r.frame.Skippable? && st.out == st.dec == [] && st.remaining == 0 && st.dictSize == |r.dict|
    && (st.dictSize == 0 || st.dict == r.dictAt)
  }

  ghost predicate InSkipSize(base: int, st: St, m: seq<byte>, r: Run)
  {
    && InSkippable(st, r) && 4 <= st.tmpInSize == st.pos < st.tmpInTarget == 8
    && Buffered(m, HeaderAt(base) + 4, st.tmpInSize - 4, r.s, 4)
  }

  ghost predicate Skipping(st: St, r: Run)
  {
    InSkippable(st, r) && 0 <= st.tmpInTarget && st.pos + st.tmpInTarget == r.frame.end
  }

  // ---------- the invariant ----------

  ghost predicate Stands(base: int, st: St, m: seq<byte>, r: Run)
  {
    match st.stage
    case GetFrameHeader => AtStart(base, st, m, r) || Done(st, r)
    case StoreFrameHeader => InHeader(base, st, m, r)
    case Init => AtInit(base, st, m, r)
    case GetBlockHeader => AtBlock(base, st, m, r)
    case StoreBlockHeader => InBlockHeader(base, st, m, r)
    case CopyDirect => InRaw(base, st, m, r)
    case GetBlockChecksum => InBlockChecksum(base, st, m, r)
    case GetCBlock => AtData(base, st, m, r)
    case StoreCBlock => InData(base, st, m, r)
    case FlushOut => Flushing(base, st, m, r)
    case GetSuffix => AtSuffix(base, st, m, r)
    case StoreSuffix => InSuffix(base, st, m, r)
    case GetSFrameSize => InSkippable(st, r) && st.pos == 4
    case StoreSFrameSize => InSkipSize(base, st, m, r)
    case SkipSkippable => Skipping(st, r)
  }

  ghost predicate Inv(base: int, st: St, m: seq<byte>, r: Run)
  {
    && 0 <= base && base + PRIVATE <= |m| && RunOk(r) && SizesOk(st.maxBufferSize, st.tmpInCapacity)
    && Stands(base, st, m, r)
  }

  // ---------- one call ----------

  /** One call: its input [src, srcEnd) is the stream from pos0 on, its output goes to [dst, dstEnd). */
  datatype Ctx = Ctx(base: int, src: int, srcEnd: int, dst: int, dstEnd: int, pos0: int, out0: seq<byte>, r: Run)

  ghost predicate Geometry(c: Ctx, size: int)
  {
    && 0 <= c.base && c.base + PRIVATE <= size && 0 <= c.src <= c.srcEnd <= size && 0 <= c.dst <= c.dstEnd <= size
    && Apart(c.src, c.srcEnd - c.src, c.dst, c.dstEnd - c.dst) && Apart(c.src, c.srcEnd - c.src, c.base, PRIVATE)
    && (c.dstEnd < c.base || c.base + PRIVATE < c.dst)
  }

  /** History is of no more use. */
  predicate Over(stage: Stage) { stage == GetSuffix || stage == StoreSuffix }

  /** The dictionary is not where output will still be written. */
  predicate DictClear(st: St, dstPtr: int, dstEnd: int)
  {
    st.dictSize == 0 || Apart(st.dict, st.dictSize, dstPtr, dstEnd - dstPtr)
  }

  /** Input and output positions agree with the position in the frame. */
  ghost predicate Aligned(c: Ctx, st: St, m: seq<byte>, srcPtr: int, dstPtr: int)
  {
    && c.src <= srcPtr <= c.srcEnd && c.dst <= dstPtr <= c.dstEnd <= |m| && 0 <= c.dst
    && st.pos == c.pos0 + (srcPtr - c.src) && st.out == c.out0 + m[c.dst..dstPtr]
    && Buffered(m, c.src, c.srcEnd - c.src, c.r.s, c.pos0)
    && (Over(st.stage) || DictClear(st, dstPtr, c.dstEnd))
  }

  ghost predicate During(c: Ctx, st: St, m: seq<byte>, srcPtr: int, dstPtr: int)
  {
    Geometry(c, |m|) && Inv(c.base, st, m, c.r) && Aligned(c, st, m, srcPtr, dstPtr)
  }

  /** Only private memory and the output buffer differ. */
  ghost predicate Touched(c: Ctx, m: seq<byte>, m1: seq<byte>)
  {
    |m| == |m1| && forall k :: 0 <= k < |m| && !(c.base <= k < c.base + PRIVATE) && !(c.dst <= k < c.dstEnd) ==>
      m1[k] == m[k]
  }

  lemma TouchedBy(c: Ctx, m: seq<byte>, m1: seq<byte>, a: int, b: int)
    requires Agree(m, m1, a, b)
    requires (c.base <= a && b <= c.base + PRIVATE) || (c.dst <= a && b <= c.dstEnd)
    ensures Touched(c, m, m1)
  {
  }

  lemma TouchedTrans(c: Ctx, m: seq<byte>, m1: seq<byte>, m2: seq<byte>)
    requires Touched(c, m, m1) && Touched(c, m1, m2)
    ensures Touched(c, m, m2)
  {
  }

  /** The input of this call from srcPtr on. */
  lemma InputBytes(c: Ctx, st: St, m: seq<byte>, srcPtr: int, dstPtr: int, k: int)
    requires Aligned(c, st, m, srcPtr, dstPtr) && 0 <= k <= c.srcEnd - srcPtr
    ensures Buffered(m, srcPtr, k, c.r.s, st.pos)
  {
    SliceOfSlice(m, c.src, c.srcEnd, srcPtr - c.src, srcPtr - c.src + k);
    SliceOfSlice(c.r.s, c.pos0, c.pos0 + (c.srcEnd - c.src), srcPtr - c.src, srcPtr - c.src + k);
  }

  lemma BufferedGrows(m: seq<byte>, m1: seq<byte>, addr: int, k: int, s: seq<byte>, i: int, from: int, n: int)
    requires Buffered(m, addr, k, s, i) && Buffered(m, from, n, s, i + k) && addr + k + n <= |m|
    requires Agree(m, m1, addr + k, addr + k + n) && m1[addr + k..addr + k + n] == m[from..from + n]
    ensures Buffered(m1, addr, k + n, s, i)
  {
    AgreeSlice(m, m1, addr + k, addr + k + n, addr, k);
    SliceJoin(m1, addr, addr + k, addr + k + n);
    SliceJoin(s, i, i + k, i + k + n);
  }

  lemma BufferedFrame(m: seq<byte>, m1: seq<byte>, addr: int, k: int, s: seq<byte>, i: int, a: int, b: int)
    requires Buffered(m, addr, k, s, i) && Agree(m, m1, a, b) && (addr + k <= a || b <= addr)
    ensures Buffered(m1, addr, k, s, i)
  {
    AgreeSlice(m, m1, a, b, addr, k);
  }

  lemma BufferedPart(m: seq<byte>, addr: int, k: int, s: seq<byte>, i: int, from: int, n: int)
    requires Buffered(m, addr, k, s, i) && 0 <= from && 0 <= n && from + n <= k
    ensures Buffered(m, addr + from, n, s, i + from)
  {
    SliceOfSlice(m, addr, addr + k, from, from + n);
    SliceOfSlice(s, i, i + k, from, from + n);
  }

  // ---------- frames ----------

  lemma DictFrame(m: seq<byte>, m1: seq<byte>, a: int, b: int, dict: int, dictSize: int)
    requires DictIn(m, dict, dictSize) && Agree(m, m1, a, b) && (dictSize == 0 || dict + dictSize <= a || b <= dict)
    ensures DictIn(m1, dict, dictSize) && DictBytes(m1, dict, dictSize) == DictBytes(m, dict, dictSize)
  {
    if dictSize > 0 { AgreeSlice(m, m1, a, b, dict, dictSize); }
  }

  /** Writes to private memory behind the output buffer leave the history alone. */
  lemma HistoryFrame(base: int, st: St, m: seq<byte>, m1: seq<byte>, a: int, b: int, r: Run)
    requires HistoryIn(base, st, m, r) && Agree(m, m1, a, b) && InAt(base) <= a && b <= base + PRIVATE
    requires st.maxBufferSize <= TMP_OUT_MAX
    ensures HistoryIn(base, st, m1, r)
  {
    hide Need, SameTail, DictBytes, Agree;
    if a < b {
      DictFrame(m, m1, a, b, st.dict, st.dictSize);
    } else {
      DictFrame(m, m1, a, b, st.dict, st.dictSize);
    }
  }

  lemma DictIsFrame(base: int, st: St, m: seq<byte>, m1: seq<byte>, a: int, b: int, r: Run)
    requires DictIs(base, st, m, r) && Agree(m, m1, a, b) && base <= a && b <= base + PRIVATE
    ensures DictIs(base, st, m1, r)
  {
    hide DictBytes, Agree;
    DictFrame(m, m1, a, b, st.dict, st.dictSize);
  }

  lemma AlignedFrame(c: Ctx, st: St, m: seq<byte>, m1: seq<byte>, a: int, b: int, srcPtr: int, dstPtr: int)
    requires Aligned(c, st, m, srcPtr, dstPtr) && Geometry(c, |m|) && Agree(m, m1, a, b)
    requires c.base <= a && b <= c.base + PRIVATE
    ensures Aligned(c, st, m1, srcPtr, dstPtr) && Geometry(c, |m1|)
  {
    AgreeSize(m, m1, a, b);
    AgreeSlice(m, m1, a, b, c.dst, dstPtr - c.dst);
    BufferedFrame(m, m1, c.src, c.srcEnd - c.src, c.r.s, c.pos0, a, b);
  }
}
