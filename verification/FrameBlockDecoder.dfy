/** The stages of LZ4F_decompress that produce output: raw blocks, compressed blocks decoded directly or
    through the private buffer, and the flushing of that buffer. */
module FrameBlockDecoder {
  import opened Bytes
  import opened BlockFormat
  import opened BlockShape
  import opened DecoderCopies
  import opened Memory
  import opened DecoderApi
  import opened DecoderStream
  import opened FrameFormat
  import opened FrameHistory
  import opened FrameState
  import opened FrameHeaderDecoder
  import opened FrameDecoder

  // ---------- output and history ----------

  /** Writes to the output buffer leave the history alone. */
  lemma HistoryDstFrame(c: Ctx, st: St, m: seq<byte>, m1: seq<byte>, a: int, b: int, dstPtr: int)
    requires HistoryIn(c.base, st, m, c.r) && Agree(m, m1, a, b) && Geometry(c, |m|)
    requires c.dst <= dstPtr <= a && b <= c.dstEnd && DictClear(st, dstPtr, c.dstEnd) && dstPtr <= c.dstEnd
    ensures HistoryIn(c.base, st, m1, c.r) && |m1| == |m|
  {
    hide Need, SameTail, DictBytes, Agree;
    AgreeSize(m, m1, a, b);
    if a <= b {
      DictFrame(m, m1, a, b, st.dict, st.dictSize);
    } else {
      AgreeWider(m, m1, a, b, a, c.dstEnd);
      DictFrame(m, m1, a, c.dstEnd, st.dict, st.dictSize);
    }
  }

  /** The bytes of this call's output are the end of the history. */
  lemma OutputEndsHistory(dict: seq<byte>, out0: seq<byte>, piece: seq<byte>)
    ensures EndsWith(dict + (out0 + piece), piece)
  {
    var h := dict + (out0 + piece);
    assert h == (dict + out0) + piece;
  }

  /** The state after `piece` has reached the output. */
  ghost function Output(st: St, piece: seq<byte>, withinTmp: bool, dict: int, dictSize: int): St
  {
    st.(out := st.out + piece, dec := if withinTmp then st.dec else st.dec + piece, dict := dict, dictSize := dictSize)
  }

  /** What must hold when n bytes lie at dstPtr and are about to become output. */
  ghost predicate PieceWritten(c: Ctx, st: St, m: seq<byte>, dstPtr: int, n: int, withinTmp: bool)
  {
    && Geometry(c, |m|) && c.dst <= dstPtr && 0 <= n && dstPtr + n <= c.dstEnd && st.out == c.out0 + m[c.dst..dstPtr]
    && HistoryIn(c.base, st, m, c.r) && DictClear(st, dstPtr, c.dstEnd) && BufferReady(st)
    && (if withinTmp then |st.dec| - |st.out| == st.tmpOutSize - st.tmpOutStart
          && (st.info.linked ==> FromTmp(m, TmpS(c.base, st), c.r.dict + st.out, st.dict, st.dictSize, dstPtr, n))
        else st.dec == st.out)
  }

  lemma PieceIsOk(c: Ctx, st: St, m: seq<byte>, dstPtr: int, n: int, withinTmp: bool)
    requires PieceWritten(c, st, m, dstPtr, n, withinTmp) && st.info.linked
    ensures var t := TmpS(c.base, st); var hist := c.r.dict + st.out;
      && PieceOk(m, t, hist, c.dst, dstPtr, n) && DictOk(t, st.dict, st.dictSize)
      && Kept(m, st.dict, st.dictSize, hist, if withinTmp then st.tmpOutSize - st.tmpOutStart else 0)
      && (withinTmp ==> FromTmp(m, t, hist, st.dict, st.dictSize, dstPtr, n))
  {
    hide Need, SameTail, DictBytes, EndsWith, FlushIn, Kept;
    OutputEndsHistory(c.r.dict, c.out0, m[c.dst..dstPtr]);
  }

  lemma TmpSame(d: Dctx, base: int)
    requires Home(d, base)
    ensures TmpOf(d) == TmpS(base, StateOf(d))
  {
  }

  lemma OutputKept(c: Ctx, st: St, m: seq<byte>, m1: seq<byte>, dstPtr: int, n: int, withinTmp: bool, dict: int,
      dictSize: int)
    requires PieceWritten(c, st, m, dstPtr, n, withinTmp)
    requires dstPtr + n <= |m| && 0 <= dstPtr
    requires if st.info.linked then
        && Kept(m1, dict, dictSize, (c.r.dict + st.out) + m[dstPtr..dstPtr + n], if withinTmp
           then st.tmpOutSize - st.tmpOutStart - n else 0)
        && DictOk(TmpS(c.base, st), dict, dictSize) && (dict == c.base || dict + dictSize == dstPtr + n)
      else m1 == m && dict == st.dict && dictSize == st.dictSize
    ensures var st1 := Output(st, m[dstPtr..dstPtr + n], withinTmp, dict, dictSize);
      HistoryIn(c.base, st1, m1, c.r) && DictClear(st1, dstPtr + n, c.dstEnd)
  {
    hide Need, SameTail, DictBytes, FromTmp, Kept;
    var p := m[dstPtr..dstPtr + n];
    assert (c.r.dict + st.out) + p == c.r.dict + (st.out + p);
    if !st.info.linked { DictIsSame(c.base, st, Output(st, p, withinTmp, dict, dictSize), m1, c.r); }
  }

  /** Output becomes history (linked blocks only). */
  method AddOutput(d: Dctx, mem: array<byte>, dstPtr: int, n: int, dstStart: int, withinTmp: bool, ghost c: Ctx,
      ghost st: St, ghost m: seq<byte>)
    requires mem[..] == m && Home(d, c.base) && StateOf(d) == st && dstStart == c.dst
      && PieceWritten(c, st, m, dstPtr, n, withinTmp)
    requires 0 <= dstPtr && 0 <= n && dstPtr + n <= |m|
    modifies d`dict, d`dictSize, d`out, d`dec, mem
    ensures StateOf(d) == Output(st, m[dstPtr..dstPtr + n], withinTmp, d.dict, d.dictSize)
    ensures HistoryIn(c.base, StateOf(d), mem[..], c.r) && DictClear(StateOf(d), dstPtr + n, c.dstEnd)
    ensures Agree(m, mem[..], c.base, if withinTmp then st.tmpOut else c.base + st.maxBufferSize)
    ensures st.info.linked && withinTmp && d.dict == c.base ==> d.dict + d.dictSize == st.tmpOut + st.tmpOutStart + n
  {
    hide Need, SameTail, DictBytes, EndsWith, FlushIn, Kept, PieceWritten, Agree, HistoryIn, DictClear, FromTmp,
      PieceOk, DictOk;
    ghost var piece := m[dstPtr..dstPtr + n];
    if d.info.linked {
      PieceIsOk(c, st, m, dstPtr, n, withinTmp);
      TmpSame(d, c.base);
      UpdateDict(d, mem, dstPtr, n, dstStart, withinTmp, m, c.r.dict + st.out);
      TmpSame(d, c.base);
    } else {
      AgreeSelf(m, c.base, if withinTmp then st.tmpOut else c.base + st.maxBufferSize);
    }
    OutputKept(c, st, m, mem[..], dstPtr, n, withinTmp, d.dict, d.dictSize);
    d.out := d.out + piece;
    if !withinTmp { d.dec := d.dec + piece; }
  }

  // ---------- checksums and size ----------

  /** frameRemainingSize -= n, in 64 bits. */
  function Sub64(x: int, n: int): int { (x - n) % 0x1_0000_0000_0000_0000 }

  /** The content checksum and size after `piece` has been decoded. */
  ghost function Counted(st: St, piece: seq<byte>): St
  {
    st.(xxh := if st.info.contentChecksum then st.xxh + piece else st.xxh,
        remaining := if st.info.contentSize != 0 then Sub64(st.remaining, |piece|) else st.remaining)
  }

  method Count(d: Dctx, piece: seq<byte>)
    modifies d`xxh, d`frameRemainingSize
    ensures StateOf(d) == Counted(old(StateOf(d)), piece)
  {
    hide Sub64;
    if d.info.contentChecksum { d.xxh := d.xxh + piece; }
    if d.info.contentSize != 0 { d.frameRemainingSize := Sub64(d.frameRemainingSize, |piece|); }
  }

  lemma ContentSizeRange(r: Run)
    requires RunOk(r) && r.frame.Content?
    ensures 0 <= r.frame.hd.contentSize < 0x1_0000_0000_0000_0000
    ensures r.frame.hd.contentSize == 0 || r.frame.hd.contentSize == |r.frame.full|
  {
    hide RunOk, Boundary, Crc, ParseHeader, Bit, HeaderSize;
    ContentFacts(r);
    HeaderFacts(r.s, r.frame.hd);
    Le32Range(r.s, 6);
    Le32Range(r.s, 10);
  }

  lemma DecodedWithin(r: Run, i: int, dec: seq<byte>)
    requires Boundary(r, i, dec)
    ensures |dec| <= |r.frame.full| && r.frame.full[..|dec|] == dec && i + BH_SIZE <= r.frame.bodyEnd <= |r.s|
  {
    hide Blocks;
    BlocksGrow(r.s, i, r.frame.hd, r.dict, dec);
  }

  /** The totals follow the decoded data, which never exceeds the announced size. */
  lemma TotalsGrow(st: St, st1: St, r: Run, piece: seq<byte>, i: int, upTo: seq<byte>)
    requires RunOk(r) && InfoIs(st, r) && Totals(st, r) && Boundary(r, i, upTo) && |st.dec| + |piece| <= |upTo|
    requires st1.dec == st.dec + piece && st1.xxh == Counted(st, piece).xxh
      && st1.remaining == Counted(st, piece).remaining
    ensures Totals(st1, r)
  {
    hide RunOk, Boundary;
    ContentSizeRange(r);
    DecodedWithin(r, i, upTo);
  }

  // ---------- raw blocks ----------

  lemma RawFacts(base: int, st: St, m: seq<byte>, r: Run)
    requires Stands(base, st, m, r) && st.stage == CopyDirect
    ensures Body(base, st, m, r) && RawUpTo(st, r, st.tmpInTarget) && r.frame.Content?
    ensures st.pos == st.blockStart + BH_SIZE + DataSize(Le32(r.s, st.blockStart)) - st.tmpInTarget
  {
    hide Body, RawUpTo, Le32, DataSize;
    BodyFacts(base, st, m, r);
  }

  /** Where the rest of a raw block lies in the stream. */
  lemma RawSlice(st: St, r: Run, left: int, n: int)
    requires RawUpTo(st, r, left) && r.frame.Content? && 0 <= n <= left
    ensures var i := st.blockStart; var k := DataSize(Le32(r.s, i)); var data := BlockData(r.s, i); var from :=
      i + BH_SIZE + k - left;
      && 0 <= from && from + n <= |r.s| && |data| == k && left <= k
      && data[..k - left] + r.s[from..from + n] == data[..k - left + n]
      && NextBlock(r.s, i, r.frame.hd) == i + BH_SIZE + k + CrcSize(r.frame.hd.blockChecksum) <= |r.s|
      && Boundary(r, NextBlock(r.s, i, r.frame.hd), st.blockOut + data) && 0 <= i
  {
    hide Le32, Boundary, DataSize, IsRaw, BlockData, NextBlock, HistoryOf, BlockContent, InBlock, BlockOk, BlockFramed,
      RawUpTo;
    var i := st.blockStart;
    RawUpToFacts(st, r, left);
    InBlockFacts(st, r);
    BoundaryStep(r, i, st.blockOut);
    FramedNext(r.s, i, r.frame.hd);
    var k := DataSize(Le32(r.s, i));
    TakeMore(BlockData(r.s, i), r.s, i + BH_SIZE, k, k - left, n);
    RawContent(r.s, i, HistoryOf(r.frame.hd, r.dict, st.blockOut));
  }

  lemma RawUpToFacts(st: St, r: Run, left: int)
    requires RawUpTo(st, r, left)
    ensures InBlock(st, r) && IsRaw(Le32(r.s, st.blockStart)) && 0 <= left <= DataSize(Le32(r.s, st.blockStart))
  {
    hide InBlock, IsRaw, DataSize, Le32, BlockData;
  }

  lemma TakeMore(data: seq<byte>, s: seq<byte>, a: int, k: int, done: int, n: int)
    requires 0 <= a && 0 <= done && 0 <= n && done + n <= k && a + k <= |s| && data == s[a..a + k]
    ensures data[..done] + s[a + done..a + done + n] == data[..done + n]
  {
  }

  lemma RawContent(s: seq<byte>, i: int, hist: seq<byte>)
    requires IsRaw(Le32(s, i))
    ensures BlockContent(s, i, hist) == BlockData(s, i)
  {
  }

  lemma RawOut(st: St, r: Run)
    requires RawUpTo(st, r, st.tmpInTarget)
    ensures st.out == st.dec && 0 <= st.tmpInTarget
  {
  }

  lemma OutputIn(c: Ctx, size: int)
    requires Geometry(c, size)
    ensures 0 <= c.dst <= c.dstEnd <= size && 0 <= c.src <= c.srcEnd <= size
      && Apart(c.src, c.srcEnd - c.src, c.dst, c.dstEnd - c.dst)
  {
  }

  lemma InBlockFacts(st: St, r: Run)
    requires InBlock(st, r)
    ensures Boundary(r, st.blockStart, st.blockOut) && Le32(r.s, st.blockStart) != 0
  {
    hide Boundary, Le32, BlockOk;
  }

  /** After n more bytes of a raw block. */
  ghost function RawState(st: St, piece: seq<byte>, dict: int, dictSize: int): St
  {
    Output(Counted(st, piece), piece, false, dict, dictSize).(
      blockXxh := if st.info.blockChecksum then st.blockXxh + piece else st.blockXxh, pos := st.pos + |piece|)
  }

  lemma RawAdvances(st: St, r: Run, n: int, dict: int, dictSize: int)
    requires RawUpTo(st, r, st.tmpInTarget) && InfoIs(st, r) && Totals(st, r) && RunOk(r) && 0 <= n <= st.tmpInTarget
    requires st.pos == st.blockStart + BH_SIZE + DataSize(Le32(r.s, st.blockStart)) - st.tmpInTarget
    ensures 0 <= st.pos && st.pos + n <= |r.s|
    ensures var st1 := RawState(st, r.s[st.pos..st.pos + n], dict, dictSize);
      RawUpTo(st1, r, st.tmpInTarget - n) && Totals(st1, r)
  {
    hide Le32, Boundary, DataSize, IsRaw, BlockData, InBlock, RunOk, Sub64;
    RawSlice(st, r, st.tmpInTarget, n);
    var i, data, piece := st.blockStart, BlockData(r.s, st.blockStart), r.s[st.pos..st.pos + n];
    var k := DataSize(Le32(r.s, i));
    DataSizeRange(r.s, i);
    assert st.blockOut + data[..k - st.tmpInTarget] + piece == st.blockOut + data[..k - st.tmpInTarget + n];
    InBlockSame(st, RawState(st, piece, dict, dictSize), r);
    TotalsGrow(st, RawState(st, piece, dict, dictSize), r, piece, NextBlock(r.s, i, r.frame.hd), st.blockOut + data);
  }

  lemma InBlockSame(st: St, st1: St, r: Run)
    requires InBlock(st, r) && st1.blockStart == st.blockStart && st1.blockOut == st.blockOut
    ensures InBlock(st1, r)
  {
  }

  lemma AlignedDst(c: Ctx, st: St, st1: St, m: seq<byte>, m1: seq<byte>, srcPtr: int, src1: int, dstPtr: int, n: int,
      w: int)
    requires Aligned(c, st, m, srcPtr, dstPtr) && Geometry(c, |m|) && srcPtr <= src1 <= c.srcEnd
    requires 0 <= n <= w && dstPtr + w <= c.dstEnd && Agree(m, m1, dstPtr, dstPtr + w)
    requires 0 <= dstPtr && dstPtr + n <= |m1| && st1.out == st.out + m1[dstPtr..dstPtr + n]
      && st1.pos == st.pos + (src1 - srcPtr)
    requires DictClear(st1, dstPtr + n, c.dstEnd)
    ensures Aligned(c, st1, m1, src1, dstPtr + n) && Geometry(c, |m1|)
  {
    hide Agree, DictClear, Buffered;
    AgreeSize(m, m1, dstPtr, dstPtr + w);
    AgreeSlice(m, m1, dstPtr, dstPtr + w, c.dst, dstPtr - c.dst);
    SliceJoin(m1, c.dst, dstPtr, dstPtr + n);
    BufferedIn(m, c.src, c.srcEnd - c.src, c.r.s, c.pos0);
    BufferedFrame(m, m1, c.src, c.srcEnd - c.src, c.r.s, c.pos0, dstPtr, dstPtr + w);
    assert (c.out0 + m[c.dst..dstPtr]) + m1[dstPtr..dstPtr + n] == c.out0 + m1[c.dst..dstPtr + n];
  }

  /** n new bytes of output (the write may have gone on to w), then writes to private memory. */
  lemma AlignedOutput(c: Ctx, st: St, st1: St, m: seq<byte>, m1: seq<byte>, m2: seq<byte>, srcPtr: int, src1: int,
      dstPtr: int, n: int, w: int, hi: int)
    requires Aligned(c, st, m, srcPtr, dstPtr) && Geometry(c, |m|) && srcPtr <= src1 <= c.srcEnd
    requires 0 <= n <= w && dstPtr + w <= c.dstEnd && Agree(m, m1, dstPtr, dstPtr + w) && Agree(m1, m2, c.base, hi)
      && hi <= c.base + PRIVATE
    requires 0 <= dstPtr && dstPtr + n <= |m1| && st1.out == st.out + m1[dstPtr..dstPtr + n]
      && st1.pos == st.pos + (src1 - srcPtr)
    requires DictClear(st1, dstPtr + n, c.dstEnd)
    ensures Aligned(c, st1, m2, src1, dstPtr + n) && Geometry(c, |m2|) && Touched(c, m, m2)
  {
    hide Agree, Touched, DictClear, Geometry, Aligned;
    AlignedDst(c, st, st1, m, m1, srcPtr, src1, dstPtr, n, w);
    AlignedFrame(c, st1, m1, m2, c.base, hi, src1, dstPtr + n);
    InputLeft(c, st, m, srcPtr, dstPtr);
    TouchedBy(c, m, m1, dstPtr, dstPtr + w);
    TouchedBy(c, m1, m2, c.base, hi);
    TouchedTrans(c, m, m1, m2);
  }

  lemma HistorySame(base: int, st: St, st1: St, m: seq<byte>, r: Run)
    requires HistoryIn(base, st, m, r) && st1.info == st.info && st1.maxBufferSize == st.maxBufferSize
      && st1.tmpOut == st.tmpOut
    requires st1.out == st.out && st1.dec == st.dec && st1.dict == st.dict && st1.dictSize == st.dictSize
    ensures HistoryIn(base, st1, m, r)
  {
    hide Kept, DictBytes;
  }

  lemma RawPieceWritten(c: Ctx, st: St, st1: St, m: seq<byte>, m1: seq<byte>, srcPtr: int, dstPtr: int, n: int)
    requires !Over(st.stage)
    requires Aligned(c, st, m, srcPtr, dstPtr) && Geometry(c, |m|) && HistoryIn(c.base, st, m, c.r) && BufferReady(st)
      && st.out == st.dec
    requires Agree(m, m1, dstPtr, dstPtr + n) && 0 <= n && dstPtr + n <= c.dstEnd
    requires st1 == st.(xxh := st1.xxh, remaining := st1.remaining, blockXxh := st1.blockXxh)
    ensures PieceWritten(c, st1, m1, dstPtr, n, false) && |m1| == |m|
  {
    hide HistoryIn, Agree, Sub64, DictClear;
    HistoryDstFrame(c, st, m, m1, dstPtr, dstPtr + n, dstPtr);
    HistorySame(c.base, st, st1, m1, c.r);
    AgreeSlice(m, m1, dstPtr, dstPtr + n, c.dst, dstPtr - c.dst);
    DictClearSame(st, st1, dstPtr, c.dstEnd);
  }

  lemma DictClearSame(st: St, st1: St, dstPtr: int, dstEnd: int)
    requires DictClear(st, dstPtr, dstEnd) && st1.dict == st.dict && st1.dictSize == st.dictSize
    ensures DictClear(st1, dstPtr, dstEnd)
  {
  }

  /** Everything a raw piece changes, put together. */
  lemma RawDone(c: Ctx, st: St, st1: St, m: seq<byte>, m1: seq<byte>, m2: seq<byte>, srcPtr: int, dstPtr: int, n: int)
    requires Geometry(c, |m|) && Aligned(c, st, m, srcPtr, dstPtr) && RunOk(c.r) && Body(c.base, st, m, c.r)
      && RawUpTo(st, c.r, st.tmpInTarget)
    requires st.pos == st.blockStart + BH_SIZE + DataSize(Le32(c.r.s, st.blockStart)) - st.tmpInTarget
    requires 0 <= n <= st.tmpInTarget && n <= c.srcEnd - srcPtr && n <= c.dstEnd - dstPtr && 0 <= dstPtr
      && dstPtr + n <= |m1|
    requires Agree(m, m1, dstPtr, dstPtr + n) && Agree(m1, m2, c.base, c.base + st.maxBufferSize) && 0 <= st.pos
      && st.pos + n <= |c.r.s|
    requires m1[dstPtr..dstPtr + n] == c.r.s[st.pos..st.pos + n]
    requires st1 == RawState(st, c.r.s[st.pos..st.pos + n], st1.dict, st1.dictSize)
    requires HistoryIn(c.base, st1, m2, c.r) && DictClear(st1, dstPtr + n, c.dstEnd)
    ensures Body(c.base, st1, m2, c.r) && RawUpTo(st1, c.r, st.tmpInTarget - n)
    ensures Geometry(c, |m2|) && Aligned(c, st1, m2, srcPtr + n, dstPtr + n) && Touched(c, m, m2)
  {
    hide Aligned, Geometry, RunOk, Agree, Touched, RawUpTo, Totals, InfoIs, HistoryIn, Sub64, DictClear, Le32, DataSize;
    RawAdvances(st, c.r, n, st1.dict, st1.dictSize);
    InfoIsSame(st, st1, c.r);
    AlignedOutput(c, st, st1, m, m1, m2, srcPtr, srcPtr + n, dstPtr, n, n, c.base + st.maxBufferSize);
  }

  method CountRaw(d: Dctx, piece: seq<byte>)
    modifies d`xxh, d`frameRemainingSize, d`blockXxh
    ensures var st := old(StateOf(d));
      StateOf(d) == Counted(st, piece).(blockXxh := if st.info.blockChecksum then st.blockXxh + piece else st.blockXxh)
  {
    hide Counted;
    if d.info.blockChecksum { d.blockXxh := d.blockXxh + piece; }
    ghost var st1 := StateOf(d);
    Count(d, piece);
    CountedBlock(old(StateOf(d)), st1.blockXxh, piece);
  }

  lemma CountedBlock(st: St, blockXxh: seq<byte>, piece: seq<byte>)
    ensures Counted(st.(blockXxh := blockXxh), piece) == Counted(st, piece).(blockXxh := blockXxh)
  {
  }

  /** memcpy to the output, and the checksums and size over it. */
  method MoveRaw(d: Dctx, mem: array<byte>, srcPtr: int, dstPtr: int, n: int, ghost c: Ctx, ghost st: St,
      ghost m: seq<byte>)
    requires mem[..] == m && StateOf(d) == st && !Over(st.stage) && Aligned(c, st, m, srcPtr, dstPtr)
      && Geometry(c, |m|)
    requires HistoryIn(c.base, st, m, c.r) && BufferReady(st) && st.out == st.dec
    requires 0 <= n && n <= c.srcEnd - srcPtr && n <= c.dstEnd - dstPtr && 0 <= dstPtr
    requires Buffered(m, srcPtr, n, c.r.s, st.pos)
    modifies d`xxh, d`frameRemainingSize, d`blockXxh, mem
    ensures Agree(m, mem[..], dstPtr, dstPtr + n) && dstPtr + n <= mem.Length && 0 <= st.pos && st.pos + n <= |c.r.s|
    ensures mem[..][dstPtr..dstPtr + n] == c.r.s[st.pos..st.pos + n]
    ensures var piece := c.r.s[st.pos..st.pos + n];
      StateOf(d) == Counted(st, piece).(blockXxh := if st.info.blockChecksum then st.blockXxh + piece else st.blockXxh)
    ensures PieceWritten(c, StateOf(d), mem[..], dstPtr, n, false)
  {
    hide Aligned, Geometry, Agree, HistoryIn, PieceWritten, DictClear, BufferReady, Sub64;
    BufferedIn(m, srcPtr, n, c.r.s, st.pos);
    OutputIn(c, |m|);
    MemMove(mem, dstPtr, srcPtr, n, m);
    ghost var m1 := mem[..];
    ApartSource(c, st, m, srcPtr, dstPtr, n);
    AgreeSlice(m, m1, dstPtr, dstPtr + n, srcPtr, n);
    CountRaw(d, mem[srcPtr..srcPtr + n]);
    RawPieceWritten(c, st, StateOf(d), m, m1, srcPtr, dstPtr, n);
  }

  lemma ApartSource(c: Ctx, st: St, m: seq<byte>, srcPtr: int, dstPtr: int, n: int)
    requires Geometry(c, |m|) && Aligned(c, st, m, srcPtr, dstPtr) && 0 <= n && n <= c.srcEnd - srcPtr
      && n <= c.dstEnd - dstPtr
    ensures srcPtr + n <= dstPtr || dstPtr + n <= srcPtr
  {
    hide Buffered, DictClear;
  }

  /** The piece is output, and read. */
  method AddRaw(d: Dctx, mem: array<byte>, dstPtr: int, n: int, dstStart: int, ghost c: Ctx, ghost st: St,
      ghost m: seq<byte>)
    requires mem[..] == m && Home(d, c.base) && StateOf(d) == st && dstStart == c.dst
      && PieceWritten(c, st, m, dstPtr, n, false)
    requires 0 <= dstPtr && 0 <= n && dstPtr + n <= |m|
    modifies d`dict, d`dictSize, d`out, d`dec, d`pos, mem
    ensures StateOf(d) == Output(st, m[dstPtr..dstPtr + n], false, d.dict, d.dictSize).(pos := st.pos + n)
    ensures HistoryIn(c.base, StateOf(d), mem[..], c.r) && DictClear(StateOf(d), dstPtr + n, c.dstEnd)
    ensures Agree(m, mem[..], c.base, c.base + st.maxBufferSize)
  {
    hide PieceWritten, HistoryIn, DictClear, Agree, Output;
    AddOutput(d, mem, dstPtr, n, dstStart, false, c, st, m);
    ghost var st1 := StateOf(d);
    d.pos := d.pos + n;
    OutputPos(st, m[dstPtr..dstPtr + n], d.dict, d.dictSize);
    HistorySame(c.base, st1, StateOf(d), mem[..], c.r);
    DictClearSame(st1, StateOf(d), dstPtr + n, c.dstEnd);
  }

  lemma OutputPos(st: St, piece: seq<byte>, dict: int, dictSize: int)
    ensures Output(st, piece, false, dict, dictSize).pos == st.pos
  {
  }

  /** The piece of a raw block that fits: from input to output, checksums, size, history. */
  method CopyRaw(d: Dctx, mem: array<byte>, srcPtr: int, dstPtr: int, n: int, dstStart: int, ghost c: Ctx, ghost st: St,
      ghost m: seq<byte>)
    requires mem[..] == m && Home(d, c.base) && StateOf(d) == st && During(c, st, m, srcPtr, dstPtr)
      && st.stage == CopyDirect
    requires dstStart == c.dst && 0 <= n <= st.tmpInTarget && n <= c.srcEnd - srcPtr && n <= c.dstEnd - dstPtr
    modifies d, mem
    ensures 0 <= st.pos && st.pos + n <= |c.r.s|
    ensures StateOf(d) == RawState(st, c.r.s[st.pos..st.pos + n], d.dict, d.dictSize)
    ensures Body(c.base, StateOf(d), mem[..], c.r) && RawUpTo(StateOf(d), c.r, st.tmpInTarget - n)
    ensures Geometry(c, |mem[..]|) && Aligned(c, StateOf(d), mem[..], srcPtr + n, dstPtr + n) && Touched(c, m, mem[..])
  {
    hide Stands, Aligned, Geometry, SizesOk, RunOk, During, Inv, Body, Buffered, Agree, Touched, RawUpTo, Totals,
      InfoIs, BufferReady, HistoryIn, PieceWritten, Sub64, DictClear, Le32, DataSize;
    DuringParts(c, st, m, srcPtr, dstPtr);
    RawFacts(c.base, st, m, c.r);
    BodyFacts(c.base, st, m, c.r);
    RawOut(st, c.r);
    InputBytes(c, st, m, srcPtr, dstPtr, n);
    OutputIn(c, |m|);
    MoveRaw(d, mem, srcPtr, dstPtr, n, c, st, m);
    ghost var m1 := mem[..];
    AddRaw(d, mem, dstPtr, n, dstStart, c, StateOf(d), m1);
    RawDone(c, st, StateOf(d), m, m1, mem[..], srcPtr, dstPtr, n);
  }

  lemma RawEnd(st: St, r: Run)
    requires RawUpTo(st, r, 0) && r.frame.Content?
    ensures Boundary(r,
      st.blockStart + BH_SIZE + DataSize(Le32(r.s, st.blockStart)) + CrcSize(r.frame.hd.blockChecksum), st.dec)
    ensures r.frame.hd.blockChecksum ==> (
      && st.blockXxh == BlockData(r.s, st.blockStart)
      && Le32(r.s, st.blockStart + BH_SIZE + DataSize(Le32(r.s, st.blockStart))) == Crc(BlockData(r.s, st.blockStart)))
    ensures 0 <= st.blockStart && 0 <= DataSize(Le32(r.s, st.blockStart))
    ensures st.blockStart + BH_SIZE + DataSize(Le32(r.s, st.blockStart)) + CrcSize(r.frame.hd.blockChecksum) <= |r.s|
  {
    hide Le32, Boundary, DataSize, IsRaw, BlockData, InBlock, BlockOk, BlockFramed, Crc, BlockContent;
    RawSlice(st, r, 0, 0);
    InBlockFacts(st, r);
    BoundaryStep(r, st.blockStart, st.blockOut);
    FramedNext(r.s, st.blockStart, r.frame.hd);
    assert BlockData(r.s, st.blockStart)[..|BlockData(r.s, st.blockStart)|] == BlockData(r.s, st.blockStart);
  }

  lemma RawStands(base: int, st: St, st1: St, m: seq<byte>, r: Run, left: int)
    requires Body(base, st, m, r) && RawUpTo(st, r, left) && r.frame.Content? && 0 <= base && base + PRIVATE <= |m|
    requires st.pos == st.blockStart + BH_SIZE + DataSize(Le32(r.s, st.blockStart)) - left
    requires if left > 0 then st1 == st.(tmpInTarget := left) && st.stage == CopyDirect
      else if st.info.blockChecksum then st1 == st.(tmpInSize := 0, stage := GetBlockChecksum)
      else st1 == st.(stage := GetBlockHeader)
    ensures Stands(base, st1, m, r) && !Done(st1, r)
  {
    hide Le32, Boundary, DataSize, IsRaw, BlockData, InBlock, Body, Crc, RawUpTo;
    RawIsOut(st, r, left);
    RawUpToFacts(st, r, left);
    RawUpToSame(st, st1, r, left);
    BodySame(base, st, st1, m, r);
    BodyFacts(base, st, m, r);
    InfoFields(st, r);
    if left == 0 { RawEnd(st, r); }
  }

  /** dstage_copyDirect */
  method CopyDirectStage(d: Dctx, mem: array<byte>, srcPtr: int, srcEnd: int, dstPtr: int, dstEnd: int, dstStart: int,
      hasDst: bool, ghost c: Ctx, ghost m: seq<byte>)
    returns (v: Verdict, src1: int, dst1: int)
    requires mem[..] == m && Home(d, c.base) && During(c, StateOf(d), m, srcPtr, dstPtr) && d.dStage == CopyDirect
    requires srcEnd == c.srcEnd && dstEnd == c.dstEnd && dstStart == c.dst && (!hasDst ==> dstPtr == dstEnd)
    modifies d, mem
    ensures Stepped(c, StateOf(d), mem[..], src1, dst1, v) && Touched(c, m, mem[..])
    ensures srcPtr <= src1 && (v == Again ==> d.dStage == GetBlockHeader || d.dStage == GetBlockChecksum)
  {
    hide Stands, Aligned, Geometry, SizesOk, RunOk, During, Inv, Body, RawUpTo, Touched, RawState, Le32, DataSize;
    ghost var st := StateOf(d);
    DuringParts(c, st, m, srcPtr, dstPtr);
    RawFacts(c.base, st, m, c.r);
    RawOut(st, c.r);
    var n := 0;
    if hasDst {
      n := Min(d.tmpInTarget, Min(srcEnd - srcPtr, dstEnd - dstPtr));
      CopyRaw(d, mem, srcPtr, dstPtr, n, dstStart, c, st, m);
      RawStateFields(st, c.r.s[st.pos..st.pos + n], d.dict, d.dictSize);
    } else {
      TouchedNothing(c, m);
    }
    src1, dst1 := srcPtr + n, dstPtr + n;
    v := LeaveRaw(d, n, c, StateOf(d), mem[..], src1, dst1);
  }

  /** The raw block is complete, or its remaining size is noted. */
  method LeaveRaw(d: Dctx, n: int, ghost c: Ctx, ghost st: St, ghost m: seq<byte>, ghost srcPtr: int, ghost dstPtr: int)
      returns (v: Verdict)
    requires StateOf(d) == st && Geometry(c, |m|) && Aligned(c, st, m, srcPtr, dstPtr) && RunOk(c.r)
      && SizesOk(st.maxBufferSize, st.tmpInCapacity)
    requires st.stage == CopyDirect && 0 <= n <= st.tmpInTarget && Body(c.base, st, m, c.r)
      && RawUpTo(st, c.r, st.tmpInTarget - n) && c.r.frame.Content?
    requires st.pos == st.blockStart + BH_SIZE + DataSize(Le32(c.r.s, st.blockStart)) - (st.tmpInTarget - n)
    requires n < st.tmpInTarget ==> srcPtr == c.srcEnd || dstPtr == c.dstEnd
    modifies d`tmpInSize, d`tmpInTarget, d`dStage
    ensures Stepped(c, StateOf(d), m, srcPtr, dstPtr, v) && !v.Fail?
    ensures v == Again ==> d.dStage == GetBlockHeader || d.dStage == GetBlockChecksum
  {
    hide Stands, Aligned, Geometry, SizesOk, RunOk, During, Inv, Body, RawUpTo, Le32, DataSize;
    PrivateIn(c, |m|);
    if n == d.tmpInTarget {
      if d.info.blockChecksum {
        d.tmpInSize := 0;
        d.dStage := GetBlockChecksum;
      } else {
        d.dStage := GetBlockHeader;
      }
      v := Again;
    } else {
      d.tmpInTarget := d.tmpInTarget - n;
      v := Stop(d.tmpInTarget + CrcSize(d.info.blockChecksum) + BH_SIZE);
    }
    RawStands(c.base, st, StateOf(d), m, c.r, st.tmpInTarget - n);
    AlignedRead(c, st, StateOf(d), m, srcPtr, dstPtr, 0);
    DuringMade(c, StateOf(d), m, srcPtr, dstPtr);
  }

  lemma TouchedNothing(c: Ctx, m: seq<byte>)
    ensures Touched(c, m, m)
  {
  }

  lemma RawStateFields(st: St, piece: seq<byte>, dict: int, dictSize: int)
    ensures var st1 := RawState(st, piece, dict, dictSize);
      && st1.pos == st.pos + |piece| && st1.stage == st.stage && st1.blockStart == st.blockStart
         && st1.tmpInTarget == st.tmpInTarget
      && st1.maxBufferSize == st.maxBufferSize && st1.tmpInCapacity == st.tmpInCapacity && st1.info == st.info
  {
  }

  lemma ChecksumFacts(base: int, st: St, m: seq<byte>, r: Run)
    requires Stands(base, st, m, r) && st.stage == GetBlockChecksum
    ensures Body(base, st, m, r) && RawUpTo(st, r, 0) && r.frame.Content? && r.frame.hd.blockChecksum
      && 0 <= st.tmpInSize < 4
    ensures st.pos - st.tmpInSize == st.blockStart + BH_SIZE + DataSize(Le32(r.s, st.blockStart))
    ensures Buffered(m, HeaderAt(base), st.tmpInSize, r.s, st.pos - st.tmpInSize)
  {
    hide Body, RawUpTo, Le32, DataSize;
    BodyFacts(base, st, m, r);
  }

  lemma RawUpToSame(st: St, st1: St, r: Run, left: int)
    requires RawUpTo(st, r, left) && st1.blockStart == st.blockStart && st1.blockOut == st.blockOut && st1.out == st.out
      && st1.dec == st.dec
    requires st1.blockXxh == st.blockXxh
    ensures RawUpTo(st1, r, left)
  {
    hide InBlock, Le32, DataSize, BlockData;
    RawUpToFacts(st, r, left);
    InBlockSame(st, st1, r);
  }

  /** dstage_getBlockChecksum */
  method GetBlockChecksumStage(d: Dctx, mem: array<byte>, srcPtr: int, srcEnd: int, ghost c: Ctx, ghost m: seq<byte>,
      ghost dstPtr: int)
    returns (v: Verdict, src1: int)
    requires mem[..] == m && Home(d, c.base) && srcEnd == c.srcEnd && During(c, StateOf(d), m, srcPtr, dstPtr)
      && d.dStage == GetBlockChecksum
    modifies d, mem
    ensures Stepped(c, StateOf(d), mem[..], src1, dstPtr, v) && Touched(c, m, mem[..])
    ensures (v == Again ==> srcPtr < src1) && (v != Again ==> src1 == srcEnd)
  {
    hide Stands, Aligned, Geometry, SizesOk, RunOk, During, Inv, Body, RawUpTo, Touched, Le32, DataSize, Buffered,
      Agree, Boundary, BlockData, Crc;
    ghost var st := StateOf(d);
    DuringParts(c, st, m, srcPtr, dstPtr);
    ChecksumFacts(c.base, st, m, c.r);
    RawEnd(st, c.r);
    var crcSrc;
    if srcEnd - srcPtr >= 4 && d.tmpInSize == 0 {
      crcSrc := srcPtr;
      InputBytes(c, st, m, srcPtr, dstPtr, 4);
      src1 := srcPtr + 4;
      d.pos := d.pos + 4;
      AlignedRead(c, st, StateOf(d), m, srcPtr, dstPtr, 4);
      TouchedNothing(c, m);
    } else {
      var sizeToCopy := Min(4 - d.tmpInSize, srcEnd - srcPtr);
      Fill(d, mem, d.header, srcPtr, sizeToCopy, 0, c, st, m, dstPtr);
      src1 := srcPtr + sizeToCopy;
      BodyFrame(c.base, st, m, mem[..], HeaderAt(c.base) + st.tmpInSize, HeaderAt(c.base) + st.tmpInSize + sizeToCopy,
        c.r);
      if d.tmpInSize < 4 {
        BodySame(c.base, st, StateOf(d), mem[..], c.r);
        RawUpToSame(st, StateOf(d), c.r, 0);
        StandsInChecksum(c.base, StateOf(d), mem[..], c.r);
        DuringMade(c, StateOf(d), mem[..], src1, dstPtr);
        return Stop(1), src1;
      }
      crcSrc := d.header;
    }
    v := CheckBlockChecksum(d, mem, crcSrc, c, st, StateOf(d), mem[..], src1, dstPtr);
  }

  lemma StandsInChecksum(base: int, st: St, m: seq<byte>, r: Run)
    requires st.stage == GetBlockChecksum && Body(base, st, m, r) && RawUpTo(st, r, 0) && r.frame.Content?
      && r.frame.hd.blockChecksum && st.tmpInSize < 4
    requires st.pos - st.tmpInSize == st.blockStart + BH_SIZE + DataSize(Le32(r.s, st.blockStart))
    requires Buffered(m, HeaderAt(base), st.tmpInSize, r.s, st.pos - st.tmpInSize)
    ensures Stands(base, st, m, r) && !Done(st, r)
  {
    hide Body, RawUpTo, Le32, DataSize, Buffered;
  }

  /** The block checksum is compared with that of the bytes copied. */
  method CheckBlockChecksum(d: Dctx, mem: array<byte>, crcSrc: int, ghost c: Ctx, ghost st: St, ghost st1: St,
      ghost m: seq<byte>, ghost srcPtr: int, ghost dstPtr: int)
    returns (v: Verdict)
    requires !Over(st1.stage)
    requires mem[..] == m && StateOf(d) == st1 && Geometry(c, |m|) && Aligned(c, st1, m, srcPtr, dstPtr) && RunOk(c.r)
    requires SizesOk(st1.maxBufferSize, st1.tmpInCapacity) && Body(c.base, st, m, c.r) && RawUpTo(st, c.r, 0)
      && c.r.frame.Content?
    requires st1 == st.(pos := st1.pos, tmpInSize := st1.tmpInSize) && c.r.frame.hd.blockChecksum
    requires st1.pos - 4 == st.blockStart + BH_SIZE + DataSize(Le32(c.r.s, st.blockStart))
      && Buffered(m, crcSrc, 4, c.r.s, st1.pos - 4)
    modifies d`dStage
    ensures Stepped(c, StateOf(d), m, srcPtr, dstPtr, v) && v == Again && d.dStage == GetBlockHeader
  {
    hide Stands, Aligned, Geometry, SizesOk, RunOk, During, Body, RawUpTo, Le32, DataSize, Buffered, Boundary,
      BlockData, Crc;
    RawEnd(st, c.r);
    var readCRC := ReadLE32(mem, crcSrc, 0, 4, c.r.s, st1.pos - 4);
    var calcCRC := Digest(d.blockXxh);
    if readCRC != calcCRC { return Fail(BlockChecksumInvalid); }
    d.dStage := GetBlockHeader;
    BodySame(c.base, st, StateOf(d), m, c.r);
    RawIsOut(st, c.r, 0);
    StandsAtBlock(c.base, StateOf(d), m, c.r);
    AlignedRead(c, st1, StateOf(d), m, srcPtr, dstPtr, 0);
    DuringMade(c, StateOf(d), m, srcPtr, dstPtr);
    return Again;
  }

  lemma RawIsOut(st: St, r: Run, left: int)
    requires RawUpTo(st, r, left)
    ensures st.out == st.dec
  {
  }

  lemma StandsAtBlock(base: int, st: St, m: seq<byte>, r: Run)
    requires st.stage == GetBlockHeader && Body(base, st, m, r) && st.out == st.dec && Boundary(r, st.pos, st.dec)
    ensures Stands(base, st, m, r) && !Done(st, r)
  {
    hide Body, Boundary;
  }
}
