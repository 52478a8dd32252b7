/** The stages of LZ4F_decompress for compressed blocks: collecting them, decoding them into the output
    or into the private buffer, and flushing that buffer. */
module FrameDataDecoder {
  import opened Bytes
  import opened BlockFormat
  import opened BlockShape
  import opened Block32
  import opened DecoderCopies
  import opened Memory
  import opened DecoderApi
  import opened DecoderStream
  import opened FrameFormat
  import opened FrameHistory
  import opened FrameState
  import opened FrameHeaderDecoder
  import opened FrameDecoder
  import opened FrameBlockDecoder

  const GB: int := 0x4000_0000

  // ---------- decoding one block ----------

  /** The dictionary region ends with the window of the history the block refers to. */
  lemma DictReaches(base: int, st: St, m: seq<byte>, r: Run)
    requires HistoryIn(base, st, m, r) && InfoIs(st, r) && st.out == st.dec
    ensures DictIn(m, st.dict, st.dictSize)
    ensures var hist := HistoryOf(r.frame.hd, r.dict, st.out);
      SameTail(hist, DictBytes(m, st.dict, st.dictSize), Window(|hist|))
  {
    hide DictBytes, SameTail, DictIn, BlockSize;
    var hist := HistoryOf(r.frame.hd, r.dict, st.out);
    if st.info.linked {
      KeptIn(m, st.dict, st.dictSize, hist, 0);
      SameTailLess(hist, DictBytes(m, st.dict, st.dictSize), Need(|hist|, 0), Window(|hist|));
    } else {
      SameTailSelf(r.dict, Window(|r.dict|));
    }
  }

  lemma LastPart(m: seq<byte>, dict: int, dictSize: int, hist: seq<byte>)
    requires DictIn(m, dict, dictSize) && KB64 <= dictSize
      && SameTail(hist, DictBytes(m, dict, dictSize), Window(|hist|))
    ensures DictIn(m, dict + dictSize - KB64, KB64)
      && SameTail(hist, DictBytes(m, dict + dictSize - KB64, KB64), Window(|hist|))
  {
    var d, e := DictBytes(m, dict, dictSize), DictBytes(m, dict + dictSize - KB64, KB64);
    SliceJoin(m, dict, dict + dictSize - KB64, dict + dictSize);
    SameTailDrop(hist, m[dict..dict + dictSize - KB64], e, Window(|hist|));
  }

  lemma BlockIsWellFormed(data: seq<byte>, hist: seq<byte>, more: seq<byte>, max: int)
    requires BlockDecodes(data, hist, more, max) && max <= 0x40_0000
    ensures EndsWell32(data, 0, 0, |hist|, |more|, 0) && |more| <= max && Decode32(data, 0, hist) == Some(hist + more)
  {
    hide Regular, EndsWell, EndsWell32, Decode, Decode32;
    WellFormed(data, |hist|, |more|);
    RegularDecode(data, 0, hist);
  }

  /** LZ4_decompress_safe_usingDict with the context's dictionary, cut to 64 KB when its size would not
      fit an int. */
  method DecodeTo(d: Dctx, mem: array<byte>, sel: int, k: int, target: int, ghost m: seq<byte>, ghost data: seq<byte>,
      ghost hist: seq<byte>, ghost more: seq<byte>)
    returns (decodedSize: int)
    requires mem[..] == m && Areas(|m|, sel, k, target, d.maxBlockSize) && Apart(sel, k, target, d.maxBlockSize)
      && m[sel..sel + k] == data
    requires DictIn(m, d.dict, d.dictSize) && (d.dictSize == 0 || Apart(d.dict, d.dictSize, target, d.maxBlockSize))
    requires SameTail(hist, DictBytes(m, d.dict, d.dictSize), Window(|hist|))
    requires BlockDecodes(data, hist, more, d.maxBlockSize) && d.maxBlockSize <= 0x40_0000
    modifies mem
    ensures Agree(m, mem[..], target, target + d.maxBlockSize) && decodedSize == |more| <= d.maxBlockSize
    ensures target + |more| <= mem.Length && mem[..][target..target + |more|] == more
  {
    hide SameTail, Window, Agree, Decode32, EndsWell32, BlockDecodes, DictBytes, DictIn;
    var dict, dictSize := d.dict, d.dictSize;
    BlockIsWellFormed(data, hist, more, d.maxBlockSize);
    DictInBounds(m, dict, dictSize);
    if dictSize > GB {
      LastPart(m, dict, dictSize, hist);
      dict := dict + dictSize - KB64;
      dictSize := KB64;
    }
    decodedSize := DecodeWith(mem, sel, k, target, d.maxBlockSize, dict, dictSize, m, data, hist, more);
  }

  method DecodeWith(mem: array<byte>, sel: int, k: int, target: int, max: int, dict: int, dictSize: int,
                    ghost m: seq<byte>, ghost data: seq<byte>, ghost hist: seq<byte>, ghost more: seq<byte>)
    returns (decodedSize: int)
    requires mem[..] == m && Areas(|m|, sel, k, target, max) && Apart(sel, k, target, max) && m[sel..sel + k] == data
    requires DictIn(m, dict, dictSize) && (dictSize == 0 || Apart(dict, dictSize, target, max))
    requires SameTail(hist, DictBytes(m, dict, dictSize), Window(|hist|))
    requires EndsWell32(data, 0, 0, |hist|, |more|, 0) && |more| <= max
      && Decode32(data, 0, hist) == Some(hist + more)
    modifies mem
    ensures Agree(m, mem[..], target, target + max) && decodedSize == |more|
    ensures target + |more| <= mem.Length && mem[..][target..target + |more|] == more
  {
    hide SameTail, Window, Agree, Decode, Decode32, EndsWell, EndsWell32, Regular;
    var start := if dictSize == 0 then 0 else dict;
    ghost var dictBytes := m[start..start + dictSize];
    assert dictBytes == DictBytes(m, dict, dictSize);
    SameTailSize(hist, dictBytes, Window(|hist|));
    WindowIs(|hist|);
    EndsWell32Window(data, 0, 0, |hist|, dictSize, |more|, 0);
    decodedSize := DecompressSafeUsingDict(mem, sel, target, k, max, start, dictSize, m, |more|);
    AgreeSize(m, mem[..], target, target + max);
    ghost var output := mem[..][target..target + decodedSize];
    WindowMeaning(data, hist, dictBytes, output, |more|);
    SameEnd(hist, output, more);
  }

  lemma SameEnd(h: seq<byte>, a: seq<byte>, b: seq<byte>)
    ensures h + a == h + b ==> a == b
  {
    if h + a == h + b {
      assert a == (h + a)[|h|..] && b == (h + b)[|h|..];
    }
  }

  // ---------- a block that is there in full ----------

  /** The whole compressed block, with its checksum, lies at sel. */
  ghost predicate Selected(c: Ctx, st: St, m: seq<byte>, sel: int)
  {
    && Body(c.base, st, m, c.r) && InCompressed(st, c.r) && st.pos == st.blockStart + BH_SIZE + st.tmpInTarget
    && Buffered(m, sel, st.tmpInTarget, c.r.s, st.blockStart + BH_SIZE)
    && (sel == InAt(c.base) || (c.src <= sel && sel + st.tmpInTarget <= c.srcEnd))
  }

  ghost function More(st: St, r: Run): seq<byte>
  {
    if r.frame.Content? then BlockContent(r.s, st.blockStart, HistoryOf(r.frame.hd, r.dict, st.blockOut)) else []
  }

  /** What the block in progress is, and what it adds. */
  lemma CompressedFacts(st: St, r: Run)
    requires InCompressed(st, r) && InfoIs(st, r)
    ensures var i := st.blockStart; var k := DataSize(Le32(r.s, i)); var hd := r.frame.hd;
      && 0 <= i && 0 <= k <= st.maxBlockSize <= 0x40_0000 && |BlockData(r.s, i)| == k
      && st.tmpInTarget == k + CrcSize(hd.blockChecksum) && i + BH_SIZE + st.tmpInTarget <= |r.s|
      && BlockData(r.s, i) == r.s[i + BH_SIZE..i + BH_SIZE + k]
      && BlockDecodes(BlockData(r.s, i), HistoryOf(hd, r.dict, st.dec), More(st, r), st.maxBlockSize)
      && Boundary(r, i + BH_SIZE + st.tmpInTarget, st.dec + More(st, r))
      && (hd.blockChecksum ==> Le32(r.s, i + BH_SIZE + k) == Crc(BlockData(r.s, i)))
      && st.out == st.dec && st.dec == st.blockOut
  {
    hide Le32, Boundary, DataSize, IsRaw, BlockData, InBlock, BlockFramed, Crc, HistoryOf, BlockContent, BlockDecodes;
    var i := st.blockStart;
    InBlockFacts(st, r);
    BoundaryStep(r, i, st.blockOut);
    FramedNext(r.s, i, r.frame.hd);
  }

  lemma SelectedParts(c: Ctx, st: St, m: seq<byte>, sel: int)
    requires Selected(c, st, m, sel)
    ensures Body(c.base, st, m, c.r) && InfoIs(st, c.r) && InCompressed(st, c.r)
      && st.pos == st.blockStart + BH_SIZE + st.tmpInTarget
    ensures Buffered(m, sel, st.tmpInTarget, c.r.s, st.blockStart + BH_SIZE)
    ensures Totals(st, c.r) && BufferReady(st) && HistoryIn(c.base, st, m, c.r)
    ensures sel == InAt(c.base) || (c.src <= sel && sel + st.tmpInTarget <= c.srcEnd)
  {
    hide InfoIs, InCompressed, Buffered, Totals, BufferReady, HistoryIn;
  }

  /** The data of the block, without its checksum. */
  lemma SelectedData(c: Ctx, st: St, m: seq<byte>, sel: int, k: int)
    requires Selected(c, st, m, sel) && c.r.frame.Content? && k == st.tmpInTarget - CrcSize(c.r.frame.hd.blockChecksum)
    ensures k == DataSize(Le32(c.r.s, st.blockStart)) && 0 <= k && 0 <= sel && sel + k <= |m| && 0 <= st.blockStart
    ensures m[sel..sel + k] == BlockData(c.r.s, st.blockStart)
  {
    hide Body, InfoIs, InCompressed, Buffered, Totals, BufferReady, HistoryIn, Le32, DataSize, BlockData, Boundary,
      BlockDecodes, HistoryOf, More, Crc, Selected;
    SelectedParts(c, st, m, sel);
    CompressedFacts(st, c.r);
    BufferedPart(m, sel, st.tmpInTarget, c.r.s, st.blockStart + BH_SIZE, 0, k);
    BufferedIn(m, sel, k, c.r.s, st.blockStart + BH_SIZE);
  }

  lemma SelectedApart(c: Ctx, st: St, m: seq<byte>, sel: int, k: int, a: int, n: int)
    requires Selected(c, st, m, sel) && Geometry(c, |m|) && 0 <= k <= st.tmpInTarget && 0 <= n
    requires (c.dst <= a && a + n <= c.dstEnd) || (c.base <= a && a + n <= c.base + st.maxBufferSize)
    ensures Apart(sel, k, a, n)
  {
    hide InfoIs, InCompressed, Buffered, Totals, HistoryIn, Selected, Body, BlockDecodes, Boundary, Le32, DataSize,
      BlockData, More, HistoryOf, Crc;
    SelectedParts(c, st, m, sel);
    CompressedFacts(st, c.r);
  }

  /** The state after the block has been decoded into the output. */
  ghost function DirectState(st: St, more: seq<byte>, dict: int, dictSize: int): St
  {
    Output(Counted(st, more), more, false, dict, dictSize).(stage := GetBlockHeader)
  }

  lemma DirectDone(c: Ctx, st: St, st1: St, m: seq<byte>, m1: seq<byte>, m2: seq<byte>, srcPtr: int, dstPtr: int,
      more: seq<byte>)
    requires Geometry(c, |m|) && Aligned(c, st, m, srcPtr, dstPtr) && RunOk(c.r)
      && SizesOk(st.maxBufferSize, st.tmpInCapacity)
    requires InfoIs(st, c.r) && Totals(st, c.r) && BufferReady(st) && st.out == st.dec
      && Boundary(c.r, st.pos, st.dec + more)
    requires 0 <= dstPtr && dstPtr + |more| <= |m1| && m1[dstPtr..dstPtr + |more|] == more && |more| <= st.maxBlockSize
      && dstPtr + st.maxBlockSize <= c.dstEnd
    requires Agree(m, m1, dstPtr, dstPtr + st.maxBlockSize) && Agree(m1, m2, c.base, c.base + st.maxBufferSize)
    requires st1 == DirectState(st, more, st1.dict, st1.dictSize)
    requires HistoryIn(c.base, st1, m2, c.r) && DictClear(st1, dstPtr + |more|, c.dstEnd)
    ensures During(c, st1, m2, srcPtr, dstPtr + |more|) && !Done(st1, c.r) && Touched(c, m, m2)
  {
    hide Aligned, Geometry, RunOk, SizesOk, Agree, Touched, Totals, InfoIs, HistoryIn, Sub64, DictClear, Boundary,
      Stands, During;
    InputLeft(c, st, m, srcPtr, dstPtr);
    TotalsGrow(st, st1, c.r, more, st.pos, st.dec + more);
    InfoIsSame(st, st1, c.r);
    AlignedOutput(c, st, st1, m, m1, m2, srcPtr, srcPtr, dstPtr, |more|, st.maxBlockSize, c.base + st.maxBufferSize);
    StandsAtBlock(c.base, st1, m2, c.r);
    DuringMade(c, st1, m2, srcPtr, dstPtr + |more|);
  }

  lemma PieceReady(c: Ctx, st: St, st1: St, m: seq<byte>, m1: seq<byte>, srcPtr: int, dstPtr: int, n: int, w: int)
    requires !Over(st.stage)
    requires Aligned(c, st, m, srcPtr, dstPtr) && Geometry(c, |m|) && HistoryIn(c.base, st, m, c.r) && BufferReady(st)
      && st.out == st.dec
    requires Agree(m, m1, dstPtr, dstPtr + w) && 0 <= n <= w && dstPtr + w <= c.dstEnd
    requires st1 == st.(xxh := st1.xxh, remaining := st1.remaining)
    ensures PieceWritten(c, st1, m1, dstPtr, n, false) && |m1| == |m|
  {
    hide HistoryIn, Agree, DictClear;
    HistoryDstFrame(c, st, m, m1, dstPtr, dstPtr + w, dstPtr);
    HistorySame(c.base, st, st1, m1, c.r);
    AgreeSlice(m, m1, dstPtr, dstPtr + w, c.dst, dstPtr - c.dst);
    DictClearSame(st, st1, dstPtr, c.dstEnd);
  }

  /** Enough room: decode straight into the output. */
  method DecodeDirect(d: Dctx, mem: array<byte>, sel: int, k: int, dstPtr: int, dstStart: int, ghost c: Ctx,
      ghost st: St, ghost m: seq<byte>, ghost srcPtr: int)
    returns (v: Verdict, dst1: int)
    requires !Over(st.stage)
    requires mem[..] == m && Home(d, c.base) && StateOf(d) == st && Geometry(c, |m|)
      && Aligned(c, st, m, srcPtr, dstPtr) && Selected(c, st, m, sel)
    requires RunOk(c.r) && SizesOk(st.maxBufferSize, st.tmpInCapacity) && c.r.frame.Content? && dstStart == c.dst
    requires k == st.tmpInTarget - CrcSize(c.r.frame.hd.blockChecksum) && st.maxBlockSize <= c.dstEnd - dstPtr
    modifies d, mem
    ensures Stepped(c, StateOf(d), mem[..], srcPtr, dst1, v) && Touched(c, m, mem[..]) && v == Again
      && d.dStage == GetBlockHeader
  {
    hide Stands, Aligned, Geometry, SizesOk, RunOk, During, Body, InCompressed, Touched, Le32, DataSize, Buffered,
      Agree, Boundary, BlockData, Selected, InfoIs, Totals, BufferReady, HistoryIn, PieceWritten, DictClear, Counted,
      SameTail, BlockDecodes, More, DictIn, DictBytes, Window, HistoryOf;
    SelectedParts(c, st, m, sel);
    CompressedFacts(st, c.r);
    SelectedData(c, st, m, sel, k);
    OutputIn(c, |m|);
    InputLeft(c, st, m, srcPtr, dstPtr);
    SelectedApart(c, st, m, sel, k, dstPtr, st.maxBlockSize);
    DictReaches(c.base, st, m, c.r);
    ClearOfDict(c, st, m, srcPtr, dstPtr, st.maxBlockSize);
    ghost var more := More(st, c.r);
    var decodedSize :=
      DecodeTo(d, mem, sel, k, dstPtr, m, BlockData(c.r.s, st.blockStart), HistoryOf(c.r.frame.hd, c.r.dict, st.out),
      more);
    if decodedSize < 0 { return Fail(GenericError), dstPtr; }
    AcceptDirect(d, mem, dstPtr, decodedSize, dstStart, c, st, m, mem[..], srcPtr, more);
    return Again, dstPtr + decodedSize;
  }

  /** The decoded bytes are counted and become output. */
  method AcceptDirect(d: Dctx, mem: array<byte>, dstPtr: int, decodedSize: int, dstStart: int,
                      ghost c: Ctx, ghost st: St, ghost m: seq<byte>, ghost m1: seq<byte>, ghost srcPtr: int,
                      ghost more: seq<byte>)
    requires !Over(st.stage)
    requires mem[..] == m1 && Home(d, c.base) && StateOf(d) == st && Geometry(c, |m|)
      && Aligned(c, st, m, srcPtr, dstPtr)
    requires RunOk(c.r) && SizesOk(st.maxBufferSize, st.tmpInCapacity) && dstStart == c.dst
      && HistoryIn(c.base, st, m, c.r)
    requires InfoIs(st, c.r) && Totals(st, c.r) && BufferReady(st) && st.out == st.dec
      && Boundary(c.r, st.pos, st.dec + more)
    requires 0 <= dstPtr && decodedSize == |more| <= st.maxBlockSize && dstPtr + |more| <= |m1|
      && m1[dstPtr..dstPtr + |more|] == more
    requires Agree(m, m1, dstPtr, dstPtr + st.maxBlockSize) && dstPtr + st.maxBlockSize <= c.dstEnd
    modifies d, mem
    ensures During(c, StateOf(d), mem[..], srcPtr, dstPtr + |more|) && !Done(StateOf(d), c.r) && Touched(c, m, mem[..])
      && d.dStage == GetBlockHeader
  {
    hide Stands, Aligned, Geometry, SizesOk, RunOk, During, Touched, Agree, Boundary, InfoIs, Totals, BufferReady,
      HistoryIn, PieceWritten, DictClear, Counted;
    Count(d, mem[dstPtr..dstPtr + decodedSize]);
    CountedFields(st, more);
    PieceReady(c, st, StateOf(d), m, m1, srcPtr, dstPtr, decodedSize, st.maxBlockSize);
    AddOutput(d, mem, dstPtr, decodedSize, dstStart, false, c, StateOf(d), m1);
    ghost var st2 := StateOf(d);
    d.dStage := GetBlockHeader;
    HistorySame(c.base, st2, StateOf(d), mem[..], c.r);
    DictClearSame(st2, StateOf(d), dstPtr + decodedSize, c.dstEnd);
    DirectDone(c, st, StateOf(d), m, m1, mem[..], srcPtr, dstPtr, more);
  }

  lemma ClearOfDict(c: Ctx, st: St, m: seq<byte>, srcPtr: int, dstPtr: int, n: int)
    requires !Over(st.stage)
    requires Aligned(c, st, m, srcPtr, dstPtr) && 0 <= n <= c.dstEnd - dstPtr
    ensures st.dictSize == 0 || Apart(st.dict, st.dictSize, dstPtr, n)
  {
  }

  lemma CountedFields(st: St, piece: seq<byte>)
    ensures Counted(st, piece) == st.(xxh := Counted(st, piece).xxh, remaining := Counted(st, piece).remaining)
  {
  }

  // ---------- decoding into the private buffer ----------

  /** Room for a block in the private buffer, behind the history it may need there. */
  ghost predicate TmpRoom(base: int, st: St, r: Run)
  {
    && base <= st.tmpOut && st.tmpOut + st.maxBlockSize <= base + st.maxBufferSize
    && (st.info.linked ==>
      && Min(KB64, |r.dict| + |st.out|) <= st.tmpOut - base <= |r.dict| + |st.out|
      && (st.dict == base ==> st.dict + st.dictSize == st.tmpOut))
  }

  lemma TrimmedKept(m: seq<byte>, m1: seq<byte>, base: int, dictSize: int, hist: seq<byte>)
    requires Kept(m, base, dictSize, hist, 0) && KB64 <= dictSize && 0 <= base && base + KB64 <= |m1|
    requires m1[base..base + KB64] == DictBytes(m, base, dictSize)[dictSize - KB64..]
    ensures Kept(m1, base, KB64, hist, 0)
  {
    hide Kept, DictBytes;
    KeptIn(m, base, dictSize, hist, 0);
    DictInBounds(m, base, dictSize);
    var d := DictBytes(m, base, dictSize)[dictSize - KB64..];
    assert d + [] == d && hist + [] == hist;
    JoinedKept(m, base, dictSize, hist, KB64, m1, base, []);
  }

  lemma ReservedKept(base: int, st: St, st1: St, m: seq<byte>, m1: seq<byte>, r: Run)
    requires HistoryIn(base, st, m, r) && BufferReady(st) && st.out == st.dec && st.info.linked && 0 <= base
      && base + PRIVATE <= |m|
    requires st1 == st.(tmpOut := st1.tmpOut, dictSize := st1.dictSize)
    requires if st.dict == base && st.dictSize > 2 * KB64 then
        st1.dictSize == KB64 && base + KB64 <= |m1|
          && m1[base..base + KB64] == DictBytes(m, base, st.dictSize)[st.dictSize - KB64..]
      else m1 == m && st1.dictSize == st.dictSize
    requires st1.tmpOut == base + (if st.dict == base then st1.dictSize else Min(st.dictSize, KB64))
    ensures HistoryIn(base, st1, m1, r) && TmpRoom(base, st1, r)
  {
    hide DictBytes, SameTail;
    var hist := r.dict + st.out;
    KeptIn(m, st.dict, st.dictSize, hist, 0);
    if st.dict == base && st.dictSize > 2 * KB64 {
      TrimmedKept(m, m1, base, st.dictSize, hist);
    }
  }

  /** Make room in the private buffer: trim an overlong private history, or leave space for 64 KB. */
  method ReserveTmp(d: Dctx, mem: array<byte>, ghost c: Ctx, ghost st: St, ghost m: seq<byte>)
    requires mem[..] == m && Home(d, c.base) && StateOf(d) == st && HistoryIn(c.base, st, m, c.r) && BufferReady(st)
      && st.out == st.dec
    requires 0 <= c.base && c.base + PRIVATE <= |m|
    modifies d`dictSize, d`tmpOut, mem
    ensures StateOf(d) == st.(tmpOut := d.tmpOut, dictSize := d.dictSize)
      && (d.dictSize == st.dictSize || 0 <= d.dictSize <= st.dictSize)
    ensures Agree(m, mem[..], c.base, c.base + KB64) && HistoryIn(c.base, StateOf(d), mem[..], c.r)
      && TmpRoom(c.base, StateOf(d), c.r)
  {
    hide Agree, HistoryIn, SameTail, DictBytes, TmpRoom, Kept;
    AgreeSelf(m, c.base, c.base + KB64);
    if d.info.linked {
      LinkedDict(c.base, st, m, c.r);
      if d.dict == d.tmpOutBuffer {
        if d.dictSize > 2 * KB64 {
          MoveToFront(mem, d.tmpOutBuffer, d.dict, d.dictSize, KB64, m);
          d.dictSize := KB64;
        }
        d.tmpOut := d.tmpOutBuffer + d.dictSize;
      } else {
        d.tmpOut := d.tmpOutBuffer + Min(d.dictSize, KB64);
      }
      ReservedKept(c.base, st, StateOf(d), m, mem[..], c.r);
    } else {
      UnlinkedRoom(c.base, st, m, c.r);
    }
  }

  lemma LinkedDict(base: int, st: St, m: seq<byte>, r: Run)
    requires HistoryIn(base, st, m, r) && st.info.linked
    ensures DictIn(m, st.dict, st.dictSize) && 0 <= st.dictSize
  {
    hide DictBytes, SameTail;
  }

  lemma UnlinkedRoom(base: int, st: St, m: seq<byte>, r: Run)
    requires HistoryIn(base, st, m, r) && !st.info.linked && BufferReady(st)
    ensures TmpRoom(base, st, r)
  {
  }

  /** The state with the block in the private buffer. */
  ghost function TmpState(st: St, more: seq<byte>): St
  {
    Counted(st, more).(tmpOutSize := |more|, tmpOutStart := 0, dec := st.dec + more, stage := FlushOut)
  }

  lemma NeedShrinks(total: int, rest: int)
    requires 0 <= total && 0 <= rest
    ensures 0 <= Need(total, rest) <= Need(total, 0)
  {
  }

  /** Decoding behind the dictionary does not disturb it, and less of it is needed than before. */
  lemma HistoryBeforeFlush(base: int, st: St, st1: St, m: seq<byte>, m1: seq<byte>, r: Run, more: seq<byte>)
    requires HistoryIn(base, st, m, r) && TmpRoom(base, st, r) && st.out == st.dec && st1 == TmpState(st, more)
    requires Agree(m, m1, st.tmpOut, st.tmpOut + st.maxBlockSize) && BufferReady(st)
    ensures HistoryIn(base, st1, m1, r)
  {
    hide DictBytes, SameTail, Agree, Counted, Need;
    CountedFields(st, more);
    DictInHistory(base, st, m, r);
    DictFrame(m, m1, st.tmpOut, st.tmpOut + st.maxBlockSize, st.dict, st.dictSize);
    if st.info.linked {
      var hist := r.dict + st.out;
      NeedShrinks(|hist|, |more|);
      SameTailLess(hist, DictBytes(m, st.dict, st.dictSize), Need(|hist|, 0), Need(|hist|, |more|));
    }
  }

  lemma DictInHistory(base: int, st: St, m: seq<byte>, r: Run)
    requires HistoryIn(base, st, m, r)
    ensures DictIn(m, st.dict, st.dictSize)
  {
    hide DictBytes, SameTail;
  }

  lemma TmpDone(c: Ctx, st: St, st1: St, m: seq<byte>, m1: seq<byte>, srcPtr: int, dstPtr: int, more: seq<byte>)
    requires !Over(st.stage)
    requires Geometry(c, |m|) && Aligned(c, st, m, srcPtr, dstPtr) && RunOk(c.r)
      && SizesOk(st.maxBufferSize, st.tmpInCapacity)
    requires InfoIs(st, c.r) && Totals(st, c.r) && BufferReady(st) && st.out == st.dec
      && Boundary(c.r, st.pos, st.dec + more)
    requires HistoryIn(c.base, st, m, c.r) && TmpRoom(c.base, st, c.r) && st1 == TmpState(st, more)
      && |more| <= st.maxBlockSize
    requires Agree(m, m1, st.tmpOut, st.tmpOut + st.maxBlockSize) && |m1| == |m| && 0 <= st.tmpOut
      && st.tmpOut + |more| <= |m1|
    requires m1[st.tmpOut..st.tmpOut + |more|] == more
    ensures During(c, st1, m1, srcPtr, dstPtr) && !Done(st1, c.r) && Touched(c, m, m1)
  {
    hide Aligned, Geometry, RunOk, SizesOk, Agree, Touched, Totals, InfoIs, HistoryIn, Sub64, Boundary, During, Kept,
      DictBytes, TmpRoom, Counted;
    PrivateIn(c, |m|);
    CountedFields(st, more);
    TotalsGrow(st, st1, c.r, more, st.pos, st.dec + more);
    InfoIsSame(st, st1, c.r);
    RoomFacts(c.base, st, c.r);
    HistoryBeforeFlush(c.base, st, st1, m, m1, c.r, more);
    AlignedFrame(c, st, m, m1, st.tmpOut, st.tmpOut + st.maxBlockSize, srcPtr, dstPtr);
    AlignedRead(c, st, st1, m1, srcPtr, dstPtr, 0);
    TouchedBy(c, m, m1, st.tmpOut, st.tmpOut + st.maxBlockSize);
    assert (st.dec + more)[..|st.dec|] == st.dec && (st.dec + more)[|st.dec|..] == more;
    StandsFlushing(c.base, st1, m1, c.r);
    DuringMade(c, st1, m1, srcPtr, dstPtr);
  }

  lemma RoomFacts(base: int, st: St, r: Run)
    requires TmpRoom(base, st, r)
    ensures base <= st.tmpOut && st.tmpOut + st.maxBlockSize <= base + st.maxBufferSize
    ensures st.info.linked ==> (
      && Min(KB64, |r.dict| + |st.out|) <= st.tmpOut - base <= |r.dict| + |st.out|
      && (st.dict == base ==> st.dict + st.dictSize == st.tmpOut))
  {
  }

  lemma StandsFlushing(base: int, st: St, m: seq<byte>, r: Run)
    requires st.stage == FlushOut && InfoIs(st, r) && Totals(st, r) && BufferReady(st) && HistoryIn(base, st, m, r)
    requires Boundary(r, st.pos, st.dec) && Unflushed(base, st, m) && st.tmpOutStart == 0
    requires st.info.linked ==> (
      && Min(KB64, |r.dict| + |st.out|) <= st.tmpOut - base <= |r.dict| + |st.out|
      && (st.dict == base ==> st.dict + st.dictSize == st.tmpOut))
    ensures Stands(base, st, m, r) && !Done(st, r)
  {
    hide InfoIs, Totals, HistoryIn, Boundary;
    if st.info.linked {
      assert |r.dict + st.out| == |r.dict| + |st.out|;
      EmptyTail(r.dict + st.out, m[st.tmpOut..st.tmpOut]);
    }
  }

  lemma EmptyTail(h: seq<byte>, e: seq<byte>)
    requires |e| == 0
    ensures EndsWith(h, e)
  {
  }

  lemma AlignedTrimmed(c: Ctx, st: St, st1: St, m: seq<byte>, srcPtr: int, dstPtr: int)
    requires Aligned(c, st, m, srcPtr, dstPtr)
    requires st1 == st.(tmpOut := st1.tmpOut, dictSize := st1.dictSize)
      && (st1.dictSize == st.dictSize || 0 <= st1.dictSize <= st.dictSize)
    ensures Aligned(c, st1, m, srcPtr, dstPtr)
  {
    hide Buffered;
  }

  lemma DictApartTmp(base: int, st: St, m: seq<byte>, r: Run)
    requires HistoryIn(base, st, m, r) && TmpRoom(base, st, r) && BufferReady(st)
    ensures st.dictSize == 0 || Apart(st.dict, st.dictSize, st.tmpOut, st.maxBlockSize)
  {
    hide Kept, DictBytes, DictIn;
  }

  lemma ReadyLimits(st: St, st1: St)
    requires BufferReady(st) && st1.info == st.info && st1.maxBlockSize == st.maxBlockSize
    requires st1.maxBufferSize == st.maxBufferSize && st1.tmpInCapacity == st.tmpInCapacity
    ensures BufferReady(st1) && KB64 <= st.maxBlockSize && KB64 <= st.maxBufferSize <= TMP_OUT_MAX
  {
  }

  lemma TotalsSame(st: St, st1: St, r: Run)
    requires Totals(st, r) && st1.xxh == st.xxh && st1.dec == st.dec && st1.remaining == st.remaining
    ensures Totals(st1, r)
  {
  }

  /** Not enough room: decode into the private buffer, to be flushed piece by piece. */
  method DecodeToTmp(d: Dctx, mem: array<byte>, sel: int, k: int, ghost c: Ctx, ghost st: St, ghost m: seq<byte>,
      ghost srcPtr: int, ghost dstPtr: int)
    returns (v: Verdict)
    requires !Over(st.stage)
    requires mem[..] == m && Home(d, c.base) && StateOf(d) == st && Geometry(c, |m|)
      && Aligned(c, st, m, srcPtr, dstPtr) && Selected(c, st, m, sel)
    requires RunOk(c.r) && SizesOk(st.maxBufferSize, st.tmpInCapacity) && c.r.frame.Content?
    requires k == st.tmpInTarget - CrcSize(c.r.frame.hd.blockChecksum)
    modifies d, mem
    ensures Stepped(c, StateOf(d), mem[..], srcPtr, dstPtr, v) && Touched(c, m, mem[..]) && v == Again
      && d.dStage == FlushOut
  {
    hide Stands, Aligned, Geometry, SizesOk, RunOk, During, Body, InCompressed, Touched, Le32, DataSize, Buffered,
      Agree, Boundary, BlockData, Selected, InfoIs, Totals, BufferReady, HistoryIn, TmpRoom, BlockDecodes, More, Crc,
      HistoryOf;
    SelectedParts(c, st, m, sel);
    CompressedFacts(st, c.r);
    SelectedData(c, st, m, sel, k);
    PrivateIn(c, |m|);
    ReadyLimits(st, st);
    SelectedApart(c, st, m, sel, k, c.base, KB64);
    ReserveTmp(d, mem, c, st, m);
    ghost var m1, st1 := mem[..], StateOf(d);
    AgreeSize(m, m1, c.base, c.base + KB64);
    AgreeSlice(m, m1, c.base, c.base + KB64, sel, k);
    RoomFacts(c.base, st1, c.r);
    SelectedApart(c, st, m, sel, k, d.tmpOut, st.maxBlockSize);
    InfoIsSame(st, st1, c.r);
    TotalsSame(st, st1, c.r);
    ReadyLimits(st, st1);
    AlignedFrame(c, st, m, m1, c.base, c.base + KB64, srcPtr, dstPtr);
    AlignedTrimmed(c, st, st1, m1, srcPtr, dstPtr);
    TouchedBy(c, m, m1, c.base, c.base + KB64);
    v := DecodeReserved(d, mem, sel, k, c, st1, m1, srcPtr, dstPtr, BlockData(c.r.s, st.blockStart), More(st, c.r));
    TouchedTrans(c, m, m1, mem[..]);
  }

  /** ... once there is room behind the history. */
  method DecodeReserved(d: Dctx, mem: array<byte>, sel: int, k: int, ghost c: Ctx, ghost st: St, ghost m: seq<byte>,
      ghost srcPtr: int, ghost dstPtr: int, ghost data: seq<byte>, ghost more: seq<byte>)
    returns (v: Verdict)
    requires !Over(st.stage)
    requires mem[..] == m && Home(d, c.base) && StateOf(d) == st && Geometry(c, |m|)
      && Aligned(c, st, m, srcPtr, dstPtr)
    requires RunOk(c.r) && SizesOk(st.maxBufferSize, st.tmpInCapacity) && HistoryIn(c.base, st, m, c.r)
      && TmpRoom(c.base, st, c.r)
    requires InfoIs(st, c.r) && Totals(st, c.r) && BufferReady(st) && st.out == st.dec
      && Boundary(c.r, st.pos, st.dec + more) && c.r.frame.Content?
    requires 0 <= sel && 0 <= k <= 0x40_0004 && sel + k <= |m| && m[sel..sel + k] == data
      && Apart(sel, k, st.tmpOut, st.maxBlockSize)
    requires BlockDecodes(data, HistoryOf(c.r.frame.hd, c.r.dict, st.dec), more, st.maxBlockSize)
      && st.maxBlockSize <= 0x40_0000
    modifies d, mem
    ensures Stepped(c, StateOf(d), mem[..], srcPtr, dstPtr, v) && Touched(c, m, mem[..]) && v == Again
      && d.dStage == FlushOut
  {
    hide Stands, Aligned, Geometry, SizesOk, RunOk, During, Touched, Agree, Boundary, InfoIs, Totals, BufferReady,
      HistoryIn, TmpRoom, BlockDecodes, Counted, SameTail, DictIn, DictBytes, Window, HistoryOf;
    PrivateIn(c, |m|);
    ReadyLimits(st, st);
    RoomFacts(c.base, st, c.r);
    DictReaches(c.base, st, m, c.r);
    DictApartTmp(c.base, st, m, c.r);
    var decodedSize := DecodeTo(d, mem, sel, k, d.tmpOut, m, data, HistoryOf(c.r.frame.hd, c.r.dict, st.out), more);
    if decodedSize < 0 { return Fail(DecompressionFailed); }
    AgreeSize(m, mem[..], st.tmpOut, st.tmpOut + st.maxBlockSize);
    AcceptTmp(d, decodedSize, mem[d.tmpOut..d.tmpOut + decodedSize], st, more);
    TmpDone(c, st, StateOf(d), m, mem[..], srcPtr, dstPtr, more);
    return Again;
  }

  method AcceptTmp(d: Dctx, decodedSize: int, piece: seq<byte>, ghost st: St, ghost more: seq<byte>)
    requires StateOf(d) == st && piece == more && decodedSize == |more|
    modifies d
    ensures StateOf(d) == TmpState(st, more)
  {
    hide Counted;
    Count(d, piece);
    CountedFields(st, more);
    d.tmpOutSize := decodedSize;
    d.tmpOutStart := 0;
    d.dec := d.dec + more;
    d.dStage := FlushOut;
  }

  // ---------- collecting a compressed block ----------

  lemma DataFacts(base: int, st: St, m: seq<byte>, r: Run)
    requires Stands(base, st, m, r)
    ensures st.stage == GetCBlock ==> Body(base, st, m, r) && InCompressed(st, r) && st.pos == st.blockStart + BH_SIZE
    ensures st.stage == StoreCBlock ==> (
      && Body(base, st, m, r) && InCompressed(st, r) && st.pos == st.blockStart + BH_SIZE + st.tmpInSize
         && 0 <= st.tmpInSize < st.tmpInTarget
      && Buffered(m, InAt(base), st.tmpInSize, r.s, st.blockStart + BH_SIZE))
  {
    hide Body, InCompressed;
  }

  lemma InCompressedSame(st: St, st1: St, r: Run)
    requires InCompressed(st, r) && st1.blockStart == st.blockStart && st1.blockOut == st.blockOut && st1.out == st.out
      && st1.dec == st.dec
    requires st1.tmpInTarget == st.tmpInTarget
    ensures InCompressed(st1, r)
  {
    hide Boundary, BlockOk, Le32, DataSize;
  }

  lemma TargetPositive(st: St, r: Run)
    requires InCompressed(st, r) && InfoIs(st, r)
    ensures 0 <= st.tmpInTarget <= TMP_IN_MAX
  {
    hide InfoIs, InCompressed, Boundary, Le32, DataSize, BlockData, BlockDecodes, HistoryOf, More, Crc;
    CompressedFacts(st, r);
  }

  lemma CollectData(c: Ctx, st: St, m: seq<byte>, srcPtr: int, dstPtr: int)
    requires During(c, st, m, srcPtr, dstPtr) && st.stage == GetCBlock && 0 < st.tmpInTarget
    ensures var st1 := st.(tmpInSize := 0, stage := StoreCBlock); During(c, st1, m, srcPtr, dstPtr) && !Done(st1, c.r)
  {
    hide Stands, Aligned, Geometry, SizesOk, RunOk, During, Inv, Body, InCompressed;
    var st1 := st.(tmpInSize := 0, stage := StoreCBlock);
    DuringParts(c, st, m, srcPtr, dstPtr);
    DataFacts(c.base, st, m, c.r);
    BodySame(c.base, st, st1, m, c.r);
    InCompressedSame(st, st1, c.r);
    StandsInData(c.base, st1, m, c.r);
    AlignedRead(c, st, st1, m, srcPtr, dstPtr, 0);
    DuringMade(c, st1, m, srcPtr, dstPtr);
  }

  /** dstage_getCBlock */
  method GetCBlockStage(d: Dctx, mem: array<byte>, srcPtr: int, srcEnd: int, dstPtr: int, dstEnd: int, dstStart: int,
      ghost c: Ctx, ghost m: seq<byte>)
    returns (v: Verdict, src1: int, dst1: int)
    requires mem[..] == m && Home(d, c.base) && During(c, StateOf(d), m, srcPtr, dstPtr) && d.dStage == GetCBlock
    requires srcEnd == c.srcEnd && dstEnd == c.dstEnd && dstStart == c.dst
    modifies d, mem
    ensures Stepped(c, StateOf(d), mem[..], src1, dst1, v) && Touched(c, m, mem[..]) && v == Again && srcPtr <= src1
    ensures d.dStage == StoreCBlock || d.dStage == GetBlockHeader || d.dStage == FlushOut
  {
    hide Stands, Aligned, Geometry, SizesOk, RunOk, During, Inv, Body, InCompressed, Touched, Buffered, InfoIs, Done;
    ghost var st := StateOf(d);
    DuringParts(c, st, m, srcPtr, dstPtr);
    DataFacts(c.base, st, m, c.r);
    BodyFacts(c.base, st, m, c.r);
    TargetPositive(st, c.r);
    if srcEnd - srcPtr < d.tmpInTarget {
      d.tmpInSize := 0;
      d.dStage := StoreCBlock;
      TouchedNothing(c, m);
      CollectData(c, st, m, srcPtr, dstPtr);
      return Again, srcPtr, dstPtr;
    }
    InputBytes(c, st, m, srcPtr, dstPtr, d.tmpInTarget);
    src1 := srcPtr + d.tmpInTarget;
    d.pos := d.pos + d.tmpInTarget;
    AlignedRead(c, st, StateOf(d), m, srcPtr, dstPtr, d.tmpInTarget);
    BodySame(c.base, st, StateOf(d), m, c.r);
    InCompressedSame(st, StateOf(d), c.r);
    v, dst1 := DecodeSelected(d, mem, srcPtr, dstPtr, dstEnd, dstStart, c, StateOf(d), m, src1);
  }

  lemma StandsInData(base: int, st: St, m: seq<byte>, r: Run)
    requires st.stage == StoreCBlock && Body(base, st, m, r) && InCompressed(st, r)
      && st.pos == st.blockStart + BH_SIZE + st.tmpInSize
    requires 0 <= st.tmpInSize < st.tmpInTarget && 0 <= base && base + PRIVATE <= |m|
    requires st.tmpInSize > 0 ==> Buffered(m, InAt(base), st.tmpInSize, r.s, st.blockStart + BH_SIZE)
    ensures Stands(base, st, m, r) && !Done(st, r)
  {
    hide Body, InfoIs, InCompressed, Boundary, Le32, DataSize, BlockData, BlockDecodes, HistoryOf, More, Crc;
    BodyFacts(base, st, m, r);
    CompressedFacts(st, r);
  }

  /** dstage_storeCBlock */
  method StoreCBlockStage(d: Dctx, mem: array<byte>, srcPtr: int, srcEnd: int, dstPtr: int, dstEnd: int, dstStart: int,
      ghost c: Ctx, ghost m: seq<byte>)
    returns (v: Verdict, src1: int, dst1: int)
    requires mem[..] == m && Home(d, c.base) && During(c, StateOf(d), m, srcPtr, dstPtr) && d.dStage == StoreCBlock
    requires srcEnd == c.srcEnd && dstEnd == c.dstEnd && dstStart == c.dst
    modifies d, mem
    ensures Stepped(c, StateOf(d), mem[..], src1, dst1, v) && Touched(c, m, mem[..])
    ensures (v == Again ==> srcPtr < src1) && (v != Again ==> src1 == srcEnd)
  {
    hide Stands, Aligned, Geometry, SizesOk, RunOk, During, Inv, Body, InCompressed, Touched, Buffered, InfoIs, Done,
      Agree;
    ghost var st := StateOf(d);
    DuringParts(c, st, m, srcPtr, dstPtr);
    DataFacts(c.base, st, m, c.r);
    BodyFacts(c.base, st, m, c.r);
    TargetPositive(st, c.r);
    var sizeToCopy := Min(d.tmpInTarget - d.tmpInSize, srcEnd - srcPtr);
    Fill(d, mem, d.tmpIn, srcPtr, sizeToCopy, 0, c, st, m, dstPtr);
    src1 := srcPtr + sizeToCopy;
    BodyFrame(c.base, st, m, mem[..], InAt(c.base) + st.tmpInSize, InAt(c.base) + st.tmpInSize + sizeToCopy, c.r);
    BodySame(c.base, st, StateOf(d), mem[..], c.r);
    InCompressedSame(st, StateOf(d), c.r);
    if d.tmpInSize < d.tmpInTarget {
      PrivateIn(c, |mem[..]|);
      StandsInData(c.base, StateOf(d), mem[..], c.r);
      DuringMade(c, StateOf(d), mem[..], src1, dstPtr);
      return Stop(d.tmpInTarget - d.tmpInSize + CrcSize(d.info.blockChecksum) + BH_SIZE), src1, dstPtr;
    }
    ghost var m1 := mem[..];
    v, dst1 := DecodeSelected(d, mem, d.tmpIn, dstPtr, dstEnd, dstStart, c, StateOf(d), m1, src1);
    TouchedTrans(c, m, m1, mem[..]);
  }

  /** All of the block is at sel: check it and decode it, into the output when a whole block fits. */
  method DecodeSelected(d: Dctx, mem: array<byte>, sel: int, dstPtr: int, dstEnd: int, dstStart: int, ghost c: Ctx,
      ghost st: St, ghost m: seq<byte>, ghost srcPtr: int)
    returns (v: Verdict, dst1: int)
    requires !Over(st.stage)
    requires mem[..] == m && Home(d, c.base) && StateOf(d) == st && Geometry(c, |m|)
      && Aligned(c, st, m, srcPtr, dstPtr)
    requires RunOk(c.r) && SizesOk(st.maxBufferSize, st.tmpInCapacity) && dstEnd == c.dstEnd && dstStart == c.dst
      && Selected(c, st, m, sel)
    modifies d, mem
    ensures Stepped(c, StateOf(d), mem[..], srcPtr, dst1, v) && Touched(c, m, mem[..]) && v == Again
    ensures d.dStage == GetBlockHeader || d.dStage == FlushOut
  {
    hide Stands, Aligned, Geometry, SizesOk, RunOk, During, Body, InCompressed, Touched, Buffered, InfoIs, Done,
      Selected, Boundary, Le32, DataSize, BlockData, BlockDecodes, HistoryOf, More, Crc;
    SelectedParts(c, st, m, sel);
    CompressedFacts(st, c.r);
    InfoFields(st, c.r);
    var k := d.tmpInTarget;
    if d.info.blockChecksum {
      k := k - BF_SIZE;
      var readBlockCrc := ReadLE32(mem, sel, k, st.tmpInTarget, c.r.s, st.blockStart + BH_SIZE);
      var calcBlockCrc := Checksum(mem, sel, 0, k, st.tmpInTarget, c.r.s, st.blockStart + BH_SIZE);
      if readBlockCrc != calcBlockCrc {
        return Fail(BlockChecksumInvalid), dstPtr;
      }
    }
    if dstEnd - dstPtr >= d.maxBlockSize {
      v, dst1 := DecodeDirect(d, mem, sel, k, dstPtr, dstStart, c, st, m, srcPtr);
    } else {
      v := DecodeToTmp(d, mem, sel, k, c, st, m, srcPtr, dstPtr);
      dst1 := dstPtr;
    }
  }

  // ---------- flushing ----------

  lemma FlushingFacts(base: int, st: St, m: seq<byte>, r: Run)
    requires Stands(base, st, m, r) && st.stage == FlushOut
    ensures Body(base, st, m, r) && Boundary(r, st.pos, st.dec) && Unflushed(base, st, m)
    ensures st.info.linked ==> (
      && FlushIn(m, TmpS(base, st), r.dict + st.out)
      && (st.dict == base && st.dictSize > 0 ==> st.dict + st.dictSize == st.tmpOut + st.tmpOutStart))
  {
    hide Body, Boundary, Unflushed, FlushIn;
  }

  lemma UnflushedFacts(base: int, st: St, m: seq<byte>)
    requires Unflushed(base, st, m)
    ensures base <= st.tmpOut && 0 <= st.tmpOutStart <= st.tmpOutSize <= |st.dec|
      && st.tmpOut + st.tmpOutSize <= base + st.maxBufferSize <= |m| && 0 <= base
    ensures |st.out| == |st.dec| - (st.tmpOutSize - st.tmpOutStart) && st.out == st.dec[..|st.out|]
    ensures m[st.tmpOut..st.tmpOut + st.tmpOutSize] == st.dec[|st.dec| - st.tmpOutSize..]
  {
  }

  /** The next n bytes to flush are the next n of the content. */
  lemma NextFlushed(base: int, st: St, m: seq<byte>, n: int)
    requires Unflushed(base, st, m) && 0 <= n <= st.tmpOutSize - st.tmpOutStart
    ensures var from := st.tmpOut + st.tmpOutStart;
      && 0 <= from && from + n <= |m|
      && st.out + m[from..from + n] == st.dec[..|st.dec| - (st.tmpOutSize - st.tmpOutStart - n)]
  {
    UnflushedFacts(base, st, m);
    var a, o := st.tmpOutStart, |st.dec| - st.tmpOutSize;
    SliceOfSlice(m, st.tmpOut, st.tmpOut + st.tmpOutSize, a, a + n);
    SliceOfSlice(st.dec, o, |st.dec|, a, a + n);
    assert st.dec[o..] == st.dec[o..|st.dec|];
    SliceJoin(st.dec, 0, o + a, o + a + n);
  }

  lemma FlushInFrame(m: seq<byte>, m1: seq<byte>, t: Tmp, hist: seq<byte>, a: int, b: int)
    requires FlushIn(m, t, hist) && Agree(m, m1, a, b) && (b <= t.out || t.out + t.outSize <= a)
    ensures FlushIn(m1, t, hist)
  {
    hide EndsWith;
    AgreeSize(m, m1, a, b);
    AgreeSlice(m, m1, a, b, t.out, t.outStart);
  }

  lemma FlushInGrows(m: seq<byte>, t: Tmp, hist: seq<byte>, n: int)
    requires FlushIn(m, t, hist) && 0 <= n <= t.outSize - t.outStart
    ensures FlushIn(m, t.(outStart := t.outStart + n), hist + m[t.out + t.outStart..t.out + t.outStart + n])
  {
    var f, p := m[t.out..t.out + t.outStart], m[t.out + t.outStart..t.out + t.outStart + n];
    SliceJoin(m, t.out, t.out + t.outStart, t.out + t.outStart + n);
    EndsWithAppend(hist, f, p);
  }

  lemma EndsWithAppend(h: seq<byte>, f: seq<byte>, p: seq<byte>)
    requires EndsWith(h, f)
    ensures EndsWith(h + p, f + p)
  {
    assert (h + p)[|h| - |f|..] == h[|h| - |f|..] + p;
  }

  lemma UnflushedFrame(base: int, st: St, m: seq<byte>, m1: seq<byte>, a: int, b: int)
    requires Unflushed(base, st, m) && Agree(m, m1, a, b) && (b <= st.tmpOut || st.tmpOut + st.tmpOutSize <= a)
    ensures Unflushed(base, st, m1)
  {
    AgreeSize(m, m1, a, b);
    AgreeSlice(m, m1, a, b, st.tmpOut, st.tmpOutSize);
  }

  /** The flushed piece is at dstPtr. */
  lemma FlushedPiece(c: Ctx, st: St, m: seq<byte>, m1: seq<byte>, srcPtr: int, dstPtr: int, n: int)
    requires !Over(st.stage)
    requires Geometry(c, |m|) && Aligned(c, st, m, srcPtr, dstPtr) && HistoryIn(c.base, st, m, c.r) && BufferReady(st)
      && Unflushed(c.base, st, m)
    requires st.info.linked ==> (
      && FlushIn(m, TmpS(c.base, st), c.r.dict + st.out)
      && (st.dict == c.base && st.dictSize > 0 ==> st.dict + st.dictSize == st.tmpOut + st.tmpOutStart))
    requires 0 <= n <= st.tmpOutSize - st.tmpOutStart && dstPtr + n <= c.dstEnd && Agree(m, m1, dstPtr, dstPtr + n)
    requires 0 <= dstPtr && dstPtr + n <= |m1|
    requires 0 <= st.tmpOut + st.tmpOutStart && st.tmpOut + st.tmpOutStart + n <= |m|
    requires m1[dstPtr..dstPtr + n] == m[st.tmpOut + st.tmpOutStart..st.tmpOut + st.tmpOutStart + n]
    ensures PieceWritten(c, st, m1, dstPtr, n, true) && |m1| == |m|
  {
    hide HistoryIn, Agree, DictClear, FlushIn;
    UnflushedFacts(c.base, st, m);
    HistoryDstFrame(c, st, m, m1, dstPtr, dstPtr + n, dstPtr);
    AgreeSlice(m, m1, dstPtr, dstPtr + n, c.dst, dstPtr - c.dst);
    AgreeSlice(m, m1, dstPtr, dstPtr + n, st.tmpOut + st.tmpOutStart, n);
    if st.info.linked { FlushInFrame(m, m1, TmpS(c.base, st), c.r.dict + st.out, dstPtr, dstPtr + n); }
  }

  /** The state after n bytes of the block have been flushed. */
  ghost function FlushState(st: St, piece: seq<byte>, dict: int, dictSize: int): St
  {
    Output(st, piece, true, dict, dictSize).(tmpOutStart := st.tmpOutStart + |piece|)
  }

  lemma UnflushedLess(base: int, st: St, st1: St, m: seq<byte>, n: int)
    requires Unflushed(base, st, m) && 0 <= n <= st.tmpOutSize - st.tmpOutStart
    requires var from := st.tmpOut + st.tmpOutStart;
      0 <= from && from + n <= |m| && st1.out == st.out + m[from..from + n]
    requires st1.dec == st.dec && st1.tmpOut == st.tmpOut && st1.tmpOutSize == st.tmpOutSize
      && st1.tmpOutStart == st.tmpOutStart + n
    requires st1.maxBufferSize == st.maxBufferSize
    ensures Unflushed(base, st1, m)
  {
    UnflushedFacts(base, st, m);
    NextFlushed(base, st, m, n);
  }

  lemma FlushAdvances(c: Ctx, st: St, st1: St, m: seq<byte>, m1: seq<byte>, m2: seq<byte>, dstPtr: int, n: int)
    requires Geometry(c, |m|) && Body(c.base, st, m, c.r) && Boundary(c.r, st.pos, st.dec) && Unflushed(c.base, st, m)
    requires st.info.linked ==> FlushIn(m, TmpS(c.base, st), c.r.dict + st.out)
    requires 0 <= n <= st.tmpOutSize - st.tmpOutStart && c.dst <= dstPtr && dstPtr + n <= c.dstEnd
    requires Agree(m, m1, dstPtr, dstPtr + n) && Agree(m1, m2, c.base, st.tmpOut)
    requires var from := st.tmpOut + st.tmpOutStart;
      0 <= from && from + n <= |m| && st1 == FlushState(st, m[from..from + n], st1.dict, st1.dictSize)
    requires HistoryIn(c.base, st1, m2, c.r)
    requires st.info.linked && st1.dict == c.base ==> st1.dict + st1.dictSize == st.tmpOut + st.tmpOutStart + n
    ensures Body(c.base, st1, m2, c.r) && Unflushed(c.base, st1, m2) && Boundary(c.r, st1.pos, st1.dec)
    ensures st.info.linked ==> FlushIn(m2, TmpS(c.base, st1), c.r.dict + st1.out)
  {
    hide HistoryIn, Agree, FlushIn, Unflushed, Boundary, InfoIs, Totals;
    BodyFacts(c.base, st, m, c.r);
    UnflushedFacts(c.base, st, m);
    var from := st.tmpOut + st.tmpOutStart;
    InfoIsSame(st, st1, c.r);
    TotalsSame(st, st1, c.r);
    ReadyLimits(st, st1);
    UnflushedLess(c.base, st, st1, m, n);
    UnflushedFrame(c.base, st1, m, m1, dstPtr, dstPtr + n);
    UnflushedFrame(c.base, st1, m1, m2, c.base, st.tmpOut);
    if st.info.linked {
      FlushInGrows(m, TmpS(c.base, st), c.r.dict + st.out, n);
      assert (c.r.dict + st.out) + m[from..from + n] == c.r.dict + st1.out;
      FlushInFrame(m, m1, TmpS(c.base, st1), c.r.dict + st1.out, dstPtr, dstPtr + n);
      FlushInFrame(m1, m2, TmpS(c.base, st1), c.r.dict + st1.out, c.base, st.tmpOut);
    }
  }

  /** Flush n bytes: copy them out, and let them become history. */
  method FlushPiece(d: Dctx, mem: array<byte>, dstPtr: int, n: int, dstStart: int, ghost c: Ctx, ghost st: St,
      ghost m: seq<byte>, ghost srcPtr: int)
    requires mem[..] == m && Home(d, c.base) && StateOf(d) == st && During(c, st, m, srcPtr, dstPtr)
      && st.stage == FlushOut
    requires dstStart == c.dst && 0 <= n <= st.tmpOutSize - st.tmpOutStart && n <= c.dstEnd - dstPtr
    modifies d, mem
    ensures StateOf(d) == st.(out := d.out, dict := d.dict, dictSize := d.dictSize, tmpOutStart := st.tmpOutStart + n)
    ensures Body(c.base, StateOf(d), mem[..], c.r) && Unflushed(c.base, StateOf(d), mem[..])
      && Boundary(c.r, st.pos, st.dec)
    ensures st.info.linked ==> (
      && FlushIn(mem[..], TmpS(c.base, StateOf(d)), c.r.dict + d.out)
      && (d.dict == c.base ==> d.dict + d.dictSize == st.tmpOut + st.tmpOutStart + n))
    ensures Geometry(c, |mem[..]|) && Aligned(c, StateOf(d), mem[..], srcPtr, dstPtr + n) && Touched(c, m, mem[..])
  {
    hide Stands, Aligned, Geometry, SizesOk, RunOk, During, Inv, Body, Touched, Agree, Boundary, HistoryIn, DictClear,
      FlushIn, Unflushed, PieceWritten, BufferReady;
    DuringParts(c, st, m, srcPtr, dstPtr);
    FlushingFacts(c.base, st, m, c.r);
    BodyFacts(c.base, st, m, c.r);
    UnflushedFacts(c.base, st, m);
    OutputIn(c, |m|);
    MemMove(mem, dstPtr, d.tmpOut + d.tmpOutStart, n, m);
    ghost var m1 := mem[..];
    FlushedPiece(c, st, m, m1, srcPtr, dstPtr, n);
    AddOutput(d, mem, dstPtr, n, dstStart, true, c, st, m1);
    ghost var st2 := StateOf(d);
    d.tmpOutStart := d.tmpOutStart + n;
    HistorySame(c.base, st2, StateOf(d), mem[..], c.r);
    DictClearSame(st2, StateOf(d), dstPtr + n, c.dstEnd);
    FlushAdvances(c, st, StateOf(d), m, m1, mem[..], dstPtr, n);
    ReadyLimits(st, st);
    AlignedOutput(c, st, StateOf(d), m, m1, mem[..], srcPtr, srcPtr, dstPtr, n, n, st.tmpOut);
  }
}
