/** LZ4F_decompress: a resumable state machine.  Each stage keeps the invariant that ties the context
    to a position in the frame, so that how input and output are cut makes no difference. */
module FrameDecoder {
  import opened Bytes
  import opened BlockFormat
  import opened BlockShape
  import opened DecoderCopies
  import opened Memory
  import opened DecoderApi
  import opened DecoderStream
  import opened FrameFormat
  import opened FrameHistory
  import opened FrameState
  import opened FrameHeaderDecoder

  /** doAnotherStage, or stop with a hint for the next input size, or an error. */
  datatype Verdict = Again | Stop(hint: int) | Fail(error: Error)

  /** A call never ends in the stages that need no more input. */
  predicate Resumable(st: St)
  {
    st.stage != Init && st.stage != GetSuffix && (st.stage == SkipSkippable ==> 0 < st.tmpInTarget)
  }

  /** What every stage leaves: the invariant; no error; the hint 0 exactly at the end of the frame; and
      a stop only there, or when input or output is used up. */
  ghost predicate Stepped(c: Ctx, st: St, m: seq<byte>, srcPtr: int, dstPtr: int, v: Verdict)
  {
    && During(c, st, m, srcPtr, dstPtr)
    && match v
       case Again => !Done(st, c.r)
       case Stop(hint) =>
         && 0 <= hint && (hint == 0 <==> Done(st, c.r)) && Resumable(st)
         && (Done(st, c.r) || srcPtr == c.srcEnd || dstPtr == c.dstEnd)
       case Fail(_) => false
  }

  // ---------- filling private buffers from the input ----------

  /** Append n bytes of input to what a private buffer holds. */
  method Fill(d: Dctx, mem: array<byte>, addr: int, srcPtr: int, n: int, ghost skip: int,
              ghost c: Ctx, ghost st: St, ghost m: seq<byte>, ghost dstPtr: int)
    requires mem[..] == m && StateOf(d) == st && Geometry(c, |m|) && Aligned(c, st, m, srcPtr, dstPtr)
    requires 0 <= n <= c.srcEnd - srcPtr && 0 <= skip <= st.tmpInSize
    requires Buffered(m, addr + skip, st.tmpInSize - skip, c.r.s, st.pos - (st.tmpInSize - skip))
    requires InAt(c.base) <= addr && addr + st.tmpInSize + n <= c.base + PRIVATE
    modifies d`tmpInSize, d`pos, mem
    ensures StateOf(d) == st.(tmpInSize := st.tmpInSize + n, pos := st.pos + n)
    ensures Geometry(c, |mem[..]|) && Aligned(c, StateOf(d), mem[..], srcPtr + n, dstPtr)
    ensures Agree(m, mem[..], addr + st.tmpInSize, addr + st.tmpInSize + n) && Touched(c, m, mem[..])
    ensures Buffered(mem[..], addr + skip, st.tmpInSize + n - skip, c.r.s, st.pos - (st.tmpInSize - skip))
  {
    hide Buffered, Agree, Aligned, Touched, Geometry;
    InputBytes(c, st, m, srcPtr, dstPtr, n);
    BufferedIn(m, srcPtr, n, c.r.s, st.pos);
    BufferedIn(m, addr + skip, st.tmpInSize - skip, c.r.s, st.pos - (st.tmpInSize - skip));
    PrivateIn(c, |m|);
    MemMove(mem, addr + d.tmpInSize, srcPtr, n, m);
    Filled(c, st, m, mem[..], addr, srcPtr, dstPtr, n, skip);
    d.tmpInSize := d.tmpInSize + n;
    d.pos := d.pos + n;
  }

  lemma PrivateIn(c: Ctx, size: int)
    requires Geometry(c, size)
    ensures 0 <= c.base && c.base + PRIVATE <= size
  {
  }

  lemma Filled(c: Ctx, st: St, m: seq<byte>, m1: seq<byte>, addr: int, srcPtr: int, dstPtr: int, n: int, skip: int)
    requires Geometry(c, |m|) && Aligned(c, st, m, srcPtr, dstPtr) && 0 <= n <= c.srcEnd - srcPtr
    requires Buffered(m, addr + skip, st.tmpInSize - skip, c.r.s, st.pos - (st.tmpInSize - skip))
    requires Buffered(m, srcPtr, n, c.r.s, st.pos)
    requires InAt(c.base) <= addr && 0 <= st.tmpInSize && addr + st.tmpInSize + n <= c.base + PRIVATE <= |m|
      && 0 <= c.base
    requires Agree(m, m1, addr + st.tmpInSize, addr + st.tmpInSize + n)
      && m1[addr + st.tmpInSize..addr + st.tmpInSize + n] == m[srcPtr..srcPtr + n]
    ensures var st1 := st.(tmpInSize := st.tmpInSize + n, pos := st.pos + n);
      Geometry(c, |m1|) && Aligned(c, st1, m1, srcPtr + n, dstPtr) && Touched(c, m, m1)
    ensures Buffered(m1, addr + skip, st.tmpInSize + n - skip, c.r.s, st.pos - (st.tmpInSize - skip))
  {
    hide Buffered, Agree, Aligned, Touched, Geometry;
    BufferedGrows(m, m1, addr + skip, st.tmpInSize - skip, c.r.s, st.pos - (st.tmpInSize - skip), srcPtr, n);
    AlignedFrame(c, st, m, m1, addr + st.tmpInSize, addr + st.tmpInSize + n, srcPtr, dstPtr);
    TouchedBy(c, m, m1, addr + st.tmpInSize, addr + st.tmpInSize + n);
    AlignedFilled(c, st, m1, srcPtr, dstPtr, n);
  }

  lemma AlignedFilled(c: Ctx, st: St, m: seq<byte>, srcPtr: int, dstPtr: int, n: int)
    requires Aligned(c, st, m, srcPtr, dstPtr) && 0 <= n <= c.srcEnd - srcPtr
    ensures Aligned(c, st.(tmpInSize := st.tmpInSize + n, pos := st.pos + n), m, srcPtr + n, dstPtr)
  {
  }

  /** Input that is consumed where it lies. */
  lemma AlignedRead(c: Ctx, st: St, st1: St, m: seq<byte>, srcPtr: int, dstPtr: int, n: int)
    requires Aligned(c, st, m, srcPtr, dstPtr) && 0 <= n && (n == 0 || n <= c.srcEnd - srcPtr)
    requires st1.pos == st.pos + n && st1.out == st.out && st1.dict == st.dict && st1.dictSize == st.dictSize
    requires Over(st.stage) ==> Over(st1.stage)
    ensures Aligned(c, st1, m, srcPtr + n, dstPtr)
  {
  }

  lemma InputLeft(c: Ctx, st: St, m: seq<byte>, srcPtr: int, dstPtr: int)
    requires Aligned(c, st, m, srcPtr, dstPtr)
    ensures c.src <= srcPtr <= c.srcEnd && c.dst <= dstPtr <= c.dstEnd
  {
  }

  // ---------- frame header ----------

  lemma DuringParts(c: Ctx, st: St, m: seq<byte>, srcPtr: int, dstPtr: int)
    requires During(c, st, m, srcPtr, dstPtr)
    ensures Geometry(c, |m|) && Aligned(c, st, m, srcPtr, dstPtr) && Inv(c.base, st, m, c.r)
    ensures RunOk(c.r) && SizesOk(st.maxBufferSize, st.tmpInCapacity) && Stands(c.base, st, m, c.r)
    ensures 0 <= c.base && c.base + PRIVATE <= |m| && c.src <= srcPtr <= c.srcEnd && c.dst <= dstPtr <= c.dstEnd
  {
    hide Stands, Geometry, SizesOk, RunOk;
  }

  lemma DuringMade(c: Ctx, st: St, m: seq<byte>, srcPtr: int, dstPtr: int)
    requires Geometry(c, |m|) && Aligned(c, st, m, srcPtr, dstPtr)
    requires RunOk(c.r) && SizesOk(st.maxBufferSize, st.tmpInCapacity) && Stands(c.base, st, m, c.r)
    ensures During(c, st, m, srcPtr, dstPtr)
  {
    hide Stands, Aligned, SizesOk, RunOk;
  }

  lemma NoContentSize(r: Run)
    requires RunOk(r) && r.frame.Content?
    ensures !Bit(r.s[4], 8) ==> r.frame.hd.contentSize == 0
    ensures MIN_FH_SIZE <= r.frame.hd.size <= MAX_FH_SIZE
  {
    hide Bit, Boundary, Crc, RunOk, Le32, ParseHeader;
    ContentFacts(r);
    HeaderFacts(r.s, r.frame.hd);
  }

  lemma AtStartFacts(base: int, st: St, m: seq<byte>, r: Run)
    requires Stands(base, st, m, r) && st.stage == GetFrameHeader && !Done(st, r)
    ensures st.pos == 0 && st.out == st.dec == [] && st.remaining == 0 && DictIs(base, st, m, r)
  {
    hide DictIs;
  }

  lemma DictIsSame(base: int, st: St, st1: St, m: seq<byte>, r: Run)
    requires DictIs(base, st, m, r) && st1.dict == st.dict && st1.dictSize == st.dictSize
    ensures DictIs(base, st1, m, r)
  {
    hide DictBytes;
  }

  lemma DictLength(base: int, st: St, m: seq<byte>, r: Run)
    requires DictIs(base, st, m, r)
    ensures st.dictSize == |r.dict| && (st.dictSize == 0 || st.dict == r.dictAt)
  {
    hide DictBytes;
    DictInBounds(m, st.dict, st.dictSize);
  }

  /** What LZ4F_decodeHeader has left, wherever the header was. */
  ghost predicate HeaderRead(base: int, st: St, m: seq<byte>, r: Run)
  {
    && st.out == st.dec == [] && DictIs(base, st, m, r)
    && if r.frame.Content? then st.stage == Init && InfoIs(st, r) && st.pos == r.frame.hd.size
       && st.remaining == r.frame.hd.contentSize
       else st.stage == GetSFrameSize && st.pos == 4 && st.remaining == 0
  }

  lemma HeaderReadStands(base: int, st: St, m: seq<byte>, r: Run)
    requires RunOk(r) && HeaderRead(base, st, m, r)
    ensures Stands(base, st, m, r) && !Done(st, r)
  {
    hide RunOk, Boundary, DictBytes;
    DictInBounds(m, st.dict, st.dictSize);
    if r.frame.Content? { ContentFacts(r); }
  }

  lemma InfoIsSame(st: St, st1: St, r: Run)
    requires InfoIs(st, r) && st1.info == st.info && st1.maxBlockSize == st.maxBlockSize
    ensures InfoIs(st1, r)
  {
  }

  /** Nothing read yet. */
  lemma StartKept(base: int, st: St, st1: St, m: seq<byte>, r: Run)
    requires st.pos == 0 && st.out == st.dec == [] && st.remaining == 0 && DictIs(base, st, m, r) && !Done(st, r)
    requires 0 <= base && base + PRIVATE <= |m| && st.stage == GetFrameHeader
    requires st1 == st.(tmpInSize := 0)
      || st1 == st.(tmpInSize := 0, tmpInTarget := MIN_FH_SIZE, stage := StoreFrameHeader)
    ensures Stands(base, st1, m, r) && !Done(st1, r)
  {
    hide DictBytes;
  }

  lemma SrcIsNotPrivate(c: Ctx, size: int, srcPtr: int)
    requires Geometry(c, size) && c.src <= srcPtr < c.srcEnd
    ensures srcPtr != HeaderAt(c.base)
  {
  }

  /** Enough input for any header: decode it where it lies. */
  method DecodeHeaderDirectly(d: Dctx, mem: array<byte>, srcPtr: int, n: int, ghost c: Ctx, ghost st: St,
      ghost m: seq<byte>, ghost dstPtr: int)
    returns (hSize: int, error: Error)
    requires mem[..] == m && Home(d, c.base) && StateOf(d) == st && Geometry(c, |m|)
      && Aligned(c, st, m, srcPtr, dstPtr)
    requires RunOk(c.r) && SizesOk(st.maxBufferSize, st.tmpInCapacity) && n == c.srcEnd - srcPtr && MAX_FH_SIZE <= n
      && !Over(st.stage)
    requires st.pos == 0 && st.out == st.dec == [] && st.remaining == 0 && DictIs(c.base, st, m, c.r)
    modifies d
    ensures error == NoError && 0 < hSize && During(c, StateOf(d), m, srcPtr + hSize, dstPtr) && !Done(StateOf(d), c.r)
  {
    hide Stands, Aligned, Geometry, SizesOk, RunOk, DictIs, Buffered, InfoIs, Inv, During, Done;
    InputBytes(c, st, m, srcPtr, dstPtr, n);
    InputLeft(c, st, m, srcPtr, dstPtr);
    SrcIsNotPrivate(c, |m|, srcPtr);
    if c.r.frame.Content? { NoContentSize(c.r); }
    hSize, error := DecodeHeader(d, mem, srcPtr, n, m, c.r);
    if error != NoError { return; }
    ghost var st1 := StateOf(d);
    d.pos := d.pos + hSize;
    DictIsSame(c.base, st, StateOf(d), m, c.r);
    if c.r.frame.Content? { InfoIsSame(st1, StateOf(d), c.r); }
    HeaderReadStands(c.base, StateOf(d), m, c.r);
    AlignedRead(c, st, StateOf(d), m, srcPtr, dstPtr, hSize);
    DuringMade(c, StateOf(d), m, srcPtr + hSize, dstPtr);
  }

  /** dstage_getFrameHeader */
  method GetFrameHeaderStage(d: Dctx, mem: array<byte>, srcPtr: int, srcEnd: int, ghost c: Ctx, ghost m: seq<byte>,
      ghost dstPtr: int)
    returns (v: Verdict, src1: int)
    requires mem[..] == m && Home(d, c.base) && srcEnd == c.srcEnd && During(c, StateOf(d), m, srcPtr, dstPtr)
    requires d.dStage == GetFrameHeader && !Done(StateOf(d), c.r)
    modifies d
    ensures Stepped(c, StateOf(d), m, src1, dstPtr, v)
    ensures v == Again ==> srcPtr < src1 || (src1 == srcPtr && d.dStage == StoreFrameHeader)
  {
    hide Stands, Aligned, Geometry, SizesOk, RunOk, DictIs, Buffered, InfoIs, Inv, During;
    ghost var st := StateOf(d);
    DuringParts(c, st, m, srcPtr, dstPtr);
    AtStartFacts(c.base, st, m, c.r);
    var n := srcEnd - srcPtr;
    if n >= MAX_FH_SIZE {
      var hSize, error := DecodeHeaderDirectly(d, mem, srcPtr, n, c, st, m, dstPtr);
      if error != NoError { return Fail(error), srcPtr; }
      return Again, srcPtr + hSize;
    }
    d.tmpInSize := 0;
    if n == 0 {
      v := Stop(MIN_FH_SIZE);
    } else {
      d.tmpInTarget := MIN_FH_SIZE;
      d.dStage := StoreFrameHeader;
      v := Again;
    }
    StartKept(c.base, st, StateOf(d), m, c.r);
    AlignedRead(c, st, StateOf(d), m, srcPtr, dstPtr, 0);
    DuringMade(c, StateOf(d), m, srcPtr, dstPtr);
    src1 := srcPtr;
  }

  /** The stored bytes were enough, or tell how many more are needed. */
  ghost predicate HeaderStored(base: int, st: St, m: seq<byte>, r: Run)
  {
    || HeaderRead(base, st, m, r)
    || (r.frame.Content? && st.stage == StoreFrameHeader && InHeader(base, st, m, r))
    || (st.stage == StoreSFrameSize && InSkipSize(base, st, m, r))
  }

  lemma HeaderStoredStands(base: int, st: St, m: seq<byte>, r: Run)
    requires RunOk(r) && HeaderStored(base, st, m, r)
    ensures Stands(base, st, m, r) && !Done(st, r)
  {
    hide RunOk, DictIs, Boundary, Buffered, InHeader, InSkipSize, HeaderRead;
    if HeaderRead(base, st, m, r) { HeaderReadStands(base, st, m, r); }
  }

  lemma InHeaderFacts(base: int, st: St, m: seq<byte>, r: Run)
    requires Stands(base, st, m, r) && st.stage == StoreFrameHeader
    ensures st.out == st.dec == [] && st.remaining == 0 && DictIs(base, st, m, r)
    ensures st.pos == st.tmpInSize < st.tmpInTarget <= MAX_FH_SIZE && 0 <= st.tmpInSize
    ensures Buffered(m, HeaderAt(base), st.tmpInSize, r.s, 0)
    ensures st.tmpInTarget == MIN_FH_SIZE
      || (r.frame.Content? && MIN_FH_SIZE <= st.tmpInSize && st.tmpInTarget == r.frame.hd.size)
  {
    hide DictIs;
  }

  lemma StillInHeader(base: int, st: St, m: seq<byte>, r: Run)
    requires st.stage == StoreFrameHeader && st.out == st.dec == [] && st.remaining == 0 && DictIs(base, st, m, r)
    requires st.pos == st.tmpInSize < st.tmpInTarget <= MAX_FH_SIZE && Buffered(m, HeaderAt(base), st.tmpInSize, r.s, 0)
    requires st.tmpInTarget == MIN_FH_SIZE
      || (r.frame.Content? && MIN_FH_SIZE <= st.tmpInSize && st.tmpInTarget == r.frame.hd.size)
    ensures Stands(base, st, m, r) && InHeader(base, st, m, r) && !Done(st, r)
  {
    hide DictIs, Buffered;
  }

  /** dstage_storeFrameHeader */
  method StoreFrameHeaderStage(d: Dctx, mem: array<byte>, srcPtr: int, srcEnd: int, ghost c: Ctx, ghost m: seq<byte>,
      ghost dstPtr: int)
    returns (v: Verdict, src1: int)
    requires mem[..] == m && Home(d, c.base) && srcEnd == c.srcEnd && During(c, StateOf(d), m, srcPtr, dstPtr)
    requires d.dStage == StoreFrameHeader
    modifies d, mem
    ensures Stepped(c, StateOf(d), mem[..], src1, dstPtr, v) && Touched(c, m, mem[..])
    ensures v == Again ==> srcPtr < src1
  {
    hide Stands, Aligned, Geometry, SizesOk, RunOk, DictIs, Buffered, InfoIs, Inv, During, InHeader, Agree, Touched;
    ghost var st := StateOf(d);
    DuringParts(c, st, m, srcPtr, dstPtr);
    InHeaderFacts(c.base, st, m, c.r);
    var sizeToCopy := Min(d.tmpInTarget - d.tmpInSize, srcEnd - srcPtr);
    Fill(d, mem, d.header, srcPtr, sizeToCopy, 0, c, st, m, dstPtr);
    src1 := srcPtr + sizeToCopy;
    DictIsFrame(c.base, st, m, mem[..], HeaderAt(c.base) + st.tmpInSize, HeaderAt(c.base) + st.tmpInSize + sizeToCopy,
      c.r);
    DictIsSame(c.base, st, StateOf(d), mem[..], c.r);
    if d.tmpInSize < d.tmpInTarget {
      StillInHeader(c.base, StateOf(d), mem[..], c.r);
      DuringMade(c, StateOf(d), mem[..], src1, dstPtr);
      return Stop(d.tmpInTarget - d.tmpInSize + BH_SIZE), src1;
    }
    var error := DecodeStoredHeader(d, mem, c, StateOf(d), mem[..], src1, dstPtr);
    if error != NoError { return Fail(error), src1; }
    v := Again;
  }

  /** ... when tmpInTarget bytes are there. */
  method DecodeStoredHeader(d: Dctx, mem: array<byte>, ghost c: Ctx, ghost st: St, ghost m: seq<byte>,
      ghost srcPtr: int, ghost dstPtr: int)
    returns (error: Error)
    requires !Over(st.stage)
    requires mem[..] == m && Home(d, c.base) && StateOf(d) == st && Geometry(c, |m|)
      && Aligned(c, st, m, srcPtr, dstPtr)
    requires RunOk(c.r) && SizesOk(st.maxBufferSize, st.tmpInCapacity)
    requires st.out == st.dec == [] && st.remaining == 0 && DictIs(c.base, st, m, c.r)
    requires st.pos == st.tmpInSize == st.tmpInTarget <= MAX_FH_SIZE
      && Buffered(m, HeaderAt(c.base), st.tmpInSize, c.r.s, 0)
    requires st.tmpInTarget == MIN_FH_SIZE
      || (c.r.frame.Content? && MIN_FH_SIZE <= st.tmpInSize && st.tmpInTarget == c.r.frame.hd.size)
    modifies d
    ensures error == NoError && During(c, StateOf(d), m, srcPtr, dstPtr) && !Done(StateOf(d), c.r)
  {
    hide Stands, Aligned, Geometry, SizesOk, RunOk, DictIs, Buffered, InfoIs, Inv, During;
    if c.r.frame.Content? { NoContentSize(c.r); }
    var hSize;
    hSize, error := DecodeHeader(d, mem, d.header, d.tmpInTarget, m, c.r);
    if error != NoError { return; }
    DictIsSame(c.base, st, StateOf(d), m, c.r);
    if c.r.frame.Skippable? {
      BufferedPart(m, HeaderAt(c.base), st.tmpInSize, c.r.s, 0, 4, 3);
      DictLength(c.base, st, m, c.r);
    }
    HeaderStoredStands(c.base, StateOf(d), m, c.r);
    AlignedRead(c, st, StateOf(d), m, srcPtr, dstPtr, 0);
    DuringMade(c, StateOf(d), m, srcPtr, dstPtr);
  }

  // ---------- buffers and block headers ----------

  /** Before any output the history is the caller's dictionary. */
  lemma HistoryStarts(base: int, st: St, m: seq<byte>, r: Run)
    requires DictIs(base, st, m, r) && st.out == st.dec == [] && st.tmpOut == base && 0 <= st.maxBufferSize
    ensures HistoryIn(base, st, m, r)
  {
    hide DictBytes, Need, SameTail;
    DictInBounds(m, st.dict, st.dictSize);
    NeedRange(|r.dict|, 0);
    assert r.dict + st.out == r.dict;
    SameTailSelf(r.dict, Need(|r.dict|, 0));
  }

  lemma SameTailSelf(a: seq<byte>, w: int)
    requires 0 <= w <= |a|
    ensures SameTail(a, a, w)
  {
  }

  /** What dstage_init sets. */
  ghost function InitState(st: St, base: int): St
  {
    var need := BufferNeeded(st.maxBlockSize, st.info.linked);
    st.(stage := GetBlockHeader, xxh := if st.info.contentChecksum then [] else st.xxh,
        maxBufferSize := Max(need, st.maxBufferSize), tmpInCapacity := if need > st.maxBufferSize
          then st.maxBlockSize + BF_SIZE else st.tmpInCapacity, tmpInSize := 0, tmpInTarget := 0, tmpOut := base,
          tmpOutSize := 0, tmpOutStart := 0)
  }

  lemma BodyStarts(base: int, st: St, m: seq<byte>, r: Run)
    requires AtInit(base, st, m, r) && BufferReady(InitState(st, base)) && 0 <= st.maxBufferSize
    ensures Stands(base, InitState(st, base), m, r) && !Done(InitState(st, base), r)
  {
    hide DictIs, Boundary, BufferReady, HistoryIn;
    DictIsSame(base, st, InitState(st, base), m, r);
    HistoryStarts(base, InitState(st, base), m, r);
  }

  /** Private buffers are reused when they are large enough. */
  lemma BuffersAfterInit(st: St, base: int, r: Run)
    requires InfoIs(st, r) && SizesOk(st.maxBufferSize, st.tmpInCapacity)
    ensures var st1 := InitState(st, base); SizesOk(st1.maxBufferSize, st1.tmpInCapacity) && BufferReady(st1)
    ensures 0 <= st.maxBufferSize
  {
    var id, st1 := r.frame.hd.blockSizeID, InitState(st, base);
    if BufferNeeded(st.maxBlockSize, st.info.linked) > st.maxBufferSize {
      assert SizesFor(id, st1.maxBufferSize, st1.tmpInCapacity);
    } else {
      BuffersFit(st.maxBufferSize, st.tmpInCapacity, id, st.info.linked);
    }
  }

  lemma AtInitFacts(base: int, st: St, m: seq<byte>, r: Run)
    requires Stands(base, st, m, r) && st.stage == Init
    ensures AtInit(base, st, m, r) && InfoIs(st, r)
  {
    hide DictIs, Boundary;
  }

  lemma InitDone(c: Ctx, st: St, m: seq<byte>, srcPtr: int, dstPtr: int)
    requires During(c, st, m, srcPtr, dstPtr) && st.stage == Init
    ensures During(c, InitState(st, c.base), m, srcPtr, dstPtr) && !Done(InitState(st, c.base), c.r)
  {
    hide Stands, Aligned, Geometry, SizesOk, RunOk, Inv, During, AtInit, InfoIs, BufferReady;
    DuringParts(c, st, m, srcPtr, dstPtr);
    AtInitFacts(c.base, st, m, c.r);
    BuffersAfterInit(st, c.base, c.r);
    BodyStarts(c.base, st, m, c.r);
    AlignedRead(c, st, InitState(st, c.base), m, srcPtr, dstPtr, 0);
    DuringMade(c, InitState(st, c.base), m, srcPtr, dstPtr);
  }

  /** LZ4F_decompress at dstage_init: checksum and buffers ... */
  method AllocateBuffers(d: Dctx)
    modifies d`xxh, d`maxBufferSize, d`tmpInCapacity
    ensures d.xxh == if d.info.contentChecksum then [] else old(d.xxh)
    ensures var need := BufferNeeded(d.maxBlockSize, d.info.linked);
      && d.maxBufferSize == Max(need, old(d.maxBufferSize))
      && d.tmpInCapacity == if need > old(d.maxBufferSize) then d.maxBlockSize + BF_SIZE else old(d.tmpInCapacity)
  {
    if d.info.contentChecksum { d.xxh := []; }
    var bufferNeeded := BufferNeeded(d.maxBlockSize, d.info.linked);
    if bufferNeeded > d.maxBufferSize {
      d.tmpInCapacity := d.maxBlockSize + BF_SIZE;
      d.maxBufferSize := bufferNeeded;
    }
  }

  /** ... and everything empty. */
  method InitStage(d: Dctx, ghost c: Ctx)
    requires Home(d, c.base)
    modifies d
    ensures StateOf(d) == InitState(old(StateOf(d)), c.base)
  {
    hide BufferNeeded;
    AllocateBuffers(d);
    d.tmpInSize := 0;
    d.tmpInTarget := 0;
    d.tmpOut := d.tmpOutBuffer;
    d.tmpOutStart := 0;
    d.tmpOutSize := 0;
    d.dStage := GetBlockHeader;
  }

  /** A block header tells the end of the blocks, or a block that is framed correctly. */
  lemma BoundaryStep(r: Run, i: int, dec: seq<byte>)
    requires Boundary(r, i, dec)
    ensures 0 <= i && i + BH_SIZE <= |r.s| && r.frame.Content?
    ensures Le32(r.s, i) == 0 ==> r.frame.full == dec && r.frame.bodyEnd == i + BH_SIZE
    ensures Le32(r.s, i) != 0 ==> (
      && BlockOk(r.s, i, r.frame.hd, r.dict, dec) && BlockFramed(r.s, i, r.frame.hd)
      && Boundary(r, NextBlock(r.s, i, r.frame.hd), dec + BlockContent(r.s, i, HistoryOf(r.frame.hd, r.dict, dec))))
  {
    hide Le32, BlockContent, HistoryOf, BlockFramed, BlockDecodes;
    if Le32(r.s, i) != 0 {
      OkFramed(r.s, i, r.frame.hd, r.dict, dec);
      FramedNext(r.s, i, r.frame.hd);
    }
  }

  lemma FramedNext(s: seq<byte>, i: int, hd: Header)
    requires BlockFramed(s, i, hd)
    ensures 0 <= i && Le32(s, i) != 0
      && i + BH_SIZE + DataSize(Le32(s, i)) + CrcSize(hd.blockChecksum) == NextBlock(s, i, hd) <= |s|
    ensures 0 <= DataSize(Le32(s, i)) <= BlockSize(hd.blockSizeID) && |BlockData(s, i)| == DataSize(Le32(s, i))
    ensures BlockData(s, i) == s[i + BH_SIZE..i + BH_SIZE + DataSize(Le32(s, i))]
    ensures hd.blockChecksum ==> Le32(s, NextBlock(s, i, hd) - BF_SIZE) == Crc(BlockData(s, i))
  {
    hide Le32, BlockSize, Crc;
    DataSizeRange(s, i);
  }

  lemma BodySame(base: int, st: St, st1: St, m: seq<byte>, r: Run)
    requires Body(base, st, m, r)
    requires st1.info == st.info && st1.maxBlockSize == st.maxBlockSize && st1.maxBufferSize == st.maxBufferSize
    requires st1.tmpInCapacity == st.tmpInCapacity && st1.remaining == st.remaining && st1.xxh == st.xxh
      && st1.dec == st.dec
    requires st1.out == st.out && st1.dict == st.dict && st1.dictSize == st.dictSize && st1.tmpOut == st.tmpOut
    ensures Body(base, st1, m, r)
  {
    hide Kept, DictBytes;
  }

  /** What a block header with the value h leads to. */
  ghost function BlockState(st: St, h: int): St
  {
    var st1 := st.(blockStart := st.pos - BH_SIZE, blockOut := st.dec);
    if h == 0 then st1.(stage := GetSuffix)
    else if IsRaw(h)
      then st1.(stage := CopyDirect, tmpInTarget := DataSize(h), blockXxh := if st.info.blockChecksum then []
      else st.blockXxh)
    else st1.(stage := GetCBlock, tmpInTarget := DataSize(h) + CrcSize(st.info.blockChecksum))
  }

  /** Behind a block header: everything decoded is flushed, and the block begins before pos. */
  ghost predicate BehindHeader(base: int, st: St, m: seq<byte>, r: Run)
  {
    Body(base, st, m, r) && st.out == st.dec && Boundary(r, st.pos - BH_SIZE, st.dec)
  }

  lemma BodyFacts(base: int, st: St, m: seq<byte>, r: Run)
    requires Body(base, st, m, r)
    ensures InfoIs(st, r) && Totals(st, r) && BufferReady(st) && HistoryIn(base, st, m, r)
  {
    hide InfoIs, Totals, BufferReady, HistoryIn;
  }

  lemma InfoFields(st: St, r: Run)
    requires InfoIs(st, r)
    ensures r.frame.Content? && st.info.blockChecksum == r.frame.hd.blockChecksum && st.info.linked == r.frame.hd.linked
    ensures st.info.contentChecksum == r.frame.hd.contentChecksum && st.info.contentSize == r.frame.hd.contentSize
    ensures st.maxBlockSize == BlockSize(r.frame.hd.blockSizeID)
  {
    hide BlockSize;
  }

  lemma InBlockMade(st: St, st1: St, r: Run, i: int)
    requires Boundary(r, i, st.dec) && Le32(r.s, i) != 0 && st1.blockStart == i && st1.blockOut == st.dec
    ensures InBlock(st1, r)
  {
    hide Boundary, Le32, BlockOk;
    BoundaryStep(r, i, st.dec);
  }

  lemma BlockStateStands(base: int, st: St, m: seq<byte>, r: Run)
    requires BehindHeader(base, st, m, r)
    ensures var st1 := BlockState(st, Le32(r.s, st.pos - BH_SIZE)); Stands(base, st1, m, r) && !Done(st1, r)
    ensures DataSize(Le32(r.s, st.pos - BH_SIZE)) <= st.maxBlockSize
  {
    hide Body, Boundary, Le32, BlockOk, InBlock, InfoIs, Totals, BufferReady, HistoryIn, DataSize, IsRaw, BlockData,
      BlockFramed, AtStart, InHeader, AtInit, AtBlock, InBlockHeader, InBlockChecksum, InData, Flushing, InSuffix,
      InSkipSize, Skipping, BlockContent, HistoryOf;
    var i := st.pos - BH_SIZE;
    var h := Le32(r.s, i);
    var st1 := BlockState(st, h);
    BodyFacts(base, st, m, r);
    InfoFields(st, r);
    BodySame(base, st, st1, m, r);
    BodyFacts(base, st1, m, r);
    BoundaryStep(r, i, st.dec);
    if h == 0 {
      NoData();
    } else {
      InBlockMade(st, st1, r, i);
      FramedNext(r.s, i, r.frame.hd);
      assert BlockData(r.s, i)[..0] == [];
      assert st.dec + BlockData(r.s, i)[..0] == st.dec;
    }
  }

  lemma NoData()
    ensures DataSize(0) == 0 && forall id :: 0 < BlockSize(id)
  {
  }

  /** Decode the block header at `at`; stop when there is nothing to go on with. */
  method DecodeBlockHeader(d: Dctx, mem: array<byte>, at: int, starved: bool,
                           ghost c: Ctx, ghost st: St, ghost m: seq<byte>, ghost srcPtr: int, ghost dstPtr: int)
                           returns (v: Verdict)
    requires !Over(st.stage)
    requires mem[..] == m && StateOf(d) == st && Geometry(c, |m|) && Aligned(c, st, m, srcPtr, dstPtr)
    requires RunOk(c.r) && SizesOk(st.maxBufferSize, st.tmpInCapacity) && BehindHeader(c.base, st, m, c.r)
    requires Buffered(m, at, BH_SIZE, c.r.s, st.pos - BH_SIZE) && starved == (dstPtr == c.dstEnd || srcPtr == c.srcEnd)
    modifies d`dStage, d`tmpInTarget, d`blockXxh, d`blockStart, d`blockOut
    ensures Stepped(c, StateOf(d), m, srcPtr, dstPtr, v)
  {
    hide Stands, Aligned, Geometry, SizesOk, RunOk, During, BehindHeader, Buffered, Le32, DataSize, IsRaw, Done;
    BlockStateStands(c.base, st, m, c.r);
    var blockHeader := ReadLE32(mem, at, 0, BH_SIZE, c.r.s, st.pos - BH_SIZE);
    AlignedRead(c, st, BlockState(st, blockHeader), m, srcPtr, dstPtr, 0);
    DuringMade(c, BlockState(st, blockHeader), m, srcPtr, dstPtr);
    if blockHeader != 0 && DataSize(blockHeader) > d.maxBlockSize { return Fail(MaxBlockSizeInvalid); }
    EnterBlock(d, blockHeader);
    DataSizeRange(c.r.s, st.pos - BH_SIZE);
    return if d.dStage == GetCBlock && starved then Stop(BH_SIZE + d.tmpInTarget) else Again;
  }

  method EnterBlock(d: Dctx, blockHeader: int)
    modifies d`dStage, d`tmpInTarget, d`blockXxh, d`blockStart, d`blockOut
    ensures StateOf(d) == BlockState(old(StateOf(d)), blockHeader)
  {
    hide DataSize, IsRaw;
    d.blockStart, d.blockOut := d.pos - BH_SIZE, d.dec;
    if blockHeader == 0 {
      d.dStage := GetSuffix;
    } else if IsRaw(blockHeader) {
      d.tmpInTarget := DataSize(blockHeader);
      if d.info.blockChecksum { d.blockXxh := []; }
      d.dStage := CopyDirect;
    } else {
      d.tmpInTarget := DataSize(blockHeader) + CrcSize(d.info.blockChecksum);
      d.dStage := GetCBlock;
    }
  }

  // ---------- at and in a block header ----------

  lemma AtBlockFacts(base: int, st: St, m: seq<byte>, r: Run)
    requires Stands(base, st, m, r)
    ensures st.stage == GetBlockHeader ==> Body(base, st, m, r) && st.out == st.dec && Boundary(r, st.pos, st.dec)
    ensures st.stage == StoreBlockHeader ==> (
      && Body(base, st, m, r) && st.out == st.dec && Boundary(r, st.pos - st.tmpInSize, st.dec)
         && 0 <= st.tmpInSize < BH_SIZE
      && Buffered(m, InAt(base), st.tmpInSize, r.s, st.pos - st.tmpInSize))
  {
    hide Body, Boundary;
  }

  /** dstage_getBlockHeader */
  method GetBlockHeaderStage(d: Dctx, mem: array<byte>, srcPtr: int, srcEnd: int, dstPtr: int, dstEnd: int,
      ghost c: Ctx, ghost m: seq<byte>)
    returns (v: Verdict, src1: int)
    requires mem[..] == m && srcEnd == c.srcEnd && dstEnd == c.dstEnd && During(c, StateOf(d), m, srcPtr, dstPtr)
      && d.dStage == GetBlockHeader
    modifies d
    ensures Stepped(c, StateOf(d), m, src1, dstPtr, v)
    ensures v == Again ==> srcPtr < src1 || (src1 == srcPtr && d.dStage == StoreBlockHeader)
  {
    hide Stands, Aligned, Geometry, SizesOk, RunOk, During, Inv, Body, Boundary, Buffered, Done;
    ghost var st := StateOf(d);
    DuringParts(c, st, m, srcPtr, dstPtr);
    AtBlockFacts(c.base, st, m, c.r);
    if srcEnd - srcPtr >= BH_SIZE {
      InputBytes(c, st, m, srcPtr, dstPtr, BH_SIZE);
      d.pos := d.pos + BH_SIZE;
      AlignedRead(c, st, StateOf(d), m, srcPtr, dstPtr, BH_SIZE);
      BodySame(c.base, st, StateOf(d), m, c.r);
      src1 := srcPtr + BH_SIZE;
      v := DecodeBlockHeader(d, mem, srcPtr, dstPtr == dstEnd || src1 == srcEnd, c, StateOf(d), m, src1, dstPtr);
      return;
    }
    d.tmpInSize := 0;
    d.dStage := StoreBlockHeader;
    NothingStored(c, st, m, srcPtr, dstPtr);
    return Again, srcPtr;
  }

  lemma NothingStored(c: Ctx, st: St, m: seq<byte>, srcPtr: int, dstPtr: int)
    requires During(c, st, m, srcPtr, dstPtr) && st.stage == GetBlockHeader
    ensures var st1 := st.(tmpInSize := 0, stage := StoreBlockHeader);
      During(c, st1, m, srcPtr, dstPtr) && !Done(st1, c.r)
  {
    hide Stands, Aligned, Geometry, SizesOk, RunOk, During, Inv, Body;
    var st1 := st.(tmpInSize := 0, stage := StoreBlockHeader);
    DuringParts(c, st, m, srcPtr, dstPtr);
    AtBlockFacts(c.base, st, m, c.r);
    BodySame(c.base, st, st1, m, c.r);
    AlignedRead(c, st, st1, m, srcPtr, dstPtr, 0);
    StandsInBlockHeader(c.base, st1, m, c.r);
    DuringMade(c, st1, m, srcPtr, dstPtr);
  }

  lemma StandsInBlockHeader(base: int, st: St, m: seq<byte>, r: Run)
    requires st.stage == StoreBlockHeader && Body(base, st, m, r) && st.out == st.dec && 0 <= st.tmpInSize < BH_SIZE
    requires Boundary(r, st.pos - st.tmpInSize, st.dec) && 0 <= base && base + PRIVATE <= |m|
    requires st.tmpInSize > 0 ==> Buffered(m, InAt(base), st.tmpInSize, r.s, st.pos - st.tmpInSize)
    ensures Stands(base, st, m, r) && !Done(st, r)
  {
    hide Body, Boundary, AtStart, InHeader, AtInit, AtBlock, InRaw, InBlockChecksum, AtData, InData, Flushing, AtSuffix,
      InSuffix, InSkipSize, Skipping, BlockOk, BlockFramed, BlockContent, HistoryOf, Le32;
    BoundaryStep(r, st.pos - st.tmpInSize, st.dec);
  }

  lemma BodyFrame(base: int, st: St, m: seq<byte>, m1: seq<byte>, a: int, b: int, r: Run)
    requires Body(base, st, m, r) && Agree(m, m1, a, b) && InAt(base) <= a && b <= base + PRIVATE
    ensures Body(base, st, m1, r)
  {
    hide HistoryIn, Agree;
    HistoryFrame(base, st, m, m1, a, b, r);
  }

  /** dstage_storeBlockHeader */
  method StoreBlockHeaderStage(d: Dctx, mem: array<byte>, srcPtr: int, srcEnd: int, dstPtr: int, dstEnd: int,
      ghost c: Ctx, ghost m: seq<byte>)
    returns (v: Verdict, src1: int)
    requires mem[..] == m && Home(d, c.base) && srcEnd == c.srcEnd && dstEnd == c.dstEnd
      && During(c, StateOf(d), m, srcPtr, dstPtr)
    requires d.dStage == StoreBlockHeader
    modifies d, mem
    ensures Stepped(c, StateOf(d), mem[..], src1, dstPtr, v) && Touched(c, m, mem[..])
    ensures v == Again ==> srcPtr < src1
  {
    hide Stands, Aligned, Geometry, SizesOk, RunOk, During, Inv, Body, Boundary, Buffered, Done, Agree, Touched;
    ghost var st := StateOf(d);
    DuringParts(c, st, m, srcPtr, dstPtr);
    AtBlockFacts(c.base, st, m, c.r);
    var sizeToCopy := Min(BH_SIZE - d.tmpInSize, srcEnd - srcPtr);
    Fill(d, mem, d.tmpIn, srcPtr, sizeToCopy, 0, c, st, m, dstPtr);
    src1 := srcPtr + sizeToCopy;
    BodyFrame(c.base, st, m, mem[..], InAt(c.base) + st.tmpInSize, InAt(c.base) + st.tmpInSize + sizeToCopy, c.r);
    BodySame(c.base, st, StateOf(d), mem[..], c.r);
    if d.tmpInSize < BH_SIZE {
      PrivateIn(c, |mem[..]|);
      StandsInBlockHeader(c.base, StateOf(d), mem[..], c.r);
      DuringMade(c, StateOf(d), mem[..], src1, dstPtr);
      return Stop(BH_SIZE - d.tmpInSize), src1;
    }
    v := DecodeBlockHeader(d, mem, d.tmpIn, dstPtr == dstEnd || src1 == srcEnd, c, StateOf(d), mem[..], src1, dstPtr);
  }
}
