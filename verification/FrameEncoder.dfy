/** LZ4F_compressBegin, LZ4F_compressUpdate, LZ4F_flush, LZ4F_compressEnd and LZ4F_compressFrame: what
    they write, that it fits the announced bounds, and that the frame is what the format says. */
module FrameEncoder {
  import opened Bytes
  import opened BlockFormat
  import opened BlockWriter
  import opened FrameFormat
  import opened FrameEncoding
  import opened FrameBound
  import opened FrameCodec
  import opened FrameBackend
  import opened FrameCctx
  import opened FrameBlocks
  import opened FrameUpdate
  import opened FrameSource
  import opened FrameCompress
  import opened Memory
  import HS = HcStream
  import FH = FastHistory
  import Xxh32

  // ---------- LZ4F_compressUpdate ----------

  /** The announced bound covers the blocks. */
  lemma BoundCovers(p: Prefs, at: int, srcSize: int, used: int, capacity: int)
    requires Countable(srcSize) && 0 <= used < FrameBlockSize(p) && BoundInternal(srcSize, p, used) <= capacity
    ensures Covered(p, at, srcSize + used, at + BoundInternal(srcSize, p, used) - FrameEndSize(p))
  {
    BoundIsBudget(srcSize, p, used);
    BudgetFlush(p, srcSize + used);
  }

  lemma JoinsStart(written: seq<byte>, dst: array<byte>, at: int)
    requires 0 <= at <= dst.Length
    ensures Joins(written, dst, at, Mark(at, dst[..][..at], written))
  {
    assert dst[at..at] == [];
  }

  lemma BufferUsed(b: Buffer, p: Prefs, memory: int)
    requires BufferOk(b, p, memory)
    ensures 0 <= b.used < b.blockSize == FrameBlockSize(p)
  {
  }

  method AbsorbCounted(c: Cctx, mem: array<byte>, dst: array<byte>, at: int, source: int, srcSize: int, stableSrc: bool,
      wide: bool, ghost limit: int, ghost mark: Mark)
    returns (op: int)
    requires Valid(c, mem[..]) && Foreign(c, mem) && Foreign(c, dst) && mem != dst
      && SourceOk(c, mem.Length, source, source + srcSize)
    requires Joins(c.written, dst, at, mark) && Covered(c.prefs, at, srcSize + c.tmpInSize, limit)
      && limit <= dst.Length
    requires stableSrc && c.prefs.linked ==> c.prefs.autoFlush
    requires c.prefs.linked && 0 < srcSize && !stableSrc ==> Owned(c.Buf(), mem.Length)
    modifies c`written, c`done, c`pending, c`tmpIn, c`tmpInSize, c.codec.Streams(), mem, dst
    ensures Core(c, mem[..]) && BufferOk(c.Buf(), c.prefs, mem.Length) && (old(AtRest(c)) && !stableSrc ==> AtRest(c))
    ensures c.Content() == old(c.Content()) + old(mem[..])[source..source + srcSize] && Counted(c, old(c.Content()))
    ensures Joins(c.written, dst, op, mark) && op <= limit
    ensures stableSrc && c.prefs.autoFlush ==> mem[..] == old(mem[..])
    ensures Agree(old(mem[..]), mem[..], c.tmpBuff, c.tmpBuff + c.maxBufferSize)
  {
    hide Core, BufferOk, Joins, Agree, Covered, Backend.Main, Backend.Ext, Settled, SourceOk, Owned, AtRest;
    SumsApart(c, mem[..]);
    SourceInside(c, mem.Length, source, source + srcSize);
    op := Absorb(c, mem, dst, at, source, source + srcSize, stableSrc, wide, limit, mark);
  }

  method UpdateNow(c: Cctx, mem: array<byte>, dst: array<byte>, at: int, source: int, srcSize: int, stableSrc: bool,
      wide: bool, ghost limit: int, ghost mark: Mark)
    returns (op: int)
    requires Valid(c, mem[..]) && Foreign(c, mem) && Foreign(c, dst) && mem != dst
      && SourceOk(c, mem.Length, source, source + srcSize)
    requires Joins(c.written, dst, at, mark) && Covered(c.prefs, at, srcSize + c.tmpInSize, limit)
      && limit <= dst.Length
    requires stableSrc && c.prefs.linked ==> c.prefs.autoFlush
    requires c.prefs.linked && 0 < srcSize && !stableSrc ==> Owned(c.Buf(), mem.Length)
    modifies c`written, c`done, c`pending, c`tmpIn, c`tmpInSize, c`totalInSize, c.xxh, c.xxh.mem32, c.codec.Streams(),
      mem, dst
    ensures Valid(c, mem[..]) && (old(AtRest(c)) && !stableSrc ==> AtRest(c))
    ensures c.Content() == old(c.Content()) + old(mem[..])[source..source + srcSize]
    ensures Joins(c.written, dst, op, mark) && op <= limit
    ensures stableSrc && c.prefs.autoFlush ==> mem[..] == old(mem[..])
    ensures Agree(old(mem[..]), mem[..], c.tmpBuff, c.tmpBuff + c.maxBufferSize)
  {
    hide Core, BufferOk, Joins, Agree, Covered, Backend.Main, Backend.Ext, Settled, SourceOk, Owned, Outside, Sums,
      Counted, Cctx.Content;
    ghost var content := c.Content();
    SourceInside(c, mem.Length, source, source + srcSize);
    var src := mem[source..source + srcSize];
    op := AbsorbCounted(c, mem, dst, at, source, srcSize, stableSrc, wide, limit, mark);
    SumsApart(c, mem[..]);
    Account(c, src, content, mem[..]);
  }

  lemma SourceInside(c: Cctx, memory: int, source: int, end: int)
    requires SourceOk(c, memory, source, end)
    ensures 0 < source <= end <= memory
  {
  }

  /** LZ4F_compressUpdate: it fails only for want of room, and never writes more than the bound it
      announces; the frame goes on standing for everything the context has been given. */
  method CompressUpdate(c: Cctx, mem: array<byte>, dst: array<byte>, at: int, capacity: int, source: int, srcSize: int,
      stableSrc: bool, wide: bool)
    returns (r: Result)
    requires Foreign(c, mem) && Foreign(c, dst) && mem != dst && 0 <= at && 0 <= capacity && at + capacity <= dst.Length
      && Countable(srcSize)
    requires c.cStage == 1 ==> Valid(c, mem[..]) && SourceOk(c, mem.Length, source, source + srcSize)
    requires stableSrc && c.prefs.linked ==> c.prefs.autoFlush
    requires c.cStage == 1 && c.prefs.linked && 0 < srcSize && !stableSrc ==> Owned(c.Buf(), mem.Length)
    modifies c`written, c`done, c`pending, c`tmpIn, c`tmpInSize, c`totalInSize, c.xxh, c.xxh.mem32, c.codec.Streams(),
      mem, dst
    ensures r == Err(GenericError) <==> old(c.cStage) != 1
    ensures r == Err(DstTooSmall) <==>
      old(c.cStage) == 1 && capacity < old(BoundInternal(srcSize, c.prefs, c.tmpInSize))
    ensures r.Err? ==>
      r.error != FrameSizeWrong && c.written == old(c.written) && c.Content() == old(c.Content())
      && dst[..] == old(dst[..])
    ensures c.cStage == 1 ==> Valid(c, mem[..]) && (old(AtRest(c)) && !stableSrc ==> AtRest(c))
    ensures r.Ok? ==> r.size + FrameEndSize(c.prefs) <= old(BoundInternal(srcSize, c.prefs, c.tmpInSize)) <= capacity
    ensures r.Ok? ==> c.Content() == old(c.Content()) + old(mem[..])[source..source + srcSize]
    ensures r.Ok? ==> c.written == old(c.written) + dst[at..at + r.size] && dst[..at] == old(dst[..at])
    ensures stableSrc && c.prefs.autoFlush ==> mem[..] == old(mem[..])
    ensures Agree(old(mem[..]), mem[..], c.tmpBuff, c.tmpBuff + c.maxBufferSize)
  {
    hide Core, BufferOk, Agree, Covered, Backend.Main, Backend.Ext, Settled, SourceOk, Owned, Sums, BoundInternal,
      FrameBlockSize;
    AgreeSelf(mem[..], c.tmpBuff, c.tmpBuff + c.maxBufferSize);
    if c.cStage != 1 { return Err(GenericError); }
    if capacity < BoundInternal(srcSize, c.prefs, c.tmpInSize) { return Err(DstTooSmall); }
    BufferUsed(c.Buf(), c.prefs, mem.Length);
    BoundCovers(c.prefs, at, srcSize, c.tmpInSize, capacity);
    JoinsStart(c.written, dst, at);
    ghost var limit := at + BoundInternal(srcSize, c.prefs, c.tmpInSize) - FrameEndSize(c.prefs);
    var op := UpdateNow(c, mem, dst, at, source, srcSize, stableSrc, wide, limit, Mark(at, dst[..][..at], c.written));
    r := Ok(op - at);
  }

  // ---------- LZ4F_flush ----------

  /** Only without autoFlush is anything buffered. */
  lemma BufferingMode(c: Cctx, mem: seq<byte>)
    requires Core(c, mem) && 0 < c.tmpInSize
    ensures !c.prefs.autoFlush
  {
    hide Chain, Home, Backend.Main, Backend.Ext, DictApart;
  }

  /** ... and then nothing the stream knows is in the caller's memory. */
  lemma CoreAtRest(c: Cctx, mem: seq<byte>)
    requires Core(c, mem) && !c.prefs.autoFlush
    ensures AtRest(c)
  {
    hide Chain, Holding, Settled, Backend.Main, Backend.Ext;
  }

  method FlushNow(c: Cctx, mem: array<byte>, dst: array<byte>, at: int, wide: bool, ghost mark: Mark) returns (op: int)
    requires Valid(c, mem[..]) && Foreign(c, mem) && Foreign(c, dst) && mem != dst && 0 < c.tmpInSize
    requires Joins(c.written, dst, at, mark) && at + BlockCost(c.prefs, c.tmpInSize) <= dst.Length
    modifies c`written, c`done, c`pending, c`tmpIn, c`tmpInSize, c.codec.Streams(), mem, dst
    ensures Core(c, mem[..]) && BufferOk(c.Buf(), c.prefs, mem.Length) && AtRest(c) && c.pending == []
      && c.tmpInSize == 0
    ensures c.Content() == old(c.Content()) && Counted(c, c.Content())
    ensures Joins(c.written, dst, op, mark) && op <= at + old(BlockCost(c.prefs, c.tmpInSize))
    ensures Agree(old(mem[..]), mem[..], c.tmpBuff, c.tmpBuff + c.maxBufferSize)
  {
    hide Core, BufferOk, Joins, Agree, Backend.Main, Backend.Ext, AtRest, BlockCost;
    BufferingMode(c, mem[..]);
    SumsApart(c, mem[..]);
    op := CompressBuffered(c, mem[..], dst, at, wide, mark);
    assert c.Content() == c.done;
    CoreAtRest(c, mem[..]);
    KeepWithin(c, mem);
  }

  /** LZ4F_flush: everything buffered becomes a block. */
  method Flush(c: Cctx, mem: array<byte>, dst: array<byte>, at: int, capacity: int, wide: bool) returns (r: Result)
    requires Foreign(c, mem) && Foreign(c, dst) && mem != dst && 0 <= at && 0 <= capacity && at + capacity <= dst.Length
    requires c.cStage == 1 ==> Valid(c, mem[..])
    modifies c`written, c`done, c`pending, c`tmpIn, c`tmpInSize, c.codec.Streams(), mem, dst
    ensures r == Err(GenericError) <==> old(c.cStage) != 1 && old(c.tmpInSize) != 0
    ensures r == Err(DstTooSmall) <==>
      old(c.cStage) == 1 && old(c.tmpInSize) != 0 && capacity < old(c.tmpInSize) + BH_SIZE + BF_SIZE
    ensures r.Err? ==> r.error != FrameSizeWrong && c.written == old(c.written) && dst[..] == old(dst[..])
    ensures c.cStage == 1 ==> Valid(c, mem[..]) && (old(AtRest(c)) ==> AtRest(c)) && c.Content() == old(c.Content())
    ensures c.cStage == 1 && r.Ok? ==> c.pending == [] && c.tmpInSize == 0 && r.size <= old(FlushBound(c))
    ensures r.Ok? ==>
      r.size <= capacity && c.written == old(c.written) + dst[at..at + r.size] && dst[..at] == old(dst[..at])
    ensures old(c.tmpInSize) == 0 ==> mem[..] == old(mem[..])
    ensures Agree(old(mem[..]), mem[..], c.tmpBuff, c.tmpBuff + c.maxBufferSize)
  {
    hide Core, BufferOk, Agree, Backend.Main, Backend.Ext, Settled, FrameBlockSize;
    AgreeSelf(mem[..], c.tmpBuff, c.tmpBuff + c.maxBufferSize);
    if c.tmpInSize == 0 {
      assert dst[at..at + 0] == [];
      if c.cStage == 1 { NothingPending(c, mem[..]); }
      return Ok(0);
    }
    if c.cStage != 1 { return Err(GenericError); }
    if capacity < c.tmpInSize + BH_SIZE + BF_SIZE { return Err(DstTooSmall); }
    BufferUsed(c.Buf(), c.prefs, mem.Length);
    JoinsStart(c.written, dst, at);
    var op := FlushNow(c, mem, dst, at, wide, Mark(at, dst[..][..at], c.written));
    r := Ok(op - at);
  }

  /** What a flush can write. */
  ghost function FlushBound(c: Cctx): int
    reads c
  {
    if c.tmpInSize == 0 then 0 else BlockCost(c.prefs, c.tmpInSize)
  }

  lemma NothingPending(c: Cctx, mem: seq<byte>)
    requires Core(c, mem) && c.tmpInSize == 0
    ensures c.pending == []
  {
    hide Chain, Loose, Home, DictApart, Backend.Main, Backend.Ext;
  }

  // ---------- LZ4F_compressEnd ----------

  /** End mark and content checksum join the frame. */
  method WriteEnd(c: Cctx, dst: array<byte>, op: int, ghost mark: Mark) returns (op1: int)
    requires PrefsOk(c.prefs) && Counted(c, c.done) && c.xxh.mem32 != dst
    requires Joins(c.written, dst, op, mark) && op + FrameEndSize(c.prefs) <= dst.Length
    modifies c`written, dst
    ensures op1 == op + FrameEndSize(c.prefs) && Joins(c.written, dst, op1, mark)
    ensures c.written == old(c.written) + EndBytes(HeaderOf(c.prefs), c.done)
  {
    hide Holds, Bytes32, Crc, HeaderBytes;
    ghost var was, hd := dst[..], HeaderOf(c.prefs);
    HoldsNow(dst, op);
    op1 := WriteLE32(dst, op, 0, was[..op]);
    if c.prefs.contentChecksum {
      var xxh := c.xxh.Digest();
      CrcRange(c.done);
      CrcIs(c.done, xxh);
      op1 := WriteLE32(dst, op1, xxh as int, was[..op] + Bytes32(0));
      Concat3(was[..op], Bytes32(0), Bytes32(Crc(c.done)));
    } else {
      assert was[..op] + Bytes32(0) == was[..op] + (Bytes32(0) + []);
    }
    ghost var e := EndBytes(hd, c.done);
    HoldsPrefix(dst, op1, was[..op], e);
    HoldsWhole(dst, op1, was[..op] + e);
    Joined(was, dst[..], mark.at, op, op1, mark.written, e);
    c.written := c.written + e;
  }

  lemma MagicFirst(written: seq<byte>, hd: Header, dict: seq<byte>, full: seq<byte>)
    requires SoFar(written, hd, dict, full)
    ensures !IsSkippable(Le32(written + EndBytes(hd, full), 0))
  {
    hide Blocks, EndBytes, Le32;
    assert ParseHeader(written + EndBytes(hd, full)) == Some(hd);
  }

  /** The finished frame is exactly the content. */
  lemma Finished(p: Prefs, written: seq<byte>, dict: seq<byte>, full: seq<byte>)
    requires PrefsOk(p) && SoFar(written, HeaderOf(p), dict, full) && (p.contentSize == 0 || p.contentSize == |full|)
    ensures IsFrame(written + EndBytes(HeaderOf(p), full), p, dict, full)
  {
    hide SoFar, EndBytes, HeaderBytes, ParseFrame;
    MagicFirst(written, HeaderOf(p), dict, full);
    FrameParses(written, HeaderOf(p), dict, full);
  }

  /** s is a frame with the header p asks for, standing for full, and nothing follows it. */
  ghost predicate IsFrame(s: seq<byte>, p: Prefs, dict: seq<byte>, full: seq<byte>)
    requires PrefsOk(p)
  {
    match ParseFrame(s, dict)
    case Some(Content(hd, content, bodyEnd, end)) =>
      hd == HeaderOf(p) && content == full && end == bodyEnd + CrcSize(p.contentChecksum) == |s|
    case _ => false
  }

  lemma ValidParts(c: Cctx, mem: seq<byte>)
    requires Valid(c, mem) && c.pending == []
    ensures PrefsOk(c.prefs) && SoFar(c.written, HeaderOf(c.prefs), c.dict, c.done) && Counted(c, c.done)
      && c.Content() == c.done
    ensures c.codec.ctxState == 2 || c.cdict.None? || c.done != [] ==> c.codec.Usable()
    ensures c.codec.ctxState == (if c.prefs.level < HS.CLEVEL_MIN then 1 else 2)
  {
    hide SoFar, Holding, Home, BufferOk, HeaderBytes, Backend.Ready;
    assert c.Content() == c.done;
    if c.codec.ctxState == 2 || c.cdict.None? || c.done != [] {
      c.codec.ReadyIsUsable(c.prefs.linked, c.cdict, mem, c.dict, c.done);
    }
  }

  /** The frame is closed, and the context is free for another one. */
  ghost predicate Idle(c: Cctx, full: seq<byte>)
    reads c, c.codec, c.codec.Own()
  {
    && c.cStage == 0 && c.maxBufferSize == 0 && PrefsOk(c.prefs)
    && (c.prefs.level >= HS.CLEVEL_MIN || c.cdict.None? || full != [] ==> c.codec.Usable())
  }

  method Conclude(c: Cctx, dst: array<byte>, op: int, ghost mem: seq<byte>, ghost mark: Mark)
      returns (op1: int, sizeOk: bool)
    requires Valid(c, mem) && Foreign(c, dst) && c.pending == []
    requires Joins(c.written, dst, op, mark) && op + FrameEndSize(c.prefs) <= dst.Length
    modifies c`written, c`cStage, c`maxBufferSize, dst
    ensures Idle(c, c.done) && op1 == op + FrameEndSize(c.prefs) && Joins(c.written, dst, op1, mark)
    ensures sizeOk <==> c.prefs.contentSize == 0 || c.prefs.contentSize == |c.done| % 0x1_0000_0000_0000_0000
    ensures sizeOk && (c.prefs.contentSize == 0 || |c.done| < 0x1_0000_0000_0000_0000) ==>
      IsFrame(c.written, c.prefs, c.dict, c.done)
  {
    hide SoFar, Valid, Joins, HeaderBytes, EndBytes, IsFrame, Backend.Usable;
    ghost var written := c.written;
    ValidParts(c, mem);
    EndApart(c, mem, dst);
    op1 := WriteEnd(c, dst, op, mark);
    c.cStage := 0;
    c.maxBufferSize := 0;
    sizeOk := c.prefs.contentSize == 0 || c.prefs.contentSize == c.totalInSize;
    if sizeOk && (c.prefs.contentSize == 0
      || |c.done| < 0x1_0000_0000_0000_0000) { Finished(c.prefs, written, c.dict, c.done); }
  }

  lemma EndApart(c: Cctx, mem: seq<byte>, dst: array<byte>)
    requires Valid(c, mem) && Foreign(c, dst)
    ensures c !in c.codec.Own() && dst !in c.codec.Own()
  {
    hide SoFar, Holding, Home, BufferOk, HeaderBytes;
    c.codec.ReadyKind(c.prefs.linked, c.cdict, mem, c.dict, c.done);
  }

  /** The most LZ4F_compressEnd writes. */
  ghost function EndBound(c: Cctx): int
    reads c
  {
    FlushBound(c) + FrameEndSize(c.prefs)
  }

  /** LZ4F_compressBound() for no input covers LZ4F_flush and LZ4F_compressEnd. */
  lemma EndFits(c: Cctx, mem: seq<byte>)
    requires Valid(c, mem)
    ensures FlushBound(c) + BH_SIZE <= EndBound(c) <= UpdateBound(0, c.prefs)
    ensures c.tmpInSize != 0 ==> c.tmpInSize + BH_SIZE + BF_SIZE <= EndBound(c)
  {
    hide Core, FrameBlockSize, UpdateBound;
    BufferUsed(c.Buf(), c.prefs, |mem|);
    if c.prefs.autoFlush {
      if c.tmpInSize > 0 { BufferingMode(c, mem); }
      FlushedEnd(c.prefs);
    } else {
      EmptyBoundCoversEnd(c.prefs, c.tmpInSize);
      EmptyBoundCoversEnd(c.prefs, 0);
    }
  }

  lemma FlushedEnd(p: Prefs)
    requires p.autoFlush
    ensures UpdateBound(0, p) == FrameEndSize(p)
  {
    hide FrameBlockSize, BoundInternal;
    BlockSizes(p);
    BoundIsBudget(0, p, 0);
  }

  /** The end of the frame, in the room that is left. */
  method Close(c: Cctx, ghost mem: seq<byte>, dst: array<byte>, op: int, at: int, rest: int, ghost mark: Mark)
      returns (op1: int, r: Result)
    requires Valid(c, mem) && Foreign(c, dst) && c.pending == [] && Joins(c.written, dst, op, mark) && mark.at == at
    requires 0 <= rest && op + rest <= dst.Length
    modifies c`written, c`cStage, c`maxBufferSize, dst
    ensures r != Err(GenericError) && (r == Err(DstTooSmall) <==> rest < FrameEndSize(c.prefs))
    ensures r != Err(DstTooSmall) ==>
      Idle(c, c.done) && op1 == op + FrameEndSize(c.prefs) && Joins(c.written, dst, op1, mark)
    ensures r != Err(DstTooSmall) ==>
      (r == Ok(op1 - at) <==> c.prefs.contentSize == 0 || c.prefs.contentSize == |c.done| % 0x1_0000_0000_0000_0000)
    ensures r.Ok? ==> r == Ok(op1 - at)
    ensures r.Ok? && (c.prefs.contentSize == 0 || |c.done| < 0x1_0000_0000_0000_0000) ==>
      PrefsOk(c.prefs) && IsFrame(c.written, c.prefs, c.dict, c.done)
  {
    hide Valid, Idle, IsFrame, HeaderBytes;
    ValidStage(c, mem);
    op1 := op;
    if rest < BH_SIZE { return op1, Err(DstTooSmall); }
    if c.prefs.contentChecksum && rest < BH_SIZE + BF_SIZE {
      forall k | op <= k < op + BH_SIZE { dst[k] := 0; }
      return op1, Err(DstTooSmall);
    }
    var sizeOk;
    op1, sizeOk := Conclude(c, dst, op, mem, mark);
    r := if sizeOk then Ok(op1 - at) else Err(FrameSizeWrong);
  }

  /** LZ4F_compressEnd: what has been written is a frame for everything the context has been given. */
  method CompressEnd(c: Cctx, mem: array<byte>, dst: array<byte>, at: int, capacity: int, wide: bool)
      returns (r: Result)
    requires Valid(c, mem[..]) && Foreign(c, mem) && Foreign(c, dst) && mem != dst
    requires 0 <= at && 0 <= capacity && at + capacity <= dst.Length
    modifies c`written, c`done, c`pending, c`tmpIn, c`tmpInSize, c`cStage, c`maxBufferSize, c.codec.Streams(), mem, dst
    ensures old(UpdateBound(0, c.prefs)) <= capacity || old(EndBound(c)) <= capacity ==> r != Err(DstTooSmall)
    ensures r != Err(GenericError) && (old(c.tmpInSize) == 0 ==> mem[..] == old(mem[..]))
    ensures c.Content() == old(c.Content()) && (r != Err(DstTooSmall) ==> Idle(c, c.Content()))
    ensures r.Ok? ==> r.size <= old(EndBound(c)) && r.size <= capacity
    ensures r.Ok? ==> c.written == old(c.written) + dst[at..at + r.size] && dst[..at] == old(dst[..at])
    ensures r != Err(DstTooSmall) ==>
      (r.Ok? <==> c.prefs.contentSize == 0 || c.prefs.contentSize == |c.Content()| % 0x1_0000_0000_0000_0000)
    ensures r.Ok? && (c.prefs.contentSize == 0 || |c.Content()| < 0x1_0000_0000_0000_0000) ==>
      IsFrame(c.written, c.prefs, c.dict, c.Content())
  {
    hide Valid, FrameBlockSize, UpdateBound, FlushBound, Idle, AtRest, Agree, IsFrame, HeaderBytes;
    EndFits(c, mem[..]);
    ValidStage(c, mem[..]);
    ghost var written := c.written;
    ghost var mark := Mark(at, dst[..][..at], written);
    r := Flush(c, mem, dst, at, capacity, wide);
    if r.Err? { return; }
    var op := at + r.size;
    op, r := Close(c, mem[..], dst, op, at, capacity - r.size, mark);
    assert c.done + c.pending == c.done;
  }

  lemma ValidStage(c: Cctx, mem: seq<byte>)
    requires Valid(c, mem)
    ensures c.cStage == 1 && PrefsOk(c.prefs)
  {
    hide SoFar, Holding, Home, BufferOk, HeaderBytes, Backend.Ready, Sums;
  }
}
