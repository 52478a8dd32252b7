/** LZ4F_compressUpdate's blocks straight from the caller's memory, and the history they leave behind. */
module FrameSource {
  import opened Bytes
  import opened BlockFormat
  import opened BlockWriter
  import opened FrameFormat
  import opened FrameEncoding
  import opened FrameBound
  import opened FrameCodec
  import opened FrameBackend
  import opened FrameCctx
  import opened FrameBlocks
  import opened FrameUpdate
  import opened Memory
  import FH = FastHistory

  // ---------- along the source ----------

  /** Memory from s to end may be compressed by a stream that knows d and x. */
  ghost predicate Course(d: Dict, x: Dict, cd: Option<CDict>, s: int, end: int, memory: int)
  {
    && Placeable(d, s, end - s) && 3 <= memory
    && d.End() + 3 <= memory && x.End() + 3 <= memory && Copy(cd).End() + 3 <= memory
  }

  /** ... by this context. */
  ghost predicate Running(c: Cctx, mem: seq<byte>, s: int, end: int)
    reads c, c.codec, c.codec.Repr, c.codec.fast, c.codec.hc
  {
    && Chain(c, mem) && 0 < s <= end && end + 3 <= |mem| && DictApart(c.cdict, s, end - s)
    && (c.prefs.linked ==> Course(c.codec.Main(), c.codec.Ext(), c.cdict, s, end, |mem|))
  }

  lemma CourseSteps(d: Dict, x: Dict, d1: Dict, x1: Dict, cd: Option<CDict>, s: int, n: int, end: int, memory: int)
    requires Course(d, x, cd, s, end, memory) && 0 < n && 0 < s && s + n <= end && end + 3 <= memory
    requires Continues(d, d1, s, n) && (Older(x1, x, d, s) || Tail(x1, Copy(cd)))
    ensures Course(d1, x1, cd, s + n, end, memory) && d1.End() == s + n && 0 < d1.size
  {
    hide Copy, Tail;
    if Tail(x1, Copy(cd)) {
      TailEnd(x1, Copy(cd), memory);
    } else if Tail(x1, x) {
      TailEnd(x1, x, memory);
    } else {
      TailEnd(x1, d, memory);
    }
  }

  lemma RunningFrom(c: Cctx, mem: seq<byte>, s: int, n: int, end: int)
    requires Running(c, mem, s, end) && 0 < n <= FrameBlockSize(c.prefs) && s + n <= end
    ensures From(c, mem, s, n) && Chain(c, mem)
  {
    hide Chain, Backend.Main, Backend.Ext, Copy;
  }

  lemma RunningSteps(c: Cctx, mem: seq<byte>, d: Dict, x: Dict, s: int, n: int, end: int)
    requires Chain(c, mem) && 0 < s && 0 < n && s + n <= end && end + 3 <= |mem| && DictApart(c.cdict, s, end - s)
    requires c.prefs.linked ==> Course(d, x, c.cdict, s, end, |mem|) && Continues(d, c.codec.Main(), s, n)
    requires c.prefs.linked ==> Older(c.codec.Ext(), x, d, s) || Tail(c.codec.Ext(), Copy(c.cdict))
    ensures Running(c, mem, s + n, end) && (c.prefs.linked ==> c.codec.Main().End() == s + n && 0 < c.codec.Main().size)
  {
    hide Chain, Backend.Main, Backend.Ext, Copy, Tail, Older, Continues, Course;
    if c.prefs.linked { CourseSteps(d, x, c.codec.Main(), c.codec.Ext(), c.cdict, s, n, end, |mem|); }
  }

  /** What has been compressed last is the end of what the stream knows. */
  ghost predicate Fresh(c: Cctx, s: int)
    reads c, c.codec, c.codec.fast, c.codec.hc
  {
    c.prefs.linked ==> c.codec.Main().End() == s && 0 < c.codec.Main().size
  }

  method SourceBlock(c: Cctx, mem: seq<byte>, dst: array<byte>, op: int, s: int, n: int, end: int, wide: bool,
      ghost mark: Mark)
    returns (op1: int)
    requires Running(c, mem, s, end) && Foreign(c, dst) && 0 < n <= FrameBlockSize(c.prefs) && s + n <= end
    requires Joins(c.written, dst, op, mark) && op + BlockCost(c.prefs, n) <= dst.Length
    modifies c`written, c`done, c.codec.Streams(), dst
    ensures Running(c, mem, s + n, end) && Fresh(c, s + n) && c.done == old(c.done) + mem[s..s + n]
    ensures Joins(c.written, dst, op1, mark) && op1 <= op + BlockCost(c.prefs, n)
  {
    hide Chain, From, Joins, Backend.Main, Backend.Ext, Continues, Older, Tail, Copy, BlockCost, Course;
    ghost var d, x := c.codec.Main(), c.codec.Ext();
    RunningFrom(c, mem, s, n, end);
    op1 := MakeBlock(c, mem, dst, op, s, n, wide, mark);
    RunningSteps(c, mem, d, x, s, n, end);
  }

  /** The room left covers the blocks to come. */
  predicate Covered(p: Prefs, op: int, rest: int, limit: int) { op + Budget(p, rest, p.autoFlush) <= limit }

  lemma CoveredStep(p: Prefs, op: int, rest: int, n: int, limit: int)
    requires Covered(p, op, rest, limit) && 0 < n <= rest
    requires n == FrameBlockSize(p) || (n == rest < FrameBlockSize(p) && p.autoFlush)
    ensures Covered(p, op + BlockCost(p, n), rest - n, limit) && op + BlockCost(p, n) <= limit
  {
    hide FrameBlockSize;
    BlockSizes(p);
    BudgetFlush(p, rest - n);
  }

  lemma CoveredLess(p: Prefs, op: int, op1: int, rest: int, limit: int)
    requires Covered(p, op, rest, limit) && op1 <= op
    ensures Covered(p, op1, rest, limit)
  {
  }

  /** Full blocks, and with autoFlush the rest. */
  method SourceBlocks(c: Cctx, mem: seq<byte>, dst: array<byte>, op0: int, s0: int, end: int, wide: bool,
      ghost limit: int, ghost mark: Mark)
    returns (op: int, s: int)
    requires Running(c, mem, s0, end) && Foreign(c, dst) && c.maxBlockSize == FrameBlockSize(c.prefs)
    requires Joins(c.written, dst, op0, mark) && Covered(c.prefs, op0, end - s0, limit) && limit <= dst.Length
    modifies c`written, c`done, c.codec.Streams(), dst
    ensures s0 <= s <= end && end - s < FrameBlockSize(c.prefs) && (c.prefs.autoFlush ==> s == end)
      && Running(c, mem, s, end)
    ensures c.done == old(c.done) + mem[s0..s] && Joins(c.written, dst, op, mark)
      && Covered(c.prefs, op, end - s, limit)
    ensures if s > s0 then Fresh(c, s)
            else op == op0 && c.codec.Main() == old(c.codec.Main()) && c.codec.Ext() == old(c.codec.Ext())
  {
    hide Running, Joins, Fresh, Covered, FrameBlockSize, BlockCost, Backend.Main, Backend.Ext;
    var blockSize := c.maxBlockSize;
    BlockSizes(c.prefs);
    RunningBounds(c, mem, s0, end);
    op, s := op0, s0;
    ghost var done := c.done;
    assert done + mem[s0..s0] == done;
    while end - s >= blockSize
      invariant s0 <= s <= end && Running(c, mem, s, end)
      invariant c.done == done + mem[s0..s] && Joins(c.written, dst, op, mark) && Covered(c.prefs, op, end - s, limit)
      invariant if s > s0 then Fresh(c, s)
                else op == op0 && c.codec.Main() == old(c.codec.Main()) && c.codec.Ext() == old(c.codec.Ext())
      decreases end - s
    {
      CoveredStep(c.prefs, op, end - s, blockSize, limit);
      DoneStep(done, mem, s0, s, s + blockSize);
      ghost var most := op + BlockCost(c.prefs, blockSize);
      op := SourceBlock(c, mem, dst, op, s, blockSize, end, wide, mark);
      s := s + blockSize;
      CoveredLess(c.prefs, most, op, end - s, limit);
    }
    if c.prefs.autoFlush && s < end {
      CoveredStep(c.prefs, op, end - s, end - s, limit);
      DoneStep(done, mem, s0, s, end);
      ghost var most := op + BlockCost(c.prefs, end - s);
      op := SourceBlock(c, mem, dst, op, s, end - s, end, wide, mark);
      s := end;
      CoveredLess(c.prefs, most, op, 0, limit);
    }
  }

  lemma DoneStep(done: seq<byte>, mem: seq<byte>, a: int, b: int, c: int)
    requires 0 <= a <= b <= c <= |mem|
    ensures done + mem[a..b] + mem[b..c] == done + mem[a..c]
  {
  }

  lemma RunningBounds(c: Cctx, mem: seq<byte>, s: int, end: int)
    requires Running(c, mem, s, end)
    ensures 0 < s <= end <= |mem|
  {
    hide Chain;
  }

  // ---------- keeping the history ----------

  lemma BufferApart(b: Buffer, p: Prefs, cd: Option<CDict>, memory: int)
    requires Loose(b, p, memory) && Owned(b, memory) && DictApart(cd, b.start, b.size) && p.linked
    ensures Clear(Copy(cd), b.start, KB64) && 0 <= b.start && b.start + KB64 <= b.End() && b.End() + 3 <= memory
  {
    BlockSizes(p);
  }

  lemma SavedHome(b: Buffer, p: Prefs, cd: Option<CDict>, r: int, memory: int)
    requires b.start + r + 3 <= memory && b.pos == b.start + r && 0 < r && 3 <= memory && Copy(cd).End() + 3 <= memory
    ensures Home(FH.Dict(b.start, r), NOWHERE, b, p, cd, memory) && Settled(FH.Dict(b.start, r), NOWHERE, b, cd)
  {
    hide Copy;
  }

  /** Where the buffer stands when its first r bytes are the history. */
  lemma SavedPlace(b: Buffer, p: Prefs, cd: Option<CDict>, r: int, mem: seq<byte>)
    requires Loose(b, p, |mem|) && Owned(b, |mem|) && DictApart(cd, b.start, b.size) && p.linked && b.used == 0
    requires 0 < r <= KB64 && 3 <= |mem| && Copy(cd).End() + 3 <= |mem|
    ensures var b1 := b.(pos := b.start + r);
      && Holding(b1, p, cd, [], mem) && BufferOk(b1, p, |mem|)
      && Home(FH.Dict(b.start, r), NOWHERE, b1, p, cd, |mem|) && Settled(FH.Dict(b.start, r), NOWHERE, b1, cd)
  {
    hide DictApart, Copy, Home, Settled;
    BlockSizes(p);
    BufferApart(b, p, cd, |mem|);
    SavedHome(b.(pos := b.start + r), p, cd, r, |mem|);
  }

  /** realDictSize = LZ4F_localSaveDict(cctxPtr); tmpIn = tmpBuff + realDictSize */
  method SaveHistory(c: Cctx, mem: array<byte>)
    requires Chain(c, mem[..]) && Foreign(c, mem) && c.prefs.linked && c.tmpInSize == 0 && c.pending == []
    requires Loose(c.Buf(), c.prefs, mem.Length) && Owned(c.Buf(), mem.Length)
      && DictApart(c.cdict, c.tmpBuff, c.maxBufferSize)
    requires 0 < c.codec.Main().size && 3 <= mem.Length && Copy(c.cdict).End() + 3 <= mem.Length
    modifies c`tmpIn, c.codec.fast, c.codec.hc, c.codec.hc.table, mem
    ensures Core(c, mem[..]) && AtRest(c) && BufferOk(c.Buf(), c.prefs, mem.Length)
    ensures Agree(old(mem[..]), mem[..], c.tmpBuff, c.tmpBuff + c.maxBufferSize)
  {
    hide SoFar, HeaderBytes, Backend.Ready, Holding, Home, Loose, BufferOk, Owned, DictApart, Backend.Main, Backend.Ext,
      Copy, Agree, Settled;
    ghost var b, m := c.Buf(), mem[..];
    BufferApart(b, c.prefs, c.cdict, mem.Length);
    var r := c.codec.Save(mem, c.tmpBuff, c.cdict, c.dict, c.done);
    AgreeWider(m, mem[..], c.tmpBuff, c.tmpBuff + r, c.tmpBuff, c.tmpBuff + c.maxBufferSize);
    SavedPlace(b, c.prefs, c.cdict, r, mem[..]);
    c.tmpIn := c.tmpBuff + r;
  }

  lemma StablePlace(b: Buffer, p: Prefs, cd: Option<CDict>, mem: seq<byte>)
    requires Holding(b, p, cd, [], mem) && p.autoFlush
    ensures var b1 := b.(pos := b.start); Holding(b1, p, cd, [], mem) && BufferOk(b1, p, |mem|)
  {
    hide DictApart;
    BlockSizes(p);
  }

  /** tmpIn = tmpBuff: a stable source keeps the history. */
  method StayBehind(c: Cctx, mem: seq<byte>, s: int, end: int)
    requires Running(c, mem, s, end) && c.prefs.linked && c.prefs.autoFlush
    requires c.tmpInSize == 0 && c.pending == [] && Holding(c.Buf(), c.prefs, c.cdict, c.pending, mem)
    modifies c`tmpIn
    ensures Core(c, mem) && BufferOk(c.Buf(), c.prefs, |mem|)
  {
    hide SoFar, HeaderBytes, Backend.Ready, Holding, Loose, BufferOk, DictApart, Backend.Main, Backend.Ext, Copy;
    StablePlace(c.Buf(), c.prefs, c.cdict, mem);
    c.tmpIn := c.tmpBuff;
  }

  /** Behind the last block from a source: the history moves to the buffer, unless the source is stable. */
  method Preserve(c: Cctx, mem: array<byte>, s: int, end: int, stableSrc: bool)
    requires Running(c, mem[..], s, end) && Fresh(c, s) && Foreign(c, mem) && c.prefs.linked
    requires c.tmpInSize == 0 && c.pending == [] && Holding(c.Buf(), c.prefs, c.cdict, c.pending, mem[..])
    requires if stableSrc then c.prefs.autoFlush else Owned(c.Buf(), mem.Length)
    modifies c`tmpIn, c.codec.fast, c.codec.hc, c.codec.hc.table, mem
    ensures Core(c, mem[..]) && (!stableSrc ==> AtRest(c)) && BufferOk(c.Buf(), c.prefs, mem.Length)
    ensures stableSrc ==> mem[..] == old(mem[..])
    ensures Agree(old(mem[..]), mem[..], c.tmpBuff, c.tmpBuff + c.maxBufferSize)
  {
    hide Chain, Holding, Home, Loose, Owned, DictApart, Backend.Main, Backend.Ext, Copy, Agree, Settled, BufferOk;
    HoldingLoose(c.Buf(), c.prefs, c.cdict, c.pending, mem[..]);
    if stableSrc {
      AgreeSelf(mem[..], c.tmpBuff, c.tmpBuff + c.maxBufferSize);
      StayBehind(c, mem[..], s, end);
    } else {
      SaveHistory(c, mem);
    }
  }

  /** Only a linked frame's buffer can be short of room for a block. */
  lemma FullIsLinked(b: Buffer, p: Prefs, cd: Option<CDict>, d: Dict, x: Dict, pending: seq<byte>, mem: seq<byte>)
    requires Holding(b, p, cd, pending, mem) && b.pos + b.blockSize > b.End() && !p.autoFlush
    requires p.linked ==> Home(d, x, b, p, cd, |mem|)
    ensures p.linked && 0 < d.size && Loose(b, p, |mem|) && Owned(b, |mem|) && DictApart(cd, b.start, b.size)
    ensures 3 <= |mem| && Copy(cd).End() + 3 <= |mem|
  {
    hide DictApart, Copy, Tail;
    BlockSizes(p);
  }

  lemma NotFull(b: Buffer, p: Prefs, cd: Option<CDict>, pending: seq<byte>, mem: seq<byte>)
    requires Holding(b, p, cd, pending, mem) && (b.pos + b.blockSize <= b.End() || p.autoFlush) && b.used == 0
    ensures BufferOk(b, p, |mem|)
  {
    BlockSizes(p);
  }

  /** Keep tmpIn within limits. */
  method KeepWithin(c: Cctx, mem: array<byte>)
    requires Core(c, mem[..]) && Foreign(c, mem)
    requires (c.tmpInSize == 0 && c.pending == []) || BufferOk(c.Buf(), c.prefs, mem.Length)
    modifies c`tmpIn, c.codec.fast, c.codec.hc, c.codec.hc.table, mem
    ensures Core(c, mem[..]) && BufferOk(c.Buf(), c.prefs, mem.Length) && (old(AtRest(c)) ==> AtRest(c))
    ensures c.prefs.autoFlush ==> mem[..] == old(mem[..])
    ensures Agree(old(mem[..]), mem[..], c.tmpBuff, c.tmpBuff + c.maxBufferSize)
  {
    hide Chain, Holding, Home, Loose, Owned, DictApart, Backend.Main, Backend.Ext, Copy, Agree, Settled;
    AgreeSelf(mem[..], c.tmpBuff, c.tmpBuff + c.maxBufferSize);
    if c.tmpIn + c.maxBlockSize > c.tmpBuff + c.maxBufferSize && !c.prefs.autoFlush {
      FullIsLinked(c.Buf(), c.prefs, c.cdict, c.codec.Main(), c.codec.Ext(), c.pending, mem[..]);
      SaveHistory(c, mem);
    } else if c.tmpInSize == 0 {
      NotFull(c.Buf(), c.prefs, c.cdict, c.pending, mem[..]);
    }
  }
}
