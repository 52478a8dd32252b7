/** The steps of LZ4F_compressUpdate and LZ4F_flush: what is buffered, what is compressed from the
    caller's memory, and how the history stays readable when that memory changes. */
module FrameUpdate {
  import opened Bytes
  import opened BlockFormat
  import opened BlockWriter
  import opened FrameFormat
  import opened FrameEncoding
  import opened FrameBound
  import opened FrameCodec
  import opened FrameBackend
  import opened FrameCctx
  import opened FrameBlocks
  import opened Memory
  import FH = FastHistory

  // ---------- memory changes that do not matter ----------

  lemma ChainSame(c: Cctx, m: seq<byte>, m1: seq<byte>)
    requires Chain(c, m) && Same(m, m1, Copy(c.cdict))
    requires c.prefs.linked ==> Same(m, m1, c.codec.Main()) && Same(m, m1, c.codec.Ext())
    ensures Chain(c, m1)
  {
    hide SoFar, Same, Backend.Ready, Backend.Main, Backend.Ext, HeaderBytes;
    c.codec.ReadySame(c.prefs.linked, c.cdict, m, m1, c.dict, c.done);
  }

  // ---------- the buffer ----------

  /** Room for k more bytes at the end of the buffered data. */
  ghost predicate RoomIn(b: Buffer, p: Prefs, k: int)
  {
    !p.autoFlush && 0 <= k && b.used + k <= b.blockSize && b.pos + b.blockSize <= b.End()
  }

  predicate Untouched(d: Dict, a: int, n: int) { d.size <= 0 || d.End() <= a || a + n <= d.start }

  lemma SameElsewhere(m: seq<byte>, m1: seq<byte>, d: Dict, a: int, n: int)
    requires Agree(m, m1, a, a + n) && Untouched(d, a, n)
    ensures Same(m, m1, d)
  {
    hide Agree;
    AgreeSize(m, m1, a, a + n);
    if 0 <= d.start && 0 < d.size && d.End() <= |m| { AgreeSlice(m, m1, a, a + n, d.start, d.size); }
  }

  /** What a copied dictionary's segment keeps away from. */
  lemma CopyUntouched(cd: Option<CDict>, x: Dict, a: int, n: int, at: int, k: int)
    requires DictApart(cd, a, n) && 0 <= a <= at && 0 <= k && at + k <= a + n
    ensures Untouched(Copy(cd), at, k) && (Tail(x, Copy(cd)) ==> Untouched(x, at, k))
  {
  }

  lemma BufferUntouched(d: Dict, b: Buffer, at: int, k: int)
    requires InBuffer(d, b) && b.pos <= at
    ensures Untouched(d, at, k)
  {
  }

  lemma RoomApart(b: Buffer, p: Prefs, cd: Option<CDict>, d: Dict, x: Dict, pending: seq<byte>, m: seq<byte>,
      m1: seq<byte>, k: int)
    requires Holding(b, p, cd, pending, m) && RoomIn(b, p, k) && (p.linked ==> Home(d, x, b, p, cd, |m|))
    requires Agree(m, m1, b.pos + b.used, b.pos + b.used + k)
    ensures Same(m, m1, Copy(cd)) && (p.linked ==> Same(m, m1, d) && Same(m, m1, x))
  {
    hide Agree, Same, InBuffer, Tail, Copy, DictApart, Untouched;
    var at := b.pos + b.used;
    CopyUntouched(cd, x, b.start, b.size, at, k);
    SameElsewhere(m, m1, Copy(cd), at, k);
    if p.linked {
      BufferUntouched(d, b, at, k);
      SameElsewhere(m, m1, d, at, k);
      SameElsewhere(m, m1, x, at, k);
    }
  }

  lemma RoomInside(b: Buffer, p: Prefs, cd: Option<CDict>, pending: seq<byte>, m: seq<byte>, k: int)
    requires Holding(b, p, cd, pending, m) && RoomIn(b, p, k)
    ensures b.start <= b.pos + b.used && b.pos + b.used + k <= b.End() <= |m| && 0 <= b.start && 0 <= k
  {
  }

  lemma HoldingAppend(b: Buffer, p: Prefs, cd: Option<CDict>, pending: seq<byte>, m: seq<byte>, m1: seq<byte>, k: int,
      more: seq<byte>)
    requires Holding(b, p, cd, pending, m) && RoomIn(b, p, k) && |more| == k
    requires var at := b.pos + b.used; Agree(m, m1, at, at + k) && at + k <= |m1| && m1[at..at + k] == more
    ensures Holding(b.(used := b.used + k), p, cd, pending + more, m1)
  {
    hide Agree, DictApart;
    var at := b.pos + b.used;
    AgreeSize(m, m1, at, at + k);
    if b.used > 0 { AgreeSlice(m, m1, at, at + k, b.pos, b.used); }
    SliceJoin(m1, b.pos, at, at + k);
    if b.used == 0 { assert pending + more == more; }
  }

  method CopyIn(c: Cctx, mem: array<byte>, source: int, k: int)
    requires Core(c, mem[..]) && Foreign(c, mem) && RoomIn(c.Buf(), c.prefs, k) && 0 <= source
      && source + k <= mem.Length
    modifies mem
    ensures Chain(c, mem[..])
    ensures var at := c.tmpIn + c.tmpInSize;
      && Agree(old(mem[..]), mem[..], at, at + k) && at + k <= mem.Length
      && mem[..][at..at + k] == old(mem[..])[source..source + k]
    ensures Agree(old(mem[..]), mem[..], c.tmpBuff, c.tmpBuff + c.maxBufferSize)
  {
    hide Chain, Holding, Home, Agree, RoomIn, Same, Copy, Backend.Main, Backend.Ext;
    ghost var m := mem[..];
    RoomInside(c.Buf(), c.prefs, c.cdict, c.pending, m, k);
    var at := c.tmpIn + c.tmpInSize;
    MemMove(mem, at, source, k, m);
    AgreeSize(m, mem[..], at, at + k);
    AgreeWider(m, mem[..], at, at + k, c.tmpBuff, c.tmpBuff + c.maxBufferSize);
    RoomApart(c.Buf(), c.prefs, c.cdict, c.codec.Main(), c.codec.Ext(), c.pending, m, mem[..], k);
    ChainSame(c, m, mem[..]);
  }

  /** tmpInSize += k */
  method NoteAppended(c: Cctx, k: int, ghost more: seq<byte>, ghost m: seq<byte>)
    requires Chain(c, m) && Holding(c.Buf().(used := c.tmpInSize + k), c.prefs, c.cdict, c.pending + more, m)
    requires c.prefs.linked ==> Home(c.codec.Main(), c.codec.Ext(), c.Buf(), c.prefs, c.cdict, |m|)
    modifies c`tmpInSize, c`pending
    ensures Core(c, m) && c.pending == old(c.pending) + more && c.tmpInSize == old(c.tmpInSize) + k
  {
    hide SoFar, Holding, Backend.Ready, Backend.Main, Backend.Ext, HeaderBytes;
    c.pending := c.pending + more;
    c.tmpInSize := c.tmpInSize + k;
  }

  /** memcpy(tmpIn + tmpInSize, src, k) */
  method Append(c: Cctx, mem: array<byte>, source: int, k: int)
    requires Core(c, mem[..]) && Foreign(c, mem) && RoomIn(c.Buf(), c.prefs, k) && 0 <= source
      && source + k <= mem.Length
    modifies c`tmpInSize, c`pending, mem
    ensures Core(c, mem[..]) && c.pending == old(c.pending) + old(mem[..])[source..source + k]
      && c.tmpInSize == old(c.tmpInSize) + k
    ensures Agree(old(mem[..]), mem[..], c.tmpBuff, c.tmpBuff + c.maxBufferSize)
  {
    hide Chain, Holding, Home, Agree, RoomIn, Backend.Main, Backend.Ext;
    ghost var m := mem[..];
    RoomInside(c.Buf(), c.prefs, c.cdict, c.pending, m, k);
    CopyIn(c, mem, source, k);
    AgreeSize(m, mem[..], c.tmpBuff, c.tmpBuff + c.maxBufferSize);
    HoldingAppend(c.Buf(), c.prefs, c.cdict, c.pending, m, mem[..], k, m[source..source + k]);
    NoteAppended(c, k, m[source..source + k], mem[..]);
  }

  // ---------- a block from the buffer ----------

  lemma BufferedFrom(c: Cctx, mem: seq<byte>)
    requires Core(c, mem) && 0 < c.tmpInSize
    ensures From(c, mem, c.tmpIn, c.tmpInSize)
  {
    hide Chain, Backend.Main, Backend.Ext;
  }

  lemma InBufferGrows(d: Dict, d1: Dict, b: Buffer)
    requires InBuffer(d, b) && Continues(d, d1, b.pos, b.used) && 0 < b.used && 0 < b.start <= b.pos
    ensures InBuffer(d1, b.(pos := b.pos + b.used, used := 0)) && d1.End() == b.pos + b.used
  {
  }

  lemma OlderIsCopy(d: Dict, x: Dict, x1: Dict, b: Buffer, copy: Dict)
    requires InBuffer(d, b) && Tail(x, copy) && (Older(x1, x, d, b.pos) || Tail(x1, copy))
    ensures Tail(x1, copy)
  {
    if Tail(x1, x) { TailTrans(x1, x, copy); }
  }

  lemma TailEnd(x: Dict, d: Dict, memory: int)
    requires Tail(x, d) && d.End() + 3 <= memory && 3 <= memory
    ensures x.End() + 3 <= memory
  {
  }

  /** Behind a block from the buffer its end is still all that the stream knows of it. */
  lemma HomeAfterBuffered(b: Buffer, p: Prefs, cd: Option<CDict>, d: Dict, x: Dict, d1: Dict, x1: Dict, memory: int)
    requires Home(d, x, b, p, cd, memory) && Loose(b, p, memory) && 0 < b.used && p.linked
    requires Continues(d, d1, b.pos, b.used) && (Older(x1, x, d, b.pos) || Tail(x1, Copy(cd)))
    ensures Home(d1, x1, b.(pos := b.pos + b.used, used := 0), p, cd, memory)
  {
    hide Copy, InBuffer, Continues, Older, Tail;
    InBufferGrows(d, d1, b);
    OlderIsCopy(d, x, x1, b, Copy(cd));
    TailEnd(x1, Copy(cd), memory);
  }

  lemma LooseAfterBuffered(b: Buffer, p: Prefs, cd: Option<CDict>, pending: seq<byte>, mem: seq<byte>)
    requires Holding(b, p, cd, pending, mem)
    ensures Holding(b.(pos := if p.linked then b.pos + b.used else b.pos, used := 0), p, cd, [], mem)
    ensures 0 < b.used ==> mem[b.pos..b.pos + b.used] == pending && b.pos + b.used <= |mem| && 0 <= b.pos
    ensures |pending| == b.used
  {
    hide DictApart;
  }

  /** The buffered data becomes a block. */
  method CompressBuffered(c: Cctx, mem: seq<byte>, dst: array<byte>, op: int, wide: bool, ghost mark: Mark)
    returns (op1: int)
    requires Core(c, mem) && Foreign(c, dst) && 0 < c.tmpInSize
    requires Joins(c.written, dst, op, mark) && op + BlockCost(c.prefs, c.tmpInSize) <= dst.Length
    modifies c`written, c`done, c`pending, c`tmpIn, c`tmpInSize, c.codec.Streams(), dst
    ensures Core(c, mem) && c.done == old(c.Content()) && c.pending == [] && c.tmpInSize == 0
    ensures Joins(c.written, dst, op1, mark) && op1 <= op + old(BlockCost(c.prefs, c.tmpInSize))
  {
    hide Chain, Holding, Home, From, Joins, Backend.Main, Backend.Ext, Continues, Older, Tail, Copy, BlockCost;
    ghost var b, d, x, pending := c.Buf(), c.codec.Main(), c.codec.Ext(), c.pending;
    BufferedFrom(c, mem);
    LooseAfterBuffered(b, c.prefs, c.cdict, pending, mem);
    op1 := MakeBlock(c, mem, dst, op, c.tmpIn, c.tmpInSize, wide, mark);
    BufferDone(c, mem, b, d, x);
  }

  /** if linked, tmpIn += tmpInSize; tmpInSize = 0 */
  method BufferDone(c: Cctx, mem: seq<byte>, ghost b: Buffer, ghost d: Dict, ghost x: Dict)
    requires Chain(c, mem) && b == c.Buf() && 0 < b.used && Holding(b, c.prefs, c.cdict, c.pending, mem)
    requires c.prefs.linked ==> Home(d, x, b, c.prefs, c.cdict, |mem|)
    requires c.prefs.linked ==> Continues(d, c.codec.Main(), b.pos, b.used)
    requires c.prefs.linked ==> Older(c.codec.Ext(), x, d, b.pos) || Tail(c.codec.Ext(), Copy(c.cdict))
    modifies c`pending, c`tmpIn, c`tmpInSize
    ensures Core(c, mem) && c.pending == [] && c.tmpInSize == 0
  {
    hide SoFar, HeaderBytes, Backend.Ready, Holding, Home, Loose, Backend.Main, Backend.Ext, Continues, Older, Tail,
      Copy;
    LooseAfterBuffered(b, c.prefs, c.cdict, c.pending, mem);
    if c.prefs.linked {
      HoldingLoose(b, c.prefs, c.cdict, c.pending, mem);
      HomeAfterBuffered(b, c.prefs, c.cdict, d, x, c.codec.Main(), c.codec.Ext(), |mem|);
      c.tmpIn := c.tmpIn + c.tmpInSize;
    }
    c.tmpInSize := 0;
    c.pending := [];
  }

  lemma HoldingLoose(b: Buffer, p: Prefs, cd: Option<CDict>, pending: seq<byte>, mem: seq<byte>)
    requires Holding(b, p, cd, pending, mem)
    ensures Loose(b, p, |mem|) && |pending| == b.used && (Owned(b, |mem|) ==> DictApart(cd, b.start, b.size))
  {
  }
}
