/** LZ4F_compressUpdate, LZ4F_flush and LZ4F_compressEnd: what they write, that it fits the announced
    bounds, and that the frame always stands for what the context has been given. */
module FrameCompress {
  import opened Bytes
  import opened BlockFormat
  import opened BlockWriter
  import opened FrameFormat
  import opened FrameEncoding
  import opened FrameBound
  import opened FrameCodec
  import opened FrameBackend
  import opened FrameCctx
  import opened FrameBlocks
  import opened FrameUpdate
  import opened FrameSource
  import opened Memory
  import HS = HcStream
  import Xxh32

  /** Three readable bytes follow the source, which is apart from the buffer and the dictionary, and
      continues what a linked stream knows or is apart from it. */
  ghost predicate SourceOk(c: Cctx, memory: int, source: int, end: int)
    reads c, c.codec, c.codec.fast, c.codec.hc
  {
    && 0 < source <= end && end + 3 <= memory && DictApart(c.cdict, source, end - source)
    && (Owned(c.Buf(), memory) ==> end <= c.tmpBuff || c.tmpBuff + c.maxBufferSize <= source)
    && (c.prefs.linked ==> Placeable(c.codec.Main(), source, end - source))
  }

  // ---------- completing the buffered block ----------

  lemma HomeCourse(d: Dict, x: Dict, b: Buffer, p: Prefs, cd: Option<CDict>, s: int, end: int, memory: int)
    requires Home(d, x, b, p, cd, memory) && Placeable(d, s, end - s)
    ensures Course(d, x, cd, s, end, memory)
  {
  }

  lemma BufferPlaceable(d: Dict, x: Dict, b: Buffer, p: Prefs, cd: Option<CDict>, s: int, end: int, memory: int)
    requires Home(d, x, b, p, cd, memory) && Loose(b, p, memory) && !p.autoFlush && s <= end
      && (end <= b.start || b.End() <= s)
    ensures Placeable(d, s, end - s) && Settled(d, x, b, cd)
  {
    hide Copy, Tail;
  }

  lemma ApartLess(cd: Option<CDict>, a: int, end: int, s: int)
    requires DictApart(cd, a, end - a) && a <= s <= end
    ensures DictApart(cd, s, end - s)
  {
  }

  /** The source from s on is still in order when the buffer has been used. */
  lemma StillRunning(c: Cctx, mem: seq<byte>, source: int, s: int, end: int)
    requires Core(c, mem) && 0 < source <= s <= end && end + 3 <= |mem| && DictApart(c.cdict, source, end - source)
    requires !c.prefs.autoFlush && (end <= c.tmpBuff || c.tmpBuff + c.maxBufferSize <= source)
    ensures Running(c, mem, s, end) && AtRest(c)
  {
    hide Chain, Loose, Home, Settled, DictApart, Backend.Main, Backend.Ext, Copy, Placeable;
    ApartLess(c.cdict, source, end, s);
    HoldingLoose(c.Buf(), c.prefs, c.cdict, c.pending, mem);
    if c.prefs.linked {
      BufferPlaceable(c.codec.Main(), c.codec.Ext(), c.Buf(), c.prefs, c.cdict, s, end, |mem|);
      HomeCourse(c.codec.Main(), c.codec.Ext(), c.Buf(), c.prefs, c.cdict, s, end, |mem|);
    }
  }

  lemma RunningNow(c: Cctx, mem: seq<byte>, source: int, end: int)
    requires Core(c, mem) && SourceOk(c, |mem|, source, end)
    ensures Running(c, mem, source, end)
  {
    hide Chain, Holding, Home, DictApart, Backend.Main, Backend.Ext, Placeable, Owned;
    if c.prefs.linked { HomeCourse(c.codec.Main(), c.codec.Ext(), c.Buf(), c.prefs, c.cdict, source, end, |mem|); }
  }

  /** The buffer and the rest of the source are within bounds. */
  lemma BufferedRoom(b: Buffer, p: Prefs, cd: Option<CDict>, pending: seq<byte>, mem: seq<byte>, n: int, k: int)
    requires Holding(b, p, cd, pending, mem) && BufferOk(b, p, |mem|) && 0 < b.used && 0 <= n
      && k == Min(b.blockSize - b.used, n)
    ensures 0 <= k && RoomIn(b, p, k) && !p.autoFlush && Owned(b, |mem|) && b.blockSize == FrameBlockSize(p)
      && b.used < b.blockSize && |pending| == b.used
    ensures k < b.blockSize - b.used ==> BufferOk(b.(used := b.used + k), p, |mem|)
  {
    hide DictApart;
  }

  /** Some data is buffered: the source completes the block, or all of it joins the buffer. */
  method Complete(c: Cctx, mem: array<byte>, dst: array<byte>, op: int, source: int, end: int, wide: bool,
      ghost limit: int, ghost mark: Mark)
    returns (op1: int, s: int)
    requires Core(c, mem[..]) && BufferOk(c.Buf(), c.prefs, mem.Length) && 0 < c.tmpInSize
    requires Foreign(c, mem) && Foreign(c, dst) && mem != dst && SourceOk(c, mem.Length, source, end)
    requires Joins(c.written, dst, op, mark) && Covered(c.prefs, op, end - source + c.tmpInSize, limit)
      && limit <= dst.Length
    modifies c`written, c`done, c`pending, c`tmpIn, c`tmpInSize, c.codec.Streams(), mem, dst
    ensures Core(c, mem[..]) && Running(c, mem[..], s, end) && AtRest(c) && source <= s <= end
    ensures if s < end then c.tmpInSize == 0 && c.pending == []
            else (c.tmpInSize == 0 && c.pending == []) || BufferOk(c.Buf(), c.prefs, mem.Length)
    ensures c.Content() == old(c.Content()) + old(mem[..])[source..s]
    ensures Joins(c.written, dst, op1, mark) && Covered(c.prefs, op1, end - s + c.tmpInSize, limit)
    ensures Agree(old(mem[..]), mem[..], c.tmpBuff, c.tmpBuff + c.maxBufferSize)
  {
    hide Chain, Holding, Home, BufferOk, Joins, Running, AtRest, RoomIn, Owned, Agree, Covered, Backend.Main,
      Backend.Ext, Placeable, DictApart, FrameBlockSize;
    var sizeToCopy := c.maxBlockSize - c.tmpInSize;
    ghost var m, buffered, done, pending := mem[..], c.tmpInSize, c.done, c.pending;
    var k := Min(sizeToCopy, end - source);
    BufferedRoom(c.Buf(), c.prefs, c.cdict, c.pending, m, end - source, k);
    Append(c, mem, source, k);
    AgreeSize(m, mem[..], c.tmpBuff, c.tmpBuff + c.maxBufferSize);
    s := source + k;
    Concat3(done, pending, m[source..s]);
    if sizeToCopy > end - source {
      op1 := op;
    } else {
      CoveredStep(c.prefs, op, end - source + buffered, c.maxBlockSize, limit);
      ghost var most := op + BlockCost(c.prefs, c.maxBlockSize);
      op1 := CompressBuffered(c, mem[..], dst, op, wide, mark);
      CoveredLess(c.prefs, most, op1, end - s, limit);
      assert c.Content() == c.done;
    }
    StillRunning(c, mem[..], source, s, end);
  }

  // ---------- all blocks of a call ----------

  lemma CoveredSome(p: Prefs, op: int, rest: int, used: int, limit: int)
    requires Covered(p, op, rest + used, limit) && 0 <= used && 0 <= rest && (used == 0 || rest == 0)
    ensures Covered(p, op, rest, limit) && op <= limit
  {
    BudgetFlush(p, rest + used);
  }

  lemma ContentStep(c: seq<byte>, m: seq<byte>, m1: seq<byte>, a: int, b: int, s: int, e: int)
    requires 0 <= a <= b <= s <= e <= |m| && |m1| == |m| && m1[a..e] == m[a..e]
    ensures c + m[a..b] + m1[b..s] == c + m[a..s]
  {
    SliceOfSlice(m, a, e, b - a, s - a);
    SliceOfSlice(m1, a, e, b - a, s - a);
    Concat3(c, m[a..b], m1[b..s]);
    SliceJoin(m, a, b, s);
  }

  /** The caller's memory does not change. */
  lemma SourceSame(b: Buffer, m: seq<byte>, m1: seq<byte>, source: int, end: int, s: int, e: int)
    requires Agree(m, m1, b.start, b.End()) && (end <= b.start || b.End() <= source)
    requires 0 <= source <= s <= e <= end <= |m|
    ensures |m1| == |m| && m1[s..e] == m[s..e]
  {
    AgreeSlice(m, m1, b.start, b.End(), s, e - s);
  }

  lemma BufferParts(b: Buffer, p: Prefs, cd: Option<CDict>, pending: seq<byte>, mem: seq<byte>)
    requires Holding(b, p, cd, pending, mem)
    ensures b.blockSize == FrameBlockSize(p) && 0 <= b.used == |pending|
      && (0 < b.used ==> Owned(b, |mem|) && !p.autoFlush)
    ensures 0 <= b.pos && b.start <= b.pos
  {
    hide DictApart, Owned;
  }

  /** The blocks straight from the source, if no data is buffered. */
  method TakeSource(c: Cctx, mem: seq<byte>, dst: array<byte>, op0: int, s0: int, end: int, wide: bool,
      ghost limit: int, ghost mark: Mark)
    returns (op: int, s: int, fromSrc: bool)
    requires Core(c, mem) && Foreign(c, dst) && Running(c, mem, s0, end) && c.maxBlockSize == FrameBlockSize(c.prefs)
    requires (c.tmpInSize == 0 && c.pending == []) || s0 == end
    requires Joins(c.written, dst, op0, mark) && Covered(c.prefs, op0, end - s0, limit) && limit <= dst.Length
    modifies c`written, c`done, c.codec.Streams(), dst
    ensures Running(c, mem, s, end) && s0 <= s <= end && (s < end ==> end - s < c.maxBlockSize && !c.prefs.autoFlush)
    ensures fromSrc == (s0 < s)
      && (if fromSrc then Fresh(c, s) else op == op0 && Core(c, mem) && (old(AtRest(c)) ==> AtRest(c)))
    ensures c.Content() == old(c.Content()) + mem[s0..s]
    ensures Joins(c.written, dst, op, mark) && Covered(c.prefs, op, end - s, limit)
  {
    hide Holding, Home, Joins, Settled, RoomIn, Fresh, Course, Covered, Backend.Main, Backend.Ext, Placeable, DictApart,
      FrameBlockSize, SoFar, HeaderBytes, Backend.Ready;
    ghost var done, pending := c.done, c.pending;
    op, s := SourceBlocks(c, mem, dst, op0, s0, end, wide, limit, mark);
    fromSrc := s0 < s;
    if fromSrc {
      assert pending == [];
      assert c.Content() == c.done && done + pending == done;
    } else {
      assert mem[s0..s] == [];
    }
  }

  /** The buffered data and what completes it, if there is any. */
  method TakeBuffered(c: Cctx, mem: array<byte>, dst: array<byte>, op0: int, source: int, end: int, wide: bool,
      ghost limit: int, ghost mark: Mark)
    returns (op: int, s: int)
    requires Core(c, mem[..]) && BufferOk(c.Buf(), c.prefs, mem.Length)
    requires Foreign(c, mem) && Foreign(c, dst) && mem != dst && SourceOk(c, mem.Length, source, end)
    requires Joins(c.written, dst, op0, mark) && Covered(c.prefs, op0, end - source + c.tmpInSize, limit)
      && limit <= dst.Length
    modifies c`written, c`done, c`pending, c`tmpIn, c`tmpInSize, c.codec.Streams(), mem, dst
    ensures Core(c, mem[..]) && Running(c, mem[..], s, end) && (old(AtRest(c)) ==> AtRest(c)) && 0 < source <= s <= end
    ensures (c.tmpInSize == 0 && c.pending == []) || (s == end && BufferOk(c.Buf(), c.prefs, mem.Length))
    ensures 0 <= c.tmpInSize && c.maxBlockSize == FrameBlockSize(c.prefs)
    ensures c.Content() == old(c.Content()) + old(mem[..])[source..s]
      && mem[..][source..end] == old(mem[..])[source..end]
    ensures Joins(c.written, dst, op, mark) && Covered(c.prefs, op, end - s + c.tmpInSize, limit)
    ensures c.prefs.autoFlush ==> mem[..] == old(mem[..])
    ensures Agree(old(mem[..]), mem[..], c.tmpBuff, c.tmpBuff + c.maxBufferSize)
  {
    hide Chain, Holding, Home, BufferOk, Joins, Running, RoomIn, Owned, Agree, Covered, Backend.Main, Backend.Ext,
      Placeable, DictApart, FrameBlockSize, AtRest;
    ghost var m := mem[..];
    op, s := op0, source;
    BufferParts(c.Buf(), c.prefs, c.cdict, c.pending, m);
    if c.tmpInSize > 0 {
      op, s := Complete(c, mem, dst, op, source, end, wide, limit, mark);
      SourceSame(c.Buf(), m, mem[..], source, end, source, end);
      BufferParts(c.Buf(), c.prefs, c.cdict, c.pending, mem[..]);
    } else {
      RunningNow(c, mem[..], source, end);
      AgreeSelf(m, c.tmpBuff, c.tmpBuff + c.maxBufferSize);
    }
  }

  /** From the first block of a call to its last. */
  method TakeBlocks(c: Cctx, mem: array<byte>, dst: array<byte>, op0: int, source: int, end: int, wide: bool,
      ghost limit: int, ghost mark: Mark)
    returns (op: int, s: int, fromSrc: bool)
    requires Core(c, mem[..]) && BufferOk(c.Buf(), c.prefs, mem.Length)
    requires Foreign(c, mem) && Foreign(c, dst) && mem != dst && SourceOk(c, mem.Length, source, end)
    requires Joins(c.written, dst, op0, mark) && Covered(c.prefs, op0, end - source + c.tmpInSize, limit)
      && limit <= dst.Length
    modifies c`written, c`done, c`pending, c`tmpIn, c`tmpInSize, c.codec.Streams(), mem, dst
    ensures Running(c, mem[..], s, end) && source <= s <= end
      && (s < end ==> end - s < c.maxBlockSize && !c.prefs.autoFlush)
    ensures (fromSrc || s < end ==> c.tmpInSize == 0 && c.pending == []) && (fromSrc ==> source < end)
    ensures Holding(c.Buf(), c.prefs, c.cdict, c.pending, mem[..])
    ensures if fromSrc then Fresh(c, s)
            else
              && Core(c, mem[..]) && (old(AtRest(c)) ==> AtRest(c))
              && ((c.tmpInSize == 0 && c.pending == []) || BufferOk(c.Buf(), c.prefs, mem.Length))
    ensures c.Content() == old(c.Content()) + old(mem[..])[source..s]
      && mem[..][source..end] == old(mem[..])[source..end]
    ensures Joins(c.written, dst, op, mark) && Covered(c.prefs, op, end - s + c.tmpInSize, limit)
    ensures c.prefs.autoFlush ==> mem[..] == old(mem[..])
    ensures Agree(old(mem[..]), mem[..], c.tmpBuff, c.tmpBuff + c.maxBufferSize)
  {
    hide Chain, Holding, Home, BufferOk, Joins, Running, Owned, Agree, Covered, Backend.Main, Backend.Ext, Placeable,
      FrameBlockSize, AtRest, SourceOk, Fresh;
    ghost var m, content := mem[..], c.Content();
    op, s := TakeBuffered(c, mem, dst, op0, source, end, wide, limit, mark);
    ghost var s0 := s;
    CoveredSome(c.prefs, op, end - s, c.tmpInSize, limit);
    RunningBounds(c, mem[..], s, end);
    AgreeSize(m, mem[..], c.tmpBuff, c.tmpBuff + c.maxBufferSize);
    op, s, fromSrc := TakeSource(c, mem[..], dst, op, s, end, wide, limit, mark);
    ContentStep(content, m, mem[..], source, s0, s, end);
  }

  // ---------- LZ4F_compressUpdate ----------

  lemma BlockedCore(c: Cctx, mem: seq<byte>, s: int, end: int)
    requires Running(c, mem, s, end) && !c.prefs.linked && Holding(c.Buf(), c.prefs, c.cdict, c.pending, mem)
    ensures Core(c, mem)
  {
    hide Holding, SoFar, HeaderBytes, Backend.Ready;
  }

  /** Preserve dictionary if necessary, and keep tmpIn within limits. */
  method KeepHistory(c: Cctx, mem: array<byte>, s: int, end: int, fromSrc: bool, stableSrc: bool)
    requires Running(c, mem[..], s, end) && Foreign(c, mem) && Holding(c.Buf(), c.prefs, c.cdict, c.pending, mem[..])
    requires if fromSrc then Fresh(c, s) && c.tmpInSize == 0 && c.pending == []
             else Core(c, mem[..]) && ((c.tmpInSize == 0 && c.pending == []) || BufferOk(c.Buf(), c.prefs, mem.Length))
    requires stableSrc && c.prefs.linked ==> c.prefs.autoFlush
    requires c.prefs.linked && fromSrc && !stableSrc ==> Owned(c.Buf(), mem.Length)
    modifies c`tmpIn, c.codec.fast, c.codec.hc, c.codec.hc.table, mem
    ensures Core(c, mem[..]) && BufferOk(c.Buf(), c.prefs, mem.Length)
    ensures (fromSrc && !stableSrc) || (!fromSrc && old(AtRest(c))) ==> AtRest(c)
    ensures stableSrc && c.prefs.autoFlush ==> mem[..] == old(mem[..])
    ensures Agree(old(mem[..]), mem[..], c.tmpBuff, c.tmpBuff + c.maxBufferSize)
  {
    hide Chain, Holding, Home, BufferOk, Running, Owned, Agree, Backend.Main, Backend.Ext, Fresh, Settled;
    ghost var m, lo, hi := mem[..], c.tmpBuff, c.tmpBuff + c.maxBufferSize;
    AgreeSelf(m, lo, hi);
    if c.prefs.linked && fromSrc {
      Preserve(c, mem, s, end, stableSrc);
    } else if fromSrc {
      BlockedCore(c, mem[..], s, end);
    }
    ghost var m1 := mem[..];
    KeepWithin(c, mem);
    AgreeTrans(m, m1, mem[..], lo, hi, lo, hi, lo, hi);
  }

  lemma RestRoom(b: Buffer, p: Prefs, memory: int, k: int)
    requires BufferOk(b, p, memory) && !p.autoFlush && b.used == 0 && 0 < k < b.blockSize
    ensures RoomIn(b, p, k) && BufferOk(b.(used := k), p, memory) && Owned(b, memory)
  {
  }

  /** Some input data left, necessarily less than a block. */
  method TakeRest(c: Cctx, mem: array<byte>, s: int, end: int)
    requires Core(c, mem[..]) && BufferOk(c.Buf(), c.prefs, mem.Length) && Foreign(c, mem) && 0 <= s < end <= mem.Length
    requires c.tmpInSize == 0 && !c.prefs.autoFlush && end - s < c.maxBlockSize
    modifies c`pending, c`tmpInSize, mem
    ensures Core(c, mem[..]) && BufferOk(c.Buf(), c.prefs, mem.Length) && (old(AtRest(c)) ==> AtRest(c))
    ensures c.Content() == old(c.Content()) + old(mem[..])[s..end]
    ensures Agree(old(mem[..]), mem[..], c.tmpBuff, c.tmpBuff + c.maxBufferSize)
  {
    hide Chain, Holding, Home, BufferOk, RoomIn, Owned, Agree, Backend.Main, Backend.Ext, Tail, Copy;
    RestRoom(c.Buf(), c.prefs, mem.Length, end - s);
    Concat3(c.done, c.pending, mem[..][s..end]);
    Append(c, mem, s, end - s);
  }

  /** What follows the last block. */
  method Retain(c: Cctx, mem: array<byte>, source: int, s: int, end: int, fromSrc: bool, stableSrc: bool)
    requires Running(c, mem[..], s, end) && Foreign(c, mem) && Holding(c.Buf(), c.prefs, c.cdict, c.pending, mem[..])
    requires if fromSrc then Fresh(c, s)
             else Core(c, mem[..]) && ((c.tmpInSize == 0 && c.pending == []) || BufferOk(c.Buf(), c.prefs, mem.Length))
    requires fromSrc || s < end ==> c.tmpInSize == 0 && c.pending == []
    requires stableSrc && c.prefs.linked ==> c.prefs.autoFlush
    requires c.prefs.linked && fromSrc && !stableSrc ==> Owned(c.Buf(), mem.Length)
    requires 0 <= source <= s <= end <= mem.Length && (s < end ==> end - s < c.maxBlockSize && !c.prefs.autoFlush)
    requires Owned(c.Buf(), mem.Length) ==> end <= c.tmpBuff || c.tmpBuff + c.maxBufferSize <= source
    modifies c`pending, c`tmpIn, c`tmpInSize, c.codec.fast, c.codec.hc, c.codec.hc.table, mem
    ensures Core(c, mem[..]) && BufferOk(c.Buf(), c.prefs, mem.Length)
    ensures (fromSrc && !stableSrc) || (!fromSrc && old(AtRest(c))) ==> AtRest(c)
    ensures c.Content() == old(c.Content()) + old(mem[..])[s..end]
    ensures stableSrc && c.prefs.autoFlush ==> mem[..] == old(mem[..])
    ensures Agree(old(mem[..]), mem[..], c.tmpBuff, c.tmpBuff + c.maxBufferSize)
  {
    hide Chain, Holding, Home, BufferOk, Running, Agree, Backend.Main, Backend.Ext, Fresh, AtRest;
    ghost var m, lo, hi := mem[..], c.tmpBuff, c.tmpBuff + c.maxBufferSize;
    KeepHistory(c, mem, s, end, fromSrc, stableSrc);
    ghost var m1 := mem[..];
    if s < end {
      RestRoom(c.Buf(), c.prefs, mem.Length, end - s);
      SourceSame(c.Buf(), m, m1, source, end, s, end);
      TakeRest(c, mem, s, end);
      AgreeTrans(m, m1, mem[..], lo, hi, lo, hi, lo, hi);
    } else {
      assert m[s..end] == [];
    }
  }

  /** Everything a call does with its source. */
  method Absorb(c: Cctx, mem: array<byte>, dst: array<byte>, op0: int, source: int, end: int, stableSrc: bool,
      wide: bool, ghost limit: int, ghost mark: Mark)
    returns (op: int)
    requires Core(c, mem[..]) && BufferOk(c.Buf(), c.prefs, mem.Length)
    requires Foreign(c, mem) && Foreign(c, dst) && mem != dst && SourceOk(c, mem.Length, source, end)
    requires Joins(c.written, dst, op0, mark) && Covered(c.prefs, op0, end - source + c.tmpInSize, limit)
      && limit <= dst.Length
    requires stableSrc && c.prefs.linked ==> c.prefs.autoFlush
    requires c.prefs.linked && source < end && !stableSrc ==> Owned(c.Buf(), mem.Length)
    modifies c`written, c`done, c`pending, c`tmpIn, c`tmpInSize, c.codec.Streams(), mem, dst
    ensures Core(c, mem[..]) && BufferOk(c.Buf(), c.prefs, mem.Length) && (old(AtRest(c)) && !stableSrc ==> AtRest(c))
    ensures c.Content() == old(c.Content()) + old(mem[..])[source..end]
    ensures Joins(c.written, dst, op, mark) && op <= limit
    ensures stableSrc && c.prefs.autoFlush ==> mem[..] == old(mem[..])
    ensures Agree(old(mem[..]), mem[..], c.tmpBuff, c.tmpBuff + c.maxBufferSize)
  {
    hide Chain, Holding, Home, BufferOk, Joins, Running, Agree, Covered, Backend.Main, Backend.Ext, AtRest, Fresh,
      Placeable, DictApart;
    ghost var m, content, lo, hi := mem[..], c.Content(), c.tmpBuff, c.tmpBuff + c.maxBufferSize;
    var s, fromSrc;
    op, s, fromSrc := TakeBlocks(c, mem, dst, op0, source, end, wide, limit, mark);
    ghost var m1 := mem[..];
    BufferParts(c.Buf(), c.prefs, c.cdict, c.pending, m1);
    CoveredSome(c.prefs, op, end - s, c.tmpInSize, limit);
    Retain(c, mem, source, s, end, fromSrc, stableSrc);
    AgreeTrans(m, m1, mem[..], lo, hi, lo, hi, lo, hi);
    AgreeSize(m, m1, lo, hi);
    ContentStep(content, m, m1, source, s, end, end);
  }

  /** The checksum and the streams are apart. */
  lemma SumsApart(c: Cctx, mem: seq<byte>)
    requires Core(c, mem)
    ensures {c.xxh, c.xxh.mem32} !! c.codec.Streams() && Outside(c)
  {
    hide SoFar, HeaderBytes, Holding, Home;
    c.codec.ReadyKind(c.prefs.linked, c.cdict, mem, c.dict, c.done);
  }

  /** What has been counted so far. */
  ghost predicate Counted(c: Cctx, content: seq<byte>)
    reads c, c.xxh, c.xxh.mem32
  {
    && c.xxh.Valid()
    && (c.prefs.contentChecksum ==> c.xxh.seed == 0 && c.xxh.content == content)
    && (c.prefs.contentSize != 0 ==> c.totalInSize == |content| % 0x1_0000_0000_0000_0000)
  }

  lemma TotalStep(total: int, a: seq<byte>, n: int, b: seq<byte>)
    requires total == |a| % 0x1_0000_0000_0000_0000 && |b| == |a| + n
    ensures (total + n) % 0x1_0000_0000_0000_0000 == |b| % 0x1_0000_0000_0000_0000
  {
  }

  /** The running totals take in the source. */
  method Account(c: Cctx, src: seq<byte>, ghost content: seq<byte>, ghost mem: seq<byte>)
    requires Core(c, mem) && Outside(c) && c.Content() == content + src && Counted(c, content)
    modifies c`totalInSize, c.xxh, c.xxh.mem32
    ensures Core(c, mem) && Sums(c) && c.Content() == content + src
  {
    hide Holding, Home, Backend.Ready, Backend.Main, Backend.Ext, SoFar, HeaderBytes, HeaderOf, PrefsOk,
      Xxh32.State.Valid;
    if c.prefs.contentChecksum { c.xxh.Update(src); }
    if c.prefs.contentSize != 0 { TotalStep(c.totalInSize, content, |src|, content + src); }
    c.totalInSize := (c.totalInSize + |src|) % 0x1_0000_0000_0000_0000;
  }
}
