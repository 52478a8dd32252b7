/** LZ4F_makeBlock on the compression context: one more block of the frame, compressed with the
    history its mode allows or stored raw, and the stream carrying on. */
module FrameBlocks {
  import opened Bytes
  import opened BlockFormat
  import opened BlockWriter
  import opened BlockOutput
  import opened FrameFormat
  import opened FrameEncoding
  import opened FrameBound
  import opened FrameCodec
  import opened FrameBackend
  import opened FrameCctx

  lemma PackedCarries(block: seq<byte>, hist: seq<byte>, src: seq<byte>, max: int)
    requires Packed(block, hist, src) && 0 < |src| <= max <= MAX_INPUT_SIZE
    ensures Carries(Stored(block, src), block == [], hist, src, max) && |block| < |src|
      && |Stored(block, src)| < UNCOMPRESSED_FLAG
  {
    hide EncodesAfter, BlockDecodes;
    if block != [] { EncodedCarries(block, hist, src, max); }
  }

  /** A call writes from `at` on; what was there before stays, and the frame had `written` before. */
  datatype Mark = Mark(at: int, before: seq<byte>, written: seq<byte>)

  /** Up to op, the call has written what has joined the frame. */
  ghost predicate Joins(written: seq<byte>, dst: array<byte>, op: int, mark: Mark)
    reads dst
  {
    && 0 <= mark.at <= op <= dst.Length && dst[..mark.at] == mark.before && written == mark.written + dst[mark.at..op]
  }

  lemma Joined(dst: seq<byte>, dst1: seq<byte>, at: int, op: int, op1: int, w: seq<byte>, b: seq<byte>)
    requires 0 <= at <= op <= op1 <= |dst1| && op <= |dst| && dst1[..op1] == dst[..op] + b
    ensures dst1[..at] == dst[..at] && w + dst[at..op] + b == w + dst1[at..op1]
  {
    assert dst1[..at] == dst1[..op1][..at];
    assert dst1[at..op1] == dst1[..op1][at..] == dst[at..op] + b;
  }

  /** Header, data or source, and checksum join the frame. */
  method AppendBlock(c: Cctx, dst: array<byte>, op: int, block: seq<byte>, src: seq<byte>, ghost mark: Mark)
    returns (op1: int)
    requires PrefsOk(c.prefs) && SoFar(c.written, HeaderOf(c.prefs), c.dict, c.done)
      && 0 < |src| <= FrameBlockSize(c.prefs)
    requires Packed(block, HistoryOf(HeaderOf(c.prefs), c.dict, c.done), src)
    requires Joins(c.written, dst, op, mark) && op + BlockCost(c.prefs, |src|) <= dst.Length
    modifies c`written, c`done, dst
    ensures SoFar(c.written, HeaderOf(c.prefs), c.dict, c.done) && c.done == old(c.done) + src
    ensures Joins(c.written, dst, op1, mark) && op1 <= op + BlockCost(c.prefs, |src|)
  {
    hide Packed, SoFar, Holds, Carries, BlockBytes, HeaderBytes;
    BlockSizes(c.prefs);
    ghost var hd, hist := HeaderOf(c.prefs), HistoryOf(HeaderOf(c.prefs), c.dict, c.done);
    PackedCarries(block, hist, src, BlockSize(hd.blockSizeID));
    ghost var was := dst[..];
    HoldsNow(dst, op);
    op1 := WriteBlock(dst, op, block, src, hd, c.prefs.blockChecksum, was[..op]);
    ghost var b := BlockBytes(hd, Stored(block, src), block == []);
    HoldsPrefix(dst, op1, was[..op], b);
    HoldsWhole(dst, op1, was[..op] + b);
    Joined(was, dst[..], mark.at, op, op1, mark.written, b);
    SoFarBlock(c.written, hd, c.dict, c.done, Stored(block, src), block == [], src);
    c.written := c.written + b;
    c.done := c.done + src;
  }

  lemma HoldsNow(dst: array<byte>, op: int)
    requires 0 <= op <= dst.Length
    ensures Holds(dst, op, dst[..][..op])
  {
  }

  lemma HoldsWhole(dst: array<byte>, op: int, out: seq<byte>)
    requires Holds(dst, op, out)
    ensures op == |out| <= dst.Length && dst[..][..op] == out
  {
  }

  /** Where a linked frame's block may come from. */
  ghost predicate From(c: Cctx, mem: seq<byte>, source: int, n: int)
    reads c, c.codec, c.codec.fast, c.codec.hc
  {
    && 0 < source && 0 < n <= FrameBlockSize(c.prefs) && source + n + 3 <= |mem|
    && (c.cdict.Some? ==> c.cdict.value.start != source)
    && (c.prefs.linked ==> c.codec.Accepts(c.cdict, source, n, |mem|))
  }

  /** What a block does to the segments of a linked stream. */
  twostate predicate Moved(c: Cctx, source: int, n: int)
    reads c, c.codec, c.codec.fast, c.codec.hc
  {
    c.prefs.linked ==>
      && Continues(old(c.codec.Main()), c.codec.Main(), source, n)
      && (Older(c.codec.Ext(), old(c.codec.Ext()), old(c.codec.Main()), source) || Tail(c.codec.Ext(), Copy(c.cdict)))
  }

  /** compress(...): with the whole history in a linked frame, with the dictionary alone otherwise. */
  method Compress(c: Cctx, mem: seq<byte>, source: int, n: int, room: array<byte>, wide: bool)
      returns (block: seq<byte>)
    requires Chain(c, mem) && From(c, mem, source, n) && room.Length == n - 1 && room !in c.codec.Repr
    modifies c.codec.Streams(), room
    ensures c.codec.Ready(c.prefs.linked, c.cdict, mem, c.dict, c.done + mem[source..source + n])
    ensures Packed(block, HistoryOf(HeaderOf(c.prefs), c.dict, c.done), mem[source..source + n])
    ensures Moved(c, source, n)
  {
    hide Backend.Ready, Backend.Accepts, Packed, SoFar, HeaderBytes, Continues, Older, Tail, Copy, Backend.Main,
      Backend.Ext;
    BlockSizes(c.prefs);
    block := c.codec.Compress(c.prefs.linked, c.cdict, c.prefs.level, mem, source, n, room, wide, c.dict, c.done);
  }

  /** LZ4F_makeBlock */
  method MakeBlock(c: Cctx, mem: seq<byte>, dst: array<byte>, op: int, source: int, n: int, wide: bool,
      ghost mark: Mark)
    returns (op1: int)
    requires Chain(c, mem) && From(c, mem, source, n) && Foreign(c, dst)
    requires Joins(c.written, dst, op, mark) && op + BlockCost(c.prefs, n) <= dst.Length
    modifies c`written, c`done, c.codec.Streams(), dst
    ensures Chain(c, mem) && c.done == old(c.done) + mem[source..source + n] && Moved(c, source, n)
    ensures Joins(c.written, dst, op1, mark) && op1 <= op + BlockCost(c.prefs, n)
  {
    hide Backend.Ready, Backend.Accepts, Packed, SoFar, HeaderBytes, Continues, Older, Tail, Copy, Backend.Main,
      Backend.Ext, Joins;
    BlockSizes(c.prefs);
    c.codec.ReadyKind(c.prefs.linked, c.cdict, mem, c.dict, c.done);
    var room := new byte[n - 1];
    var block := Compress(c, mem, source, n, room, wide);
    op1 := AppendBlock(c, dst, op, block, mem[source..source + n], mark);
  }
}
