/** LZ4F_cctx_t: the state of a frame compressor between calls and between the steps of a call. */
module FrameCctx {
  import opened Bytes
  import opened BlockFormat
  import opened FrameFormat
  import opened FrameEncoding
  import opened FrameBound
  import opened FrameCodec
  import opened FrameBackend
  import opened Memory
  import FH = FastHistory
  import HS = HcStream
  import Xxh32

  const KB128: nat := 0x2_0000

  datatype Error = GenericError | DstTooSmall | FrameSizeWrong

  datatype Result = Ok(size: nat) | Err(error: Error)

  // ---------- the private buffer ----------

  /** tmpBuff, maxBufferSize, tmpIn, tmpInSize and maxBlockSize. */
  datatype Buffer = Buffer(start: int, size: int, pos: int, used: int, blockSize: int)
  {
    function End(): int { start + size }
  }

  /** requiredBuffSize */
  function Required(p: Prefs): int
  {
    if p.autoFlush then if p.linked then KB64 else 0
    else FrameBlockSize(p) + (if p.linked then KB128 else 0)
  }

  /** The buffer is real memory.  (A one-shot call only pretends to have one.) */
  predicate Owned(b: Buffer, memory: int) { 0 < b.start && b.End() + 3 <= memory }

  /** Between the steps of a call: the buffer may be full, and have no room for another block. */
  ghost predicate Loose(b: Buffer, p: Prefs, memory: int)
  {
    && b.blockSize == FrameBlockSize(p) && Required(p) <= b.size && 0 <= b.start <= b.pos <= b.End()
    && 0 <= b.used <= b.blockSize && (p.autoFlush ==> b.used == 0) && (!p.linked ==> b.pos == b.start)
    && (!p.autoFlush ==> Owned(b, memory) && b.pos + b.used <= b.End())
  }

  /** Between calls: tmpInSize stays below the block size, and without autoFlush tmpIn + blockSize stays
      inside tmpBuff. */
  ghost predicate BufferOk(b: Buffer, p: Prefs, memory: int)
  {
    Loose(b, p, memory) && b.used < b.blockSize && (!p.autoFlush ==> b.pos + b.blockSize <= b.End())
  }

  /** The private copy of the dictionary is apart from n bytes at a. */
  predicate DictApart(cd: Option<CDict>, a: int, n: int)
  {
    cd.None? || a + n <= cd.value.start || cd.value.start + Max(cd.value.size, 1) <= a
  }

  // ---------- where the history is ----------

  /** In the private buffer up to tmpIn. */
  ghost predicate InBuffer(d: Dict, b: Buffer)
  {
    (d == NOWHERE && b.pos == b.start) || (b.start <= d.start && d.End() == b.pos && 0 < d.size)
  }

  /** Nothing the stream knows is in the caller's memory. */
  ghost predicate Settled(d: Dict, x: Dict, b: Buffer, cd: Option<CDict>)
  {
    InBuffer(d, b) && Tail(x, Copy(cd))
  }

  /** Three readable bytes follow everything the stream knows; only a stable source may be part of it. */
  ghost predicate Home(d: Dict, x: Dict, b: Buffer, p: Prefs, cd: Option<CDict>, memory: int)
  {
    && 3 <= memory && d.End() + 3 <= memory && x.End() + 3 <= memory && Copy(cd).End() + 3 <= memory
    && (!p.autoFlush ==> Settled(d, x, b, cd))
  }

  /** The buffered data is in its place, and the buffer is apart from the dictionary. */
  ghost predicate Holding(b: Buffer, p: Prefs, cd: Option<CDict>, pending: seq<byte>, mem: seq<byte>)
  {
    && Loose(b, p, |mem|)
    && |pending| == b.used && (0 < b.used ==> mem[b.pos..b.pos + b.used] == pending)
    && (Owned(b, |mem|) ==> DictApart(cd, b.start, b.size))
  }

  class Cctx {
    const codec: Backend
    const xxh: Xxh32.State
    var prefs: Prefs
    var cStage: int
    var cdict: Option<CDict>
    var maxBlockSize: int
    var maxBufferSize: int
    var tmpBuff: int
    var tmpIn: int
    var tmpInSize: int
    var totalInSize: int
    /** The frame as written so far, the content of its blocks, what is buffered, and the dictionary. */
    ghost var written: seq<byte>
    ghost var done: seq<byte>
    ghost var pending: seq<byte>
    ghost var dict: seq<byte>

    /** LZ4F_createCompressionContext */
    constructor ()
      ensures fresh(codec) && fresh(codec.Own()) && fresh(xxh) && fresh(xxh.mem32)
      ensures cStage == 0 && codec.Usable() && xxh.Valid() && Outside(this) && tmpBuff == 0 && maxBufferSize == 0
    {
      codec := new Backend();
      xxh := new Xxh32.State(0);
      prefs := Prefs(true, false, false, 0, 0, 4, 0, false, false);
      cStage, cdict, maxBlockSize, maxBufferSize, tmpBuff, tmpIn, tmpInSize, totalInSize := 0, None, 0, 0, 0, 0, 0, 0;
      written, done, pending, dict := [], [], [], [];
    }

    ghost function Buf(): Buffer
      reads this
    {
      Buffer(tmpBuff, maxBufferSize, tmpIn, tmpInSize, maxBlockSize)
    }

    /** Everything the context has been given. */
    ghost function Content(): seq<byte>
      reads this
    {
      done + pending
    }
  }

  /** The context and its checksum are not part of the block stream. */
  ghost predicate Outside(c: Cctx)
    reads c.codec
  {
    c !in c.codec.Repr && c.xxh !in c.codec.Repr && c.xxh.mem32 !in c.codec.Repr
  }

  /** An array of the caller's. */
  ghost predicate Foreign(c: Cctx, a: array<byte>)
    reads c.codec
  {
    a !in c.codec.Repr && a != c.xxh.mem32
  }

  /** Everything written so far is a frame for what has been put into blocks, and the stream can go on. */
  ghost predicate Chain(c: Cctx, mem: seq<byte>)
    reads c, c.codec, c.codec.Repr
  {
    && PrefsOk(c.prefs) && SoFar(c.written, HeaderOf(c.prefs), c.dict, c.done) && Outside(c)
    && c.codec.ctxState == (if c.prefs.level < HS.CLEVEL_MIN then 1 else 2)
    && c.codec.Ready(c.prefs.linked, c.cdict, mem, c.dict, c.done)
  }

  /** Everything but the running totals, between the steps of a call. */
  ghost predicate Core(c: Cctx, mem: seq<byte>)
    reads c, c.codec, c.codec.Repr, c.codec.fast, c.codec.hc
  {
    && Chain(c, mem) && Holding(c.Buf(), c.prefs, c.cdict, c.pending, mem)
    && (c.prefs.linked ==> Home(c.codec.Main(), c.codec.Ext(), c.Buf(), c.prefs, c.cdict, |mem|))
  }

  /** The running totals cover everything the context has been given. */
  ghost predicate Sums(c: Cctx)
    reads c, c.xxh, c.xxh.mem32
  {
    && c.xxh.Valid()
    && (c.prefs.contentChecksum ==> c.xxh.seed == 0 && c.xxh.content == c.Content())
    && (c.prefs.contentSize != 0 ==> c.totalInSize == |c.Content()| % 0x1_0000_0000_0000_0000)
  }

  /** What holds between calls from LZ4F_compressBegin to LZ4F_compressEnd. */
  ghost predicate Valid(c: Cctx, mem: seq<byte>)
    reads c, c.codec, c.codec.Repr, c.codec.fast, c.codec.hc, c.xxh, c.xxh.mem32
  {
    c.cStage == 1 && Core(c, mem) && BufferOk(c.Buf(), c.prefs, |mem|) && Sums(c)
  }

  /** ... and nothing depends on what the caller does with its own memory. */
  ghost predicate AtRest(c: Cctx)
    reads c, c.codec, c.codec.fast, c.codec.hc
  {
    c.prefs.linked ==> Settled(c.codec.Main(), c.codec.Ext(), c.Buf(), c.cdict)
  }
}
