/** A whole frame in calls of any kind and size, with the caller's memory reused between them. */
module FrameSession {
  import opened Bytes
  import opened BlockFormat
  import opened FrameFormat
  import opened FrameEncoding
  import opened FrameBound
  import opened FrameCodec
  import opened FrameBackend
  import opened FrameCctx
  import opened FrameUpdate
  import opened FrameCompress
  import opened FrameEncoder
  import opened FrameBegin
  import opened FrameOneShot
  import opened Memory
  import HS = HcStream
  import Xxh32

  // ---------- between calls ----------

  /** n bytes of the caller's memory: apart from the private buffer and the dictionary. */
  ghost predicate Area(c: Cctx, memory: int, a: int, n: int)
    reads c
  {
    && 0 < a && 0 <= n && a + n + 3 <= memory && DictApart(c.cdict, a, n)
    && (Owned(c.Buf(), memory) ==> a + n <= c.tmpBuff || c.tmpBuff + c.maxBufferSize <= a)
  }

  lemma SegmentsElsewhere(b: Buffer, p: Prefs, cd: Option<CDict>, d: Dict, x: Dict, memory: int, a: int, n: int)
    requires Loose(b, p, memory) && Settled(d, x, b, cd) && DictApart(cd, a, n) && 0 < a && 0 <= n
    requires a + n <= b.start || b.End() <= a
    ensures Untouched(d, a, n) && Untouched(x, a, n)
  {
    CopyElsewhere(cd, x, a, n);
  }

  lemma CopyElsewhere(cd: Option<CDict>, x: Dict, a: int, n: int)
    requires DictApart(cd, a, n) && 0 <= a && 0 <= n
    ensures Untouched(Copy(cd), a, n) && (Tail(x, Copy(cd)) ==> Untouched(x, a, n))
  {
  }

  lemma HoldingElsewhere(b: Buffer, p: Prefs, cd: Option<CDict>, pending: seq<byte>, m: seq<byte>, m1: seq<byte>,
      a: int, n: int)
    requires Holding(b, p, cd, pending, m) && Agree(m, m1, a, a + n)
    requires Owned(b, |m|) ==> a + n <= b.start || b.End() <= a
    ensures Holding(b, p, cd, pending, m1)
  {
    hide Agree, DictApart;
    AgreeSize(m, m1, a, a + n);
    if 0 < b.used { AgreeSlice(m, m1, a, a + n, b.pos, b.used); }
  }

  /** A context at rest does not care about the caller's memory. */
  lemma ValidElsewhere(c: Cctx, m: seq<byte>, m1: seq<byte>, a: int, n: int)
    requires Valid(c, m) && AtRest(c) && Agree(m, m1, a, a + n) && Area(c, |m|, a, n)
      && (c.prefs.linked ==> Owned(c.Buf(), |m|))
    ensures Valid(c, m1)
  {
    hide Agree, Chain, Home, Holding, Settled, Sums, BufferOk, Copy, DictApart, Untouched, Backend.Main, Backend.Ext,
      Owned, Same;
    var b, d, x := c.Buf(), c.codec.Main(), c.codec.Ext();
    AgreeSize(m, m1, a, a + n);
    HoldingElsewhere(b, c.prefs, c.cdict, c.pending, m, m1, a, n);
    CopyElsewhere(c.cdict, x, a, n);
    SameElsewhere(m, m1, Copy(c.cdict), a, n);
    if c.prefs.linked {
      HoldingLoose(b, c.prefs, c.cdict, c.pending, m);
      SegmentsElsewhere(b, c.prefs, c.cdict, d, x, |m|, a, n);
      SameElsewhere(m, m1, d, a, n);
      SameElsewhere(m, m1, x, a, n);
    }
    ChainSame(c, m, m1);
  }

  /** What the caller keeps to: memory of its own, room in dst, and three bytes behind its data. */
  ghost predicate Session(c: Cctx, mem: array<byte>, dst: array<byte>, area: int, room: int)
    reads c, c.codec, c.codec.Repr, c.codec.fast, c.codec.hc, c.xxh, c.xxh.mem32, mem
  {
    && Valid(c, mem[..]) && AtRest(c) && Foreign(c, mem) && Foreign(c, dst) && mem != dst
    && (c.prefs.linked ==> Owned(c.Buf(), mem.Length)) && Area(c, mem.Length, area, room)
       && UpdateBound(0, c.prefs) <= dst.Length
  }

  lemma AreaSource(c: Cctx, memory: int, a: int, n: int, d: Dict, x: Dict)
    requires Area(c, memory, a, n) && (c.prefs.linked ==> d == c.codec.Main() && x == c.codec.Ext())
    requires c.prefs.linked ==>
      Owned(c.Buf(), memory) && Loose(c.Buf(), c.prefs, memory) && Settled(d, x, c.Buf(), c.cdict)
    ensures SourceOk(c, memory, a, a + n)
  {
    hide Backend.Main, Backend.Ext, DictApart, Tail, Copy;
  }

  lemma AreaLess(c: Cctx, memory: int, a: int, room: int, n: int)
    requires Area(c, memory, a, room) && 0 <= n <= room
    ensures Area(c, memory, a, n)
  {
  }

  /** The caller puts its data in place. */
  method Prepare(c: Cctx, mem: array<byte>, dst: array<byte>, area: int, room: int, data: seq<byte>)
    requires Session(c, mem, dst, area, room) && |data| <= room
    modifies mem
    ensures Session(c, mem, dst, area, room) && SourceOk(c, mem.Length, area, area + |data|)
    ensures area >= 0 && area + |data| <= mem.Length && mem[..][area..area + |data|] == data
    ensures 0 <= c.tmpInSize < FrameBlockSize(c.prefs) && (c.prefs.autoFlush ==> c.tmpInSize == 0)
  {
    hide Agree, AtRest, Chain, Holding, Home, Loose, Sums, BufferOk, Owned, DictApart, Backend.Main, Backend.Ext,
      FrameBlockSize;
    ghost var m := mem[..];
    AreaLess(c, mem.Length, area, room, |data|);
    SessionSource(c, mem, dst, area, room, |data|);
    Put(mem, area, data);
    ValidElsewhere(c, m, mem[..], area, |data|);
  }

  lemma SessionSource(c: Cctx, mem: array<byte>, dst: array<byte>, area: int, room: int, n: int)
    requires Session(c, mem, dst, area, room) && 0 <= n <= room
    ensures SourceOk(c, mem.Length, area, area + n)
    ensures 0 <= c.tmpInSize < FrameBlockSize(c.prefs) && (c.prefs.autoFlush ==> c.tmpInSize == 0)
  {
    hide Chain, Home, Settled, Sums, Loose, Owned, DictApart, Backend.Main, Backend.Ext, FrameBlockSize, BufferOk;
    BufferUsed(c.Buf(), c.prefs, mem.Length);
    HoldingLoose(c.Buf(), c.prefs, c.cdict, c.pending, mem[..]);
    if c.prefs.autoFlush { NothingBuffered(c, mem[..]); }
    AreaLess(c, mem.Length, area, room, n);
    AreaSource(c, mem.Length, area, n, c.codec.Main(), c.codec.Ext());
  }

  lemma SessionParts(c: Cctx, mem: array<byte>, dst: array<byte>, area: int, room: int)
    requires Session(c, mem, dst, area, room)
    ensures Valid(c, mem[..]) && AtRest(c) && Foreign(c, mem) && Foreign(c, dst) && mem != dst && c.cStage == 1
    ensures (c.prefs.linked ==> Owned(c.Buf(), mem.Length)) && Area(c, mem.Length, area, room)
      && UpdateBound(0, c.prefs) <= dst.Length
  {
    hide Core, Settled, Sums, BufferOk, Owned, Area, FrameBlockSize;
  }

  lemma SessionAgain(c: Cctx, mem: array<byte>, dst: array<byte>, area: int, room: int)
    requires Valid(c, mem[..]) && AtRest(c) && Foreign(c, mem) && Foreign(c, dst) && mem != dst
    requires (c.prefs.linked ==> Owned(c.Buf(), mem.Length)) && Area(c, mem.Length, area, room)
      && UpdateBound(0, c.prefs) <= dst.Length
    ensures Session(c, mem, dst, area, room)
  {
  }

  lemma WholeSlice(s: seq<byte>, n: int)
    requires 0 <= n <= |s|
    ensures s[0..0 + n] == s[..n]
  {
  }

  /** One LZ4F_compressUpdate() with the room its bound asks for. */
  method Feed(c: Cctx, mem: array<byte>, dst: array<byte>, area: int, room: int, data: seq<byte>, wide: bool)
      returns (out: seq<byte>)
    requires Session(c, mem, dst, area, room) && |data| <= room && Countable(|data|)
      && UpdateBound(|data|, c.prefs) <= dst.Length
    modifies c`written, c`done, c`pending, c`tmpIn, c`tmpInSize, c`totalInSize, c.xxh, c.xxh.mem32, c.codec.Streams(),
      mem, dst
    ensures Session(c, mem, dst, area, room) && c.Content() == old(c.Content()) + data
      && c.written == old(c.written) + out
  {
    hide Session, Valid, AtRest, UpdateBound, BoundInternal, Agree, SourceOk, FrameBlockSize, DictApart, Foreign;
    Prepare(c, mem, dst, area, room, data);
    SessionParts(c, mem, dst, area, room);
    BoundEnough(c.prefs, |data|, c.tmpInSize);
    var r := CompressUpdate(c, mem, dst, 0, dst.Length, area, |data|, false, wide);
    out := dst[..r.size];
    WholeSlice(dst[..], r.size);
    SessionAgain(c, mem, dst, area, room);
  }

  /** One LZ4F_flush(). */
  method FlushAll(c: Cctx, mem: array<byte>, dst: array<byte>, area: int, room: int, wide: bool)
      returns (out: seq<byte>)
    requires Session(c, mem, dst, area, room)
    modifies c`written, c`done, c`pending, c`tmpIn, c`tmpInSize, c.codec.Streams(), mem, dst
    ensures Session(c, mem, dst, area, room) && c.Content() == old(c.Content()) && c.written == old(c.written) + out
  {
    hide Session, Valid, AtRest, UpdateBound, Agree, FrameBlockSize, DictApart, Foreign, FlushBound;
    SessionParts(c, mem, dst, area, room);
    EndFits(c, mem[..]);
    var r := Flush(c, mem, dst, 0, dst.Length, wide);
    out := dst[..r.size];
    WholeSlice(dst[..], r.size);
    SessionAgain(c, mem, dst, area, room);
  }

  // ---------- every sequence of calls ----------

  datatype Op = Give(data: seq<byte>) | Push

  function DataOf(op: Op): seq<byte> { if op.Give? then op.data else [] }

  /** Everything the calls bring. */
  function InputOf(ops: seq<Op>): seq<byte>
  {
    if ops == [] then [] else InputOf(ops[..|ops| - 1]) + DataOf(ops[|ops| - 1])
  }

  lemma InputStep(ops: seq<Op>, i: nat)
    requires i < |ops|
    ensures InputOf(ops[..i + 1]) == InputOf(ops[..i]) + DataOf(ops[i])
  {
    assert ops[..i + 1][..i] == ops[..i];
  }

  /** Each call's data fits the caller's memory, and its bound the output. */
  ghost predicate Fits(op: Op, p: Prefs, room: int, capacity: int)
  {
    |DataOf(op)| <= room && Countable(|DataOf(op)|) && UpdateBound(|DataOf(op)|, p) <= capacity
  }

  method Apply(c: Cctx, mem: array<byte>, dst: array<byte>, area: int, room: int, op: Op, wide: bool)
      returns (out: seq<byte>)
    requires Session(c, mem, dst, area, room) && Fits(op, c.prefs, room, dst.Length)
    modifies c`written, c`done, c`pending, c`tmpIn, c`tmpInSize, c`totalInSize, c.xxh, c.xxh.mem32, c.codec.Streams(),
      mem, dst
    ensures Session(c, mem, dst, area, room) && c.Content() == old(c.Content()) + DataOf(op)
      && c.written == old(c.written) + out
  {
    hide Session, UpdateBound;
    match op
    case Give(data) => out := Feed(c, mem, dst, area, room, data, wide);
    case Push =>
      out := FlushAll(c, mem, dst, area, room, wide);
      assert c.Content() + [] == c.Content();
  }

  method ApplyAll(c: Cctx, mem: array<byte>, dst: array<byte>, area: int, room: int, ops: seq<Op>, wide: bool)
      returns (out: seq<byte>)
    requires Session(c, mem, dst, area, room) && forall op :: op in ops ==> Fits(op, c.prefs, room, dst.Length)
    modifies c`written, c`done, c`pending, c`tmpIn, c`tmpInSize, c`totalInSize, c.xxh, c.xxh.mem32, c.codec.Streams(),
      mem, dst
    ensures Session(c, mem, dst, area, room) && c.Content() == old(c.Content()) + InputOf(ops)
      && c.written == old(c.written) + out
  {
    hide Session, Fits, Cctx.Content;
    ghost var content, written := c.Content(), c.written;
    out := [];
    assert content + [] == content && written + [] == written;
    for i := 0 to |ops|
      invariant Session(c, mem, dst, area, room)
      invariant c.Content() == content + InputOf(ops[..i]) && c.written == written + out
    {
      var more := Apply(c, mem, dst, area, room, ops[i], wide);
      InputStep(ops, i);
      Concat3(content, InputOf(ops[..i]), DataOf(ops[i]));
      Concat3(written, out, more);
      out := out + more;
    }
    assert ops[..|ops|] == ops;
  }

  lemma FitsChosen(op: Op, p: Prefs, room: int, capacity: int)
    ensures Fits(op, p, room, capacity) ==> Fits(op, Chosen(p), room, capacity)
    ensures UpdateBound(0, Chosen(p)) == UpdateBound(0, p)
  {
  }

  /** The header, and the caller's memory from now on. */
  method StartSession(c: Cctx, mem: array<byte>, dst: array<byte>, area: int, room: int, cd: Option<CDict>, p: Prefs,
      arena: int, ghost dict: seq<byte>)
    returns (out: seq<byte>)
    requires PrefsOk(p) && Given(c, mem, dst, area, room, cd, p, arena, dict)
    requires p.linked ==> Owned(NextBuffer(c, p, arena), mem.Length)
    requires MAX_FH_SIZE <= dst.Length && UpdateBound(0, p) <= dst.Length
    modifies c, c.codec.Own(), c.xxh, dst
    ensures Session(c, mem, dst, area, room) && c.prefs == Chosen(p) && c.dict == dict && c.Content() == []
      && c.written == out
  {
    hide Given, Valid, AtRest, FrameBlockSize, UpdateBound, Foreign, BufferFor, Placeable, Backend.Main;
    FitsChosen(Push, p, room, dst.Length);
    ChosenOk(p);
    GivenSource(c, mem, dst, area, room, cd, p, arena, dict);
    var op := Opening(c, mem, dst, dst.Length, area, room, cd, p, arena, dict);
    out := dst[..op];
    SessionAgain(c, mem, dst, area, room);
  }

  /** The end. */
  method EndSession(c: Cctx, mem: array<byte>, dst: array<byte>, area: int, room: int, wide: bool)
      returns (r: Result, out: seq<byte>)
    requires Session(c, mem, dst, area, room)
    modifies c`written, c`done, c`pending, c`tmpIn, c`tmpInSize, c`cStage, c`maxBufferSize, c.codec.Streams(), mem, dst
    ensures r.Ok? <==> c.prefs.contentSize == 0 || c.prefs.contentSize == |old(c.Content())| % 0x1_0000_0000_0000_0000
    ensures r.Err? ==> r.error == FrameSizeWrong
    ensures Idle(c, old(c.Content())) && PrefsOk(c.prefs)
    ensures r.Ok? ==> c.written == old(c.written) + out
    ensures r.Ok? && (c.prefs.contentSize == 0 || |old(c.Content())| < 0x1_0000_0000_0000_0000) ==>
      IsFrame(c.written, c.prefs, c.dict, old(c.Content()))
  {
    hide Session, Valid, IsFrame, UpdateBound, FrameBlockSize, Foreign, Area, Owned, AtRest, Backend.Usable,
      HeaderBytes;
    SessionParts(c, mem, dst, area, room);
    r := CompressEnd(c, mem, dst, 0, dst.Length, wide);
    out := [];
    if r.Ok? {
      out := dst[..r.size];
      WholeSlice(dst[..], r.size);
    }
  }

  /** A whole frame: whatever the caller gives and flushes, in pieces of any size, with blocks linked or
      not, buffered or not, compressed at any level or stored, what has been written is one frame that
      stands for exactly the data given. */
  method CompressSession(c: Cctx, mem: array<byte>, dst: array<byte>, area: int, room: int, cd: Option<CDict>, p: Prefs,
      arena: int, ops: seq<Op>, wide: bool, ghost dict: seq<byte>) returns (r: Result, frame: seq<byte>)
    requires PrefsOk(p) && Given(c, mem, dst, area, room, cd, p, arena, dict)
    requires p.linked ==> Owned(NextBuffer(c, p, arena), mem.Length)
    requires MAX_FH_SIZE <= dst.Length && UpdateBound(0, p) <= dst.Length && forall op :: op in ops ==>
      Fits(op, p, room, dst.Length)
    modifies c, c.codec.Own(), c.xxh, c.xxh.mem32, mem, dst
    ensures r.Ok? <==> p.contentSize == 0 || p.contentSize == |InputOf(ops)| % 0x1_0000_0000_0000_0000
    ensures r.Err? ==> r.error == FrameSizeWrong
    ensures Idle(c, InputOf(ops))
    ensures r.Ok? && (p.contentSize == 0 || |InputOf(ops)| < 0x1_0000_0000_0000_0000) ==>
      IsFrame(frame, p, dict, InputOf(ops))
  {
    hide Given, Session, IsFrame, Fits, UpdateBound, BufferFor, Owned, PrefsOk, Idle;
    forall op | op in ops ensures Fits(op, Chosen(p), room, dst.Length) { FitsChosen(op, p, room, dst.Length); }
    ChosenOk(p);
    frame := StartSession(c, mem, dst, area, room, cd, p, arena, dict);
    var out := ApplyAll(c, mem, dst, area, room, ops, wide);
    frame := frame + out;
    assert c.Content() == InputOf(ops);
    r, out := EndSession(c, mem, dst, area, room, wide);
    frame := frame + out;
    if r.Ok? { FrameChosen(frame, p, dict, InputOf(ops)); }
  }
}
