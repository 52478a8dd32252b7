/** LZ4F_compressBegin: context and buffer management, and the frame header. */
module FrameBegin {
  import opened Bytes
  import opened BlockFormat
  import opened BlockWriter
  import opened FrameFormat
  import opened FrameEncoding
  import opened FrameBound
  import opened FrameCodec
  import opened FrameBackend
  import opened FrameCctx
  import opened FrameBlocks
  import opened FrameUpdate
  import opened FrameCompress
  import opened FrameEncoder
  import HS = HcStream
  import FH = FastHistory
  import Xxh32

  // ---------- the header ----------

  method PutByte(dst: array<byte>, op: int, b: byte, ghost out: seq<byte>) returns (op1: int)
    requires Holds(dst, op, out) && op < dst.Length
    modifies dst
    ensures op1 == op + 1 && Holds(dst, op1, out + [b])
  {
    dst[op] := b;
    op1 := op + 1;
  }

  /** LZ4F_writeLE64 */
  method WriteLE64(dst: array<byte>, op: int, v: int, ghost out: seq<byte>) returns (op1: int)
    requires Holds(dst, op, out) && op + 8 <= dst.Length && 0 <= v < 0x1_0000_0000_0000_0000
    modifies dst
    ensures op1 == op + 8 && Holds(dst, op1, out + Bytes64(v))
  {
    hide Holds, Bytes32;
    op1 := WriteLE32(dst, op, v % 0x1_0000_0000, out);
    op1 := WriteLE32(dst, op1, v / 0x1_0000_0000, out + Bytes32(v % 0x1_0000_0000));
    Concat3(out, Bytes32(v % 0x1_0000_0000), Bytes32(v / 0x1_0000_0000));
  }

  function SizeField(p: Prefs): seq<byte>
    requires PrefsOk(p)
  {
    if p.contentSize > 0 then Bytes64(p.contentSize) else []
  }

  function DictField(p: Prefs): seq<byte>
    requires PrefsOk(p)
  {
    if p.dictID > 0 then Bytes32(p.dictID) else []
  }

  lemma DescriptorJoin(p: Prefs, out: seq<byte>)
    requires PrefsOk(p)
    ensures out + [Flg(p)] + [Bd(p)] + SizeField(p) + DictField(p) == out + Descriptor(p)
    ensures |Descriptor(p)| == 2 + |SizeField(p)| + |DictField(p)|
  {
    hide Bytes32, Bytes64, Flg, Bd;
    var a, b, c := [Flg(p), Bd(p)], SizeField(p), DictField(p);
    assert out + [Flg(p)] + [Bd(p)] == out + a;
    Concat3(out + a, b, c);
    Concat3(out, a, b + c);
    Concat3(a, b, c);
  }

  method WriteOptional(dst: array<byte>, op: int, p: Prefs, ghost out: seq<byte>) returns (op1: int)
    requires PrefsOk(p) && Holds(dst, op, out) && op + |SizeField(p)| + |DictField(p)| <= dst.Length
    modifies dst
    ensures op1 == op + |SizeField(p)| + |DictField(p)| && Holds(dst, op1, out + SizeField(p) + DictField(p))
  {
    hide Holds, Bytes32, Bytes64;
    op1 := op;
    if p.contentSize > 0 { op1 := WriteLE64(dst, op1, p.contentSize, out); } else { assert out + [] == out; }
    ghost var out1 := out + SizeField(p);
    if p.dictID > 0 { op1 := WriteLE32(dst, op1, p.dictID, out1); } else { assert out1 + [] == out1; }
  }

  /** FLG, BD and the optional fields. */
  method WriteDescriptor(dst: array<byte>, op: int, p: Prefs, ghost out: seq<byte>) returns (op1: int)
    requires PrefsOk(p) && Holds(dst, op, out) && op + |Descriptor(p)| <= dst.Length
    modifies dst
    ensures op1 == op + |Descriptor(p)| && Holds(dst, op1, out + Descriptor(p))
  {
    hide Holds, Descriptor, SizeField, DictField, Flg, Bd;
    DescriptorJoin(p, out);
    op1 := PutByte(dst, op, Flg(p), out);
    op1 := PutByte(dst, op1, Bd(p), out + [Flg(p)]);
    op1 := WriteOptional(dst, op1, p, out + [Flg(p)] + [Bd(p)]);
  }

  method WriteFields(dst: array<byte>, op: int, p: Prefs, ghost out: seq<byte>) returns (op1: int, d: seq<byte>)
    requires PrefsOk(p) && Holds(dst, op, out) && op + BH_SIZE + |Descriptor(p)| <= dst.Length
    modifies dst
    ensures d == Descriptor(p) && op1 == op + BH_SIZE + |d| && Holds(dst, op1, out + Bytes32(MAGICNUMBER) + d)
  {
    hide Holds, Descriptor, Bytes32;
    var headerStart := WriteLE32(dst, op, MAGICNUMBER, out);
    ghost var o := out + Bytes32(MAGICNUMBER);
    HoldsSize(dst, headerStart, o);
    op1 := WriteDescriptor(dst, headerStart, p, o);
    HoldsWhole(dst, op1, o + Descriptor(p));
    d := dst[headerStart..op1];
    assert d == dst[..][..op1][headerStart..];
  }

  lemma HeaderJoin(p: Prefs, out: seq<byte>)
    requires PrefsOk(p)
    ensures out + Bytes32(MAGICNUMBER) + Descriptor(p) + [ChecksumByte(Descriptor(p))] == out + HeaderBytes(p)
  {
    hide Bytes32, Descriptor, ChecksumByte;
  }

  /** Magic number, descriptor and header checksum. */
  method WriteHeader(dst: array<byte>, op: int, p: Prefs, ghost out: seq<byte>) returns (op1: int)
    requires PrefsOk(p) && Holds(dst, op, out) && op + MAX_FH_SIZE <= dst.Length
    modifies dst
    ensures op1 == op + |HeaderBytes(p)| && Holds(dst, op1, out + HeaderBytes(p))
  {
    hide Holds, Bytes32, Descriptor, Crc, HeaderBytes;
    ghost var n := |HeaderBytes(p)|;
    var d;
    op1, d := WriteFields(dst, op, p, out);
    var crc := Xxh32.OneShot(d, 0);
    CrcIs(d, crc);
    CrcRange(d);
    HeaderJoin(p, out);
    op1 := PutByte(dst, op1, (crc as int) / 256 % 256, out + Bytes32(MAGICNUMBER) + d);
  }

  // ---------- LZ4F_compressBegin ----------

  /** Preferences as stored: the default block size is 64 KB. */
  function Chosen(p: Prefs): Prefs { p.(blockSizeID := SizeID(p)) }

  lemma ChosenSame(p: Prefs)
    requires PrefsOk(p)
    ensures PrefsOk(Chosen(p)) && HeaderBytes(Chosen(p)) == HeaderBytes(p) && HeaderOf(Chosen(p)) == HeaderOf(p)
    ensures FrameBlockSize(Chosen(p)) == FrameBlockSize(p) && Required(Chosen(p)) == Required(p)
  {
    hide Bytes32, Bytes64, ChecksumByte;
  }

  /** The buffer of the last frame if it is large enough, or a new one at `arena`. */
  function BufferFor(p: Prefs, tmpBuff: int, maxBufferSize: int, arena: int): Buffer
  {
    if maxBufferSize < Required(p) then Buffer(arena, Required(p), arena, 0, FrameBlockSize(p))
    else Buffer(tmpBuff, maxBufferSize, tmpBuff, 0, FrameBlockSize(p))
  }

  /** With data to be buffered the buffer is real memory; it is apart from the dictionary. */
  ghost predicate RoomFor(b: Buffer, p: Prefs, cd: Option<CDict>, memory: int)
  {
    && 0 <= b.start && (!p.autoFlush ==> Owned(b, memory))
    && (Owned(b, memory) ==> DictApart(cd, b.start, b.size)) && 3 <= memory && Copy(cd).End() + 3 <= memory
  }

  lemma StartHome(b: Buffer, p: Prefs, cd: Option<CDict>, memory: int)
    requires RoomFor(b, p, cd, memory) && b.pos == b.start
    ensures Home(NOWHERE, NOWHERE, b, p, cd, memory) && Settled(NOWHERE, NOWHERE, b, cd)
  {
    hide DictApart, Copy;
  }

  lemma RoomHolds(b: Buffer, p: Prefs, cd: Option<CDict>, mem: seq<byte>)
    requires RoomFor(b, p, cd, |mem|) && b.pos == b.start && b.used == 0 && b.blockSize == FrameBlockSize(p)
      && Required(p) <= b.size
    ensures Holding(b, p, cd, [], mem) && BufferOk(b, p, |mem|)
    ensures Home(NOWHERE, NOWHERE, b, p, cd, |mem|) && Settled(NOWHERE, NOWHERE, b, cd)
  {
    hide DictApart, Copy, Home, Settled, FrameBlockSize;
    BlockSizes(p);
    StartHome(b, p, cd, |mem|);
  }

  /** The objects of a context, its dictionary and the caller's output are different ones. */
  ghost predicate Distinct(c: Cctx, cd: Option<CDict>, dst: array<byte>)
  {
    && c.codec.Own() !! DictObjects(cd) && dst != c.xxh.mem32
    && {c, c.xxh, c.xxh.mem32, dst} !! c.codec.Own() + DictObjects(cd)
  }

  /** Buffer management. */
  method SetBuffer(c: Cctx, arena: int)
    requires PrefsOk(c.prefs)
    modifies c`maxBlockSize, c`maxBufferSize, c`tmpBuff, c`tmpIn, c`tmpInSize, c`pending
    ensures c.Buf() == BufferFor(c.prefs, old(c.tmpBuff), old(c.maxBufferSize), arena) && c.pending == []
  {
    hide FrameBlockSize;
    c.maxBlockSize := FrameBlockSize(c.prefs);
    var requiredBuffSize :=
      if c.prefs.autoFlush then if c.prefs.linked then KB64 else 0
      else c.maxBlockSize + (if c.prefs.linked then KB128 else 0);
    if c.maxBufferSize < requiredBuffSize {
      c.tmpBuff := arena;
      c.maxBufferSize := requiredBuffSize;
    }
    c.tmpIn := c.tmpBuff;
    c.tmpInSize := 0;
    c.pending := [];
  }

  /** Everything but the block stream. */
  method SetFields(c: Cctx, cd: Option<CDict>, prefs: Prefs, arena: int, ghost dict: seq<byte>)
    requires PrefsOk(prefs) && c.xxh.mem32.Length == Xxh32.STRIPE
    modifies c, c.xxh
    ensures c.prefs == Chosen(prefs) && c.cdict == cd && c.dict == dict && c.done == [] && c.pending == []
    ensures c.Buf() == BufferFor(Chosen(prefs), old(c.tmpBuff), old(c.maxBufferSize), arena)
    ensures c.xxh.Valid() && c.xxh.seed == 0 && c.xxh.content == []
    ensures c.written == old(c.written) && c.totalInSize == old(c.totalInSize)
  {
    hide BufferFor, Xxh32.State.Valid;
    c.prefs := Chosen(prefs);
    c.cdict := cd;
    c.dict := dict;
    c.done := [];
    SetBuffer(c, arena);
    c.xxh.Reset(0);
  }

  /** Everything is in place but the header. */
  ghost predicate Opened(c: Cctx, cd: Option<CDict>, prefs: Prefs, b: Buffer, mem: seq<byte>, dict: seq<byte>)
    reads c, c.codec, c.codec.Repr, c.codec.fast, c.codec.hc, c.xxh, c.xxh.mem32
  {
    && c.prefs == Chosen(prefs) && c.cdict == cd && c.dict == dict && c.done == [] && c.pending == [] && c.Buf() == b
    && c.xxh.Valid() && c.xxh.seed == 0 && c.xxh.content == [] && Outside(c)
    && c.codec.ctxState == (if prefs.level < HS.CLEVEL_MIN then 1 else 2)
    && c.codec.Ready(prefs.linked, cd, mem, dict, [])
       && (prefs.linked ==> c.codec.Main() == NOWHERE && c.codec.Ext() == NOWHERE)
  }

  method Open(c: Cctx, cd: Option<CDict>, prefs: Prefs, arena: int, ghost mem: seq<byte>, ghost dict: seq<byte>)
    requires c.codec.Usable() && PrefsOk(prefs) && c.xxh.mem32.Length == Xxh32.STRIPE
    requires c.codec.Own() !! DictObjects(cd) && c.codec.DictReady(cd, mem, dict)
    requires c !in c.codec.Own() && c.xxh !in c.codec.Own() && c.xxh.mem32 !in c.codec.Own()
    requires c !in DictObjects(cd) && c.xxh !in DictObjects(cd) && c.xxh.mem32 !in DictObjects(cd)
    modifies c, c.codec.Own(), c.xxh
    ensures Opened(c, cd, prefs, old(BufferFor(Chosen(prefs), c.tmpBuff, c.maxBufferSize, arena)), mem, dict)
    ensures c.codec.Repr == c.codec.Own() + DictObjects(cd)
  {
    hide BufferFor, Backend.Usable, Backend.DictReady, Backend.Main, Backend.Ext, Backend.Ready, Xxh32.State.Valid,
      Chosen;
    SetFields(c, cd, prefs, arena, dict);
    c.codec.Start(prefs.linked, cd, prefs.level, prefs.favorDecSpeed, mem, dict);
  }

  /** The header starts the frame. */
  method StartFrame(c: Cctx, dst: array<byte>, at: int) returns (op: int)
    requires PrefsOk(c.prefs) && 0 <= at && at + MAX_FH_SIZE <= dst.Length
    modifies c`written, c`totalInSize, c`cStage, dst
    ensures c.cStage == 1 && c.written == HeaderBytes(c.prefs) && op == at + |c.written|
    ensures dst[at..op] == c.written && dst[..at] == old(dst[..at])
    ensures c.prefs.contentSize != 0 ==> c.totalInSize == 0
  {
    hide Holds, HeaderBytes;
    ghost var was := dst[..];
    HoldsNow(dst, at);
    op := WriteHeader(dst, at, c.prefs, was[..at]);
    HoldsWhole(dst, op, was[..at] + HeaderBytes(c.prefs));
    HeaderSlices(dst[..], was[..at], HeaderBytes(c.prefs));
    if c.prefs.contentSize != 0 { c.totalInSize := 0; }
    c.written := HeaderBytes(c.prefs);
    c.cStage := 1;
  }

  lemma HeaderSlices(s: seq<byte>, a: seq<byte>, b: seq<byte>)
    requires |a| + |b| <= |s| && s[..|a| + |b|] == a + b
    ensures s[..|a|] == a && s[|a|..|a| + |b|] == b
  {
    assert s[..|a|] == s[..|a| + |b|][..|a|];
    assert s[|a|..|a| + |b|] == s[..|a| + |b|][|a|..];
  }

  lemma BegunChain(c: Cctx, cd: Option<CDict>, prefs: Prefs, b: Buffer, mem: seq<byte>, dict: seq<byte>)
    requires Opened(c, cd, prefs, b, mem, dict) && PrefsOk(prefs) && c.written == HeaderBytes(c.prefs)
    ensures Chain(c, mem) && c.Buf() == b && c.pending == [] && c.cdict == cd
    ensures c.prefs.linked ==> c.codec.Main() == NOWHERE && c.codec.Ext() == NOWHERE
  {
    hide Backend.Ready, Backend.Main, Backend.Ext, HeaderBytes, SoFar, Chosen, HeaderOf, Outside, PrefsOk;
    ChosenOk(prefs);
    SoFarHeader(c.prefs, dict);
    assert c.codec.Ready(c.prefs.linked, c.cdict, mem, c.dict, c.done);
  }

  lemma ChosenOk(p: Prefs)
    requires PrefsOk(p)
    ensures PrefsOk(Chosen(p)) && Chosen(p).linked == p.linked && Chosen(p).level == p.level
      && Chosen(p).autoFlush == p.autoFlush
    ensures Chosen(p).contentSize == p.contentSize && Chosen(p).contentChecksum == p.contentChecksum
  {
  }

  lemma BegunSums(c: Cctx, cd: Option<CDict>, prefs: Prefs, b: Buffer, mem: seq<byte>, dict: seq<byte>)
    requires Opened(c, cd, prefs, b, mem, dict) && (c.prefs.contentSize != 0 ==> c.totalInSize == 0)
    ensures Sums(c)
  {
    hide Backend.Ready, Backend.Main, Backend.Ext, Xxh32.State.Valid;
    assert c.Content() == [];
  }

  /** An opened context with its header written is ready for data. */
  lemma BegunIsValid(c: Cctx, cd: Option<CDict>, prefs: Prefs, b: Buffer, mem: seq<byte>, dict: seq<byte>)
    requires Opened(c, cd, prefs, b, mem, dict) && PrefsOk(prefs) && RoomFor(b, c.prefs, cd, |mem|)
    requires b.pos == b.start && b.used == 0 && b.blockSize == FrameBlockSize(c.prefs) && Required(c.prefs) <= b.size
    requires c.cStage == 1 && c.written == HeaderBytes(c.prefs) && (c.prefs.contentSize != 0 ==> c.totalInSize == 0)
    ensures Valid(c, mem) && AtRest(c)
  {
    hide Opened, Chain, Sums, Holding, Home, BufferOk, RoomFor, Settled, Backend.Main, Backend.Ext, HeaderBytes,
      Required, FrameBlockSize;
    BegunChain(c, cd, prefs, b, mem, dict);
    BegunSums(c, cd, prefs, b, mem, dict);
    RoomHolds(b, c.prefs, cd, mem);
  }

  lemma BufferForShape(p: Prefs, tmpBuff: int, maxBufferSize: int, arena: int)
    ensures var b := BufferFor(p, tmpBuff, maxBufferSize, arena);
      b.pos == b.start && b.used == 0 && b.blockSize == FrameBlockSize(p) && Required(p) <= b.size
  {
    hide FrameBlockSize;
  }

  /** The header does not depend on the rest of the context. */
  lemma OpenedStays(c: Cctx, cd: Option<CDict>, prefs: Prefs, b: Buffer, mem: seq<byte>, dict: seq<byte>)
    requires Opened(c, cd, prefs, b, mem, dict) && PrefsOk(prefs)
    ensures PrefsOk(c.prefs) && c !in c.codec.Repr && c.prefs == Chosen(prefs) && c.Buf() == b
    ensures c.cdict == cd && c.dict == dict && c.done == [] && c.pending == []
      && (c.prefs.linked ==> c.codec.Main() == NOWHERE)
  {
    hide Chosen;
    ChosenOk(prefs);
  }

  method CloseHeader(c: Cctx, dst: array<byte>, at: int, cd: Option<CDict>, prefs: Prefs, ghost b: Buffer,
      ghost mem: seq<byte>, ghost dict: seq<byte>)
    returns (op: int)
    requires Opened(c, cd, prefs, b, mem, dict) && PrefsOk(prefs) && RoomFor(b, Chosen(prefs), cd, |mem|)
      && Foreign(c, dst)
    requires b.pos == b.start && b.used == 0 && b.blockSize == FrameBlockSize(Chosen(prefs))
      && Required(Chosen(prefs)) <= b.size
    requires 0 <= at && at + MAX_FH_SIZE <= dst.Length
    modifies c`written, c`totalInSize, c`cStage, dst
    ensures Valid(c, mem) && AtRest(c) && c.written == HeaderBytes(prefs) && op == at + |c.written|
    ensures dst[at..op] == c.written && dst[..at] == old(dst[..at])
  {
    hide Chosen, Xxh32.State.Valid, RoomFor, HeaderBytes, Valid, AtRest, FrameBlockSize, Required, Backend.Ready,
      Backend.Main, Backend.Ext;
    OpenedStays(c, cd, prefs, b, mem, dict);
    op := StartFrame(c, dst, at);
    ChosenSame(prefs);
    BegunIsValid(c, cd, prefs, b, mem, dict);
  }

  /** The buffer a frame with these preferences gets. */
  ghost function NextBuffer(c: Cctx, prefs: Prefs, arena: int): Buffer
    reads c
  {
    BufferFor(Chosen(prefs), c.tmpBuff, c.maxBufferSize, arena)
  }

  lemma DistinctParts(c: Cctx, cd: Option<CDict>, dst: array<byte>)
    requires Distinct(c, cd, dst)
    ensures c.codec.Own() !! DictObjects(cd) && dst != c.xxh.mem32
    ensures c !in c.codec.Own() && c.xxh !in c.codec.Own() && c.xxh.mem32 !in c.codec.Own() && dst !in c.codec.Own()
    ensures c !in DictObjects(cd) && c.xxh !in DictObjects(cd) && c.xxh.mem32 !in DictObjects(cd)
      && dst !in DictObjects(cd)
  {
  }

  /** LZ4F_compressBegin_usingCDict: the header is in dst, and the context waits for data.  `arena` is
      where an allocation of the private buffer would be; its content is never looked at. */
  method CompressBegin(c: Cctx, dst: array<byte>, at: int, capacity: int, cd: Option<CDict>, prefs: Prefs, arena: int,
      ghost mem: seq<byte>, ghost dict: seq<byte>)
    returns (r: Result)
    requires c.codec.Usable() && PrefsOk(prefs) && c.xxh.mem32.Length == Xxh32.STRIPE
      && c.codec.DictReady(cd, mem, dict)
    requires Distinct(c, cd, dst) && RoomFor(NextBuffer(c, prefs, arena), Chosen(prefs), cd, |mem|)
    requires 0 <= at && 0 <= capacity && at + capacity <= dst.Length
    modifies c, c.codec.Own(), c.xxh, dst
    ensures r == if capacity < MAX_FH_SIZE then Err(DstTooSmall) else Ok(|HeaderBytes(prefs)|)
    ensures r.Err? ==> c.cStage == old(c.cStage) && dst[..] == old(dst[..])
    ensures r.Ok? ==> Valid(c, mem) && AtRest(c) && c.done == [] && c.pending == [] && c.tmpInSize == 0
    ensures r.Ok? ==>
      c.prefs == Chosen(prefs) && c.cdict == cd && c.dict == dict && (c.prefs.linked ==> c.codec.Main() == NOWHERE)
    ensures r.Ok? ==> c.written == HeaderBytes(prefs) == dst[at..at + r.size] && dst[..at] == old(dst[..at])
    ensures r.Ok? ==> c.Buf() == old(NextBuffer(c, prefs, arena)) && c.codec.Repr == c.codec.Own() + DictObjects(cd)
  {
    hide BufferFor, Chosen, RoomFor, HeaderBytes, Valid, AtRest, FrameBlockSize, Required, Backend.Usable,
      Backend.DictReady, Distinct, Opened, DictObjects, Backend.Own, Backend.Main;
    if capacity < MAX_FH_SIZE { return Err(DstTooSmall); }
    ghost var b := NextBuffer(c, prefs, arena);
    BufferForShape(Chosen(prefs), c.tmpBuff, c.maxBufferSize, arena);
    DistinctParts(c, cd, dst);
    Open(c, cd, prefs, arena, mem, dict);
    OpenedStays(c, cd, prefs, b, mem, dict);
    var op := CloseHeader(c, dst, at, cd, prefs, b, mem, dict);
    r := Ok(op - at);
  }
}
