/** LZ4F_compressFrame: a whole frame in one call, which never fails when the caller offers
    LZ4F_compressFrameBound() bytes. */
module FrameOneShot {
  import opened Bytes
  import opened BlockFormat
  import opened FrameFormat
  import opened FrameEncoding
  import opened FrameBound
  import opened FrameCodec
  import opened FrameBackend
  import opened FrameCctx
  import opened FrameCompress
  import opened FrameEncoder
  import opened FrameBegin
  import opened Memory
  import HS = HcStream
  import Xxh32

  const MB5: int := 0x50_0000

  /** The preferences actually used: the exact content size if one is asked for, the smallest block
      size that holds the source, no buffering, and no links between blocks if there is but one. */
  function OneShotPrefs(user: Prefs, srcSize: int): Prefs
  {
    var id := OptimalBSID(user.blockSizeID, srcSize);
    var p := user.(contentSize := if user.contentSize != 0 then srcSize else 0, blockSizeID := id, autoFlush := true);
    if srcSize <= FrameBlockSize(p) then p.(linked := false) else p
  }

  /** Neither links nor the content size matter to the bound. */
  lemma BoundIgnores(p: Prefs, q: Prefs, srcSize: int)
    requires q == p.(linked := q.linked, contentSize := q.contentSize, autoFlush := q.autoFlush)
    ensures CompressFrameBound(srcSize, q) == CompressFrameBound(srcSize, p)
  {
  }

  /** The bound the caller knows is the bound for what is done. */
  lemma OneShotBound(user: Prefs, srcSize: int)
    requires PrefsOk(user) && Countable(srcSize)
    ensures PrefsOk(OneShotPrefs(user, srcSize))
      && CompressFrameBound(srcSize, OneShotPrefs(user, srcSize)) == CompressFrameBound(srcSize, user)
  {
    hide CompressFrameBound, OptimalBSID, FrameBlockSize;
    var q := user.(blockSizeID := OptimalBSID(user.blockSizeID, srcSize));
    OptimalKeepsBound(user, srcSize);
    BoundIgnores(q, OneShotPrefs(user, srcSize), srcSize);
  }

  /** The bound is for a header, the blocks and the end. */
  lemma OneShotRoom(p: Prefs, srcSize: int)
    requires PrefsOk(p) && p.autoFlush && Countable(srcSize)
    ensures CompressFrameBound(srcSize, p) == MAX_FH_SIZE + BoundInternal(srcSize, Chosen(p), 0)
      && 0 <= BoundInternal(srcSize, Chosen(p), 0)
    ensures Chosen(p).autoFlush && Chosen(p).linked == p.linked && Chosen(p).contentSize == p.contentSize
      && PrefsOk(Chosen(p))
  {
    hide FrameBlockSize, BoundInternal, Budget;
    assert p.(autoFlush := true) == p;
    BlockSizes(Chosen(p));
    BoundIsBudget(srcSize, Chosen(p), 0);
    BudgetFlush(Chosen(p), srcSize);
    BoundChosen(p, srcSize);
  }

  lemma BoundChosen(p: Prefs, srcSize: int)
    ensures BoundInternal(srcSize, Chosen(p), 0) == BoundInternal(srcSize, p, 0)
  {
  }

  lemma FrameChosen(s: seq<byte>, p: Prefs, dict: seq<byte>, full: seq<byte>)
    requires PrefsOk(p)
    ensures PrefsOk(Chosen(p)) && (IsFrame(s, Chosen(p), dict, full) ==> IsFrame(s, p, dict, full))
  {
    hide HeaderBytes, ParseFrame;
    ChosenSame(p);
  }

  lemma NothingBuffered(c: Cctx, mem: seq<byte>)
    requires Valid(c, mem) && c.prefs.autoFlush
    ensures c.tmpInSize == 0
  {
    hide Core, FrameBlockSize;
    BufferUsed(c.Buf(), c.prefs, |mem|);
    if c.tmpInSize > 0 { BufferingMode(c, mem); }
  }

  /** What the caller has to provide for a frame of its own. */
  ghost predicate Given(c: Cctx, mem: array<byte>, dst: array<byte>, source: int, srcSize: int, cd: Option<CDict>,
      p: Prefs, arena: int, dict: seq<byte>)
    reads c, c.codec, c.codec.Own(), c.xxh, mem, DictObjects(cd)
  {
    && c.codec.Usable() && c.xxh.mem32.Length == Xxh32.STRIPE && c.codec.DictReady(cd, mem[..], dict)
    && Distinct(c, cd, dst) && mem != dst && mem != c.xxh.mem32 && mem !in c.codec.Own() + DictObjects(cd)
    && RoomFor(NextBuffer(c, p, arena), Chosen(p), cd, mem.Length)
    && 0 < source && 0 <= srcSize && source + srcSize + 3 <= mem.Length && DictApart(cd, source, srcSize)
    && var b := NextBuffer(c, p, arena); Owned(b, mem.Length) ==> source + srcSize <= b.start || b.End() <= source
  }

  lemma ForeignNow(c: Cctx, cd: Option<CDict>, a: array<byte>)
    requires c.codec.Repr == c.codec.Own() + DictObjects(cd) && a !in c.codec.Own() && a !in DictObjects(cd)
      && a != c.xxh.mem32
    ensures Foreign(c, a)
  {
  }

  lemma SourceNow(c: Cctx, b: Buffer, memory: int, source: int, srcSize: int)
    requires c.Buf() == b && 0 < source && 0 <= srcSize && source + srcSize + 3 <= memory
      && DictApart(c.cdict, source, srcSize)
    requires Owned(b, memory) ==> source + srcSize <= b.start || b.End() <= source
    requires c.prefs.linked ==> c.codec.Main() == NOWHERE
    ensures SourceOk(c, memory, source, source + srcSize)
  {
    hide Backend.Main, DictApart;
  }

  /** The header. */
  method Opening(c: Cctx, mem: array<byte>, dst: array<byte>, capacity: int, source: int, srcSize: int,
      cd: Option<CDict>, p: Prefs, arena: int, ghost dict: seq<byte>)
    returns (op: int)
    requires PrefsOk(p) && Given(c, mem, dst, source, srcSize, cd, p, arena, dict)
      && MAX_FH_SIZE <= capacity <= dst.Length
    modifies c, c.codec.Own(), c.xxh, dst
    ensures Valid(c, mem[..]) && Foreign(c, mem) && Foreign(c, dst) && SourceOk(c, mem.Length, source, source + srcSize)
    ensures AtRest(c) && c.Buf() == old(NextBuffer(c, p, arena))
    ensures c.prefs == Chosen(p) && c.dict == dict && c.done == [] && c.pending == [] && c.tmpInSize == 0
    ensures 0 <= op <= MAX_FH_SIZE && c.written == dst[0..op] && dst[..0] == []
  {
    hide Valid, Chosen, RoomFor, HeaderBytes, AtRest, Backend.Usable, Backend.DictReady, Backend.Own, DictObjects,
      BufferFor;
    var r := CompressBegin(c, dst, 0, capacity, cd, p, arena, mem[..], dict);
    op := r.size;
    SourceNow(c, c.Buf(), mem.Length, source, srcSize);
    ForeignNow(c, cd, mem);
    ForeignNow(c, cd, dst);
  }

  /** Content that starts from nothing is the source. */
  lemma FirstContent(done: seq<byte>, pending: seq<byte>, src: seq<byte>)
    requires done == [] && pending == []
    ensures done + pending + src == src
  {
  }

  lemma Contiguous(dst: seq<byte>, written: seq<byte>, a: int, b: int)
    requires 0 <= a <= b <= |dst| && written == dst[..a] + dst[a..b]
    ensures written == dst[..b]
  {
    assert dst[..a] + dst[a..b] == dst[..b];
  }

  /** The blocks. */
  method Filling(c: Cctx, mem: array<byte>, dst: array<byte>, op: int, capacity: int, source: int, srcSize: int,
      wide: bool) returns (op1: int)
    requires Valid(c, mem[..]) && Foreign(c, mem) && Foreign(c, dst) && mem != dst
      && SourceOk(c, mem.Length, source, source + srcSize)
    requires c.prefs.autoFlush && c.tmpInSize == 0 && c.done == [] && c.pending == [] && Countable(srcSize)
    requires 0 <= op <= capacity && op + BoundInternal(srcSize, c.prefs, 0) <= capacity <= dst.Length
      && c.written == dst[..op]
    modifies c`written, c`done, c`pending, c`tmpIn, c`tmpInSize, c`totalInSize, c.xxh, c.xxh.mem32, c.codec.Streams(),
      mem, dst
    ensures Valid(c, mem[..]) && mem[..] == old(mem[..]) && c.tmpInSize == 0
    ensures 0 <= op1 <= capacity && op1 + FrameEndSize(c.prefs) <= op + BoundInternal(srcSize, c.prefs, 0)
      && c.written == dst[..op1]
    ensures 0 <= source <= source + srcSize <= mem.Length && c.Content() == mem[..][source..source + srcSize]
  {
    hide Valid, AtRest, BoundInternal, Agree, Placeable, DictApart, Owned, Backend.Main;
    ValidStage(c, mem[..]);
    ghost var src := mem[..][source..source + srcSize];
    FirstContent(c.done, c.pending, src);
    var r := CompressUpdate(c, mem, dst, op, capacity - op, source, srcSize, true, wide);
    op1 := op + r.size;
    NothingBuffered(c, mem[..]);
    Contiguous(dst[..], c.written, op, op1);
  }

  /** The end. */
  method Ending(c: Cctx, mem: array<byte>, dst: array<byte>, op: int, capacity: int, wide: bool) returns (op1: int)
    requires Valid(c, mem[..]) && Foreign(c, mem) && Foreign(c, dst) && mem != dst && c.tmpInSize == 0
    requires c.prefs.contentSize == 0 || c.prefs.contentSize == |c.Content()| < 0x1_0000_0000_0000_0000
    requires 0 <= op && op + FrameEndSize(c.prefs) <= capacity <= dst.Length && c.written == dst[..op]
    modifies c`written, c`done, c`pending, c`tmpIn, c`tmpInSize, c`cStage, c`maxBufferSize, c.codec.Streams(), mem, dst
    ensures mem[..] == old(mem[..]) && 0 <= op1 <= op + FrameEndSize(c.prefs) && c.cStage == 0
    ensures c.written == dst[..op1] && PrefsOk(c.prefs) && IsFrame(dst[..op1], c.prefs, c.dict, old(c.Content()))
  {
    hide Valid, IsFrame, HeaderBytes, Backend.Usable, UpdateBound;
    ValidStage(c, mem[..]);
    SmallTotal(|c.Content()|);
    var r := CompressEnd(c, mem, dst, op, capacity - op, wide);
    op1 := op + r.size;
    Contiguous(dst[..], c.written, op, op1);
  }

  lemma SmallTotal(n: int)
    ensures 0 <= n < 0x1_0000_0000_0000_0000 ==> n % 0x1_0000_0000_0000_0000 == n
  {
  }

  /** From header to end, with the preferences actually used. */
  method WriteFrame(c: Cctx, mem: array<byte>, dst: array<byte>, capacity: int, source: int, srcSize: int,
      cd: Option<CDict>, p: Prefs, arena: int, wide: bool, ghost dict: seq<byte>)
    returns (size: int)
    requires PrefsOk(p) && p.autoFlush && (p.contentSize == 0 || p.contentSize == srcSize)
      && Given(c, mem, dst, source, srcSize, cd, p, arena, dict)
    requires Countable(srcSize) && CompressFrameBound(srcSize, p) <= capacity <= dst.Length
    modifies c, c.codec.Own(), c.xxh, c.xxh.mem32, mem, dst
    ensures 0 <= size <= capacity && size <= CompressFrameBound(srcSize, p) && mem[..] == old(mem[..])
    ensures 0 <= source <= source + srcSize <= mem.Length
      && IsFrame(dst[..size], p, dict, mem[..][source..source + srcSize])
  {
    hide Valid, IsFrame, HeaderBytes, Given, SourceOk, BoundInternal, Chosen, Foreign;
    OneShotRoom(p, srcSize);
    GivenSource(c, mem, dst, source, srcSize, cd, p, arena, dict);
    size := Opening(c, mem, dst, capacity, source, srcSize, cd, p, arena, dict);
    size := Filling(c, mem, dst, size, capacity, source, srcSize, wide);
    size := Ending(c, mem, dst, size, capacity, wide);
    FrameChosen(dst[..size], p, dict, mem[..][source..source + srcSize]);
  }

  lemma GivenSource(c: Cctx, mem: array<byte>, dst: array<byte>, source: int, srcSize: int, cd: Option<CDict>, p: Prefs,
      arena: int, dict: seq<byte>)
    requires Given(c, mem, dst, source, srcSize, cd, p, arena, dict)
    ensures 0 <= source <= source + srcSize <= mem.Length && mem != dst
    ensures mem !in c.codec.Own() && mem != c.xxh.mem32
  {
    hide RoomFor, BufferFor, Backend.Usable, Backend.DictReady;
  }

  /** The preferences are adjusted as the source does it. */
  method Adjust(user: Prefs, srcSize: int) returns (prefs: Prefs)
    requires 0 <= srcSize
    ensures prefs == OneShotPrefs(user, srcSize)
  {
    hide OptimalBSID;
    prefs := user;
    if prefs.contentSize != 0 { prefs := prefs.(contentSize := srcSize); }
    var id := ProposeBSID(prefs.blockSizeID, srcSize);
    prefs := prefs.(blockSizeID := id, autoFlush := true);
    if srcSize <= FrameBlockSize(prefs) { prefs := prefs.(linked := false); }
  }

  lemma AdjustedOk(user: Prefs, srcSize: int)
    requires PrefsOk(user) && Countable(srcSize)
    ensures var p := OneShotPrefs(user, srcSize);
      PrefsOk(p) && p.autoFlush && (p.contentSize == 0 || p.contentSize == srcSize)
  {
    hide CompressFrameBound, OptimalBSID, FrameBlockSize;
    OneShotBound(user, srcSize);
  }

  /** LZ4F_compressFrame_usingCDict: it fails if and only if the caller offers less than the bound for its
      own preferences; else dst holds one frame, for exactly the source. */
  method CompressFrameUsingCDict(c: Cctx, mem: array<byte>, dst: array<byte>, capacity: int, source: int, srcSize: int,
      cd: Option<CDict>, user: Prefs, arena: int, wide: bool, ghost dict: seq<byte>) returns (r: Result)
    requires PrefsOk(user) && Countable(srcSize) && 0 <= capacity <= dst.Length
    requires Given(c, mem, dst, source, srcSize, cd, OneShotPrefs(user, srcSize), arena, dict)
    modifies c, c.codec.Own(), c.xxh, c.xxh.mem32, mem, dst
    ensures r.Err? <==> capacity < CompressFrameBound(srcSize, user)
    ensures r.Err? ==> r.error == DstTooSmall && dst[..] == old(dst[..])
    ensures mem[..] == old(mem[..]) && 0 <= source <= source + srcSize <= mem.Length
      && PrefsOk(OneShotPrefs(user, srcSize))
    ensures r.Ok? ==> r.size <= CompressFrameBound(srcSize, user) && r.size <= capacity
    ensures r.Ok? ==> IsFrame(dst[..r.size], OneShotPrefs(user, srcSize), dict, mem[..][source..source + srcSize])
  {
    hide CompressFrameBound, OneShotPrefs, IsFrame, PrefsOk, RoomFor, BufferFor, Backend.Usable, Backend.DictReady,
      Distinct;
    GivenSource(c, mem, dst, source, srcSize, cd, OneShotPrefs(user, srcSize), arena, dict);
    AdjustedOk(user, srcSize);
    OneShotBound(user, srcSize);
    var prefs := Adjust(user, srcSize);
    assert Given(c, mem, dst, source, srcSize, cd, OneShotPrefs(user, srcSize), arena, dict);
    assert Given(c, mem, dst, source, srcSize, cd, prefs, arena, dict);
    if capacity < CompressFrameBound(srcSize, prefs) { return Err(DstTooSmall); }
    var size := WriteFrame(c, mem, dst, capacity, source, srcSize, cd, prefs, arena, wide, dict);
    r := Ok(size);
  }

  /** A new context on the stack: no dictionary, and a buffer that is only pretended. */
  lemma NewIsGiven(c: Cctx, mem: array<byte>, dst: array<byte>, source: int, srcSize: int, p: Prefs)
    requires c.codec.Usable() && c.xxh.mem32.Length == Xxh32.STRIPE && Distinct(c, None, dst)
    requires mem != dst && mem != c.xxh.mem32 && mem !in c.codec.Own() && c.tmpBuff == 0 && c.maxBufferSize == MB5
    requires 0 < source && 0 <= srcSize && source + srcSize + 3 <= mem.Length && p.autoFlush
    ensures Given(c, mem, dst, source, srcSize, None, p, 0, [])
  {
    hide Backend.Usable, FrameBlockSize;
  }

  /** LZ4F_compressFrame */
  method CompressFrame(mem: array<byte>, dst: array<byte>, capacity: int, source: int, srcSize: int, user: Prefs,
      wide: bool) returns (r: Result)
    requires PrefsOk(user) && Countable(srcSize) && 0 <= capacity <= dst.Length && mem != dst
    requires 0 < source && source + srcSize + 3 <= mem.Length
    modifies mem, dst
    ensures r.Err? <==> capacity < CompressFrameBound(srcSize, user)
    ensures mem[..] == old(mem[..]) && PrefsOk(OneShotPrefs(user, srcSize))
    ensures r.Ok? ==> r.size <= CompressFrameBound(srcSize, user) && r.size <= capacity
    ensures r.Ok? ==> IsFrame(dst[..r.size], OneShotPrefs(user, srcSize), [], mem[..][source..source + srcSize])
  {
    hide Given, CompressFrameBound, OneShotPrefs, IsFrame, Backend.Usable;
    var c := new Cctx();
    c.maxBufferSize := MB5;
    AdjustedOk(user, srcSize);
    NewIsGiven(c, mem, dst, source, srcSize, OneShotPrefs(user, srcSize));
    r := CompressFrameUsingCDict(c, mem, dst, capacity, source, srcSize, None, user, 0, wide, []);
  }
}
