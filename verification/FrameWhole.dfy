/** The frame round trip with nothing left to the caller: contexts, dictionary, memory and buffers are
    made here, for all preferences, dictionaries, data and ways of cutting. */
module FrameWhole {
  import opened Bytes
  import opened BlockFormat
  import opened FrameFormat
  import opened FrameEncoding
  import opened FrameBound
  import opened FrameCodec
  import opened FrameBackend
  import opened FrameCctx
  import opened FrameEncoder
  import opened FrameBegin
  import opened FrameOneShot
  import opened FrameSession
  import opened FrameRoundTrip
  import opened Memory
  import FS = FrameState
  import FD = FrameHistory
  import R = FrameReader
  import Xxh32

  // ---------- sizes ----------

  /** Room for the data of every call, and for what it may write. */
  function DataRoom(ops: seq<Op>): (r: int)
    ensures 0 <= r && forall op :: op in ops ==> |DataOf(op)| <= r
  {
    if ops == [] then 0 else Max(|DataOf(ops[0])|, DataRoom(ops[1..]))
  }

  function OutRoom(ops: seq<Op>, p: Prefs): (r: int)
    ensures MAX_FH_SIZE <= r && UpdateBound(0, p) <= r && forall op :: op in ops ==> UpdateBound(|DataOf(op)|, p) <= r
  {
    if ops == [] then Max(MAX_FH_SIZE, UpdateBound(0, p))
      else Max(UpdateBound(|DataOf(ops[0])|, p), OutRoom(ops[1..], p))
  }

  /** Where things are in the compressor's memory: the dictionary from 1 on, its digested copy, the
      private buffer, and the data of the calls. */
  datatype Layout = Layout(copy: int, arena: int, area: int, size: int)

  function LayoutFor(k: nat, p: Prefs, room: int): Layout
  {
    var copy := 1 + k + 3;
    var arena := copy + Min(k, KB64) + 4;
    var area := arena + Required(p) + 3;
    Layout(copy, arena, area, area + room + 3)
  }

  lemma LayoutOk(k: nat, p: Prefs, room: int)
    requires 0 <= room
    ensures var l := LayoutFor(k, p, room);
      && 1 + k < l.copy && l.copy + Min(k, KB64) + 4 == l.arena && l.arena + Required(p) + 3 == l.area
      && l.area + room + 3 == l.size && 0 <= Required(p) && (p.linked || !p.autoFlush ==> 0 < Required(p))
  {
    BlockSizes(p);
  }

  /** The dictionary is digested, if there is one. */
  method Digest(mem: array<byte>, dict: seq<byte>, copy: int, wide: bool)
      returns (cd: Option<CDict>, ghost last: seq<byte>)
    requires 1 + |dict| < copy && copy + Min(|dict|, KB64) + 3 <= mem.Length
    modifies mem
    ensures fresh(DictObjects(cd)) && last == dict[|dict| - Min(|dict|, KB64)..]
    ensures cd.Some? <==> dict != []
    ensures cd.Some? ==> cd.value.start == copy && cd.value.size == Min(|dict|, KB64)
    ensures cd.Some? ==> CopyOk(cd.value, mem[..], last)
    ensures cd.Some? ==>
      FastDictOk(cd.value.fastCtx, copy, cd.value.size) && HcDictOk(cd.value.hcCtx, copy, cd.value.size)
  {
    hide CopyOk, FastDictOk, HcDictOk;
    last := dict[|dict| - Min(|dict|, KB64)..];
    if dict == [] { return None, last; }
    Put(mem, 1, dict);
    ghost var m := mem[..];
    SliceOfSlice(m, 1, 1 + |dict|, |dict| - Min(|dict|, KB64), |dict|);
    var d := CreateCDict(mem, 1, |dict|, copy, wide);
    cd := Some(d);
    assert last == dict[|dict| - Min(|dict|, KB64)..|dict|];
  }

  lemma NewBuffer(p: Prefs, arena: int)
    requires 0 <= Required(p)
    ensures var b := BufferFor(Chosen(p), 0, 0, arena);
      b.start == (if 0 < Required(p) then arena else 0) && b.size == Required(p)
  {
    hide Required, FrameBlockSize, SizeID;
    RequiredChosen(p);
  }

  lemma CopyRoom(cd: Option<CDict>, copy: int, size: int, arena: int, memory: int)
    requires cd.Some? ==> cd.value.start == copy && cd.value.size == size
    requires 0 <= size && 0 < copy && copy + size + 4 == arena && arena <= memory
    ensures Copy(cd).End() + 3 <= memory && forall a, n :: a >= arena ==> DictApart(cd, a, n)
  {
  }

  /** The buffer a new context will get, and that everything is apart from it. */
  lemma LayoutRoom(k: nat, p: Prefs, room: int, cd: Option<CDict>)
    requires PrefsOk(p) && 0 <= room
    requires cd.Some? ==> cd.value.start == LayoutFor(k, p, room).copy && cd.value.size == Min(k, KB64)
    ensures var l := LayoutFor(k, p, room); var b := BufferFor(Chosen(p), 0, 0, l.arena);
      && RoomFor(b, Chosen(p), cd, l.size) && (p.linked ==> Owned(b, l.size))
      && (Owned(b, l.size) ==> l.area + room <= b.start || b.End() <= l.area)
      && 0 < l.area && l.area + room + 3 <= l.size && DictApart(cd, l.area, room)
  {
    hide Required, FrameBlockSize, SizeID, LayoutFor, BufferFor, Chosen, DictApart, Copy;
    var l := LayoutFor(k, p, room);
    LayoutOk(k, p, room);
    RequiredChosen(p);
    NewBuffer(p, l.arena);
    CopyRoom(cd, l.copy, Min(k, KB64), l.arena, l.size);
  }

  lemma RequiredChosen(p: Prefs)
    ensures Required(Chosen(p)) == Required(p) && Chosen(p).linked == p.linked && Chosen(p).autoFlush == p.autoFlush
  {
  }

  lemma NewGiven(c: Cctx, mem: array<byte>, dst: array<byte>, cd: Option<CDict>, p: Prefs, k: nat, room: int,
      last: seq<byte>)
    requires PrefsOk(p) && 0 <= room && mem.Length == LayoutFor(k, p, room).size && c.tmpBuff == 0
      && c.maxBufferSize == 0
    requires cd.Some? ==> cd.value.start == LayoutFor(k, p, room).copy && cd.value.size == Min(k, KB64)
    requires c.codec.Usable() && c.xxh.mem32.Length == Xxh32.STRIPE && c.codec.DictReady(cd, mem[..], last)
    requires Distinct(c, cd, dst) && mem != dst && mem != c.xxh.mem32 && mem !in c.codec.Own() + DictObjects(cd)
    ensures var l := LayoutFor(k, p, room);
      Given(c, mem, dst, l.area, room, cd, p, l.arena, last)
        && (p.linked ==> Owned(NextBuffer(c, p, l.arena), mem.Length))
  {
    hide Backend.Usable, Backend.DictReady, Distinct, RoomFor, BufferFor, Chosen, Owned, DictApart, LayoutFor;
    LayoutRoom(k, p, room, cd);
  }

  // ---------- the decoder's side ----------

  /** A new context, with the dictionary behind the buffers. */
  method MakeReader(dict: seq<byte>, n: int, capacity: int) returns (d: FD.Dctx, memory: array<byte>, dictAt: int)
    requires 1 <= n && 1 <= capacity
    ensures fresh(d) && fresh(memory)
    ensures Reader(d, memory[..], 0, FS.PRIVATE + 1 + capacity, n, FS.PRIVATE + 1, capacity, dictAt, dict)
  {
    dictAt := FS.PRIVATE + 1 + capacity + n;
    memory := new byte[dictAt + |dict|];
    Put(memory, dictAt, dict);
    d := R.CreateContext(0);
  }

  // ---------- there and back ----------

  lemma DictReadyNow(c: Backend, cd: Option<CDict>, mem: seq<byte>, dict: seq<byte>, copy: int, last: seq<byte>)
    requires cd.None? ==> last == []
    requires cd.Some? ==> cd.value.start == copy && CopyOk(cd.value, mem, last)
    requires cd.Some? ==>
      FastDictOk(cd.value.fastCtx, copy, cd.value.size) && HcDictOk(cd.value.hcCtx, copy, cd.value.size)
    ensures c.DictReady(cd, mem, last)
  {
    hide CopyOk, FastDictOk, HcDictOk;
  }

  lemma OpsFit(ops: seq<Op>, p: Prefs)
    requires forall op :: op in ops ==> Countable(|DataOf(op)|)
    ensures forall op :: op in ops ==> Fits(op, p, DataRoom(ops), OutRoom(ops, p))
  {
    hide UpdateBound;
  }

  /** The compressor's memory, with the dictionary and its digest in place. */
  method MakeMemory(p: Prefs, room: int, dict: seq<byte>, wide: bool)
    returns (mem: array<byte>, cd: Option<CDict>, l: Layout, ghost last: seq<byte>)
    requires 0 <= room
    ensures l == LayoutFor(|dict|, p, room) && mem.Length == l.size && last == dict[|dict| - Min(|dict|, KB64)..]
    ensures fresh(mem) && fresh(DictObjects(cd)) && mem !in DictObjects(cd)
    ensures match cd
      case None => last == []
      case Some(d) =>
        && d.start == l.copy && d.size == Min(|dict|, KB64) && CopyOk(d, mem[..], last)
        && FastDictOk(d.fastCtx, d.start, d.size) && HcDictOk(d.hcCtx, d.start, d.size)
  {
    hide CopyOk, FastDictOk, HcDictOk, LayoutFor;
    l := LayoutFor(|dict|, p, room);
    LayoutOk(|dict|, p, room);
    mem := new byte[l.size];
    cd, last := Digest(mem, dict, l.copy, wide);
  }

  /** A new context and room for what calls write, apart from what is there already. */
  method NewContext(room: nat, ghost cd: Option<CDict>, ghost mem: array<byte>) returns (c: Cctx, dst: array<byte>)
    ensures fresh(c) && fresh(c.codec.Own()) && fresh(c.xxh) && fresh(c.xxh.mem32) && fresh(dst)
    ensures dst.Length == room && c.tmpBuff == 0 && c.maxBufferSize == 0
    ensures c.codec.Usable() && c.xxh.mem32.Length == Xxh32.STRIPE && Distinct(c, cd, dst)
    ensures mem != dst && mem != c.xxh.mem32 && (mem !in DictObjects(cd) ==> mem !in c.codec.Own() + DictObjects(cd))
  {
    hide Backend.Usable;
    dst := new byte[room];
    c := new Cctx();
  }

  /** A new context for the memory, and room for the output. */
  method MakeWriter(ops: seq<Op>, p: Prefs, dict: seq<byte>, wide: bool)
    returns (c: Cctx, mem: array<byte>, dst: array<byte>, cd: Option<CDict>, l: Layout, ghost last: seq<byte>)
    requires PrefsOk(p)
    ensures fresh(c) && fresh(c.codec.Own()) && fresh(c.xxh) && fresh(c.xxh.mem32) && fresh(mem) && fresh(dst)
    ensures last == dict[|dict| - Min(|dict|, KB64)..] && dst.Length == OutRoom(ops, p)
    ensures Given(c, mem, dst, l.area, DataRoom(ops), cd, p, l.arena, last)
    ensures p.linked ==> Owned(NextBuffer(c, p, l.arena), mem.Length)
  {
    hide CopyOk, FastDictOk, HcDictOk, Given, LayoutFor, Owned, NextBuffer, UpdateBound, OutRoom, DataRoom,
      Backend.Usable, Backend.DictReady, Distinct;
    mem, cd, l, last := MakeMemory(p, DataRoom(ops), dict, wide);
    c, dst := NewContext(OutRoom(ops, p), cd, mem);
    DictReadyNow(c.codec, cd, mem[..], dict, l.copy, last);
    NewGiven(c, mem, dst, cd, p, |dict|, DataRoom(ops), last);
  }

  /** For all preferences, dictionaries, sequences of calls and ways of cutting, compression levels and
      block modes: what comes back is what was given. */
  method ThereAndBack(ops: seq<Op>, p: Prefs, dict: seq<byte>, wide: bool, n: int, capacity: int, cut: R.Cutting)
    returns (content: seq<byte>)
    requires PrefsOk(p) && forall op :: op in ops ==> Countable(|DataOf(op)|)
    requires |InputOf(ops)| < 0x1_0000_0000_0000_0000 && (p.contentSize == 0 || p.contentSize == |InputOf(ops)|)
    requires 1 <= n && 1 <= capacity && R.Within(cut, FS.PRIVATE + 1 + capacity, n, FS.PRIVATE + 1, capacity)
    ensures content == InputOf(ops)
  {
    hide Given, Owned, NextBuffer, UpdateBound, OutRoom, DataRoom, Fits, PrefsOk, Reader, R.Within;
    OpsFit(ops, p);
    var d, memory, dictAt := MakeReader(dict, n, capacity);
    var c, mem, dst, cd, l, last := MakeWriter(ops, p, dict, wide);
    ghost var pre := dict[..|dict| - Min(|dict|, KB64)];
    assert pre + last == dict;
    content := RoundTrip(c, mem, dst, l.area, DataRoom(ops), cd, p, l.arena, ops, wide, d, memory,
      FS.PRIVATE + 1 + capacity, n, FS.PRIVATE + 1, capacity, dictAt, |dict|, cut, 0, pre, last);
  }
}
