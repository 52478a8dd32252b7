/** The block stream behind a frame compressor: one object for LZ4_stream_t and LZ4_streamHC_t, with one
    account of where the history of the next block lies. */
module FrameBackend {
  import opened Bytes
  import opened BlockFormat
  import opened Memory
  import opened FrameFormat
  import opened FrameEncoding
  import opened FrameCodec
  import opened Windows
  import FS = FastStream
  import FT = FastTable
  import FA = FastApi
  import FH = FastHistory
  import FC = FastContinue
  import HS = HcStream
  import HT = HcTables
  import HH = HcHistory
  import HA = HcApi
  import HC = HcContinue

  type Dict = FH.Dict

  const NOWHERE: Dict := FH.Dict(0, 0)

  // ---------- where the history lies ----------

  /** A source of n bytes at s may follow a dictionary: it continues it or is apart from it. */
  predicate Placeable(d: Dict, s: int, n: int)
  {
    d == NOWHERE || d.End() <= s || s + n <= d.start
  }

  /** What Renorm and Invalidate leave of a dictionary: its end, or nothing. */
  ghost predicate EndOf(d: Dict, d1: Dict, s: int)
  {
    d1 == FH.Dict(s, 0) || (d1.End() == d.End() && d.start <= d1.start && 0 <= d1.size)
  }

  lemma BeforeTrim(w: FH.Where, s: int, n: int)
    requires FH.Sane(w)
    ensures EndOf(w.dict, FH.Invalidate(FH.Renorm(w, n).dict, s), s)
  {
  }

  /** Nothing to trim from a dictionary that is apart. */
  lemma NoTrim(d: Dict, d1: Dict, s: int, n: int)
    requires EndOf(d, d1, s) && Placeable(d, s, n) && 0 < s && 0 < n && 0 <= d.size
    ensures FH.Trim(d1, s, n) == d1
  {
  }

  lemma PlaceableUse(w: FH.Where, s: int, n: int)
    requires FH.Sane(w) && Placeable(w.dict, s, n) && 0 < s && 0 < n <= MAX_INPUT_SIZE
    ensures var u := FH.InUse(w, s, n).dict; (u.End() == s || u.start != s) && EndOf(w.dict, u, s)
  {
    hide FH.Invalidate, FH.Trim, FH.Renorm;
    BeforeTrim(w, s, n);
    NoTrim(w.dict, FH.Invalidate(FH.Renorm(w, n).dict, s), s, n);
  }

  /** d1 is nothing, or the end of d. */
  ghost predicate Tail(d1: Dict, d: Dict)
  {
    (d1.start == 0 && d1.size == 0) || (d1.End() == d.End() && d.start <= d1.start && 0 <= d1.size)
  }

  /** What may be the older segment x1 of a stream that had x, and its data in d, before a source at s. */
  ghost predicate Older(x1: Dict, x: Dict, d: Dict, s: int)
  {
    Tail(x1, x) || (Tail(x1, d) && d.End() != s)
  }

  /** Where the private copy of the dictionary is. */
  function Copy(cd: Option<CDict>): Dict
  {
    match cd case None => NOWHERE case Some(d) => FH.Dict(d.start, d.size)
  }

  /** The data the stream knows now ends with the block: it is the source, or grew by it. */
  ghost predicate Continues(d: Dict, d1: Dict, source: int, n: int)
  {
    d1.End() == source + n && n <= d1.size && (d1.start == source || (d.End() == source && d.start <= d1.start))
  }

  lemma FastGrown(w: FH.Where, s: int, n: int)
    requires FH.Sane(w) && Placeable(w.dict, s, n) && 0 < s && 0 < n <= MAX_INPUT_SIZE
    ensures Continues(w.dict, FH.Next(w, s, n).dict, s, n)
  {
    hide FH.InUse;
    PlaceableUse(w, s, n);
  }

  /** An HC window's prefix, and its external dictionary. */
  function HcMain(w: Window): Dict { if w.lo == 0 then NOWHERE else FH.Dict(w.base + w.dl, w.end - w.dl) }

  function HcExt(w: Window): Dict { if w.lo != 0 && w.lo < w.dl then FH.Dict(w.dictBase + w.lo, w.dl - w.lo)
      else NOWHERE }

  lemma StartStep(w: Window, s: int)
    requires 0 <= w.end <= HH.INDEX_MAX && (w.lo != 0 ==> HH.Sane(w))
    ensures HH.Sane(HH.Start(w, s)) && (w.lo != 0 ==> HH.Start(w, s) == w)
    ensures w.lo == 0 ==> HcMain(HH.Start(w, s)) == FH.Dict(s, 0) && HcExt(HH.Start(w, s)) == NOWHERE
  {
  }

  lemma ReloadStep(w: Window, s: int)
    requires HH.Sane(w)
    ensures var v := HH.Reload(w);
      HH.Sane(v) && HcMain(v).End() == HcMain(w).End() && HcMain(w).start <= HcMain(v).start
        && Tail(HcMain(v), HcMain(w)) && Tail(HcExt(v), HcExt(w))
  {
  }

  lemma ExternStep(w: Window, s: int)
    requires HH.Sane(w)
    ensures var v := HH.Extern(w, s);
      && HH.Sane(v) && HcMain(v).End() == s
         && (v == w || (HcMain(w).End() != s && HcMain(v) == FH.Dict(s, 0) && Tail(HcExt(v), HcMain(w))))
  {
  }

  lemma TrimStep(w: Window, s: int, n: int)
    requires HH.Sane(w) && 0 <= n
    ensures var v := HH.Trim(w, s, n);
      HH.Sane(v) && HcMain(v) == HcMain(w) && v.end == w.end && v.base == w.base && v.dl == w.dl
            && Tail(HcExt(v), HcExt(w))
  {
  }

  lemma GrowStep(u: Window, n: int)
    requires HH.Sane(u) && 0 < n
    ensures HcMain(HH.Grow(u, n)) == FH.Dict(HcMain(u).start, HcMain(u).size + n) && HcExt(HH.Grow(u, n)) == HcExt(u)
      && 0 <= HcMain(u).size
  {
  }

  lemma TailTrans(a: Dict, b: Dict, c: Dict)
    requires Tail(a, b) && Tail(b, c)
    ensures Tail(a, c)
  {
  }

  /** A stream with data: its prefix keeps its end, or becomes the dictionary. */
  lemma HcContinued(w: Window, s: int, n: int)
    requires HH.Sane(w) && 0 < n
    ensures var u := HH.InUse(w, s, n);
      && HH.Sane(u) && HcMain(u).End() == s
         && (HcMain(u) == FH.Dict(s, 0) || (HcMain(w).End() == s && HcMain(w).start <= HcMain(u).start))
  {
    hide HH.Start, HH.Reload, HH.Extern, HH.Trim, HcMain, HcExt, Tail;
    StartStep(w, s);
    ReloadStep(w, s);
    ExternStep(HH.Reload(w), s);
    TrimStep(HH.Extern(HH.Reload(w), s), s, n);
  }

  lemma OlderSteps(u: Dict, b: Dict, a: Dict, am: Dict, x: Dict, d: Dict, s: int)
    requires Tail(u, b) && Tail(a, x) && Tail(am, d) && (b == a || (d.End() != s && Tail(b, am)))
    ensures Older(u, x, d, s)
  {
  }

  lemma HcOlder(w: Window, s: int, n: int)
    requires HH.Sane(w) && 0 < n
    ensures Older(HcExt(HH.InUse(w, s, n)), HcExt(w), HcMain(w), s)
  {
    hide HH.Start, HH.Reload, HH.Extern, HH.Trim, HcMain, HcExt, Tail, Older;
    var a := HH.Reload(w);
    var b := HH.Extern(a, s);
    StartStep(w, s);
    ReloadStep(w, s);
    ExternStep(a, s);
    TrimStep(b, s, n);
    OlderSteps(HcExt(HH.Trim(b, s, n)), HcExt(b), HcExt(a), HcMain(a), HcExt(w), HcMain(w), s);
  }

  lemma HcGrown(w: Window, s: int, n: int)
    requires 0 <= w.end <= HH.INDEX_MAX && (w.lo != 0 ==> HH.Sane(w)) && 0 < n
    ensures var v := HH.Next(w, s, n);
      && Continues(HcMain(w), HcMain(v), s, n)
      && Older(HcExt(v), HcExt(w), HcMain(w), s)
  {
    hide HH.InUse, HH.Grow, HcMain, HcExt;
    if w.lo == 0 {
      HA.FreshUse(w, s, n);
      StartStep(w, s);
    } else {
      HcContinued(w, s, n);
      HcOlder(w, s, n);
    }
    GrowStep(HH.InUse(w, s, n), n);
  }

  lemma HcGrownCopy(d: Window, s: int, n: int)
    requires HH.Sane(d) && d.lo == d.dl && 0 < n
    ensures var v := HH.Grow(HH.ExternDict(d, s), n);
      HcMain(v) == FH.Dict(s, n) && Tail(HcExt(v), FH.Dict(d.base + d.dl, d.end - d.dl))
  {
  }

  // ---------- the backend ----------

  class Backend {
    const fast: FS.Stream
    const hc: HS.Stream
    /** lz4CtxState: 0 = none, 1 = lz4 ctx, 2 = lz4hc ctx */
    var ctxState: int
    ghost var Repr: set<object>

    constructor ()
      ensures fresh(Own()) && Usable() && ctxState == 0 && fast.Initial() && fresh(Repr)
    {
      fast := new FS.Stream();
      hc := new HS.Stream();
      ctxState := 0;
      new;
      Repr := Own();
      HcSized(hc);
    }

    ghost function Own(): set<object>
    {
      {this, fast, fast.hashTable, hc, hc.table, hc.table.hashTable, hc.table.chainTable}
    }

    ghost function Streams(): set<object>
    {
      {fast, fast.hashTable, hc, hc.table, hc.table.hashTable, hc.table.chainTable}
    }

    ghost predicate Shape()
    {
      fast.hashTable.Length == FT.SLOTS && hc.table.Sized()
    }

    /** Between frames. */
    ghost predicate Usable()
      reads Own()
    {
      && Shape() && 0 <= ctxState <= 2
      && (ctxState == 1 ==> FA.Reusable(fast))
      && (ctxState == 2 ==> hc.OwnOk())
    }

    /** The stream is ready for the next block after `done`: in a linked frame it knows the end of
        everything before it, else it is fit for a block of its own.  The dictionary is in its place. */
    ghost predicate Ready(linked: bool, cd: Option<CDict>, mem: seq<byte>, dict: seq<byte>, done: seq<byte>)
      reads this, Repr
    {
      && Own() <= Repr && DictObjects(cd) <= Repr && Own() !! DictObjects(cd) && Shape()
      && DictReady(cd, mem, dict)
      && 1 <= ctxState <= 2
      && if linked then
           if ctxState == 2 then (hc.dictCtx != null ==> hc.dictCtx == HcContext(cd))
             && HcReady(hc, true, cd, mem, dict, done)
           else (fast.dictCtx != null ==> fast.dictCtx == FastContext(cd)) && FastReady(fast, true, cd, mem, dict, done)
         else if ctxState == 2 then hc.OwnOk() else FastFit(fast) && (cd.None? || done != [] ==> FreshTable(fast))
    }

    ghost predicate DictReady(cd: Option<CDict>, mem: seq<byte>, dict: seq<byte>)
      reads DictObjects(cd)
    {
      match cd
      case None => dict == []
      case Some(d) =>
        CopyOk(d, mem, dict) && FastDictOk(d.fastCtx, d.start, d.size) && HcDictOk(d.hcCtx, d.start, d.size)
    }

    /** The data a linked stream knows, and an older segment that may still be in reach. */
    ghost function Main(): Dict
      reads this, fast, hc
    {
      if ctxState == 2 then HcMain(hc.W()) else FH.Of(fast).dict
    }

    ghost function Ext(): Dict
      reads this, hc
    {
      if ctxState == 2 then HcExt(hc.W()) else NOWHERE
    }

    // ----- context management -----

    /** A buffer of sufficient size is there, but it has to hold the other type of context. */
    method Select(level: int)
      requires Usable()
      modifies Own()
      ensures Usable() && ctxState == (if level < HS.CLEVEL_MIN then 1 else 2) && Repr == old(Repr)
      ensures level < HS.CLEVEL_MIN && old(ctxState) != 1 ==> fast.Initial()
      ensures level < HS.CLEVEL_MIN && old(ctxState) == 1 ==>
        fast.tableType == old(fast.tableType) && fast.currentOffset == old(fast.currentOffset)
    {
      hide FA.Consistent, HT.Ranged;
      var ctxTypeID := if level < HS.CLEVEL_MIN then 1 else 2;
      if ctxState != ctxTypeID {
        if ctxTypeID == 1 {
          fast.Reset();
          InitialIsFit(fast);
        } else {
          HS.InitStreamHC(hc);
          HS.SetCompressionLevel(hc, level);
          BlankIsOwn(hc);
        }
        ctxState := ctxTypeID;
      }
    }

    /** LZ4F_initStream at the beginning of a frame: for linked blocks only, others do it themselves. */
    method Begin(linked: bool, cd: Option<CDict>, level: int, favorDecSpeed: bool, ghost mem: seq<byte>,
        ghost dict: seq<byte>)
      requires Usable() && ctxState == (if level < HS.CLEVEL_MIN then 1 else 2)
      requires Own() !! DictObjects(cd) && DictReady(cd, mem, dict)
      modifies Own()
      ensures Ready(linked, cd, mem, dict, []) && ctxState == old(ctxState) && Repr == Own() + DictObjects(cd)
      ensures linked ==> Main() == NOWHERE && Ext() == NOWHERE
    {
      hide CopyOk, FastDictOk, HcDictOk, FA.Consistent, FH.Live, FH.Tracks, HS.Live, HS.Tracks, HS.Stream.OwnOk;
      Repr := Own() + DictObjects(cd);
      Apart(cd, mem, dict);
      if linked {
        assert dict + [] == dict;
        if ctxState == 2 {
          InitHc(hc, cd, HcContext(cd), level, mem, dict);
        } else {
          InitFast(fast, cd, FastContext(cd), mem, dict);
        }
      }
      if level >= HS.CLEVEL_MIN { HS.FavorDecompressionSpeed(hc, favorDecSpeed, mem, dict); }
    }

    /** Context management, then LZ4F_initStream. */
    method Start(linked: bool, cd: Option<CDict>, level: int, favorDecSpeed: bool, ghost mem: seq<byte>,
        ghost dict: seq<byte>)
      requires Usable() && Own() !! DictObjects(cd) && DictReady(cd, mem, dict)
      modifies Own()
      ensures Ready(linked, cd, mem, dict, []) && ctxState == (if level < HS.CLEVEL_MIN then 1 else 2)
        && Repr == Own() + DictObjects(cd)
      ensures linked ==> Main() == NOWHERE && Ext() == NOWHERE
    {
      hide Backend.Usable, Backend.DictReady, Backend.Main, Backend.Ext, Backend.Ready;
      Select(level);
      Begin(linked, cd, level, favorDecSpeed, mem, dict);
    }

    // ----- one block -----

    /** A linked stream takes a source at s: apart from what it knows, which three readable bytes follow. */
    ghost predicate Accepts(cd: Option<CDict>, s: int, n: int, size: int)
      reads this, fast, hc
    {
      && (cd.Some? ==> cd.value.start != s) && Placeable(Main(), s, n)
      && Main().End() + 3 <= size && Ext().End() + 3 <= size && s + n + 3 <= size
    }

    /** LZ4F_compressBlock_continue */
    method CompressLinkedFast(cd: Option<CDict>, level: int, mem: seq<byte>, source: int, n: int, wide: bool,
        ghost dict: seq<byte>, ghost done: seq<byte>)
      returns (block: seq<byte>)
      requires Ready(true, cd, mem, dict, done) && ctxState == 1 && Accepts(cd, source, n, |mem|)
      requires 0 < source && 0 < n <= MAX_INPUT_SIZE && source + n <= |mem|
      modifies fast, fast.hashTable
      ensures Ready(true, cd, mem, dict, done + mem[source..source + n])
        && Packed(block, dict + done, mem[source..source + n])
      ensures Continues(old(Main()), Main(), source, n)
    {
      hide CopyOk, FastDictOk, HcDictOk, FastFit, FH.Live, FH.Tracks, FH.Next, Packed, FC.CallOk, FC.HistoryReady,
        Continues, Placeable, FastReady;
      Apart(cd, mem, dict);
      FastCallOk(fast, cd, FastContext(cd), mem, dict, done, source, n);
      Concat3(dict, done, mem[source..source + n]);
      block := PackFast(fast, mem, source, n, level, wide, dict + done);
      FastReadyNow(fast, cd, mem, dict, done + mem[source..source + n]);
    }

    /** LZ4F_compressBlockHC_continue */
    method CompressLinkedHc(cd: Option<CDict>, mem: seq<byte>, source: int, n: int, dst: array<byte>,
        ghost dict: seq<byte>, ghost done: seq<byte>)
      returns (block: seq<byte>)
      requires Ready(true, cd, mem, dict, done) && ctxState == 2 && Accepts(cd, source, n, |mem|) && dst.Length == n - 1
        && dst !in Repr
      requires 0 < source && 0 < n <= MAX_INPUT_SIZE && source + n <= |mem|
      modifies hc, hc.table, hc.table.hashTable, hc.table.chainTable, dst
      ensures Ready(true, cd, mem, dict, done + mem[source..source + n])
        && Packed(block, dict + done, mem[source..source + n])
      ensures Continues(old(Main()), Main(), source, n)
        && (Older(Ext(), old(Ext()), old(Main()), source) || Tail(Ext(), Copy(cd)))
    {
      hide CopyOk, FastDictOk, HcDictOk, HS.Live, HS.Tracks, HH.InUse, Packed, HA.Slack, Continues, Older, Tail,
        Placeable, HcMain, HcExt;
      ghost var w := hc.W();
      Apart(cd, mem, dict);
      HcSlack(hc, cd, HcContext(cd), mem, dict);
      HcSegments(hc, cd, HcContext(cd), mem, dict, source, n);
      Concat3(dict, done, mem[source..source + n]);
      block := PackHc(hc, mem, source, n, dst, dict + done);
    }

    /** LZ4F_compressBlock */
    method CompressAloneFast(cd: Option<CDict>, level: int, mem: seq<byte>, source: int, n: int, wide: bool,
        ghost dict: seq<byte>, ghost done: seq<byte>)
      returns (block: seq<byte>)
      requires Ready(false, cd, mem, dict, done) && ctxState == 1 && (cd.Some? ==> cd.value.start != source)
      requires 0 < source && 0 < n <= MAX_INPUT_SIZE && source + n <= |mem|
      modifies fast, fast.hashTable
      ensures Ready(false, cd, mem, dict, done + mem[source..source + n])
        && Packed(block, dict, mem[source..source + n])
    {
      hide CopyOk, FastDictOk, HcDictOk, FA.Consistent, Packed;
      Apart(cd, mem, dict);
      if cd.Some? {
        block := PackFastAfter(fast, cd, FastContext(cd), mem, source, n, level, wide, dict);
      } else {
        block := PackFastAlone(fast, mem, source, n, level, wide, dict);
      }
    }

    /** LZ4F_compressBlockHC */
    method CompressAloneHc(cd: Option<CDict>, level: int, mem: seq<byte>, source: int, n: int, dst: array<byte>,
        ghost dict: seq<byte>, ghost done: seq<byte>)
      returns (block: seq<byte>)
      requires Ready(false, cd, mem, dict, done) && ctxState == 2 && dst.Length == n - 1 && dst !in Repr
      requires 0 < source && 0 < n <= MAX_INPUT_SIZE && source + n <= |mem|
      modifies hc, hc.table, hc.table.hashTable, hc.table.chainTable, dst
      ensures Ready(false, cd, mem, dict, done + mem[source..source + n])
        && Packed(block, dict, mem[source..source + n])
    {
      hide CopyOk, FastDictOk, HcDictOk, HS.Stream.OwnOk, Packed;
      Apart(cd, mem, dict);
      if cd.Some? {
        block := PackHcAfter(hc, cd, HcContext(cd), mem, source, n, level, dst, dict);
      } else {
        block := PackHcAlone(hc, mem, source, n, level, dst, dict);
      }
    }

    method CompressLinked(cd: Option<CDict>, level: int, mem: seq<byte>, source: int, n: int, room: array<byte>,
        wide: bool, ghost dict: seq<byte>, ghost done: seq<byte>) returns (block: seq<byte>)
      requires Ready(true, cd, mem, dict, done) && Accepts(cd, source, n, |mem|)
      requires 0 < source && 0 < n <= MAX_INPUT_SIZE && source + n <= |mem| && room.Length == n - 1 && room !in Repr
      modifies Streams(), room
      ensures Ready(true, cd, mem, dict, done + mem[source..source + n])
        && Packed(block, dict + done, mem[source..source + n])
      ensures Continues(old(Main()), Main(), source, n)
        && (Older(Ext(), old(Ext()), old(Main()), source) || Tail(Ext(), Copy(cd)))
    {
      hide Packed, Accepts, Continues, Older, HcMain, HcExt;
      ReadyKind(true, cd, mem, dict, done);
      if ctxState == 2 {
        block := CompressLinkedHc(cd, mem, source, n, room, dict, done);
      } else {
        block := CompressLinkedFast(cd, level, mem, source, n, wide, dict, done);
      }
    }

    method CompressAlone(cd: Option<CDict>, level: int, mem: seq<byte>, source: int, n: int, room: array<byte>,
        wide: bool, ghost dict: seq<byte>, ghost done: seq<byte>) returns (block: seq<byte>)
      requires Ready(false, cd, mem, dict, done) && (cd.Some? ==> cd.value.start != source)
      requires 0 < source && 0 < n <= MAX_INPUT_SIZE && source + n <= |mem| && room.Length == n - 1 && room !in Repr
      modifies Streams(), room
      ensures Ready(false, cd, mem, dict, done + mem[source..source + n])
        && Packed(block, dict, mem[source..source + n])
    {
      hide Packed;
      ReadyKind(false, cd, mem, dict, done);
      if ctxState == 2 {
        block := CompressAloneHc(cd, level, mem, source, n, room, dict, done);
      } else {
        block := CompressAloneFast(cd, level, mem, source, n, wide, dict, done);
      }
    }

    /** The function LZ4F_selectCompression selects; room is where an HC level puts the block. */
    method Compress(linked: bool, cd: Option<CDict>, level: int, mem: seq<byte>, source: int, n: int, room: array<byte>,
        wide: bool, ghost dict: seq<byte>, ghost done: seq<byte>) returns (block: seq<byte>)
      requires Ready(linked, cd, mem, dict, done) && (linked ==> Accepts(cd, source, n, |mem|))
        && (cd.Some? ==> cd.value.start != source)
      requires 0 < source && 0 < n <= MAX_INPUT_SIZE && source + n <= |mem| && room.Length == n - 1 && room !in Repr
      modifies Streams(), room
      ensures Ready(linked, cd, mem, dict, done + mem[source..source + n])
      ensures Packed(block, if linked then dict + done else dict, mem[source..source + n])
      ensures linked ==>
        Continues(old(Main()), Main(), source, n)
        && (Older(Ext(), old(Ext()), old(Main()), source) || Tail(Ext(), Copy(cd)))
    {
      hide Packed, Accepts, Continues, Older, Tail, HcMain, HcExt, Backend.Ready;
      if linked {
        block := CompressLinked(cd, level, mem, source, n, room, wide, dict, done);
      } else {
        block := CompressAlone(cd, level, mem, source, n, room, wide, dict, done);
      }
    }

    /** After a frame another one can begin. */
    lemma ReadyIsUsable(linked: bool, cd: Option<CDict>, mem: seq<byte>, dict: seq<byte>, done: seq<byte>)
      requires Ready(linked, cd, mem, dict, done) && (ctxState == 2 || cd.None? || done != [])
      ensures Usable()
    {
      hide CopyOk, FastDictOk, HcDictOk, FA.Consistent, FH.Live, FH.Tracks, HS.Live, HS.Tracks, HS.Stream.OwnOk;
      if ctxState == 2 {
        if linked { HS.LiveOwn(hc); }
      } else {
        ReadyIsReusable(fast, linked, cd, mem, dict, done);
      }
    }

    lemma ReadyKind(linked: bool, cd: Option<CDict>, mem: seq<byte>, dict: seq<byte>, done: seq<byte>)
      requires Ready(linked, cd, mem, dict, done)
      ensures Own() <= Repr && 1 <= ctxState <= 2
    {
    }

    // ----- saving the history -----

    method SaveFast(mem: array<byte>, to: int, cd: Option<CDict>, ghost dict: seq<byte>, ghost done: seq<byte>)
        returns (r: int)
      requires Ready(true, cd, mem[..], dict, done) && mem !in Repr && 0 < Main().size && ctxState == 1
      requires 0 <= to && to + KB64 <= mem.Length && Clear(Copy(cd), to, KB64)
      modifies fast, mem
      ensures Ready(true, cd, mem[..], dict, done)
      ensures r == Min(KB64, old(Main().size)) && Main() == FH.Dict(to, r)
      ensures Agree(old(mem[..]), mem[..], to, to + r)
    {
      hide CopyOk, FastDictOk, HcDictOk, FastFit, FH.Live, FH.Tracks, Agree;
      ghost var m := mem[..];
      r := FH.SaveDict(fast, mem, to, KB64, dict + done);
      DictReadyFrame(cd, m, mem[..], dict, to, r);
    }

    method SaveHc(mem: array<byte>, to: int, cd: Option<CDict>, ghost dict: seq<byte>, ghost done: seq<byte>)
        returns (r: int)
      requires Ready(true, cd, mem[..], dict, done) && mem !in Repr && 0 < Main().size && ctxState == 2
      requires 0 <= to && to + KB64 <= mem.Length && Clear(Copy(cd), to, KB64)
      modifies hc, hc.table, mem
      ensures Ready(true, cd, mem[..], dict, done)
      ensures r == Min(KB64, old(Main().size)) && Main() == FH.Dict(to, r) && Ext() == NOWHERE
      ensures Agree(old(mem[..]), mem[..], to, to + r)
    {
      hide CopyOk, FastDictOk, HcDictOk, FastFit, HS.Live, HS.Tracks, Agree, Clear, HcMain, HcExt, HS.Beyond;
      ghost var m := mem[..];
      Apart(cd, m, dict);
      HcBeyond(hc, cd, HcContext(cd), m, dict, to);
      r := SaveHcDict(hc, mem, to, dict + done);
      ClearLess(Copy(cd), to, KB64, r);
      DictReadyFrame(cd, m, mem[..], dict, to, r);
    }

    /** LZ4F_localSaveDict: the last 64 KB move to the private buffer. */
    method Save(mem: array<byte>, to: int, cd: Option<CDict>, ghost dict: seq<byte>, ghost done: seq<byte>)
        returns (r: int)
      requires Ready(true, cd, mem[..], dict, done) && mem !in Repr && 0 < Main().size
      requires 0 <= to && to + KB64 <= mem.Length && Clear(Copy(cd), to, KB64)
      modifies fast, hc, hc.table, mem
      ensures Ready(true, cd, mem[..], dict, done)
      ensures r == Min(KB64, old(Main().size)) && Main() == FH.Dict(to, r) && Ext() == NOWHERE
      ensures Agree(old(mem[..]), mem[..], to, to + r)
    {
      hide HcMain, HcExt, Agree, Clear, Copy, Backend.Ready;
      ReadyKind(true, cd, mem[..], dict, done);
      if ctxState == 2 {
        r := SaveHc(mem, to, cd, dict, done);
      } else {
        r := SaveFast(mem, to, cd, dict, done);
      }
    }

    // ----- memory that changes elsewhere -----

    lemma DictReadyFrame(cd: Option<CDict>, m: seq<byte>, m1: seq<byte>, dict: seq<byte>, a: int, n: int)
      requires DictReady(cd, m, dict) && Agree(m, m1, a, a + n) && Clear(Copy(cd), a, n)
      ensures DictReady(cd, m1, dict)
    {
      hide FastDictOk, HcDictOk;
      if cd.Some? && cd.value.size > 0 { AgreeSlice(m, m1, a, a + n, cd.value.start, cd.value.size); }
    }

    lemma DictReadySame(cd: Option<CDict>, m: seq<byte>, m1: seq<byte>, dict: seq<byte>)
      requires DictReady(cd, m, dict) && Same(m, m1, Copy(cd))
      ensures DictReady(cd, m1, dict)
    {
      hide FastDictOk, HcDictOk;
    }

    /** The stream only looks at its segments and at the dictionary. */
    lemma ReadySame(linked: bool, cd: Option<CDict>, m: seq<byte>, m1: seq<byte>, dict: seq<byte>, done: seq<byte>)
      requires Ready(linked, cd, m, dict, done) && Same(m, m1, Copy(cd))
        && (linked ==> Same(m, m1, Main()) && Same(m, m1, Ext()))
      ensures Ready(linked, cd, m1, dict, done)
    {
      hide CopyOk, FastDictOk, HcDictOk, FastFit, FH.Live, FH.Tracks, FA.Reusable, HS.Live, HS.Tracks, HS.Stream.OwnOk,
        Same, HcMain, HcExt;
      DictReadySame(cd, m, m1, dict);
      Apart(cd, m, dict);
      if linked {
        if ctxState == 2 {
          HcTracksSame(hc, cd, HcContext(cd), m, m1, dict + done);
        } else {
          FastTracksSame(fast, cd, FastContext(cd), m, m1, dict + done);
        }
      }
    }

    /** The dictionary's streams are not the backend's own. */
    lemma Apart(cd: Option<CDict>, mem: seq<byte>, dict: seq<byte>)
      requires Own() !! DictObjects(cd) && DictReady(cd, mem, dict)
      ensures FastDictFor(fast, cd, FastContext(cd)) && HcDictFor(hc, cd, HcContext(cd))
      ensures (cd.Some? ==> CopyOk(cd.value, mem, dict)) && (cd.None? ==> dict == [])
    {
      hide CopyOk, FastDictOk, HcDictOk;
      if cd.Some? {
        var d := cd.value;
        assert d.fastCtx in DictObjects(cd) && d.fastCtx.hashTable in DictObjects(cd);
        assert d.hcCtx in DictObjects(cd) && d.hcCtx.table in DictObjects(cd);
        assert d.hcCtx.table.hashTable in DictObjects(cd) && d.hcCtx.table.chainTable in DictObjects(cd);
      }
    }
  }

  lemma FastReadyNow(c: FS.Stream, cd: Option<CDict>, mem: seq<byte>, dict: seq<byte>, done: seq<byte>)
    requires FH.Live(c) && FH.Tracks(c, mem, dict + done) && c.dictCtx == null && c.tableType.ByU32?
    ensures FastReady(c, true, cd, mem, dict, done)
  {
    hide FH.Live, FH.Tracks;
  }

  lemma FastCallOk(c: FS.Stream, cd: Option<CDict>, ctx: FS.Stream?, mem: seq<byte>, dict: seq<byte>, done: seq<byte>,
      s: int, n: int)
    requires FastReady(c, true, cd, mem, dict, done) && FastDictFor(c, cd, ctx) && Placeable(FH.Of(c).dict, s, n)
    requires 0 < s && 0 < n <= MAX_INPUT_SIZE && s + n <= |mem| && (cd.Some? ==> cd.value.start != s)
    ensures FH.Live(c) && FC.CallOk(c, s, n) && FC.HistoryReady(c, mem, s, n, dict + done)
    ensures c.dictCtx != null ==> FH.InUse(FH.Of(c), s, n).dict.End() != s
    ensures c.dictCtx == null ==> Continues(FH.Of(c).dict, FH.Next(FH.Of(c), s, n).dict, s, n)
    ensures Continues(FH.Of(c).dict, FH.Dict(s, n), s, n)
  {
    hide FH.InPlace, FH.LoadedTable, FH.InUse, FH.Next, Placeable;
    FC.TracksReady(c, mem, s, n, dict + done);
    if c.dictCtx != null { FH.EmptyUse(FH.Of(c), s, n); }
    PlaceableUse(FH.Of(c), s, n);
    FastGrown(FH.Of(c), s, n);
  }

  /** What an HC stream needs of the memory behind its segments. */
  lemma HcSlack(c: HS.Stream, cd: Option<CDict>, ctx: HS.Stream?, mem: seq<byte>, dict: seq<byte>)
    requires HS.Live(c) && HcDictFor(c, cd, ctx) && (c.dictCtx != null ==> c.dictCtx == ctx)
      && (cd.Some? ==> CopyOk(cd.value, mem, dict))
    requires HcMain(c.W()).End() + 3 <= |mem| && HcExt(c.W()).End() + 3 <= |mem|
    ensures HA.Slack(c, |mem|)
  {
    hide HS.Loaded, HT.Ranged, HT.TablesOk, HC.Behind;
  }

  /** What will become of its segments. */
  lemma HcSegments(c: HS.Stream, cd: Option<CDict>, ctx: HS.Stream?, mem: seq<byte>, dict: seq<byte>, s: int, n: int)
    requires HS.Live(c) && HcDictFor(c, cd, ctx) && (c.dictCtx != null ==> c.dictCtx == ctx)
      && (cd.Some? ==> CopyOk(cd.value, mem, dict))
    requires HcMain(c.W()).End() + 3 <= |mem| && HcExt(c.W()).End() + 3 <= |mem| && 0 < n && 3 <= |mem|
    ensures var v := HH.Next(c.W(), s, n);
      Continues(HcMain(c.W()), HcMain(v), s, n) && Older(HcExt(v), HcExt(c.W()), HcMain(c.W()), s)
    ensures c.dictCtx != null ==> var v := HH.Grow(HH.ExternDict(c.dictCtx.W(), s), n);
      Continues(HcMain(c.W()), HcMain(v), s, n) && Tail(HcExt(v), Copy(cd))
  {
    hide HS.Loaded, HT.Ranged, HT.TablesOk, HH.Next, HH.Grow, HH.ExternDict, Continues, CopyOk;
    HcGrown(c.W(), s, n);
    if c.dictCtx != null { HcCopySegments(c.W(), cd.value, mem, dict, s, n); }
  }

  /** The copied dictionary becomes the older segment. */
  lemma HcCopySegments(w: Window, d: CDict, mem: seq<byte>, dict: seq<byte>, s: int, n: int)
    requires CopyOk(d, mem, dict) && 0 < n
    ensures var v := HH.Grow(HH.ExternDict(HS.DictWindow(d.start, d.size), s), n);
      Continues(HcMain(w), HcMain(v), s, n) && Tail(HcExt(v), FH.Dict(d.start, d.size))
  {
    hide HH.Grow, HH.ExternDict;
    HcGrownCopy(HS.DictWindow(d.start, d.size), s, n);
  }

  /** The copied dictionary is apart from where the history moves to. */
  lemma HcBeyond(c: HS.Stream, cd: Option<CDict>, ctx: HS.Stream?, mem: seq<byte>, dict: seq<byte>, to: int)
    requires HcDictFor(c, cd, ctx) && (c.dictCtx != null ==> c.dictCtx == ctx) && 0 <= to
    requires (cd.Some? ==> CopyOk(cd.value, mem, dict)) && Clear(Copy(cd), to, KB64)
    ensures c.dictCtx != null ==> HS.Beyond(c.dictCtx, to, Min(HT.MAXD, c.W().end - c.dictLimit))
  {
    hide HS.Loaded;
  }

  lemma HcSaved(c: HS.Stream, to: int)
    requires HS.Live(c) && 0 < HcMain(c.W()).size
    ensures c.lowLimit != 0 && HcMain(c.W()).size == c.W().end - c.dictLimit
    ensures HS.SavedSize(KB64, c.W()) == Min(KB64, HcMain(c.W()).size)
    ensures var r := HS.SavedSize(KB64, c.W());
      HcMain(HH.Saved(c.W(), to, r)) == FH.Dict(to, r) && HcExt(HH.Saved(c.W(), to, r)) == NOWHERE
  {
    hide HT.TablesOk, HT.Ranged, HS.Loaded;
  }

  method SaveHcDict(c: HS.Stream, mem: array<byte>, to: int, ghost hist: seq<byte>) returns (r: int)
    requires HS.Live(c) && HS.Tracks(c, mem[..], hist) && 0 < HcMain(c.W()).size
    requires 0 <= to && to + KB64 <= mem.Length
    requires c.dictCtx != null ==> HS.Beyond(c.dictCtx, to, Min(HT.MAXD, c.W().end - c.dictLimit))
    modifies c, c.table, mem
    ensures HS.Live(c) && HS.Tracks(c, mem[..], hist) && c.dictCtx == old(c.dictCtx)
    ensures r == Min(KB64, old(HcMain(c.W()).size)) && HcMain(c.W()) == FH.Dict(to, r) && HcExt(c.W()) == NOWHERE
    ensures Agree(old(mem[..]), mem[..], to, to + r)
  {
    hide HS.Live, HS.Tracks, Agree, HH.Saved, HS.SavedSize, HcMain, HcExt, HH.InPlace, HS.Beyond;
    HcSaved(c, to);
    r := HS.SaveDictHC(c, mem, to, KB64, hist);
  }

  /** A segment's bytes are the same. */
  ghost predicate Same(m: seq<byte>, m1: seq<byte>, d: Dict)
  {
    |m| == |m1| && (0 <= d.start && 0 < d.size && d.End() <= |m| ==> m[d.start..d.End()] == m1[d.start..d.End()])
  }

  lemma FastTracksSame(c: FS.Stream, cd: Option<CDict>, ctx: FS.Stream?, m: seq<byte>, m1: seq<byte>, hist: seq<byte>)
    requires FH.Live(c) && FH.Tracks(c, m, hist) && (c.dictCtx != null ==> c.dictCtx == ctx) && FastDictFor(c, cd, ctx)
    requires Same(m, m1, FH.Of(c).dict) && Same(m, m1, Copy(cd))
    ensures FH.Tracks(c, m1, hist)
  {
    hide FH.LoadedTable, FH.OwnOk;
  }

  lemma HcTracksSame(c: HS.Stream, cd: Option<CDict>, ctx: HS.Stream?, m: seq<byte>, m1: seq<byte>, hist: seq<byte>)
    requires HS.Live(c) && HS.Tracks(c, m, hist) && (c.dictCtx != null ==> c.dictCtx == ctx) && HcDictFor(c, cd, ctx)
    requires Same(m, m1, HcMain(c.W())) && Same(m, m1, HcExt(c.W())) && Same(m, m1, Copy(cd))
    ensures HS.Tracks(c, m1, hist)
  {
    hide HS.Loaded, HS.Stream.OwnOk;
  }

  /** A write of n bytes at a does not touch a segment. */
  predicate Clear(d: Dict, a: int, n: int) { d.End() <= a || a + n <= d.start }

  lemma ClearLess(d: Dict, a: int, n: int, k: int)
    requires Clear(d, a, n) && k <= n
    ensures Clear(d, a, k)
  {
  }

  lemma InitialIsFit(c: FS.Stream)
    requires c.Initial()
    ensures FastFit(c)
  {
    hide FA.Zero;
    FA.InitialIsReusable(c);
  }

  lemma BlankIsOwn(c: HS.Stream)
    requires c.Blank()
    ensures c.OwnOk()
  {
    hide HT.Ranged;
    HS.BlankIsLive(c, []);
    HS.LiveOwn(c);
  }
}
