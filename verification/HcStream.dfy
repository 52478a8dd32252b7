/** LZ4_streamHC_t: initialisation and reset, loading, attaching and saving dictionaries, and
    LZ4HC_setExternalDict, each keeping the tables valid for the window it leaves. */
module HcStream {
  import opened Bytes
  import opened BlockFormat
  import opened Memory
  import opened Windows
  import opened HcTables
  import opened HcMatchFinder
  import opened HcHistory

  const CLEVEL_MIN: int := 3
  const CLEVEL_DEFAULT: int := 9
  const CLEVEL_MAX: int := 12

  function Level(level: int): int
  {
    if level < 1 then CLEVEL_DEFAULT else if level > CLEVEL_MAX then CLEVEL_MAX else level
  }

  class Stream {
    const table: HcTable
    var end: int
    var base: int
    var dictBase: int
    var dictLimit: int
    var lowLimit: int
    var compressionLevel: int
    var favorDecSpeed: bool
    var dirty: bool
    var dictCtx: Stream?

    /** LZ4_createStreamHC */
    constructor ()
      ensures fresh(table) && fresh(table.hashTable) && fresh(table.chainTable)
      ensures Blank() && compressionLevel == CLEVEL_DEFAULT
    {
      table := new HcTable();
      end, base, dictBase, dictLimit, lowLimit := 0, 0, 0, 0, 0;
      compressionLevel, favorDecSpeed, dirty, dictCtx := CLEVEL_DEFAULT, false, false, null;
    }

    /** The fields as indices. */
    function W(): Window
      reads this
    {
      Window(lowLimit, dictLimit, end - base, base, dictBase)
    }

    ghost predicate Blank()
      reads this, table, table.hashTable, table.chainTable
    {
      && table.Sized() && Ranged(table.hashTable[..], table.chainTable[..], 1) && table.nextToUpdate == 0
      && W() == Window(0, 0, 0, 0, 0) && !dirty && dictCtx == null
    }

    method SetWindow(w: Window)
      modifies this`end, this`base, this`dictBase, this`dictLimit, this`lowLimit
      ensures W() == w
    {
      base := w.base;
      end := w.base + w.end;
      dictBase := w.dictBase;
      dictLimit := w.dl;
      lowLimit := w.lo;
    }

    // ----- what every operation keeps -----

    /** Tables and window fit each other, and only the last bytes of the data may still be unchained. */
    ghost predicate Ready()
      reads this, table, table.hashTable, table.chainTable
    {
      && table.Sized() && Sane(W()) && table.nextToUpdate <= Max(dictLimit, W().end - 3)
      && TablesOk(W(), table.hashTable[..], table.chainTable[..], table.nextToUpdate)
    }

    /** ... or the stream has no base yet, and its entries are below any index it will use. */
    ghost predicate OwnOk()
      reads this, table, table.hashTable, table.chainTable
    {
      && table.Sized() && 0 <= W().end <= INDEX_MAX && Ranged(table.hashTable[..], table.chainTable[..], W().end + MAXD)
      && (lowLimit != 0 ==> Ready())
    }

    /** What an attached dictionary offers. */
    function View(): Attached
      reads this, table.hashTable, table.chainTable
    {
      Attached(table.hashTable[..], table.chainTable[..], base, dictLimit, W().end)
    }
  }

  /** A stream as LZ4_loadDictHC leaves it. */
  ghost predicate Loaded(d: Stream)
    reads d, d.table, d.table.hashTable, d.table.chainTable
  {
    && d.Ready() && d.dictCtx == null && d.lowLimit == d.dictLimit == MAXD && d.W().end <= 2 * MAXD
       && AttachedOk(d.View())
  }

  /** A loaded dictionary is attached to a stream without base, or one with nothing but a prefix. */
  ghost predicate AttachmentOk(c: Stream, d: Stream?)
    reads c, d, if d == null then {} else {d.table},
          if d == null then {} else {d.table.hashTable}, if d == null then {} else {d.table.chainTable}
  {
    d != null ==>
      && d != c && d.table != c.table
         && {d.table.hashTable, d.table.chainTable} !! {c.table.hashTable, c.table.chainTable}
      && Loaded(d) && (c.lowLimit != 0 ==> c.lowLimit == c.dictLimit)
  }

  /** What every operation on a stream keeps. */
  ghost predicate Live(c: Stream)
    reads c, c.table, c.table.hashTable, c.table.chainTable, c.dictCtx, if c.dictCtx == null then {}
      else {c.dictCtx.table}, if c.dictCtx == null then {} else {c.dictCtx.table.hashTable}, if c.dictCtx == null
      then {} else {c.dictCtx.table.chainTable}
  {
    c.OwnOk() && AttachmentOk(c, c.dictCtx)
  }

  /** The window with an attached dictionary of indices d in front. */
  function Extended(w: Window, d: Window): Window
  {
    Window(w.lo - (d.end - d.dl), w.lo, w.end, w.base, d.base + d.end - w.lo)
  }

  /** An attached dictionary counts until 64 KB of data have come after it. */
  function Reached(w: Window, d: Window): Window
  {
    if w.end - w.lo >= MAXD then w else Extended(w, d)
  }

  ghost function Reaching(w: Window, d: Stream?): Window
    reads d
  {
    if d == null then w else Reached(w, d.W())
  }

  /** The window a call starts from, for a source at src if the stream has no base yet. */
  ghost function Effective(c: Stream, src: int): Window
    reads c, c.dictCtx
  {
    Reaching(Start(c.W(), src), c.dictCtx)
  }

  /** The stream knows where the end of the history is. */
  ghost predicate Tracks(c: Stream, mem: seq<byte>, hist: seq<byte>)
    reads c, c.dictCtx
  {
    InPlace(mem, Effective(c, 0), hist)
  }

  lemma ReadyBase(c: Stream)
    requires c.Ready()
    ensures c.lowLimit != 0 && c.table.Sized()
  {
    hide TablesOk;
  }

  lemma LiveOwn(c: Stream)
    requires Live(c)
    ensures c.OwnOk()
  {
    hide Ranged, TablesOk, AttachedOk;
  }

  // ---------- initialisation ----------

  /** LZ4_initStreamHC */
  method InitStreamHC(c: Stream)
    requires c.table.Sized()
    modifies c, c.table, c.table.hashTable, c.table.chainTable
    ensures c.Blank() && c.compressionLevel == CLEVEL_DEFAULT && !c.favorDecSpeed
  {
    hide Ranged;
    c.table.Zero();
    c.SetWindow(Window(0, 0, 0, 0, 0));
    c.favorDecSpeed, c.dirty, c.dictCtx := false, false, null;
    c.compressionLevel := CLEVEL_DEFAULT;
  }

  /** LZ4_setCompressionLevel */
  method SetCompressionLevel(c: Stream, level: int)
    modifies c`compressionLevel
    ensures c.compressionLevel == Level(level)
  {
    c.compressionLevel := Level(level);
  }

  /** LZ4_favorDecompressionSpeed */
  method FavorDecompressionSpeed(c: Stream, favor: bool, ghost mem: seq<byte>, ghost hist: seq<byte>)
    modifies c`favorDecSpeed
    ensures c.favorDecSpeed == favor
    ensures (old(c.OwnOk()) ==> c.OwnOk()) && (old(Live(c)) ==> Live(c))
      && (old(Tracks(c, mem, hist)) ==> Tracks(c, mem, hist))
  {
    hide TablesOk, Ranged, Loaded, InPlace;
    c.favorDecSpeed := favor;
  }

  lemma BlankIsLive(c: Stream, mem: seq<byte>)
    requires c.Blank()
    ensures Live(c) && Tracks(c, mem, [])
  {
    RangedMore(c.table.hashTable[..], c.table.chainTable[..], 1, c.W().end + MAXD);
    EmptyWindow(mem, Start(c.W(), 0), []);
  }

  /** LZ4HC_init_internal */
  method InitInternal(c: Stream, start: int)
    requires c.OwnOk()
    modifies c`end, c`base, c`dictBase, c`dictLimit, c`lowLimit, c.table, c.table.hashTable, c.table.chainTable
    ensures c.Ready() && c.W() == InitWindow(old(c.W().end), start)
  {
    hide Ranged, TablesOk;
    var startingOffset := c.end - c.base;
    if startingOffset > GB {
      c.table.Clear();
      startingOffset := 0;
      RangedMore(c.table.hashTable[..], c.table.chainTable[..], 1, MAXD);
    }
    startingOffset := startingOffset + MAXD;
    c.table.nextToUpdate := startingOffset;
    c.SetWindow(Window(startingOffset, startingOffset, startingOffset, start - startingOffset, start - startingOffset));
    FreshWindow(c.table.hashTable[..], c.table.chainTable[..], c.W());
  }

  /** LZ4_resetStreamHC_fast */
  method ResetStreamHCFast(c: Stream, level: int, ghost mem: seq<byte>)
    requires c.OwnOk()
    modifies c, c.table, c.table.hashTable, c.table.chainTable
    ensures Live(c) && Tracks(c, mem, []) && c.dictCtx == null && c.lowLimit == 0 && c.compressionLevel == Level(level)
  {
    hide Ranged, TablesOk, InPlace;
    if c.dirty {
      InitStreamHC(c);
      BlankIsLive(c, mem);
    } else {
      c.end := c.end - c.base;
      c.base := 0;
      c.lowLimit := 0;
      c.dictCtx := null;
      EmptyWindow(mem, Start(c.W(), 0), []);
    }
    SetCompressionLevel(c, level);
  }

  // ---------- dictionaries ----------

  lemma LoadingStart(hash: seq<int>, chain: seq<int>, dictEnd: int)
    requires Ranged(hash, chain, 1)
    ensures Loading(hash, chain, MAXD, dictEnd)
  {
    hide Slot;
  }

  lemma LoadedIsAttached(a: Attached, nu: int)
    requires Loading(a.hash, a.chain, nu, a.end) && a.start == MAXD && nu <= Max(MAXD, a.end - 3) && MAXD <= a.end
    requires forall s :: 0 <= s < MAXD ==> 0 <= a.chain[s]
    requires a.end - 3 <= nu || a.end < MAXD + 4
    ensures AttachedOk(a)
  {
    hide Slot;
    forall h | 0 <= h < HASH_SIZE ensures DictEntry(a, a.hash[h]) {
      assert LoadedEntry(a.hash[h], nu);
    }
    forall i | InDict(a, i) ensures DictEntry(a, i - a.chain[Slot(i)]) {
      assert LoadedLink(i, i - a.chain[Slot(i)], a.end);
    }
  }

  /** The window of a dictionary of n bytes at p. */
  function DictWindow(p: int, n: int): Window { Window(MAXD, MAXD, MAXD + n, p - MAXD, p - MAXD) }

  lemma DictInPlace(mem: seq<byte>, p: int, n: int, hist: seq<byte>)
    requires 0 <= p && 0 <= n <= |hist| && p + n <= |mem| && mem[p..p + n] == hist[|hist| - n..]
    ensures InPlace(mem, DictWindow(p, n), hist)
  {
    OnlyPrefix(mem, DictWindow(p, n), hist);
  }

  /** Chain the positions of the dictionary, up to three bytes from its end. */
  method ChainDictionary(c: Stream, mem: seq<byte>, dictionary: int, n: int)
    requires c.table.Sized() && Ranged(c.table.hashTable[..], c.table.chainTable[..], 1) && 0 <= dictionary
      && 0 <= n <= MAXD
    requires dictionary + n <= |mem| && c.W() == DictWindow(dictionary, n) && c.table.nextToUpdate == MAXD
    modifies c.table, c.table.hashTable, c.table.chainTable
    ensures c.Ready() && AttachedOk(c.View())
  {
    hide Ranged, TablesOk, Loading, HashOk, ChainOk, AttachedOk;
    ghost var w, t := c.W(), c.table;
    RangedMore(t.hashTable[..], t.chainTable[..], 1, MAXD);
    FreshWindow(t.hashTable[..], t.chainTable[..], w);
    LoadingStart(t.hashTable[..], t.chainTable[..], w.end);
    if n >= 4 { c.table.Insert(mem, w, c.base, c.end - 3 - c.base, Some(w.end)); }
    TablesRanged(w, t.hashTable[..], t.chainTable[..], t.nextToUpdate);
    ChainsPositive(t.hashTable[..], t.chainTable[..], t.nextToUpdate);
    LoadedIsAttached(c.View(), t.nextToUpdate);
  }

  lemma ChainsPositive(hash: seq<int>, chain: seq<int>, bound: int)
    requires Ranged(hash, chain, bound)
    ensures |chain| == MAXD && forall s :: 0 <= s < MAXD ==> 0 <= chain[s]
  {
  }

  /** LZ4_loadDictHC */
  method LoadDictHC(c: Stream, mem: seq<byte>, dictionary: int, dictSize: int) returns (r: int)
    requires c.table.Sized() && 0 <= dictionary && 0 <= dictSize && dictionary + dictSize <= |mem|
    modifies c, c.table, c.table.hashTable, c.table.chainTable
    ensures r == Min(dictSize, MAXD) && c.W() == DictWindow(dictionary + dictSize - r, r)
    ensures Loaded(c) && InPlace(mem, c.W(), mem[dictionary..dictionary + dictSize])
      && c.compressionLevel == Level(old(c.compressionLevel))
  {
    hide Ranged, TablesOk, AttachedOk, InPlace;
    r := Min(dictSize, MAXD);
    var p := dictionary + dictSize - r;
    var cLevel := c.compressionLevel;
    InitStreamHC(c);
    SetCompressionLevel(c, cLevel);
    RangedMore(c.table.hashTable[..], c.table.chainTable[..], 1, c.W().end + MAXD);
    ghost var hash, chain := c.table.hashTable[..], c.table.chainTable[..];
    StartAt(c, p, p + r);
    assert c.table.hashTable[..] == hash && c.table.chainTable[..] == chain;
    ChainDictionary(c, mem, p, r);
    SuffixOfSlice(mem, dictionary, dictionary + dictSize, dictSize - r);
    DictInPlace(mem, p, r, mem[dictionary..dictionary + dictSize]);
  }

  /** LZ4HC_init_internal on a blank stream, and its end set. */
  method StartAt(c: Stream, start: int, end: int)
    requires c.W().end == 0 && start <= end
    modifies c`end, c`base, c`dictBase, c`dictLimit, c`lowLimit, c.table`nextToUpdate
    ensures c.W() == DictWindow(start, end - start) && c.table.nextToUpdate == MAXD
  {
    c.table.nextToUpdate := MAXD;
    c.SetWindow(DictWindow(start, end - start));
  }

  /** LZ4_attach_HC_dictionary, to a stream that has been reset. */
  method AttachHCDictionary(c: Stream, d: Stream?, ghost mem: seq<byte>, ghost hist: seq<byte>)
    requires c.OwnOk() && c.lowLimit == 0 && AttachmentOk(c, d) && (d != null ==> InPlace(mem, d.W(), hist))
    modifies c`dictCtx
    ensures Live(c) && c.dictCtx == d && Tracks(c, mem, hist)
  {
    hide Ranged, TablesOk, AttachedOk, InPlace;
    c.dictCtx := d;
    if d == null { EmptyWindow(mem, Effective(c, 0), hist); } else { ExtendedEmpty(mem, Start(c.W(), 0), d.W(), hist); }
  }

  /** Without data of its own a window extended by a dictionary shows the dictionary. */
  lemma ExtendedEmpty(mem: seq<byte>, w: Window, d: Window, hist: seq<byte>)
    requires InPlace(mem, d, hist) && d.lo == d.dl && w.lo == w.dl == w.end && 0 <= EndAddr(w) <= |mem|
    ensures InPlace(mem, Extended(w, d), hist)
  {
    var e := Extended(w, d);
    assert mem[w.base + w.dl..w.base + w.end] == [];
    if e.lo < e.dl { assert e.dictBase + e.lo == d.base + d.dl && e.dictBase + e.dl == d.base + d.end; }
    assert Known(mem, e) == mem[d.base + d.dl..d.base + d.end];
  }

  /** LZ4HC_setExternalDict */
  method SetExternalDict(c: Stream, mem: seq<byte>, newBlock: int)
    requires c.Ready() && 0 <= c.base + c.dictLimit && c.end <= |mem|
    modifies c, c.table, c.table.hashTable, c.table.chainTable
    ensures c.Ready() && c.W() == ExternDict(old(c.W()), newBlock) && c.dictCtx == null
    ensures c.compressionLevel == old(c.compressionLevel) && c.favorDecSpeed == old(c.favorDecSpeed)
      && c.dirty == old(c.dirty)
  {
    hide TablesOk;
    ghost var w := c.W();
    if c.end >= c.base + c.dictLimit + 4 { c.table.Insert(mem, w, c.base, c.end - 3 - c.base, None); }
    ghost var nu := c.table.nextToUpdate;
    c.SetWindow(ExternDict(Window(c.lowLimit, c.dictLimit, c.end - c.base, c.base, c.dictBase), newBlock));
    c.table.nextToUpdate := c.dictLimit;
    ExternWindow(w, c.W(), c.table.hashTable[..], c.table.chainTable[..], nu);
    c.dictCtx := null;
  }

  /** Whether saving r bytes of w keeps the history with dictionary d attached: all the data since the
      dictionary, or enough to have the dictionary dropped. */
  predicate Keeps(w: Window, d: Window, r: int) { r == w.end - w.dl || r == MAXD || d.end == d.dl }

  /** LZ4_saveDictHC.  The stream's own window always shows the saved bytes; with a dictionary attached
      the whole history stays in place exactly when Keeps says so (HcSaved.SavedExactly). */
  method SaveDictHC(c: Stream, mem: array<byte>, safeBuffer: int, dictSize: int, ghost hist: seq<byte>) returns (r: int)
    requires Live(c) && c.lowLimit != 0 && Tracks(c, mem[..], hist)
    requires 0 <= safeBuffer && safeBuffer + Min(MAXD, c.W().end - c.dictLimit) <= mem.Length
    requires c.dictCtx != null ==> Beyond(c.dictCtx, safeBuffer, Min(MAXD, c.W().end - c.dictLimit))
    modifies c, c.table, mem
    ensures r == SavedSize(dictSize, old(c.W())) && c.W() == Saved(old(c.W()), safeBuffer, r)
      && c.dictCtx == old(c.dictCtx)
    ensures Live(c) && InPlace(mem[..], c.W(), hist)
    ensures c.dictCtx == null || Keeps(old(c.W()), c.dictCtx.W(), r) ==> Tracks(c, mem[..], hist)
    ensures Agree(old(mem[..]), mem[..], safeBuffer, safeBuffer + r)
  {
    hide TablesOk, Ranged, AttachedOk, InPlace, Agree, Keeps;
    ghost var m, w, nu := mem[..], c.W(), c.table.nextToUpdate;
    r := SavedSize(dictSize, c.W());
    OwnInPlace(c, m, hist);
    ReadableParts(m, w, hist);
    MemMove(mem, safeBuffer, c.end - r, r, m);
    AgreeSize(m, mem[..], safeBuffer, safeBuffer + r);
    SavedInPlace(m, mem[..], w, safeBuffer, r, hist);
    if c.dictCtx != null
      && Keeps(w, c.dictCtx.W(), r) { SavedStays(m, mem[..], w, c.dictCtx.W(), safeBuffer, r, hist); }
    PrefixWindow(w, Saved(w, safeBuffer, r), c.table.hashTable[..], c.table.chainTable[..], nu);
    c.SetWindow(Saved(Window(c.lowLimit, c.dictLimit, c.end - c.base, c.base, c.dictBase), safeBuffer, r));
    if c.table.nextToUpdate < c.dictLimit { c.table.nextToUpdate := c.dictLimit; }
    TablesRangedNow(c);
  }

  /** Memory before and after the r bytes have been saved. */
  ghost predicate SaveStep(m: seq<byte>, m1: seq<byte>, w: Window, d: Window, safeBuffer: int, r: int, hist: seq<byte>)
  {
    && InPlace(m, Reached(w, d), hist) && Agree(m, m1, safeBuffer, safeBuffer + r)
    && 0 <= r <= w.end - w.dl && 0 <= safeBuffer && safeBuffer + r <= |m1|
    && 0 <= EndAddr(w) - r && EndAddr(w) <= |m| && m1[safeBuffer..safeBuffer + r] == m[EndAddr(w) - r..EndAddr(w)]
  }

  lemma SavedStays(m: seq<byte>, m1: seq<byte>, w: Window, d: Window, safeBuffer: int, r: int, hist: seq<byte>)
    requires SaveStep(m, m1, w, d, safeBuffer, r, hist) && Keeps(w, d, r)
    requires w.lo == w.dl && d.lo == d.dl <= d.end && (EndAddr(d) <= safeBuffer || safeBuffer + r <= d.base + d.dl)
    ensures InPlace(m1, Reached(Saved(w, safeBuffer, r), d), hist)
  {
    hide InPlace, Agree;
    AgreeSize(m, m1, safeBuffer, safeBuffer + r);
    if w.end - w.lo < MAXD { ExtendedOwn(m, w, d, hist); }
    SavedInPlace(m, m1, w, safeBuffer, r, hist);
    if r >= MAXD {
    } else if r == w.end - w.dl {
      AttachedSaved(m, m1, w, d, safeBuffer, r, hist);
    } else {
      ExtendedByNothing(m1, Saved(w, safeBuffer, r), d, hist);
    }
  }

  lemma ExtendedByNothing(mem: seq<byte>, w: Window, d: Window, hist: seq<byte>)
    requires InPlace(mem, w, hist) && w.lo == w.dl && d.end == d.dl
    ensures InPlace(mem, Extended(w, d), hist)
  {
  }

  /** n bytes at a are apart from the dictionary's. */
  ghost predicate Beyond(d: Stream, a: int, n: int)
    reads d
  {
    d.end <= a || a + n <= d.base + d.dictLimit
  }

  /** The stream's own window shows the end of the history, whatever is attached. */
  lemma OwnInPlace(c: Stream, mem: seq<byte>, hist: seq<byte>)
    requires Live(c) && c.lowLimit != 0 && Tracks(c, mem, hist)
    ensures InPlace(mem, c.W(), hist)
  {
    hide TablesOk, Ranged, AttachedOk, InPlace;
    if c.dictCtx != null && c.W().end - c.lowLimit < MAXD { ExtendedOwn(mem, c.W(), c.dictCtx.W(), hist); }
  }

  lemma ExtendedOwn(mem: seq<byte>, w: Window, d: Window, hist: seq<byte>)
    requires InPlace(mem, Extended(w, d), hist) && w.lo == w.dl <= w.end && d.dl <= d.end
    ensures InPlace(mem, w, hist)
  {
    PrefixEnd(mem, Extended(w, d), hist, w.end - w.dl);
    OnlyPrefix(mem, w, hist);
  }

  /** The prefix has moved as a whole: the dictionary is still in front of it. */
  lemma AttachedSaved(m: seq<byte>, m1: seq<byte>, w: Window, d: Window, safeBuffer: int, r: int, hist: seq<byte>)
    requires InPlace(m, Extended(w, d), hist) && w.lo == w.dl && r == w.end - w.dl && 0 <= r
    requires d.lo == d.dl <= d.end && 0 <= safeBuffer && safeBuffer + r <= |m1| && |m1| == |m|
    requires Agree(m, m1, safeBuffer, safeBuffer + r) && m1[safeBuffer..safeBuffer + r] == m[EndAddr(w) - r..EndAddr(w)]
    requires EndAddr(d) <= safeBuffer || safeBuffer + r <= d.base + d.dl
    ensures InPlace(m1, Extended(Saved(w, safeBuffer, r), d), hist)
  {
    hide Agree;
    var e, e1 := Extended(w, d), Extended(Saved(w, safeBuffer, r), d);
    if e.lo < e.dl { AgreeSlice(m, m1, safeBuffer, safeBuffer + r, e.dictBase + e.lo, e.dl - e.lo); }
    assert Known(m1, e1) == Known(m, e);
  }

  /** How much is saved. */
  function SavedSize(dictSize: int, w: Window): int
  {
    Min(if dictSize > MAXD then MAXD else if dictSize < 4 then 0 else dictSize, w.end - w.dl)
  }

  lemma TablesRangedNow(c: Stream)
    requires c.Ready()
    ensures c.OwnOk()
  {
    hide TablesOk, Ranged;
    TablesRanged(c.W(), c.table.hashTable[..], c.table.chainTable[..], c.table.nextToUpdate);
    RangedMore(c.table.hashTable[..], c.table.chainTable[..], c.table.nextToUpdate, c.W().end + MAXD);
  }
}
