/** LZ4_compress_HC_continue and the one-shot HC entry points: the level's parser in the window that the
    stream's history mode gives, over any number of blocks. */
module HcContinue {
  import opened Bytes
  import opened BlockFormat
  import opened BlockOutput
  import opened Windows
  import opened HcTables
  import opened HcMatchFinder
  import opened HcHistory
  import opened HcStream
  import P = HcParser
  import O = HcOptimal

  // ---------- levels ----------

  /** clTable */
  datatype Params = Params(optimal: bool, nbSearches: int, targetLength: int)

  function ParamsOf(level: int): Params
  {
    match level
    case 3 => Params(false, 4, 16)
    case 4 => Params(false, 8, 16)
    case 5 => Params(false, 16, 16)
    case 6 => Params(false, 32, 16)
    case 7 => Params(false, 64, 16)
    case 8 => Params(false, 128, 16)
    case 9 => Params(false, 256, 16)
    case 10 => Params(true, 96, 64)
    case 11 => Params(true, 512, 128)
    case 12 => Params(true, 16384, 4096)
    case _ => Params(false, 2, 16)
  }

  /** The levels that search with chainSwap. */
  predicate Swaps(level: int) { ParamsOf(Level(level)).optimal }

  /** How many bytes behind an external dictionary they may read. */
  function Behind(level: int): (k: int)
    ensures 0 <= k <= 3
  {
    if Swaps(level) then 3 else 0
  }

  // ---------- one block in a given window ----------

  /** The window of the parser: what is known, and the source behind it. */
  function WithSource(w: Window, n: int): Window
  {
    w.(end := w.end + n, dictBase := if w.lo < w.dl then w.dictBase else w.base)
  }

  function Text(mem: seq<byte>, w: Window, n: int): seq<byte>
    requires Readable(w, |mem|) && 0 <= n && EndAddr(w) + n <= |mem|
  {
    Known(mem, w) + mem[EndAddr(w)..EndAddr(w) + n]
  }

  lemma ShowsHalves(w: Window, mem: seq<byte>, d: seq<byte>, e: seq<byte>)
    requires w.lo <= w.dl <= w.end && 0 <= w.dictBase + w.lo && w.dictBase + w.dl <= |mem| && 0 <= w.base + w.dl
      && w.base + w.end <= |mem|
    requires d == mem[w.dictBase + w.lo..w.dictBase + w.dl] && e == mem[w.base + w.dl..w.base + w.end]
    ensures Shows(w, mem, d + e)
  {
    var x := d + e;
    assert x[..|d|] == d && x[|d|..] == e;
  }

  lemma TextShown(mem: seq<byte>, w: Window, n: int)
    requires Readable(w, |mem|) && 0 <= n && EndAddr(w) + n <= |mem|
    ensures Shows(WithSource(w, n), mem, Text(mem, w, n))
  {
    hide Shows;
    var v := WithSource(w, n);
    var d, e := mem[v.dictBase + v.lo..v.dictBase + v.dl], mem[v.base + v.dl..v.base + v.end];
    TextIs(mem, w, n, d, e);
    ShowsHalves(v, mem, d, e);
  }

  lemma TextIs(mem: seq<byte>, w: Window, n: int, d: seq<byte>, e: seq<byte>)
    requires Readable(w, |mem|) && 0 <= n && EndAddr(w) + n <= |mem|
    requires e == mem[w.base + w.dl..EndAddr(w) + n]
    requires if w.lo < w.dl then d == mem[w.dictBase + w.lo..w.dictBase + w.dl] else d == []
    ensures Text(mem, w, n) == d + e
  {
    SliceJoin(mem, w.base + w.dl, EndAddr(w), EndAddr(w) + n);
    Concat3(d, mem[w.base + w.dl..EndAddr(w)], mem[EndAddr(w)..EndAddr(w) + n]);
  }

  /** An attached dictionary without bytes offers no candidate. */
  function Offered(w: Window, att: Option<Attached>): Option<Attached> { if w.lo == w.dl then None else att }

  /** The window ends with the attached dictionary's bytes below dl. */
  ghost predicate Matches(w: Window, att: Option<Attached>)
  {
    att.Some? ==> AttachedOk(att.value) && w.dl - w.lo == att.value.end - att.value.start
                  && w.dictBase + w.dl == att.value.base + att.value.end
  }

  /** A window with or without an attached dictionary in front is searchable. */
  lemma Prepared(mem: seq<byte>, w: Window, att: Option<Attached>, n: int)
    requires Readable(w, |mem|) && 0 <= n && EndAddr(w) + n <= |mem| && MAXD <= OwnWindow(w, att).lo
    requires Matches(w, att)
    ensures Searchable(WithSource(w, n), Offered(w, att), mem, Text(mem, w, n))
    ensures OwnWindow(WithSource(w, n), Offered(w, att)).lo == OwnWindow(w, att).lo
    ensures OwnWindow(WithSource(w, n), Offered(w, att)).dl == w.dl
  {
    hide AttachedOk, Shows, Text, Known;
    TextShown(mem, w, n);
  }

  /** The parser of the level. */
  method Dispatch(t: HcTable, w: Window, att: Option<Attached>, mem: seq<byte>, x: seq<byte>, s0: int, dst: array<byte>,
      cap: int, level: int, limit: Limit, favorDecSpeed: bool)
    returns (result: int, consumed: int, o: Output)
    requires Searchable(w, att, mem, x) && w.end < 0x1_0000_0000 && t.Valid(OwnWindow(w, att))
      && t.nextToUpdate <= s0 + w.lo && (Swaps(level) ==> O.Room(w, att, |mem|))
    requires w.dl - w.lo <= s0 <= |x| && |x| - s0 <= MAX_INPUT_SIZE
    requires if limit == NotLimited then CompressBound(|x| - s0) <= dst.Length else 0 <= cap <= dst.Length
    requires limit == FillOutput ==> 1 <= cap
    modifies t, t.hashTable, t.chainTable, dst
    ensures fresh(o) && o.dst == dst && t.Valid(OwnWindow(w, att))
    ensures t.nextToUpdate <= Max(s0 + w.lo, w.end - LASTLITERALS - MINMATCH)
    ensures |x| - s0 < MFLIMIT ==> t.nextToUpdate == old(t.nextToUpdate)
    ensures Compressed(o, x, s0, limit, cap, result, consumed)
  {
    hide Searchable, CompressBound, Compressed;
    var p := ParamsOf(Level(level));
    if p.optimal {
      result, consumed, o := O.CompressOptimal(t, w, att, mem, x, s0, dst, cap, p.nbSearches, p.targetLength, limit,
                                               Level(level) == CLEVEL_MAX, favorDecSpeed);
    } else {
      result, consumed, o := P.CompressHashChain(t, w, att, mem, x, s0, dst, cap, p.nbSearches, limit);
    }
  }

  /** The tables serve a window that differs only in what does not matter to them. */
  lemma ValidHere(t: HcTable, w: Window, w1: Window)
    requires t.Valid(w) && w1.lo == w.lo && w1.dl == w.dl
    ensures t.Valid(w1)
  {
    SameLimits(w, w1, t.hashTable[..], t.chainTable[..], t.nextToUpdate);
  }

  /** LZ4HC_compress_generic_internal on a stream whose data ends where the source starts; w is its
      window, with the attached dictionary in front if there is one. */
  method CompressInternal(c: Stream, w: Window, att: Option<Attached>, mem: seq<byte>, n: int, dst: array<byte>,
      cap: int, level: int, limit: Limit, ghost hist: seq<byte>)
    returns (result: int)
    requires c.Ready() && 0 <= n <= MAX_INPUT_SIZE && c.W().end + n <= INDEX_MAX
    requires OwnWindow(w, att).lo == c.lowLimit && w.dl == c.dictLimit && w.end == c.W().end && w.base == c.base
      && Matches(w, att)
    requires InPlace(mem, w, hist) && EndAddr(w) + n <= |mem|
      && (Swaps(level) ==> O.Room(w, att, |mem|))
    requires !limit.FillOutput? && 0 <= cap <= dst.Length && (limit.NotLimited? ==> CompressBound(n) <= cap)
    modifies c`end, c`dirty, c.table, c.table.hashTable, c.table.chainTable, dst
    ensures Continued(dst[..], hist, mem[EndAddr(w)..EndAddr(w) + n], cap, result)
    ensures c.Ready() && c.W() == old(c.W()).(end := old(c.W().end) + n)
  {
    hide Searchable, CompressBound, Compressed, Matches, TablesOk, Continued;
    ghost var own := c.W();
    ReadableParts(mem, w, hist);
    KnownIsSuffix(mem, w, hist);
    var v, a, x, s0 := WithSource(w, n), Offered(w, att), Text(mem, w, n), w.end - w.lo;
    Prepared(mem, w, att, n);
    ValidHere(c.table, own, OwnWindow(v, a));
    c.end := c.end + n;
    var consumed, o;
    result, consumed, o := Dispatch(c.table, v, a, mem, x, s0, dst, cap, level, limit, c.favorDecSpeed);
    CompressedContinued(o, x, s0, limit, cap, result, consumed, hist, mem[EndAddr(w)..EndAddr(w) + n], cap);
    ValidHere(c.table, OwnWindow(v, a), c.W());
    if result <= 0 { c.dirty := true; }
  }

  lemma KnownIsSuffix(mem: seq<byte>, w: Window, hist: seq<byte>)
    requires InPlace(mem, w, hist)
    ensures Known(mem, w) == hist[|hist| - (w.end - w.lo)..]
  {
  }

  // ---------- which history ----------

  /** LZ4HC_compress_generic_internal refuses sizes beyond LZ4_MAX_INPUT_SIZE, before anything changes. */
  method CompressSized(c: Stream, w: Window, att: Option<Attached>, mem: seq<byte>, n: int, dst: array<byte>, cap: int,
                       level: int, limit: Limit, ghost hist: seq<byte>)
    returns (result: int)
    requires c.Ready() && 0 <= n && c.W().end <= 2 * GB
    requires OwnWindow(w, att).lo == c.lowLimit && w.dl == c.dictLimit && w.end == c.W().end && w.base == c.base
      && Matches(w, att)
    requires n <= MAX_INPUT_SIZE ==>
      InPlace(mem, w, hist) && EndAddr(w) + n <= |mem| && (Swaps(level) ==> O.Room(w, att, |mem|))
    requires !limit.FillOutput? && 0 <= cap <= dst.Length && (limit.NotLimited? ==> CompressBound(n) <= cap)
    modifies c`end, c`dirty, c.table, c.table.hashTable, c.table.chainTable, dst
    ensures if n <= MAX_INPUT_SIZE then EndAddr(w) + n <= |mem| && 0 <= EndAddr(w)
      && Continued(dst[..], hist, mem[EndAddr(w)..EndAddr(w) + n], cap, result)
            else result == 0
    ensures c.Ready() && c.W() == old(c.W()).(end := old(c.W().end) + Used(n))
  {
    hide CompressBound, Matches, TablesOk, Continued, InPlace;
    if n > MAX_INPUT_SIZE { return 0; }
    ReadableParts(mem, w, hist);
    result := CompressInternal(c, w, att, mem, n, dst, cap, level, limit, hist);
  }

  /** Index space used up by a call. */
  function Used(n: int): int { if n <= MAX_INPUT_SIZE then n else 0 }

  /** LZ4HC_compress_generic_noDictCtx */
  method CompressNoDictCtx(c: Stream, mem: seq<byte>, n: int, dst: array<byte>, cap: int, level: int, limit: Limit,
      ghost hist: seq<byte>)
    returns (result: int)
    requires c.Ready() && 0 <= n && c.W().end <= 2 * GB
    requires n <= MAX_INPUT_SIZE ==>
      InPlace(mem, c.W(), hist) && c.end + n <= |mem|
      && (Swaps(level) ==> O.Room(c.W(), None, |mem|))
    requires !limit.FillOutput? && 0 <= cap <= dst.Length && (limit.NotLimited? ==> CompressBound(n) <= cap)
    modifies c`end, c`dirty, c.table, c.table.hashTable, c.table.chainTable, dst
    ensures if n <= MAX_INPUT_SIZE then 0 <= old(c.end) && old(c.end) + n <= |mem|
      && Continued(dst[..], hist, mem[old(c.end)..old(c.end) + n], cap, result)
            else result == 0
    ensures c.Ready() && c.W() == old(c.W()).(end := old(c.W().end) + Used(n))
    ensures n <= MAX_INPUT_SIZE ==> InPlace(mem, c.W(), hist + mem[old(c.end)..old(c.end) + n])
  {
    hide CompressBound, TablesOk, Continued, InPlace;
    ghost var w, end := c.W(), c.end;
    if n <= MAX_INPUT_SIZE { NextInPlace(mem, w, end, n, hist); }
    result := CompressSized(c, c.W(), None, mem, n, dst, cap, level, limit, hist);
  }

  /** memcpy(ctx, ctx->dictCtx, sizeof(LZ4HC_CCtx_internal)) */
  method CopyState(c: Stream, d: Stream)
    requires AttachmentOk(c, d) && c.table.Sized()
    modifies c, c.table, c.table.hashTable, c.table.chainTable
    ensures c.Ready() && c.W() == d.W() && c.dictCtx == null
  {
    hide TablesOk, AttachedOk;
    c.table.CopyFrom(d.table);
    c.SetWindow(Window(d.lowLimit, d.dictLimit, d.end - d.base, d.base, d.dictBase));
    c.compressionLevel, c.favorDecSpeed, c.dirty := d.compressionLevel, d.favorDecSpeed, d.dirty;
    c.dictCtx := d.dictCtx;
  }

  lemma MatchesView(c: Stream, d: Stream)
    requires c.Ready() && AttachmentOk(c, d) && c.lowLimit == c.dictLimit
    ensures var w := Extended(c.W(), d.W()); Matches(w, Some(d.View())) && OwnWindow(w, Some(d.View())).lo == c.lowLimit
    ensures d.Ready() && d.W().lo == d.W().dl && c.table.Sized()
  {
    hide AttachedOk, TablesOk;
  }

  /** What an extended window shows: the dictionary, then the stream's own data. */
  lemma ExtendedParts(mem: seq<byte>, w: Window, d: Window, hist: seq<byte>)
    requires InPlace(mem, Extended(w, d), hist) && w.lo == w.dl <= w.end && d.lo == d.dl <= d.end
    ensures w.lo == w.end && 0 <= EndAddr(d) <= |mem| && 0 <= d.base + d.dl ==> InPlace(mem, d, hist)
  {
    var e := Extended(w, d);
    if w.lo == w.end && 0 <= EndAddr(d) <= |mem| && 0 <= d.base + d.dl {
      assert mem[w.base + w.dl..w.base + w.end] == [];
      if e.lo == e.dl { assert mem[d.base + d.dl..d.base + d.end] == []; }
      OnlyPrefix(mem, d, hist);
    }
  }

  /** The attached dictionary is read in place; it stays attached. */
  method CompressLooking(c: Stream, mem: seq<byte>, n: int, dst: array<byte>, cap: int, level: int, limit: Limit,
      ghost hist: seq<byte>)
    returns (result: int)
    requires Live(c) && c.Ready() && c.dictCtx != null && c.lowLimit == c.dictLimit && 0 <= n && c.W().end <= 2 * GB
    requires n <= MAX_INPUT_SIZE ==> InPlace(mem, Extended(c.W(), c.dictCtx.W()), hist) && c.end + n <= |mem|
    requires !limit.FillOutput? && 0 <= cap <= dst.Length && (limit.NotLimited? ==> CompressBound(n) <= cap)
    modifies c`end, c`dirty, c.table, c.table.hashTable, c.table.chainTable, dst
    ensures if n <= MAX_INPUT_SIZE then 0 <= old(c.end) && old(c.end) + n <= |mem|
      && Continued(dst[..], hist, mem[old(c.end)..old(c.end) + n], cap, result)
            else result == 0
    ensures c.Ready() && c.W() == old(c.W()).(end := old(c.W().end) + Used(n))
    ensures n <= MAX_INPUT_SIZE ==>
      InPlace(mem, Extended(c.W(), old(c.dictCtx.W())), hist + mem[old(c.end)..old(c.end) + n])
  {
    hide CompressBound, TablesOk, Continued, InPlace, Matches, AttachedOk, Loaded;
    MatchesView(c, c.dictCtx);
    ghost var w, end := Extended(c.W(), c.dictCtx.W()), c.end;
    if n <= MAX_INPUT_SIZE { NextInPlace(mem, w, end, n, hist); }
    result := CompressSized(c, Extended(c.W(), c.dictCtx.W()), Some(c.dictCtx.View()), mem, n, dst, cap, level, limit,
      hist);
  }

  /** The state of the dictionary is copied, and the dictionary becomes an external one. */
  method CompressCopied(c: Stream, mem: seq<byte>, src: int, n: int, dst: array<byte>, cap: int, level: int,
      limit: Limit, ghost hist: seq<byte>)
    returns (result: int)
    requires Live(c) && c.Ready() && c.dictCtx != null && c.lowLimit == c.dictLimit == c.W().end && c.end == src
      && 0 <= n && 0 <= src
    requires 0 <= c.dictCtx.base + MAXD && c.dictCtx.end + Behind(level) <= |mem| && src <= |mem|
    requires n <= MAX_INPUT_SIZE ==> InPlace(mem, Extended(c.W(), c.dictCtx.W()), hist) && src + n <= |mem|
    requires !limit.FillOutput? && 0 <= cap <= dst.Length && (limit.NotLimited? ==> CompressBound(n) <= cap)
    modifies c, c.table, c.table.hashTable, c.table.chainTable, dst
    ensures if n <= MAX_INPUT_SIZE then src + n <= |mem| && Continued(dst[..], hist, mem[src..src + n], cap, result)
      else result == 0
    ensures c.Ready() && c.dictCtx == null && c.compressionLevel == level
    ensures c.W() == Grow(ExternDict(old(c.dictCtx.W()), src), Used(n))
    ensures n <= MAX_INPUT_SIZE ==> InPlace(mem, c.W(), hist + mem[src..src + n])
  {
    hide CompressBound, TablesOk, Continued, InPlace, AttachedOk;
    ghost var d := c.dictCtx.W();
    if n <= MAX_INPUT_SIZE {
      ExtendedParts(mem, c.W(), d, hist);
      ExternFrom(mem, d, src, hist);
    }
    CopyState(c, c.dictCtx);
    SetExternalDict(c, mem, src);
    c.compressionLevel := level;
    result := CompressNoDictCtx(c, mem, n, dst, cap, level, limit, hist);
  }

  lemma ExternFrom(mem: seq<byte>, w: Window, src: int, hist: seq<byte>)
    requires InPlace(mem, w, hist) && 0 <= src <= |mem|
    ensures InPlace(mem, ExternDict(w, src), hist)
  {
    PrefixEnd(mem, w, hist, w.end - w.dl);
    ExternBytes(mem, w, src);
  }

  lemma ReachingNow(c: Stream, mem: seq<byte>, hist: seq<byte>)
    requires c.Ready() && c.dictCtx != null && c.lowLimit == c.dictLimit
      && InPlace(mem, Extended(c.W(), c.dictCtx.W()), hist)
    requires c.dictCtx.dictLimit <= c.dictCtx.W().end
    ensures InPlace(mem, Reaching(c.W(), c.dictCtx), hist)
  {
    hide InPlace, TablesOk;
    ExtendedOwn(mem, c.W(), c.dictCtx.W(), hist);
  }

  /** LZ4HC_compress_generic: an attached dictionary is read while it is within reach, copied for a large
      first block, and forgotten when 64 KB of data have come after it. */
  method CompressGeneric(c: Stream, mem: seq<byte>, src: int, n: int, dst: array<byte>, cap: int, level: int,
      limit: Limit, ghost hist: seq<byte>)
    returns (result: int)
    requires Live(c) && c.Ready() && (c.dictCtx != null ==> c.lowLimit == c.dictLimit) && c.end == src
      && 0 < src <= |mem| && 0 <= n && c.W().end <= 2 * GB
    requires n <= MAX_INPUT_SIZE ==> src + n <= |mem| && InPlace(mem, Reaching(c.W(), c.dictCtx), hist)
    requires if c.dictCtx == null then c.lowLimit < c.dictLimit ==> c.dictBase + c.dictLimit + Behind(level) <= |mem|
             else 0 <= c.dictCtx.base + MAXD && c.dictCtx.end + Behind(level) <= |mem|
    requires !limit.FillOutput? && 0 <= cap <= dst.Length && (limit.NotLimited? ==> CompressBound(n) <= cap)
    modifies c, c.table, c.table.hashTable, c.table.chainTable, dst
    ensures if n <= MAX_INPUT_SIZE then src + n <= |mem| && Continued(dst[..], hist, mem[src..src + n], cap, result)
      else result == 0
    ensures Live(c) && c.Ready() && (c.dictCtx != null ==> c.lowLimit == c.dictLimit)
    ensures n <= MAX_INPUT_SIZE ==> InPlace(mem, Reaching(c.W(), c.dictCtx), hist + mem[src..src + n])
    ensures c.dictCtx == null || c.dictCtx == old(c.dictCtx)
    ensures c.compressionLevel in {level, old(c.compressionLevel)}
    ensures EndAddr(c.W()) == src + Used(n)
    ensures c.W() == Grow(old(c.W()), Used(n))
         || (old(c.dictCtx) != null && c.W() == Grow(ExternDict(old(c.dictCtx.W()), src), Used(n)))
  {
    hide CompressBound, TablesOk, Continued, InPlace, AttachedOk, Ranged;
    if c.dictCtx == null {
      result := CompressNoDictCtx(c, mem, n, dst, cap, level, limit, hist);
    } else {
      var position := c.end - c.base - c.lowLimit;
      if position >= MAXD {
        c.dictCtx := null;
        result := CompressNoDictCtx(c, mem, n, dst, cap, level, limit, hist);
      } else if position == 0 && n > 4096 {
        result := CompressCopied(c, mem, src, n, dst, cap, level, limit, hist);
      } else {
        result := CompressLooking(c, mem, n, dst, cap, level, limit, hist);
        if n <= MAX_INPUT_SIZE { ReachingNow(c, mem, hist + mem[src..src + n]); }
      }
    }
    TablesRangedNow(c);
  }
}
