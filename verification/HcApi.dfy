/** The entry points of the HC compressor: continuing a stream, one-shot calls on a state that is reused,
    and whole runs. */
module HcApi {
  import opened Bytes
  import opened BlockFormat
  import opened BlockOutput
  import opened Windows
  import opened HcTables
  import opened HcMatchFinder
  import opened HcHistory
  import opened HcStream
  import opened HcContinue

  const INT_MAX: int := 0x7FFF_FFFF

  // ---------- the steps before a block ----------

  /** Auto-init if forgotten. */
  method AutoInit(c: Stream, src: int)
    requires Live(c)
    modifies c`end, c`base, c`dictBase, c`dictLimit, c`lowLimit, c.table, c.table.hashTable, c.table.chainTable
    ensures Live(c) && c.Ready() && c.W() == Start(old(c.W()), src) && (c.dictCtx != null ==> c.lowLimit == c.dictLimit)
  {
    hide Ranged, TablesOk, AttachedOk;
    if c.lowLimit == 0 { InitInternal(c, src); }
    TablesRangedNow(c);
  }

  /** Check overflow. */
  method CheckOverflow(c: Stream, mem: seq<byte>)
    requires Live(c) && c.Ready() && Readable(c.W(), |mem|)
    modifies c, c.table, c.table.hashTable, c.table.chainTable
    ensures Live(c) && c.Ready() && c.W() == Reload(old(c.W()))
    ensures c.dictCtx == (if old(c.W().end) > 2 * GB then null else old(c.dictCtx))
    ensures Behind(c.compressionLevel) == Behind(old(c.compressionLevel))
    ensures c.dictCtx != null && old(c.lowLimit == c.dictLimit) ==> c.lowLimit == c.dictLimit
  {
    hide Ranged, TablesOk, AttachedOk, InPlace;
    if c.end - c.base > 2 * GB {
      var dictSize := c.end - c.base - c.dictLimit;
      if dictSize > MAXD { dictSize := MAXD; }
      var r := LoadDictHC(c, mem, c.end - dictSize, dictSize);
    }
    TablesRangedNow(c);
  }

  /** Check if blocks follow each other. */
  method CheckFollows(c: Stream, mem: seq<byte>, src: int)
    requires Live(c) && c.Ready() && Readable(c.W(), |mem|)
    modifies c, c.table, c.table.hashTable, c.table.chainTable
    ensures Live(c) && c.Ready() && c.W() == Extern(old(c.W()), src) && c.end == src
    ensures c.dictCtx == (if old(c.end) != src then null else old(c.dictCtx))
    ensures c.compressionLevel == old(c.compressionLevel)
  {
    hide Ranged, TablesOk, AttachedOk;
    if src != c.end { SetExternalDict(c, mem, src); }
    TablesRangedNow(c);
  }

  /** Check overlapping input/dictionary space. */
  method CheckOverlap(c: Stream, src: int, n: int)
    requires Live(c) && c.Ready() && 0 <= n
    modifies c`lowLimit
    ensures Live(c) && c.Ready() && c.W() == Trim(old(c.W()), src, n)
  {
    hide Ranged, TablesOk, AttachedOk;
    ghost var w := c.W();
    var sourceEnd := src + n;
    var dictBegin, dictEnd := c.dictBase + c.lowLimit, c.dictBase + c.dictLimit;
    if sourceEnd > dictBegin && src < dictEnd {
      if sourceEnd > dictEnd { sourceEnd := dictEnd; }
      c.lowLimit := sourceEnd - c.dictBase;
      if c.dictLimit - c.lowLimit < 4 { c.lowLimit := c.dictLimit; }
    }
    TrimWindow(w, c.W(), c.table.hashTable[..], c.table.chainTable[..], c.table.nextToUpdate);
    TablesRangedNow(c);
  }

  // ---------- LZ4_compress_HC_continue ----------

  /** Whether the attached dictionary is still in reach of this call. */
  ghost predicate StaysAttached(c: Stream, src: int)
    reads c
  {
    c.dictCtx != null && Start(c.W(), src).end <= 2 * GB && src == EndAddr(Start(c.W(), src))
  }

  /** The window whose bytes the call may still use. */
  ghost function Using(c: Stream, src: int, n: int): Window
    reads c, c.dictCtx
  {
    if StaysAttached(c, src) then Reaching(Start(c.W(), src), c.dictCtx) else InUse(c.W(), src, n)
  }

  /** What a caller owes: that window shows the end of the history, the last block's memory can still be
      read, and at the levels that search with chainSwap three bytes behind the dictionary too. */
  ghost predicate HistoryReady(c: Stream, mem: seq<byte>, src: int, n: int, hist: seq<byte>)
    reads c, c.dictCtx
  {
    && Readable(Start(c.W(), src), |mem|)
    && (n <= MAX_INPUT_SIZE ==> InPlace(mem, Using(c, src, n), hist))
    && if StaysAttached(c, src) then 0 <= c.dictCtx.base + MAXD && c.dictCtx.end + Behind(c.compressionLevel) <= |mem|
       else var u := InUse(c.W(), src, n); u.lo < u.dl ==> u.dictBase + u.dl + Behind(c.compressionLevel) <= |mem|
  }

  /** Without overflow and with the source following, nothing but the start matters. */
  lemma AttachedUse(w: Window, src: int, n: int)
    requires Start(w, src).end <= 2 * GB && src == EndAddr(Start(w, src)) && Start(w, src).lo == Start(w, src).dl
    ensures InUse(w, src, n) == Start(w, src)
  {
  }

  /** The window is brought in line with the source. */
  method Align(c: Stream, mem: seq<byte>, src: int, n: int)
    requires Live(c) && 0 <= src && 0 <= n && Readable(Start(c.W(), src), |mem|)
    modifies c, c.table, c.table.hashTable, c.table.chainTable
    ensures Live(c) && c.Ready() && c.end == src && c.W() == InUse(old(c.W()), src, n)
    ensures c.dictCtx == (if old(StaysAttached(c, src)) then old(c.dictCtx) else null)
    ensures old(StaysAttached(c, src)) ==> c.lowLimit == c.dictLimit && c.W() == Start(old(c.W()), src)
    ensures Behind(c.compressionLevel) == Behind(old(c.compressionLevel))
  {
    hide Ranged, TablesOk, AttachedOk, Readable, Trim, Loaded;
    ghost var w, s := c.W(), Start(c.W(), src);
    AutoInit(c, src);
    ReadableSteps(w, mem, src);
    ghost var attached := c.dictCtx != null;
    if attached && s.end <= 2 * GB && src == EndAddr(s) { AttachedUse(w, src, n); }
    CheckOverflow(c, mem);
    CheckFollows(c, mem, src);
    CheckOverlap(c, src, n);
  }

  /** LZ4_compressHC_continue_generic.  Whatever came before on this stream, the block decodes to its
      source after the whole history, and the stream stays fit for the next block. */
  method ContinueGeneric(c: Stream, mem: seq<byte>, src: int, n: int, dst: array<byte>, cap: int, limit: Limit,
      ghost hist: seq<byte>)
    returns (result: int)
    requires Live(c) && 0 < src <= |mem| && 0 <= n <= INT_MAX && (n <= MAX_INPUT_SIZE ==> src + n <= |mem|)
    requires HistoryReady(c, mem, src, n, hist)
    requires !limit.FillOutput? && 0 <= cap <= dst.Length && (limit.NotLimited? ==> CompressBound(n) <= cap)
    modifies c, c.table, c.table.hashTable, c.table.chainTable, dst
    ensures if n <= MAX_INPUT_SIZE then Continued(dst[..], hist, mem[src..src + n], cap, result) else result == 0
    ensures Live(c) && c.Ready() && EndAddr(c.W()) == src + Used(n)
    ensures Behind(c.compressionLevel) == Behind(old(c.compressionLevel))
    ensures c.dictCtx == null || c.dictCtx == old(c.dictCtx)
    ensures n <= MAX_INPUT_SIZE ==> Tracks(c, mem, hist + mem[src..src + n])
    ensures c.W() == Grow(InUse(old(c.W()), src, n), Used(n))
         || (old(c.dictCtx) != null && c.W() == Grow(ExternDict(old(c.dictCtx.W()), src), Used(n)))
  {
    hide Ranged, TablesOk, AttachedOk, InPlace, Continued, CompressBound, Readable, InUse, Loaded;
    RangeOfUse(c, src, n);
    Align(c, mem, src, n);
    result := CompressGeneric(c, mem, src, n, dst, cap, c.compressionLevel, limit, hist);
  }

  lemma RangeOfUse(c: Stream, src: int, n: int)
    requires Live(c) && 0 <= n
    ensures InUse(c.W(), src, n).end <= 2 * GB
  {
    hide Ranged, TablesOk, AttachedOk, Loaded;
    InUseSane(c.W(), src, n);
  }

  /** The last block's memory stays readable through the steps. */
  lemma ReadableSteps(w: Window, mem: seq<byte>, src: int)
    requires Readable(Start(w, src), |mem|) && Start(w, src).lo <= Start(w, src).dl <= Start(w, src).end
    ensures Readable(Reload(Start(w, src)), |mem|)
  {
  }

  /** LZ4_compress_HC_continue */
  method CompressHCContinue(c: Stream, mem: seq<byte>, src: int, n: int, dst: array<byte>, cap: int,
      ghost hist: seq<byte>)
    returns (result: int)
    requires Live(c) && 0 < src <= |mem| && 0 <= n <= INT_MAX && (n <= MAX_INPUT_SIZE ==> src + n <= |mem|)
    requires HistoryReady(c, mem, src, n, hist) && 0 <= cap <= dst.Length
    modifies c, c.table, c.table.hashTable, c.table.chainTable, dst
    ensures if n <= MAX_INPUT_SIZE then Continued(dst[..], hist, mem[src..src + n], cap, result) else result == 0
    ensures Live(c) && c.Ready() && EndAddr(c.W()) == src + Used(n)
    ensures Behind(c.compressionLevel) == Behind(old(c.compressionLevel))
    ensures c.dictCtx == null || c.dictCtx == old(c.dictCtx)
    ensures n <= MAX_INPUT_SIZE ==> Tracks(c, mem, hist + mem[src..src + n])
    ensures c.W() == Grow(InUse(old(c.W()), src, n), Used(n))
         || (old(c.dictCtx) != null && c.W() == Grow(ExternDict(old(c.dictCtx.W()), src), Used(n)))
  {
    hide Live, HistoryReady, Continued, CompressBound, InPlace, InUse;
    var limit := if cap < CompressBound(n) then LimitedOutput else NotLimited;
    result := ContinueGeneric(c, mem, src, n, dst, cap, limit, hist);
  }

  // ---------- a history that is wholly in place ----------

  /** What the stream's level may read behind the stream's segments, and an attached dictionary's. */
  ghost predicate Slack(c: Stream, size: int)
    reads c, c.dictCtx
  {
    var k := Behind(c.compressionLevel);
    && (c.lowLimit != 0 ==> c.end + k <= size && (c.lowLimit < c.dictLimit ==> c.dictBase + c.dictLimit + k <= size))
    && (c.dictCtx != null ==> 0 <= c.dictCtx.base + MAXD && c.dictCtx.end + k <= size)
  }

  lemma UseOfSlack(w: Window, src: int, n: int, size: int, k: int)
    requires w.lo != 0 ==> EndAddr(w) + k <= size && (w.lo < w.dl ==> w.dictBase + w.dl + k <= size)
    ensures var u := InUse(w, src, n); u.lo < u.dl ==> u.dictBase + u.dl + k <= size
  {
  }

  lemma FreshUse(w: Window, src: int, n: int)
    requires w.lo == 0 && 0 <= n
    ensures InUse(w, src, n) == Start(w, src) && Start(w, src).end <= 2 * GB && EndAddr(Start(w, src)) == src
    ensures var s := Start(w, src); s.lo == s.dl == s.end
  {
  }

  /** ... is ready for any source. */
  lemma TracksReady(c: Stream, mem: seq<byte>, src: int, n: int, hist: seq<byte>)
    requires Live(c) && Tracks(c, mem, hist) && Slack(c, |mem|) && 0 <= src <= |mem| && 0 <= n
    ensures HistoryReady(c, mem, src, n, hist)
  {
    hide Ranged, TablesOk, AttachedOk, InPlace, InUse;
    var w := c.W();
    UseOfSlack(w, src, n, |mem|, Behind(c.compressionLevel));
    if w.lo == 0 {
      FreshUse(w, src, n);
      FreshUse(w, 0, n);
      if c.dictCtx == null { EmptyWindow(mem, Start(w, src), hist); }
      else {
        ExtendedParts(mem, Start(w, 0), c.dictCtx.W(), hist);
        ExtendedEmpty(mem, Start(w, src), c.dictCtx.W(), hist);
      }
    } else {
      OwnInPlace(c, mem, hist);
      ReadableNow(mem, w, hist);
      if !StaysAttached(c, src) { StillInPlace(mem, w, src, n, hist); }
    }
  }

  lemma ReadableNow(mem: seq<byte>, w: Window, hist: seq<byte>)
    requires InPlace(mem, w, hist)
    ensures Readable(w, |mem|)
  {
  }

  // ---------- one-shot calls ----------

  /** LZ4_compress_HC_extStateHC_fastReset: whatever earlier calls left, the block is what a fresh state
      would promise, and the state can be reused again. */
  method CompressHCFastReset(c: Stream, mem: seq<byte>, src: int, n: int, dst: array<byte>, cap: int, level: int)
    returns (result: int)
    requires c.OwnOk() && 0 < src <= |mem| && (0 <= n <= MAX_INPUT_SIZE ==> src + n <= |mem|) && 0 <= cap <= dst.Length
    modifies c, c.table, c.table.hashTable, c.table.chainTable, dst
    ensures if 0 <= n <= MAX_INPUT_SIZE then OneShot(dst[..], mem[src..src + n], cap, result) else result == 0
    ensures c.OwnOk() && c.dictCtx == null
  {
    hide Ranged, TablesOk, Continued, CompressBound, InPlace, OneShot, AttachedOk;
    ResetStreamHCFast(c, level, mem);
    InitInternal(c, src);
    TablesRangedNow(c);
    if n < 0 { return 0; }
    var limit := if cap < CompressBound(n) then LimitedOutput else NotLimited;
    EmptyWindow(mem, c.W(), []);
    result := CompressGeneric(c, mem, src, n, dst, cap, level, limit, []);
    if n <= MAX_INPUT_SIZE { ContinuedAlone(dst[..], mem[src..src + n], cap, result); }
  }

  lemma ContinuedAlone(dst: seq<byte>, src: seq<byte>, cap: int, result: int)
    requires Continued(dst, [], src, cap, result) && 0 <= cap
    ensures OneShot(dst, src, cap, result)
  {
    hide Encodes, Decode, CompressBound;
    if result > 0 {
      var none: seq<byte> := [];
      var k :| 0 <= k <= |none| && Encodes(dst[..result], Suffix(none, k) + src, k, k + |src|);
      assert Suffix(none, k) + src == src;
      EncodesAlone(dst[..result], src);
    }
  }

  /** LZ4_compress_HC */
  method CompressHC(mem: seq<byte>, src: int, n: int, dst: array<byte>, cap: int, level: int) returns (result: int)
    requires 0 < src <= |mem| && (0 <= n <= MAX_INPUT_SIZE ==> src + n <= |mem|) && 0 <= cap <= dst.Length
    modifies dst
    ensures if 0 <= n <= MAX_INPUT_SIZE then OneShot(dst[..], mem[src..src + n], cap, result) else result == 0
  {
    hide OneShot, Ranged;
    var state := new Stream();
    BlankIsLive(state, mem);
    result := CompressHCFastReset(state, mem, src, n, dst, cap, level);
  }
}
