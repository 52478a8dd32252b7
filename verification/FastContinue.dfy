/** LZ4_compress_fast_continue over any number of blocks: in every history mode each block decodes
    to its source given everything before it. */
module FastContinue {
  import opened Bytes
  import opened BlockFormat
  import opened BlockOutput
  import opened Windows
  import opened Alias
  import opened MatchLength
  import opened FastTable
  import opened FastCompressor
  import opened FastStream
  import opened FastApi
  import opened FastHistory

  lemma OutcomeContinued(dst: seq<byte>, pre: seq<byte>, hist: seq<byte>, src: seq<byte>, cap: int, result: int,
      consumed: int)
    requires Outcome(dst, pre, src, LimitedOutput, cap, ByU32, result, consumed)
    requires |src| <= MAX_INPUT_SIZE && 0 <= cap && |pre| <= |hist| && hist[|hist| - |pre|..] == pre
    ensures Continued(dst, hist, src, cap, result)
  {
    hide Encodes, CompressBound;
    if result > 0 { assert Encodes(dst[..result], Suffix(hist, |pre|) + src, |pre|, |pre| + |src|); }
  }

  /** The arguments every mode passes on. */
  ghost predicate ArgumentsOk(mem: seq<byte>, source: int, dst: array<byte>, n: int, cap: int)
  {
    && 0 < source && 0 <= n <= INT_MAX && 0 <= cap <= dst.Length
    && (n <= MAX_INPUT_SIZE ==> source + n <= |mem|)
  }

  /** dictSmall */
  function Small(w: Where): bool { w.dict.size < KB64 && w.dict.size < w.offset }

  lemma SmallCovers(w: Where)
    requires Sane(w)
    ensures Covered(w.offset, w.dict.size, Small(w))
  {
  }

  /** Index space used up by a call. */
  function Used(n: int): int { if n <= MAX_INPUT_SIZE then n else 0 }

  lemma PrefixArguments(mem: seq<byte>, d: Dict, hist: seq<byte>, source: int, n: int)
    requires InPlace(mem, d, hist) && d.End() == source && 0 <= n && source + n <= |mem|
    ensures HistoryAt(|mem|, source, n, d.start, d.size, WithPrefix)
    ensures KnownHistory(mem, source, d.start, d.size, WithPrefix) == hist[|hist| - d.size..] && d.size <= |hist|
  {
  }

  lemma ExternalArguments(mem: seq<byte>, d: Dict, hist: seq<byte>, source: int, n: int, mode: History)
    requires InPlace(mem, d, hist) && 0 <= source && 0 <= n && source + n <= |mem| && ExternalMode(mode)
    ensures HistoryAt(|mem|, source, n, d.start, d.size, mode)
    ensures KnownHistory(mem, source, d.start, d.size, mode) == hist[|hist| - d.size..] && d.size <= |hist|
  {
  }

  // ---------- prefix mode ----------

  /** Prefix mode: source data follows dictionary. */
  method CompressPrefix(c: Stream, mem: seq<byte>, source: int, dst: array<byte>, n: int, cap: int, accel: int,
      wide: bool, ghost hist: seq<byte>)
    returns (result: int)
    requires OwnOk(c) && AttachedOk(c) && ArgumentsOk(mem, source, dst, n, cap) && 1 <= accel
    requires Of(c).dict.End() == source && c.currentOffset + Used(n) <= OFFSET_MAX
    requires n <= MAX_INPUT_SIZE ==> InPlace(mem, Of(c).dict, hist)
    modifies c, c.hashTable, dst
    ensures 0 < n <= MAX_INPUT_SIZE ==> c.tableType.ByU32?
    ensures if n <= MAX_INPUT_SIZE then Continued(dst[..], hist, mem[source..source + n], cap, result) else result == 0
    ensures OwnOk(c) && AttachedOk(c) && c.dictCtx == old(c.dictCtx)
    ensures Of(c) == var w := old(Of(c)); Where(w.offset + Used(n), Dict(w.dict.start, w.dict.size + Used(n)))
  {
    hide Past, InPlace, Outcome, Ready, KnownHistory, Continued, CompressBound, Covered, Loaded;
    ghost var w := Of(c);
    ghost var pre := [];
    var small := c.dictSize < KB64 && c.dictSize < c.currentOffset;
    if n <= MAX_INPUT_SIZE {
      PrefixArguments(mem, w.dict, hist, source, n);
      pre := hist[|hist| - w.dict.size..];
      SmallCovers(w);
      if n > 0 {
        CallIsReady(mem, source, n, w.offset, w.dict.start, w.dict.size, WithPrefix, ByU32, small, wide, accel,
          LimitedOutput, cap, c.hashTable[..], dst.Length);
      }
    }
    var consumed;
    result, consumed :=
      c.CompressGeneric(mem, source, dst, n, cap, LimitedOutput, ByU32, WithPrefix, small, accel, wide, pre);
    if n <= MAX_INPUT_SIZE { OutcomeContinued(dst[..], pre, hist, mem[source..source + n], cap, result, consumed); }
  }

  // ---------- external dictionary mode ----------

  method CompressExternal(c: Stream, mem: seq<byte>, source: int, dst: array<byte>, n: int, cap: int, accel: int,
      wide: bool, ghost hist: seq<byte>)
    returns (result: int)
    requires OwnOk(c) && c.dictCtx == null && ArgumentsOk(mem, source, dst, n, cap) && 1 <= accel
    requires (c.dictionary != source || Tame(c.dictSize, n)) && (c.dictSize == 0 || MINMATCH <= c.dictSize)
      && c.currentOffset + Used(n) <= OFFSET_MAX
    requires n <= MAX_INPUT_SIZE ==> InPlace(mem, Of(c).dict, hist)
    modifies c, c.hashTable, dst
    ensures 0 < n <= MAX_INPUT_SIZE ==> c.tableType.ByU32?
    ensures if n <= MAX_INPUT_SIZE then Continued(dst[..], hist, mem[source..source + n], cap, result) else result == 0
    ensures n <= MAX_INPUT_SIZE ==> OwnOk(c)
    ensures c.dictCtx == null && Of(c) == Where(old(c.currentOffset) + Used(n), Dict(source, n))
  {
    hide Past, InPlace, Outcome, Ready, KnownHistory, Continued, CompressBound, Covered;
    ghost var w := Of(c);
    ghost var pre := [];
    var small := c.dictSize < KB64 && c.dictSize < c.currentOffset;
    if n <= MAX_INPUT_SIZE {
      ExternalArguments(mem, w.dict, hist, source, n, UsingExtDict);
      pre := hist[|hist| - w.dict.size..];
      SmallCovers(w);
      if n > 0 {
        CallIsReady(mem, source, n, w.offset, w.dict.start, w.dict.size, UsingExtDict, ByU32, small, wide, accel,
          LimitedOutput, cap, c.hashTable[..], dst.Length);
      }
    }
    var consumed;
    result, consumed :=
      c.CompressGeneric(mem, source, dst, n, cap, LimitedOutput, ByU32, UsingExtDict, small, accel, wide, pre);
    if n <= MAX_INPUT_SIZE { OutcomeContinued(dst[..], pre, hist, mem[source..source + n], cap, result, consumed); }
    ghost var table := c.hashTable[..];
    c.dictionary := source;
    c.dictSize := n;
    assert c.hashTable[..] == table;
  }

  // ---------- attached dictionary ----------

  lemma LoadedUsable(j: Job, e: int)
    requires e == 0 || KB64 - j.s0 <= e <= KB64 - MINMATCH
    requires KB64 <= j.Start() && 0 <= j.s0 <= KB64
    ensures Usable(j, e + (j.Start() - KB64))
  {
  }

  /** The loaded table, copied: its empty entries are out of reach. */
  lemma CopiedIsReady(mem: seq<byte>, source: int, n: int, d: Dict, wide: bool, accel: int, cap: int, table: seq<int>,
      capacity: int)
    requires (d.start != source || Tame(d.size, n)) && HistoryAt(|mem|, source, n, d.start, d.size, UsingExtDict)
      && Compresses(n, LimitedOutput, cap, ByU32)
    requires 1 <= accel && 0 <= cap <= capacity && LoadedTable(table, d.size) && MINMATCH <= d.size <= KB64
    ensures Ready(CallJob(mem, source, n, KB64, d.start, d.size, UsingExtDict, ByU32, false, [], 0, wide, accel,
      LimitedOutput, cap), table, capacity)
  {
    hide Shows, CompressBound, Usable, HashAt;
    CallJobShows(mem, source, n, KB64, d.start, d.size, UsingExtDict, ByU32, false, [], 0, wide, accel, LimitedOutput,
      cap);
    var j := CallJob(mem, source, n, KB64, d.start, d.size, UsingExtDict, ByU32, false, [], 0, wide, accel,
      LimitedOutput, cap);
    LoadedUsable(j, 0);
    forall h | 0 <= h < Slots(j.ty) ensures EntryOk(j, table[h], h, j.Start()) {
      LoadedUsable(j, table[h]);
    }
  }

  /** The attached table, looked into from a stream at any later offset. */
  lemma AttachedIsReady(mem: seq<byte>, source: int, n: int, start: int, d: Dict, dtab: seq<int>, wide: bool,
      accel: int, cap: int, table: seq<int>, capacity: int)
    requires (d.start != source || Tame(d.size, n)) && HistoryAt(|mem|, source, n, d.start, d.size, UsingDictCtx)
      && Compresses(n, LimitedOutput, cap, ByU32)
    requires 1 <= accel && 0 <= cap <= capacity && LoadedTable(dtab, d.size) && MINMATCH <= d.size <= KB64 <= start
    requires Past(table, Slots(ByU32), start) && |table| == SLOTS
    ensures Ready(CallJob(mem, source, n, start, d.start, d.size, UsingDictCtx, ByU32, false, dtab, start - KB64, wide,
      accel, LimitedOutput, cap), table, capacity)
  {
    hide Shows, CompressBound, Usable, HashAt;
    CallJobShows(mem, source, n, start, d.start, d.size, UsingDictCtx, ByU32, false, dtab, start - KB64, wide, accel,
      LimitedOutput, cap);
    var j := CallJob(mem, source, n, start, d.start, d.size, UsingDictCtx, ByU32, false, dtab, start - KB64, wide,
      accel, LimitedOutput, cap);
    forall h | 0 <= h < SLOTS / 2 ensures Usable(j, j.dtab[h] + j.delta) {
      LoadedUsable(j, dtab[h]);
    }
    ZeroFar(j);
    forall h | 0 <= h < Slots(j.ty) ensures EntryOk(j, table[h], h, j.Start()) {
    }
  }

  lemma ZeroFar(j: Job)
    requires KB64 <= j.Start()
    ensures Usable(j, 0)
  {
  }

  /** LZ4_memcpy(streamPtr, streamPtr->dictCtx, sizeof(*streamPtr)) */
  method CopyState(c: Stream, d: Stream)
    requires c != d && c.hashTable != d.hashTable && Loaded(d) && c.hashTable.Length == SLOTS
    modifies c, c.hashTable
    ensures c.hashTable[..] == d.hashTable[..] && Of(c) == Of(d) && c.tableType == d.tableType && c.dictCtx == null
  {
    forall h | 0 <= h < SLOTS { c.hashTable[h] := d.hashTable[h]; }
    c.currentOffset, c.tableType, c.dictionary, c.dictCtx, c.dictSize := d.currentOffset, d.tableType, d.dictionary,
      d.dictCtx, d.dictSize;
  }

  /** More than 4 KB: the dictionary's state becomes the stream's own. */
  method CompressCopied(c: Stream, d: Stream, mem: seq<byte>, source: int, dst: array<byte>, n: int, cap: int,
      accel: int, wide: bool, ghost hist: seq<byte>)
    returns (result: int)
    requires c != d && c.hashTable != d.hashTable && Loaded(d) && c.hashTable.Length == SLOTS
    requires ArgumentsOk(mem, source, dst, n, cap) && 1 <= accel && InPlace(mem, Dict(d.dictionary, d.dictSize), hist)
    requires d.dictionary != source || Tame(d.dictSize, n)
    modifies c, c.hashTable, dst
    ensures 0 < n <= MAX_INPUT_SIZE ==> c.tableType.ByU32?
    ensures if n <= MAX_INPUT_SIZE then Continued(dst[..], hist, mem[source..source + n], cap, result) else result == 0
    ensures n <= MAX_INPUT_SIZE ==> OwnOk(c)
    ensures c.dictCtx == null && Of(c) == Where(KB64 + Used(n), Dict(source, n))
  {
    hide Past, InPlace, Outcome, Ready, KnownHistory, Continued, CompressBound, LoadedTable;
    ghost var w := Of(d);
    ghost var pre := [];
    CopyState(c, d);
    LoadedIsPast(c.hashTable[..], c.dictSize);
    if n <= MAX_INPUT_SIZE {
      ExternalArguments(mem, w.dict, hist, source, n, UsingExtDict);
      pre := hist[|hist| - w.dict.size..];
      if n > 0 { CopiedIsReady(mem, source, n, w.dict, wide, accel, cap, c.hashTable[..], dst.Length); }
    }
    var consumed;
    result, consumed :=
      c.CompressGeneric(mem, source, dst, n, cap, LimitedOutput, ByU32, UsingExtDict, false, accel, wide, pre);
    if n <= MAX_INPUT_SIZE { OutcomeContinued(dst[..], pre, hist, mem[source..source + n], cap, result, consumed); }
    ghost var table := c.hashTable[..];
    c.dictionary := source;
    c.dictSize := n;
    assert c.hashTable[..] == table;
  }

  /** 4 KB at most: look into the dictionary's table; an empty input leaves it attached. */
  method CompressLooking(c: Stream, mem: seq<byte>, source: int, dst: array<byte>, n: int, cap: int, accel: int,
      wide: bool, ghost hist: seq<byte>)
    returns (result: int)
    requires OwnOk(c) && AttachedOk(c) && c.dictCtx != null && ArgumentsOk(mem, source, dst, n, cap) && 1 <= accel
    requires n <= 4096 && c.currentOffset + n <= OFFSET_MAX && c.dictSize == 0 && InPlace(mem, Source(c), hist)
    requires Source(c).start != source || Tame(Source(c).size, n)
    modifies c, c.hashTable, dst
    ensures 0 < n <= MAX_INPUT_SIZE ==> c.tableType.ByU32?
    ensures Continued(dst[..], hist, mem[source..source + n], cap, result)
    ensures OwnOk(c) && c.dictCtx == (if n == 0 then old(c.dictCtx) else null)
    ensures Of(c) == Where(old(c.currentOffset) + n, Dict(source, n))
  {
    hide Past, InPlace, Outcome, Ready, KnownHistory, Continued, CompressBound, LoadedTable;
    ghost var d := Source(c);
    ExternalArguments(mem, d, hist, source, n, UsingDictCtx);
    ghost var pre := hist[|hist| - d.size..];
    if n > 0 { AttachedIsReady(mem, source, n, c.currentOffset, d, c.dictCtx.hashTable[..], wide, accel, cap,
      c.hashTable[..], dst.Length); }
    var consumed;
    result, consumed :=
      c.CompressGeneric(mem, source, dst, n, cap, LimitedOutput, ByU32, UsingDictCtx, false, accel, wide, pre);
    OutcomeContinued(dst[..], pre, hist, mem[source..source + n], cap, result, consumed);
    ghost var table := c.hashTable[..];
    c.dictionary := source;
    c.dictSize := n;
    assert c.hashTable[..] == table;
  }

  // ---------- the entry point ----------

  /** Invalidate tiny dictionaries; check overlapping input/dictionary space. */
  method AdjustDict(c: Stream, source: int, n: int)
    modifies c`dictionary, c`dictSize
    ensures Of(c) == var w := old(Of(c)); w.(dict := Trim(Invalidate(w.dict, source), source, n))
  {
    var dictEnd := c.dictionary + c.dictSize;
    if 1 <= c.dictSize <= 3 && dictEnd != source {
      c.dictSize := 0;
      c.dictionary := source;
      dictEnd := source;
    }
    var sourceEnd := source + n;
    if sourceEnd > c.dictionary && sourceEnd < dictEnd {
      c.dictSize := dictEnd - sourceEnd;
      if c.dictSize > KB64 { c.dictSize := KB64; }
      if c.dictSize < 4 { c.dictSize := 0; }
      c.dictionary := dictEnd - c.dictSize;
    }
  }

  /** What the caller has to see to, on addresses and sizes alone; nothing else can go wrong.  In prefix
      mode, with a dictionary attached, the stream must not forget that data has come after it.  An
      attached dictionary is only used while no data has (StrayIsHarmful), and a dictionary apart must
      not start where the source does, unless their sizes are tame (TameIsExact). */
  predicate Allowed(w: Where, attached: Option<Dict>, source: int, n: int)
  {
    var d, u := w.dict, InUse(w, source, n).dict;
    if u.End() == source then attached.None? || d.size == 0 || 0 < u.size + n
    else if attached.Some? then d.size == 0 && (attached.value.start != source || Tame(attached.value.size, n))
    else u.start != source || Tame(u.size, n)
  }

  ghost function AttachedDict(c: Stream): Option<Dict>
    reads c, c.dictCtx
  {
    if c.dictCtx == null then None else Some(Dict(c.dictCtx.dictionary, c.dictCtx.dictSize))
  }

  ghost predicate CallOk(c: Stream, source: int, n: int)
    reads c, c.dictCtx
  {
    Allowed(Of(c), AttachedDict(c), source, n)
  }

  /** The same source again, and more of it: excluded, because a match in it may come out wrong. */
  lemma SameSourceAgain(a: int, k: int, n: int)
    requires 0 < a && 5 <= k <= KB64 && n >= k + 7 && n >= 14 && n <= MAX_INPUT_SIZE
    ensures var w := Next(Where(0, Dict(0, 0)), a, k);
      !Allowed(w, None, a, n) && InUse(w, a, n).dict == Dict(a, k) == w.dict
    ensures exists mem: seq<byte>, ip, m ::
      FoundMatch(mem, 0, n, ip, m, 4) && !Same(mem, ip, m, Measured(mem, ip, m, 0, k, Matchlimit(0, n)))
  {
    RunIsHarmful(k, n);
  }

  /** A dictionary is attached; an empty block at a leaves it attached, and so does the block behind it,
      in prefix mode; a block elsewhere is excluded, because the stream would take the dictionary to be
      directly in front of it. */
  lemma AttachedThenElsewhere(d: Dict, a: int, x: int, b: int, n: int)
    requires 0 < a && 4 <= x <= 4096 && 0 < n <= 4096 && (b + n <= a || a + x < b) && 0 < b && d.start != a
      && d.start != b
    ensures var w := Where(KB64, Dict(0, 0));
      && Allowed(w, Some(d), a, 0) && Allowed(Where(KB64, Dict(a, 0)), Some(d), a, x)
      && !Allowed(Next(Where(KB64, Dict(a, 0)), a, x), Some(d), b, n)
         && Allowed(Next(Where(KB64, Dict(a, 0)), a, x), Some(d), a + x, n)
  {
  }

  /** What is still needed of the history holds its end. */
  ghost predicate HistoryReady(c: Stream, mem: seq<byte>, source: int, n: int, hist: seq<byte>)
    reads c, c.dictCtx
  {
    InPlace(mem, if c.dictCtx != null && Of(c).dict.size == 0 then Source(c) else InUse(Of(c), source, n).dict, hist)
  }

  /** A history that is wholly in place is ready for any source. */
  lemma TracksReady(c: Stream, mem: seq<byte>, source: int, n: int, hist: seq<byte>)
    requires Live(c) && Tracks(c, mem, hist) && 0 <= source <= |mem| && 0 <= n <= INT_MAX
    ensures HistoryReady(c, mem, source, n, hist)
  {
    hide InPlace;
    if c.dictCtx == null || Of(c).dict.size > 0 { StillInPlace(mem, Of(c), hist, source, n); }
  }

  // ---------- data after an attached dictionary ----------

  /** Blocks D and X have come, and D is still attached: a match the call may find, as if D were directly
      in front of the source, is one in the real history only by chance.  D, X and source are runs. */
  lemma StrayIsHarmful(k: nat, x: nat, n: nat)
    requires 4 <= k && 1 <= x && n >= 13
    ensures var D, X, Y := Repeated(0, k), Repeated(1, x), Repeated(0, n);
      Genuine(D + Y, k + 1, 5, 4) && !Genuine(D + X + Y, k + x + 1, 5, 4)
  {
    var D, X, Y := Repeated(0, k), Repeated(1, x), Repeated(0, n);
    var z := D + X + Y;
    assert z[k + x - 1] == 1 && z[k + x + 4] == 0;
  }

  // ---------- the modes ----------

  /** In prefix mode with an attached dictionary. */
  lemma PrefixReady(mem: seq<byte>, w: Where, d: Dict, attached: bool, source: int, n: int, hist: seq<byte>)
    requires Sane(w) && 0 <= source <= |mem| && 0 <= n <= INT_MAX && InUse(w, source, n).dict.End() == source
    requires if attached && w.dict.size == 0 then InPlace(mem, d, hist)
      else InPlace(mem, InUse(w, source, n).dict, hist)
    ensures InPlace(mem, InUse(w, source, n).dict, hist)
  {
    if attached && w.dict.size == 0 {
      var u := InUse(w, source, n).dict;
      assert u.size == 0 && mem[u.start..u.End()] == [] == hist[|hist|..];
    }
  }

  /** With a dictionary attached and no own data: external dictionary mode, whatever the table to look into. */
  method CompressAttached(c: Stream, mem: seq<byte>, source: int, dst: array<byte>, n: int, cap: int, accel: int,
      wide: bool, ghost hist: seq<byte>)
    returns (result: int)
    requires OwnOk(c) && AttachedOk(c) && c.dictCtx != null && c.dictSize == 0 && ArgumentsOk(mem, source, dst, n, cap)
      && 1 <= accel
    requires InPlace(mem, Source(c), hist) && (Source(c).start != source || Tame(Source(c).size, n))
      && c.currentOffset + Used(n) <= OFFSET_MAX
    modifies c, c.hashTable, dst
    ensures 0 < n <= MAX_INPUT_SIZE ==> c.tableType.ByU32?
    ensures if n <= MAX_INPUT_SIZE then Continued(dst[..], hist, mem[source..source + n], cap, result) else result == 0
    ensures (n <= MAX_INPUT_SIZE ==> OwnOk(c)) && c.dictCtx == (if n == 0 then old(c.dictCtx) else null)
    ensures c.dictionary == source && c.dictSize == n && (n == 0 ==> c.currentOffset == old(c.currentOffset))
  {
    hide Past, InPlace, Continued, Loaded, Tame;
    if n > 4096 {
      result := CompressCopied(c, c.dictCtx, mem, source, dst, n, cap, accel, wide, hist);
    } else {
      result := CompressLooking(c, mem, source, dst, n, cap, accel, wide, hist);
    }
  }

  lemma NowInPlace(mem: seq<byte>, source: int, n: int, hist: seq<byte>)
    requires 0 <= source && 0 <= n && source + n <= |mem|
    ensures InPlace(mem, Dict(source, n), hist + mem[source..source + n])
  {
    var src := mem[source..source + n];
    assert (hist + src)[|hist + src| - n..] == src;
  }

  /** The mode the addresses ask for, after renorming and adjusting: w and u are before and after. */
  method CompressMode(c: Stream, mem: seq<byte>, source: int, dst: array<byte>, n: int, cap: int, accel: int,
      wide: bool, ghost hist: seq<byte>)
    returns (result: int)
    requires OwnOk(c) && AttachedOk(c) && ArgumentsOk(mem, source, dst, n, cap) && 1 <= accel
      && c.currentOffset + Used(n) <= OFFSET_MAX
    requires Of(c).dict.End() == source && n <= MAX_INPUT_SIZE ==> InPlace(mem, Of(c).dict, hist)
    requires Of(c).dict.End() != source && c.dictCtx != null ==>
      c.dictSize == 0 && InPlace(mem, Source(c), hist) && (Source(c).start != source || Tame(Source(c).size, n))
    requires Of(c).dict.End() != source && c.dictCtx == null ==>
      (c.dictSize == 0 || MINMATCH <= c.dictSize) && (c.dictionary != source || Tame(c.dictSize, n))
        && (n <= MAX_INPUT_SIZE ==> InPlace(mem, Of(c).dict, hist))
    modifies c, c.hashTable, dst
    ensures 0 < n <= MAX_INPUT_SIZE ==> c.tableType.ByU32?
    ensures if n <= MAX_INPUT_SIZE then Continued(dst[..], hist, mem[source..source + n], cap, result) else result == 0
    ensures n <= MAX_INPUT_SIZE || old(Of(c)).dict.End() == source ==> OwnOk(c) && AttachedOk(c)
    ensures old(Of(c)).dict.End() == source ==> c.dictCtx == old(c.dictCtx) && Of(c) == var u := old(Of(c));
      Where(u.offset + Used(n), Dict(u.dict.start, u.dict.size + Used(n)))
    ensures old(Of(c)).dict.End() != source && old(c.dictCtx) == null ==>
      c.dictCtx == null && Of(c) == Where(old(c.currentOffset) + Used(n), Dict(source, n))
    ensures old(Of(c)).dict.End() != source && old(c.dictCtx) != null ==>
      c.dictCtx == (if n == 0 then old(c.dictCtx) else null) && Of(c).dict == Dict(source, n)
  {
    hide Past, InPlace, Continued, Tame, Loaded;
    if c.dictionary + c.dictSize == source {
      result := CompressPrefix(c, mem, source, dst, n, cap, accel, wide, hist);
    } else if c.dictCtx != null {
      result := CompressAttached(c, mem, source, dst, n, cap, accel, wide, hist);
    } else {
      result := CompressExternal(c, mem, source, dst, n, cap, accel, wide, hist);
    }
  }

  /** What CallOk and HistoryReady mean for the mode. */
  lemma ModeReady(c: Stream, mem: seq<byte>, source: int, n: int, hist: seq<byte>)
    requires Live(c) && CallOk(c, source, n) && HistoryReady(c, mem, source, n, hist) && 0 <= source
      && 0 <= n <= INT_MAX
    requires n <= MAX_INPUT_SIZE ==> source <= |mem|
    ensures var u := InUse(Of(c), source, n).dict;
      if u.End() == source then n <= MAX_INPUT_SIZE ==> InPlace(mem, u, hist)
      else if c.dictCtx != null then
        u.size == 0 && Of(c).dict.size == 0 && InPlace(mem, Source(c), hist)
          && (Source(c).start != source || Tame(Source(c).size, n))
      else
        (u.size == 0 || MINMATCH <= u.size) && (u.start != source || Tame(u.size, n)) && InPlace(mem, u, hist)
  {
    hide InPlace, Tame, Loaded;
    InUseSane(Of(c), source, n);
    if n <= MAX_INPUT_SIZE && InUse(Of(c), source, n).dict.End() == source {
      PrefixReady(mem, Of(c), Source(c), c.dictCtx != null, source, n, hist);
    }
  }

  /** Avoid index overflow, invalidate tiny dictionaries, check overlapping space. */
  method Adjust(c: Stream, source: int, n: int)
    requires Live(c) && 0 <= source && 0 <= n <= INT_MAX
    modifies c, c.hashTable
    ensures Live(c) && Of(c) == InUse(old(Of(c)), source, n) && c.dictCtx == old(c.dictCtx)
    ensures c.currentOffset + Used(n) <= OFFSET_MAX
  {
    hide Past, Invalidate, Trim, Loaded;
    InUseSane(Of(c), source, n);
    RenormDictT(c, n);
    ghost var table := c.hashTable[..];
    AdjustDict(c, source, n);
    assert c.hashTable[..] == table;
  }

  /** The source joins the history. */
  lemma NowTracks(c: Stream, mem: seq<byte>, source: int, n: int, hist: seq<byte>, w: Where, d: Dict, attached: bool)
    requires Live(c) && 0 <= source && 0 <= n <= MAX_INPUT_SIZE && source + n <= |mem|
    requires var u := InUse(w, source, n).dict;
      if u.End() == source then
        InPlace(mem, u, hist) && Of(c) == Next(w, source, n) && (attached ==> w.dict.size == 0 || 0 < u.size + n)
          && (c.dictCtx != null <==> attached)
      else Of(c).dict == Dict(source, n) && (c.dictCtx != null ==> attached && n == 0)
    requires attached && w.dict.size == 0 ==> InPlace(mem, d, hist)
    requires c.dictCtx != null ==>
      d == Dict(c.dictCtx.dictionary, c.dictCtx.dictSize)
      && (InUse(w, source, n).dict.End() != source ==> w.dict.size == 0)
    requires Sane(w)
    ensures Tracks(c, mem, hist + mem[source..source + n])
  {
    hide InPlace, Loaded, OwnOk;
    NowInPlace(mem, source, n, hist);
    if n == 0 { assert hist + mem[source..source + n] == hist; }
    if InUse(w, source, n).dict.End() == source { NextInPlace(mem, w, hist, source, n); }
    InUseSane(w, source, n);
  }

  lemma LiveSane(c: Stream)
    requires Live(c)
    ensures Sane(Of(c))
  {
    hide Past, Loaded;
  }

  /** LZ4_compress_fast_continue.  Whatever came before on this stream, the block decodes to its
      source after the whole history, and the stream stays fit for the next block, also when it
      returned 0 for want of room. */
  method CompressFastContinue(c: Stream, mem: seq<byte>, source: int, dst: array<byte>, n: int, cap: int,
      acceleration: int, wide: bool, ghost hist: seq<byte>)
    returns (result: int)
    requires Live(c) && ArgumentsOk(mem, source, dst, n, cap) && CallOk(c, source, n)
      && HistoryReady(c, mem, source, n, hist)
    modifies c, c.hashTable, dst
    ensures 0 < n <= MAX_INPUT_SIZE ==> c.tableType.ByU32?
    ensures if n <= MAX_INPUT_SIZE then Continued(dst[..], hist, mem[source..source + n], cap, result) else result == 0
    ensures n <= MAX_INPUT_SIZE || old(InUse(Of(c), source, n).dict.End() == source) ==> Live(c)
    ensures n <= MAX_INPUT_SIZE ==> Tracks(c, mem, hist + mem[source..source + n])
    ensures old(c.dictCtx) == null || old(InUse(Of(c), source, n).dict.End() == source) ==>
      c.dictCtx == old(c.dictCtx) && Of(c) == Next(old(Of(c)), source, n)
    ensures old(c.dictCtx) != null && old(InUse(Of(c), source, n).dict.End() != source) ==>
      c.dictCtx == (if n == 0 then old(c.dictCtx) else null) && Of(c).dict == Dict(source, n)
  {
    hide Past, InPlace, Continued, InUse, Tame, Loaded, OwnOk, Tracks;
    ghost var w, attached := Of(c), c.dictCtx != null;
    ghost var d := if attached then Dict(c.dictCtx.dictionary, c.dictCtx.dictSize) else w.dict;
    LiveSane(c);
    ModeReady(c, mem, source, n, hist);
    Adjust(c, source, n);
    result := CompressMode(c, mem, source, dst, n, cap, Acceleration(acceleration), wide, hist);
    if n <= MAX_INPUT_SIZE { NowTracks(c, mem, source, n, hist, w, d, attached); }
  }
}
