/** The history of a compression stream: where LZ4_compress_fast_continue looks for it from block
    to block, rescaling, loading, attaching and saving dictionaries. */
module FastHistory {
  import opened Bytes
  import opened BlockFormat
  import opened BlockOutput
  import opened FastTable
  import opened FastCompressor
  import opened FastStream
  import opened FastApi
  import opened Memory

  const INT_MAX: int := 0x7FFF_FFFF

  // ---------- the bookkeeping, on values ----------

  datatype Dict = Dict(start: int, size: int)
  {
    function End(): int { start + size }
  }

  /** currentOffset, dictionary and dictSize. */
  datatype Where = Where(offset: int, dict: Dict)

  /** LZ4_renormDictT on the fields: before an index would pass 2^31 it goes back to 64 KB. */
  function Renorm(w: Where, n: int): Where
  {
    if w.offset + n > OFFSET_MAX then
      var size := Min(w.dict.size, KB64);
      Where(KB64, Dict(w.dict.End() - size, size))
    else w
  }

  /** Invalidate tiny dictionaries. */
  function Invalidate(d: Dict, source: int): Dict
  {
    if 1 <= d.size <= 3 && d.End() != source then Dict(source, 0) else d
  }

  /** Check overlapping input/dictionary space: what the source covers is no dictionary any more. */
  function Trim(d: Dict, source: int, n: int): Dict
  {
    if source + n > d.start && source + n < d.End() then
      var s := Min(d.End() - (source + n), KB64);
      var size := if s < 4 then 0 else s;
      Dict(d.End() - size, size)
    else d
  }

  /** What a call works with. */
  function InUse(w: Where, source: int, n: int): Where
  {
    var r := Renorm(w, n);
    r.(dict := Trim(Invalidate(r.dict, source), source, n))
  }

  /** What it leaves: the prefix grown by the source, or the source as the new dictionary. */
  function Next(w: Where, source: int, n: int): Where
  {
    var u := InUse(w, source, n);
    var m := if n <= MAX_INPUT_SIZE then n else 0;
    Where(u.offset + m, if u.dict.End() == source then Dict(u.dict.start, u.dict.size + m) else Dict(source, n))
  }

  predicate Sane(w: Where)
  {
    0 <= w.dict.start && 0 <= w.dict.size <= w.offset <= OFFSET_MAX
  }

  lemma InUseSane(w: Where, source: int, n: int)
    requires Sane(w) && 0 <= source && 0 <= n <= INT_MAX
    ensures var u := InUse(w, source, n);
      && Sane(u) && (u.dict.End() == w.dict.End() || u.dict.size == 0) && u.dict.size <= w.dict.size
      && (u.dict.End() == source || u.dict.size == 0 || MINMATCH <= u.dict.size)
      && (n <= MAX_INPUT_SIZE ==> u.offset + n <= OFFSET_MAX)
  {
  }

  lemma EmptyRenormed(w: Where, n: int)
    requires w.dict.start == 0 && w.dict.size == 0
    ensures Renorm(w, n).dict.size == 0
  {
  }

  lemma EmptyStart(w: Where, n: int)
    requires w.dict.start == 0 && w.dict.size == 0
    ensures Renorm(w, n).dict.start == 0
  {
  }

  lemma EmptyTrimmed(d: Dict, source: int, n: int)
    requires d.start == 0 && d.size == 0
    ensures Trim(Invalidate(d, source), source, n).End() == 0
  {
  }

  /** Nothing stays nothing. */
  lemma EmptyUse(w: Where, source: int, n: int)
    requires w.dict.start == 0 && w.dict.size == 0 && 0 < source
    ensures InUse(w, source, n).dict.End() == 0
  {
    hide Renorm, Invalidate, Trim;
    EmptyRenormed(w, n);
    EmptyStart(w, n);
    EmptyTrimmed(Renorm(w, n).dict, source, n);
  }

  /** A source beyond LZ4_MAX_INPUT_SIZE is refused, but in external dictionary mode it becomes the
      dictionary: the stream stays sane exactly in prefix mode, or when that much index space is used up. */
  lemma Oversize(w: Where, source: int, n: int)
    requires Sane(w) && 0 <= source && MAX_INPUT_SIZE < n <= INT_MAX
    ensures Sane(Next(w, source, n)) <==> InUse(w, source, n).dict.End() == source || n <= InUse(w, source, n).offset
  {
    hide InUse;
    InUseSane(w, source, n);
  }

  // ---------- the history in memory ----------

  /** The dictionary holds the end of the history. */
  ghost predicate InPlace(mem: seq<byte>, d: Dict, hist: seq<byte>)
  {
    && 0 <= d.start && 0 <= d.size <= |hist| && d.End() <= |mem|
    && mem[d.start..d.End()] == hist[|hist| - d.size..]
  }

  /** A smaller dictionary with the same end holds it too. */
  lemma InPlaceLess(mem: seq<byte>, d: Dict, d1: Dict, hist: seq<byte>)
    requires InPlace(mem, d, hist) && 0 <= d1.size <= d.size && (d1.End() == d.End() || d1.size == 0)
    requires 0 <= d1.start && d1.End() <= |mem|
    ensures InPlace(mem, d1, hist)
  {
    var k := d.size - d1.size;
    SliceOfSlice(hist, |hist| - d.size, |hist|, k, d.size);
    if d1.size > 0 {
      SliceOfSlice(mem, d.start, d.End(), k, d.size);
    }
  }

  lemma StillInPlace(mem: seq<byte>, w: Where, hist: seq<byte>, source: int, n: int)
    requires Sane(w) && InPlace(mem, w.dict, hist) && 0 <= source <= |mem| && 0 <= n <= INT_MAX
    ensures InPlace(mem, InUse(w, source, n).dict, hist)
  {
    hide InPlace;
    InUseSane(w, source, n);
    InPlaceSize(mem, w.dict, hist);
    InPlaceLess(mem, w.dict, InUse(w, source, n).dict, hist);
  }

  lemma InPlaceSize(mem: seq<byte>, d: Dict, hist: seq<byte>)
    requires InPlace(mem, d, hist)
    ensures 0 <= d.start && 0 <= d.size && d.End() <= |mem|
  {
  }

  /** After the block the source is part of the history, and the new dictionary ends with it. */
  lemma NextInPlace(mem: seq<byte>, w: Where, hist: seq<byte>, source: int, n: int)
    requires InPlace(mem, InUse(w, source, n).dict, hist) && 0 <= source && 0 <= n <= MAX_INPUT_SIZE
      && source + n <= |mem|
    ensures InPlace(mem, Next(w, source, n).dict, hist + mem[source..source + n])
  {
    hide InUse;
    var d, src := InUse(w, source, n).dict, mem[source..source + n];
    if d.End() == source {
      SliceJoin(mem, d.start, source, source + n);
      assert (hist + src)[|hist + src| - (d.size + n)..] == hist[|hist| - d.size..] + src;
    } else {
      assert (hist + src)[|hist + src| - n..] == src;
    }
  }

  // ---------- the stream ----------

  ghost function Of(c: Stream): Where
    reads c
  {
    Where(c.currentOffset, Dict(c.dictionary, c.dictSize))
  }

  /** A stream as LZ4_loadDict leaves it: no entry between the start of the index space and the
      dictionary. */
  ghost predicate Loaded(d: Stream)
    reads d, d.hashTable
  {
    && d.hashTable.Length == SLOTS && d.dictCtx == null && d.tableType.ByU32? && d.currentOffset == KB64
    && 0 <= d.dictionary && MINMATCH <= d.dictSize <= KB64 && LoadedTable(d.hashTable[..], d.dictSize)
  }

  ghost predicate LoadedTable(table: seq<int>, size: int)
  {
    |table| == SLOTS && forall h :: 0 <= h < Slots(ByU32) ==>
      table[h] == 0 || KB64 - size <= table[h] <= KB64 - MINMATCH
  }

  /** A loaded dictionary is attached. */
  ghost predicate AttachedOk(c: Stream)
    reads c, c.dictCtx, if c.dictCtx == null then {} else {c.dictCtx.hashTable}
  {
    c.dictCtx != null ==>
      c.dictCtx != c && c.dictCtx.hashTable != c.hashTable && Loaded(c.dictCtx) && KB64 <= c.currentOffset
  }

  ghost predicate OwnOk(c: Stream)
    reads c, c.hashTable
  {
    && c.hashTable.Length == SLOTS && (c.tableType.Cleared? || c.tableType.ByU32?)
    && Past(c.hashTable[..], Slots(ByU32), c.currentOffset) && Sane(Of(c))
    && (c.tableType.Cleared? ==> Zero(c.hashTable[..]))
  }

  /** What every operation on a stream keeps. */
  ghost predicate Live(c: Stream)
    reads c, c.hashTable, c.dictCtx, if c.dictCtx == null then {} else {c.dictCtx.hashTable}
  {
    OwnOk(c) && AttachedOk(c)
  }

  /** The dictionary the next call may start from: the attached one while the stream has no data of its own. */
  ghost function Source(c: Stream): Dict
    reads c, c.dictCtx
  {
    if c.dictCtx != null && c.dictSize == 0 then Dict(c.dictCtx.dictionary, c.dictCtx.dictSize)
      else Dict(c.dictionary, c.dictSize)
  }

  /** The stream knows where the end of the history is. */
  ghost predicate Tracks(c: Stream, mem: seq<byte>, hist: seq<byte>)
    reads c, c.dictCtx
  {
    InPlace(mem, Source(c), hist)
  }

  /** ... and each live index names the history byte at distance currentOffset - index. */
  lemma IndexNamesByte(w: Where, mem: seq<byte>, hist: seq<byte>, i: int)
    requires InPlace(mem, w.dict, hist) && w.offset - w.dict.size <= i < w.offset
    ensures var p := w.dict.End() - (w.offset - i);
      0 <= p < |mem| && w.offset - i <= |hist| && mem[p] == hist[|hist| - (w.offset - i)]
  {
    var d, k := w.dict, w.dict.size - (w.offset - i);
    assert mem[d.start..d.End()][k] == mem[d.start + k];
    assert hist[|hist| - d.size..][k] == hist[|hist| - d.size + k];
  }

  // ---------- rescaling ----------

  /** if (hashTable[i] < delta) hashTable[i] = 0; else hashTable[i] -= delta; */
  function Rescaled(e: int, delta: int): int { if e < delta then 0 else e - delta }

  method Rescale(t: array<int>, delta: int)
    requires t.Length == SLOTS
    modifies t
    ensures forall i :: 0 <= i < SLOTS ==> t[i] == if i < Slots(ByU32) then Rescaled(old(t[i]), delta) else old(t[i])
  {
    hide Rescaled;
    var i := 0;
    while i < Slots(ByU32)
      invariant 0 <= i <= Slots(ByU32)
      invariant forall k :: 0 <= k < SLOTS ==> t[k] == if k < i then Rescaled(old(t[k]), delta) else old(t[k])
    {
      t[i] := Rescaled(t[i], delta);
      i := i + 1;
    }
  }

  /** Every index that survives keeps its distance; in 32-bit arithmetic nothing else does. */
  lemma RescaledPast(table: seq<int>, table1: seq<int>, offset: int)
    requires Past(table, Slots(ByU32), offset) && |table| == |table1| == SLOTS && 0 <= offset <= OFFSET_MAX
    requires var delta := (offset - KB64) % 0x1_0000_0000;
      forall h :: 0 <= h < Slots(ByU32) ==> table1[h] == Rescaled(table[h], delta)
    ensures Past(table1, Slots(ByU32), KB64)
    ensures forall h :: 0 <= h < Slots(ByU32) ==> table1[h] == 0 || KB64 - table1[h] == offset - table[h]
  {
  }

  /** LZ4_renormDictT */
  method RenormDictT(c: Stream, n: int)
    requires OwnOk(c) && 0 <= n <= INT_MAX
    modifies c, c.hashTable
    ensures OwnOk(c) && Of(c) == Renorm(old(Of(c)), n) && c.dictCtx == old(c.dictCtx) && c.tableType == old(c.tableType)
  {
    hide Past;
    if c.currentOffset + n > OFFSET_MAX {
      ghost var table, offset := c.hashTable[..], c.currentOffset;
      Rescale(c.hashTable, (c.currentOffset - KB64) % 0x1_0000_0000);
      RescaledPast(table, c.hashTable[..], offset);
      var dictEnd := c.dictionary + c.dictSize;
      c.currentOffset := KB64;
      if c.dictSize > KB64 { c.dictSize := KB64; }
      c.dictionary := dictEnd - c.dictSize;
    }
  }

  // ---------- reset, load, attach, save ----------

  lemma InitialIsLive(c: Stream, mem: seq<byte>)
    requires c.Initial()
    ensures Live(c) && Tracks(c, mem, [])
  {
    hide Past;
    PastZero(c.hashTable[..], Slots(ByU32), 0);
  }

  lemma OwnIsConsistent(c: Stream)
    requires OwnOk(c)
    ensures Consistent(c)
  {
    hide Past, Zero;
  }

  /** LZ4_resetStream_fast, on any state that has been used. */
  method ResetStreamFast(c: Stream, ghost mem: seq<byte>)
    requires Consistent(c) && (c.tableType.Cleared? ==> c.currentOffset <= OFFSET_MAX - KB64)
    modifies c, c.hashTable
    ensures Live(c) && Tracks(c, mem, []) && (c.currentOffset == 0 || KB64 <= c.currentOffset)
    ensures c.dictionary == 0 && c.dictSize == 0 && c.dictCtx == null
    ensures old(Reusable(c)) ==> Reusable(c)
  {
    hide Past, Zero, InPlace;
    ghost var table, offset := c.hashTable[..], c.currentOffset;
    NothingInPlace(mem, 0, []);
    ghost var kept := c.tableType.Cleared? || (c.tableType.ByU32? && offset <= GB);
    if c.tableType.ByU32? { PastLater(table, Slots(ByU32), offset, offset + KB64); }
    PrepareTable(c, 0, ByU32);
    if !kept { AllZero(c.hashTable); } else { assert c.hashTable[..] == table; }
    if c.tableType.Cleared? { ZeroPast(c.hashTable[..], c.currentOffset); }
  }

  lemma AllZero(t: array<int>)
    requires forall h :: 0 <= h < t.Length ==> t[h] == 0
    ensures Zero(t[..])
  {
  }

  lemma ZeroPast(table: seq<int>, offset: int)
    requires Zero(table) && |table| == SLOTS && 0 <= offset
    ensures Past(table, Slots(ByU32), offset)
  {
  }

  lemma PastLater(table: seq<int>, slots: int, end: int, end1: int)
    requires Past(table, slots, end) && end <= end1
    ensures Past(table, slots, end1)
  {
  }

  /** LZ4_loadDict */
  method LoadDict(c: Stream, mem: seq<byte>, dictionary: int, dictSize: int, wide: bool) returns (r: int)
    requires c.hashTable.Length == SLOTS && 0 <= dictionary && 0 <= dictSize && dictionary + dictSize <= |mem|
    modifies c, c.hashTable
    ensures r == c.dictSize == (if dictSize < Unit(wide) then 0 else Min(dictSize, KB64))
    ensures r > 0 ==> c.dictionary == dictionary + dictSize - r
    ensures Live(c) && Tracks(c, mem, mem[dictionary..dictionary + dictSize]) && c.dictCtx == null
      && (r > 0 ==> Loaded(c))
  {
    hide Past, InPlace, LoadedTable;
    c.Reset();
    c.currentOffset := c.currentOffset + KB64;
    PastZero(c.hashTable[..], Slots(ByU32), KB64);
    NothingInPlace(mem, 0, mem[dictionary..dictionary + dictSize]);
    r := 0;
    if dictSize >= Unit(wide) { r := LoadLast(c, mem, dictionary, dictionary + dictSize, wide); }
  }

  lemma NothingInPlace(mem: seq<byte>, p: int, hist: seq<byte>)
    requires 0 <= p <= |mem|
    ensures InPlace(mem, Dict(p, 0), hist)
  {
    assert mem[p..p] == [] && hist[|hist|..] == [];
  }

  /** The last 64 KB at most. */
  method LoadLast(c: Stream, mem: seq<byte>, dictionary: int, dictEnd: int, wide: bool) returns (r: int)
    requires c.hashTable.Length == SLOTS && (forall h :: 0 <= h < SLOTS ==> c.hashTable[h] == 0)
    requires c.dictCtx == null && c.currentOffset == KB64
    requires 0 <= dictionary && dictionary + MINMATCH <= dictEnd <= |mem|
    modifies c, c.hashTable
    ensures r == c.dictSize == Min(dictEnd - dictionary, KB64) && c.dictCtx == null && c.dictionary == dictEnd - r
    ensures Live(c) && Tracks(c, mem, mem[dictionary..dictEnd]) && Loaded(c)
  {
    hide Past, InPlace, LoadedTable;
    var p := if dictEnd - dictionary > KB64 then dictEnd - KB64 else dictionary;
    c.dictionary := p;
    c.dictSize := dictEnd - p;
    c.tableType := ByU32;
    LoadTable(c.hashTable, mem, p, dictEnd, wide);
    LoadedIsPast(c.hashTable[..], dictEnd - p);
    TailInPlace(mem, dictionary, dictEnd, p);
    r := c.dictSize;
  }

  lemma TailInPlace(mem: seq<byte>, a: int, b: int, p: int)
    requires 0 <= a <= p <= b <= |mem|
    ensures InPlace(mem, Dict(p, b - p), mem[a..b])
  {
    SliceOfSlice(mem, a, b, p - a, b - a);
    assert mem[a..b][|mem[a..b]| - (b - p)..] == mem[p..b];
  }

  lemma LoadedIsPast(table: seq<int>, size: int)
    requires LoadedTable(table, size) && 0 <= size <= KB64
    ensures Past(table, Slots(ByU32), KB64)
  {
  }

  /** Every third position of the dictionary. */
  method LoadTable(t: array<int>, mem: seq<byte>, start: int, dictEnd: int, wide: bool)
    requires t.Length == SLOTS && (forall h :: 0 <= h < SLOTS ==> t[h] == 0)
    requires 0 <= start <= dictEnd <= |mem| && dictEnd - start <= KB64
    modifies t
    ensures LoadedTable(t[..], dictEnd - start)
  {
    hide HashPosition;
    var p, base := start, dictEnd - KB64;
    while p <= dictEnd - Unit(wide)
      invariant start <= p && LoadedTable(t[..], dictEnd - start)
    {
      var h := HashPosition(mem, p, ByU32, wide);
      ghost var before := t[..];
      t[h] := p - base;
      assert t[..] == before[h := p - base];
      p := p + 3;
    }
  }

  /** LZ4_attach_dictionary, to a stream that has been reset.  Without a dictionary nothing of the
      history is known, whatever it is. */
  method AttachDictionary(c: Stream, d: Stream?, ghost mem: seq<byte>, ghost hist: seq<byte>)
    requires Live(c) && c.dictSize == 0 && (c.currentOffset == 0 || KB64 <= c.currentOffset)
    requires d != null ==>
      d != c && d.hashTable != c.hashTable
      && (d.dictSize != 0 ==> Loaded(d) && InPlace(mem, Dict(d.dictionary, d.dictSize), hist))
    requires c.dictionary <= |mem|
    modifies c
    ensures Live(c) && c.dictCtx == (if d == null || d.dictSize == 0 then null else d)
    ensures Tracks(c, mem, hist) && c.dictionary == old(c.dictionary) && c.dictSize == 0
    ensures c.tableType == old(c.tableType) && (d == null ==> c.currentOffset == old(c.currentOffset))
  {
    hide Past, InPlace;
    if d == null || d.dictSize == 0 { NothingInPlace(mem, c.dictionary, hist); }
    if d != null {
      if c.currentOffset == 0 {
        PastLater(c.hashTable[..], Slots(ByU32), 0, KB64);
        c.currentOffset := KB64;
      }
      c.dictCtx := if d.dictSize == 0 then null else d;
    } else {
      c.dictCtx := null;
    }
  }

  /** LZ4_saveDict: the last bytes of the history move to a safer place, which may overlap the old one.
      When data has come after a dictionary that is still attached, some of it has to be saved, or the
      stream goes back to the dictionary (SavedNothing). */
  method SaveDict(c: Stream, mem: array<byte>, safeBuffer: int, dictSize: int, ghost hist: seq<byte>) returns (r: int)
    requires Live(c) && Tracks(c, mem[..], hist)
    requires 0 <= safeBuffer && safeBuffer + Min(KB64, c.dictSize) <= mem.Length
    modifies c, mem
    ensures Live(c) && c.dictCtx == old(c.dictCtx) && c.dictionary == safeBuffer
    ensures c.dictCtx == null || 0 < r || old(c.dictSize) == 0 ==> Tracks(c, mem[..], hist)
    ensures c.tableType == old(c.tableType) && c.currentOffset == old(c.currentOffset)
    ensures Agree(old(mem[..]), mem[..], safeBuffer, safeBuffer + r)
    ensures r == c.dictSize == Min(if 0 <= dictSize <= KB64 then dictSize else KB64, old(c.dictSize))
  {
    hide Past, InPlace, Agree, Loaded;
    r := if 0 <= dictSize <= KB64 then dictSize else KB64;
    if r > c.dictSize { r := c.dictSize; }
    ghost var m := mem[..];
    AgreeSelf(m, safeBuffer, safeBuffer + r);
    if r > 0 {
      InPlaceSize(m, Dict(c.dictionary, c.dictSize), hist);
      MemMove(mem, safeBuffer, c.dictionary + c.dictSize - r, r, m);
      AgreeSize(m, mem[..], safeBuffer, safeBuffer + r);
      Moved(m, mem[..], Dict(c.dictionary, c.dictSize), safeBuffer, r, hist);
    } else {
      NothingInPlace(m, safeBuffer, hist);
    }
    c.dictionary, c.dictSize := safeBuffer, r;
  }

  /** A dictionary of k bytes is attached and x bytes have come after it: where the stream would then look,
      the history has other data.  Dictionary and data are runs. */
  lemma SavedNothing(m: seq<byte>, d: Dict, k: nat, x: nat)
    requires 1 <= k && 1 <= x && d.size == k && 0 <= d.start && d.End() <= |m| && m[d.start..d.End()] == Repeated(0, k)
    ensures InPlace(m, d, Repeated(0, k)) && !InPlace(m, d, Repeated(0, k) + Repeated(1, x))
  {
    var hist := Repeated(0, k) + Repeated(1, x);
    assert Repeated(0, k)[|Repeated(0, k)| - k..] == Repeated(0, k);
    assert hist[|hist| - k..][k - 1] == 1 && m[d.start..d.End()][k - 1] == 0;
  }

  lemma Moved(m: seq<byte>, m1: seq<byte>, d: Dict, to: int, n: int, hist: seq<byte>)
    requires InPlace(m, d, hist) && 0 <= n <= d.size && 0 <= to && to + n <= |m1| == |m|
    requires m1[to..to + n] == m[d.End() - n..d.End()]
    ensures InPlace(m1, Dict(to, n), hist)
  {
    InPlaceLess(m, d, Dict(d.End() - n, n), hist);
  }
}
