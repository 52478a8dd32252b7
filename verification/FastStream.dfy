/** LZ4_stream_t and LZ4_compress_generic on its fields: how a call's job is made of the stream's
    offset, table and dictionary, and what the call leaves behind. */
module FastStream {
  import opened Bytes
  import opened BlockFormat
  import opened BlockOutput
  import opened FastTable
  import opened FastCompressor
  import FastEncoder
  import opened Windows
  import opened Alias
  import opened MatchLength

  // ---------- the job of a call ----------

  predicate ExternalMode(mode: History) { mode.UsingExtDict? || mode.UsingDictCtx? }

  /** The `size` bytes of history lie in memory: at `dict`, or just before the source. */
  predicate HistoryAt(memSize: int, source: int, n: int, dict: int, size: int, mode: History)
  {
    && 0 <= size && 0 <= n && 0 <= source && source + n <= memSize
    && if ExternalMode(mode) then 0 <= dict && dict + size <= memSize else size <= source
  }

  function KnownHistory(mem: seq<byte>, source: int, dict: int, size: int, mode: History): (r: seq<byte>)
    requires HistoryAt(|mem|, source, 0, dict, size, mode)
    ensures |r| == size
  {
    if ExternalMode(mode) then mem[dict..dict + size] else mem[source - size..source]
  }

  /** Indices start at `start`; dictionary indices lie just below it. */
  function CallJob(mem: seq<byte>, source: int, n: int, start: int, dict: int, size: int, mode: History, ty: TableType,
      small: bool, dtab: seq<int>, delta: int, wide: bool, accel: int, limit: Limit, cap: int): Job
    requires HistoryAt(|mem|, source, n, dict, size, mode)
  {
    var base := source - start;
    var w := if ExternalMode(mode) then Window(start - size, start, start + n, base, dict + size - start)
             else Window(start - size, start - size, start + n, base, base);
    Job(w, mem, KnownHistory(mem, source, dict, size, mode) + mem[source..source + n], size, ty, mode, small, dtab,
      delta, wide, accel, limit, cap)
  }

  lemma CallJobShows(mem: seq<byte>, source: int, n: int, start: int, dict: int, size: int, mode: History,
      ty: TableType, small: bool, dtab: seq<int>, delta: int, wide: bool, accel: int, limit: Limit, cap: int)
    requires HistoryAt(|mem|, source, n, dict, size, mode)
    ensures var j := CallJob(mem, source, n, start, dict, size, mode, ty, small, dtab, delta, wide, accel, limit, cap);
            Shows(j.w, mem, j.x) && |j.x| == size + n && j.Start() == start && j.w.end == start + n
  {
    hide Shows;
    if ExternalMode(mode) { ShowsSplit(mem, dict, size, source, n, start); }
      else { ShowsJoined(mem, size, source, n, start); }
  }

  lemma ShowsSplit(mem: seq<byte>, dict: int, size: int, source: int, n: int, start: int)
    requires 0 <= size && 0 <= n && 0 <= source && source + n <= |mem| && 0 <= dict && dict + size <= |mem|
    ensures Shows(Window(start - size, start, start + n, source - start, dict + size - start), mem,
      mem[dict..dict + size] + mem[source..source + n])
  {
  }

  lemma ShowsJoined(mem: seq<byte>, size: int, source: int, n: int, start: int)
    requires 0 <= size <= source && 0 <= n && source + n <= |mem|
    ensures Shows(Window(start - size, start - size, start + n, source - start, source - start), mem,
      mem[source - size..source] + mem[source..source + n])
  {
    SliceJoin(mem, source - size, source, source + n);
    var x := mem[source - size..source] + mem[source..source + n];
    assert x[..0] == [] && x[0..] == x;
    assert mem[source - size..source - size] == [];
  }

  /** Everything the compressor asks of its callers. */
  ghost predicate Ready(j: Job, table: seq<int>, capacity: int)
  {
    JobOk(j, capacity) && TableOk(j, table, j.Start())
  }

  /** The entries of an earlier call are fit for this one when the known history reaches back to
      index 0 or over the whole window, or when the dictSmall check is on. */
  predicate Covered(start: int, size: int, small: bool)
  {
    small || Min(start, DISTANCE_MAX + 1) <= size
  }

  lemma PastUsable(j: Job, e: int)
    requires 0 <= e && (e == 0 || e + MINMATCH <= j.Start()) && Covered(j.Start(), j.Start() - j.w.lo, j.small)
    ensures Usable(j, e)
  {
  }

  lemma PastTable(j: Job, table: seq<int>)
    requires Past(table, Slots(j.ty), j.Start()) && |table| == SLOTS && Covered(j.Start(), j.Start() - j.w.lo, j.small)
    ensures TableOk(j, table, j.Start()) && Usable(j, 0)
  {
    hide Usable, Covered;
    forall h | 0 <= h < Slots(j.ty) ensures EntryOk(j, table[h], h, j.Start()) {
      PastUsable(j, table[h]);
    }
    PastUsable(j, 0);
  }

  /** Room for the block: the worst case, or the capacity the call is told. */
  predicate RoomFor(n: int, limit: Limit, cap: int, capacity: int)
  {
    if limit.NotLimited? then CompressBound(n) <= capacity else cap <= capacity
  }

  /** LZ4_compress_generic goes on to compress: a supported size, and something to write to. */
  predicate Compresses(n: int, limit: Limit, cap: int, ty: TableType)
  {
    0 < n <= MAX_INPUT_SIZE && !(limit.FillOutput? && cap < 1) && !(ty.ByU16? && n >= LIMIT_64K)
  }

  /** A single contiguous or external history, without an attached dictionary. */
  lemma CallIsReady(mem: seq<byte>, source: int, n: int, start: int, dict: int, size: int, mode: History, ty: TableType,
      small: bool, wide: bool, accel: int, limit: Limit, cap: int, table: seq<int>, capacity: int)
    requires HistoryAt(|mem|, source, n, dict, size, mode) && !mode.UsingDictCtx? && Compresses(n, limit, cap, ty)
    requires 0 <= start && !ty.Cleared? && 1 <= accel && RoomFor(n, limit, cap, capacity)
      && (limit.LimitedOutput? ==> 0 <= cap)
    requires ty.ByU16? ==> mode.NoDict? && start + n < LIMIT_64K
    requires mode.UsingExtDict? ==> ty.ByU32? && (size == 0 || MINMATCH <= start) && (dict != source || Tame(size, n))
    requires Past(table, Slots(ty), start) && |table| == SLOTS && Covered(start, size, small)
    ensures Ready(CallJob(mem, source, n, start, dict, size, mode, ty, small, [], 0, wide, accel, limit, cap), table,
      capacity)
  {
    hide Past, Covered, Shows, CompressBound, Usable, TableOk;
    CallJobShows(mem, source, n, start, dict, size, mode, ty, small, [], 0, wide, accel, limit, cap);
    PastTable(CallJob(mem, source, n, start, dict, size, mode, ty, small, [], 0, wide, accel, limit, cap), table);
  }

  // ---------- what a call returns ----------

  /** When nothing may be returned: an unsupported size, or an output smaller than the worst case. */
  predicate Refuses(n: int, limit: Limit, cap: int, ty: TableType)
  {
    n > MAX_INPUT_SIZE || (ty.ByU16? && n >= LIMIT_64K) || (limit == FillOutput && cap < 1)
    || (limit == LimitedOutput && cap < CompressBound(n))
  }

  /** The block in dst is complete, for the first `consumed` bytes of src after the history `pre`;
      nothing is returned only where Refuses says so. */
  ghost predicate Outcome(dst: seq<byte>, pre: seq<byte>, src: seq<byte>, limit: Limit, cap: int, ty: TableType,
      result: int, consumed: int)
  {
    && 0 <= result <= |dst| && 0 <= consumed <= |src|
    && (result > 0 ==> Encodes(dst[..result], pre + src, |pre|, |pre| + consumed))
    && (result > 0 && limit != FillOutput ==> consumed == |src|)
    && (limit != NotLimited && result > 0 ==> result <= cap)
    && (limit == FillOutput && result > 0 && consumed < |src| ==> cap - 1 <= result)
    && (result == 0 ==> Refuses(|src|, limit, cap, ty))
  }

  lemma CompressedOutcome(o: Output, j: Job, pre: seq<byte>, src: seq<byte>, result: int, consumed: int)
    requires Compressed(o, j.x, j.s0, j.limit, j.olimit, result, consumed) && j.x == pre + src && j.s0 == |pre|
    ensures Outcome(o.dst[..], pre, src, j.limit, j.olimit, j.ty, result, consumed)
  {
    hide IsBlock, CompressBound, Encodes;
    if result > 0 {
      CompressedEncodes(o, j.x, j.s0, j.limit, j.olimit, result, consumed);
      assert o.dst[..][..result] == o.dst[..result];
    }
  }

  /** The block of an empty input is one zero byte. */
  lemma EmptyEncodes(dst: seq<byte>, pre: seq<byte>)
    requires 1 <= |dst| && dst[0] == 0
    ensures Encodes(dst[..1], pre, |pre|, |pre|)
  {
    hide EncodeLiterals;
    EmptyLiterals();
    assert pre[|pre|..|pre|] == [];
    var e: seq<byte> := EncodeAll([]);
    assert dst[..1] == [0] == e + [0];
    assert IsBlock(dst[..1], pre, |pre|, [], |pre|, |pre|);
  }

  lemma EmptyLiterals()
    ensures EncodeLiterals([], 0) == [0]
  {
    hide Token;
    FastEncoder.ZeroToken();
    var e: seq<byte>, z: seq<byte> := [], [Token(0, 0)];
    assert LengthTail(0) == e && z + e == z;
  }

  class Stream {
    const hashTable: array<int>
    var currentOffset: int
    var tableType: TableType
    var dictionary: int
    var dictCtx: Stream?
    var dictSize: int

    /** LZ4_initStream */
    constructor ()
      ensures fresh(hashTable) && Initial()
    {
      hashTable := new int[SLOTS](_ => 0);
      currentOffset, tableType, dictionary, dictCtx, dictSize := 0, Cleared, 0, null, 0;
    }

    ghost predicate Initial()
      reads this, hashTable
    {
      && hashTable.Length == SLOTS && (forall h :: 0 <= h < SLOTS ==> hashTable[h] == 0)
      && currentOffset == 0 && tableType.Cleared? && dictionary == 0 && dictCtx == null && dictSize == 0
    }

    /** MEM_INIT of the whole state. */
    method Reset()
      requires hashTable.Length == SLOTS
      modifies this, hashTable
      ensures Initial()
    {
      ClearTable();
      currentOffset, tableType, dictionary, dictCtx, dictSize := 0, Cleared, 0, null, 0;
    }

    method ClearTable()
      modifies hashTable
      ensures forall h :: 0 <= h < hashTable.Length ==> hashTable[h] == 0
    {
      forall h | 0 <= h < hashTable.Length { hashTable[h] := 0; }
    }

    // ----- LZ4_compress_generic -----

    /** startIndex; pointers in the table are indices from address 0. */
    function Origin(source: int, ty: TableType): int
      reads this
    {
      if ty.ByPtr? then source else currentOffset
    }

    /** dictionary and dictSize of this stream, or of the attached dictionary. */
    function HistoryStart(mode: History): int
      reads this, dictCtx
    {
      if mode.UsingDictCtx? && dictCtx != null then dictCtx.dictionary else dictionary
    }

    function HistorySize(mode: History): int
      reads this, dictCtx
    {
      if mode.UsingDictCtx? && dictCtx != null then dictCtx.dictSize else dictSize
    }

    function DictTable(mode: History): seq<int>
      reads this, dictCtx, if dictCtx == null then {} else {dictCtx.hashTable}
    {
      if mode.UsingDictCtx? && dictCtx != null then dictCtx.hashTable[..] else []
    }

    /** dictDelta */
    function Delta(mode: History): int
      reads this, dictCtx
    {
      if mode.UsingDictCtx? && dictCtx != null then currentOffset - dictCtx.currentOffset else 0
    }

    function JobNow(mem: seq<byte>, source: int, n: int, cap: int, limit: Limit, ty: TableType, mode: History,
        small: bool, accel: int, wide: bool): Job
      requires HistoryAt(|mem|, source, n, HistoryStart(mode), HistorySize(mode), mode)
      reads this, dictCtx, if dictCtx == null then {} else {dictCtx.hashTable}
    {
      CallJob(mem, source, n, Origin(source, ty), HistoryStart(mode), HistorySize(mode), mode, ty, small,
              DictTable(mode), Delta(mode), wide, accel, limit, cap)
    }

    /** Update context state. */
    method Advance(n: int, ty: TableType, mode: History)
      modifies this
      ensures currentOffset == old(currentOffset) + n && tableType == ty && dictionary == old(dictionary)
      ensures dictSize == (if mode.UsingDictCtx? then n else old(dictSize) + n)
      ensures dictCtx == (if mode.UsingDictCtx? then null else old(dictCtx))
    {
      if mode.UsingDictCtx? {
        dictCtx, dictSize := null, n;
      } else {
        dictSize := dictSize + n;
      }
      currentOffset := currentOffset + n;
      tableType := ty;
    }

    method CompressGeneric(mem: seq<byte>, source: int, dst: array<byte>, n: int, cap: int, limit: Limit,
                           ty: TableType, mode: History, small: bool, accel: int, wide: bool, ghost pre: seq<byte>)
      returns (result: int, consumed: int)
      requires 0 <= n <= MAX_INPUT_SIZE ==> RoomFor(n, limit, cap, dst.Length)
      requires 0 <= n <= MAX_INPUT_SIZE ==> HistoryAt(|mem|, source, n, HistoryStart(mode), HistorySize(mode), mode)
      requires 0 <= n <= MAX_INPUT_SIZE ==>
        pre == KnownHistory(mem, source, HistoryStart(mode), HistorySize(mode), mode)
      requires Compresses(n, limit, cap, ty) ==>
                 Ready(JobNow(mem, source, n, cap, limit, ty, mode, small, accel, wide), hashTable[..], dst.Length)
      modifies this, hashTable, dst
      ensures if 0 <= n <= MAX_INPUT_SIZE
        then Outcome(dst[..], pre, mem[source..source + n], limit, cap, ty, result, consumed)
              else result == 0 && consumed == 0
      ensures if Compresses(n, limit, cap, ty)
              then currentOffset == old(currentOffset) + n && tableType == ty && dictionary == old(dictionary)
                && dictSize == (if mode.UsingDictCtx? then n else old(dictSize) + n)
                && dictCtx == (if mode.UsingDictCtx? then null else old(dictCtx))
                && hashTable.Length == SLOTS && Past(hashTable[..], Slots(ty), old(Origin(source, ty)) + n)
              else unchanged(this) && unchanged(hashTable) && hashTable[..] == old(hashTable[..])
    {
      hide Ready, CompressBound, Outcome, Past, Compressed, EncodeAll;
      if n < 0 || n > MAX_INPUT_SIZE { return 0, 0; }
      if n == 0 {
        result := EmptyBlock(dst, cap, limit, ty, pre);
        assert mem[source..source + n] == [];
        return result, 0;
      }
      if !Compresses(n, limit, cap, ty) {
        NothingOut(dst[..], pre, mem[source..source + n], limit, cap, ty);
        return 0, 0;
      }
      var j := JobNow(mem, source, n, cap, limit, ty, mode, small, accel, wide);
      CallJobShows(mem, source, n, Origin(source, ty), HistoryStart(mode), HistorySize(mode), mode, ty, small,
        DictTable(mode), Delta(mode), wide, accel, limit, cap);
      ReadyParts(j, hashTable[..], dst.Length);
      Advance(n, ty, mode);
      var o;
      result, consumed, o := CompressJob(j, hashTable, dst);
      CompressedOutcome(o, j, pre, mem[source..source + n], result, consumed);
    }
  }

  lemma ReadyParts(j: Job, table: seq<int>, capacity: int)
    requires Ready(j, table, capacity)
    ensures JobOk(j, capacity) && TableOk(j, table, j.Start())
  {
  }

  lemma NothingOut(dst: seq<byte>, pre: seq<byte>, src: seq<byte>, limit: Limit, cap: int, ty: TableType)
    requires Refuses(|src|, limit, cap, ty)
    ensures Outcome(dst, pre, src, limit, cap, ty, 0, 0)
  {
    hide CompressBound, Encodes;
  }

  /** The empty input: one zero byte, if it may be written. */
  method EmptyBlock(dst: array<byte>, cap: int, limit: Limit, ty: TableType, ghost pre: seq<byte>) returns (result: int)
    requires RoomFor(0, limit, cap, dst.Length)
    modifies dst
    ensures Outcome(dst[..], pre, [], limit, cap, ty, result, 0)
  {
    hide Encodes;
    if !limit.NotLimited? && cap <= 0 { return 0; }
    dst[0] := 0;
    EmptyEncodes(dst[..], pre);
    assert pre + [] == pre;
    return 1;
  }
}
