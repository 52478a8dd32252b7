/** The one-shot entry points of the fast compressor, and why a state that is not cleared between
    calls never leads to a stale position. */
module FastApi {
  import opened Bytes
  import opened BlockFormat
  import opened BlockOutput
  import opened FastTable
  import opened FastCompressor
  import opened FastStream
  import opened Windows

  const ACCELERATION_MAX: int := 65537

  function Acceleration(a: int): (r: int)
    ensures 1 <= r <= ACCELERATION_MAX
  {
    if a < 1 then 1 else if a > ACCELERATION_MAX then ACCELERATION_MAX else a
  }

  /** Two-byte entries for small inputs; else pointers on a 32-bit platform, indices elsewhere. */
  function TableFor(n: int, source: int, ptr32: bool): TableType
  {
    if n < LIMIT_64K then ByU16 else if ptr32 && source > DISTANCE_MAX then ByPtr else ByU32
  }

  lemma OutcomeOneShot(dst: seq<byte>, src: seq<byte>, limit: Limit, cap: int, cap0: int, ty: TableType, result: int,
      consumed: int)
    requires Outcome(dst, [], src, limit, cap, ty, result, consumed) && |src| <= MAX_INPUT_SIZE && !limit.FillOutput?
    requires if limit.NotLimited? then cap0 >= CompressBound(|src|) else cap0 == cap
    requires ty.ByU16? ==> |src| < LIMIT_64K
    ensures OneShot(dst, src, cap0, result)
  {
    hide Encodes, Decode, CompressBound;
    assert [] + src == src;
    if result > 0 {
      assert src[..0] == [] && src[0..|src|] == src;
      var none: seq<byte> := [];
      EncodesMeans(dst[..result], src, 0, |src|, none);
      assert none + src == src;
    }
  }

  // ---------- a fresh or prepared state ----------

  lemma PastZero(table: seq<int>, slots: int, start: int)
    requires |table| == SLOTS && slots <= SLOTS && 0 <= start && forall h :: 0 <= h < slots ==> table[h] == 0
    ensures Past(table, slots, start)
  {
  }

  /** A table of null pointers: address 0 is out of reach of any source beyond 65535. */
  lemma PointersAreReady(mem: seq<byte>, source: int, n: int, wide: bool, accel: int, limit: Limit, cap: int,
      table: seq<int>, capacity: int)
    requires HistoryAt(|mem|, source, n, 0, 0, NoDict) && Compresses(n, limit, cap, ByPtr) && source > DISTANCE_MAX
    requires 1 <= accel && RoomFor(n, limit, cap, capacity) && (limit.LimitedOutput? ==> 0 <= cap)
    requires |table| == SLOTS && forall h :: 0 <= h < Slots(ByPtr) ==> table[h] == 0
    ensures Ready(CallJob(mem, source, n, source, 0, 0, NoDict, ByPtr, false, [], 0, wide, accel, limit, cap), table,
      capacity)
  {
    hide Shows, CompressBound, Usable, HashAt;
    CallJobShows(mem, source, n, source, 0, 0, NoDict, ByPtr, false, [], 0, wide, accel, limit, cap);
    var j := CallJob(mem, source, n, source, 0, 0, NoDict, ByPtr, false, [], 0, wide, accel, limit, cap);
    ZeroUsable(j);
    forall h | 0 <= h < Slots(j.ty) ensures EntryOk(j, table[h], h, j.Start()) {
    }
  }

  lemma ZeroUsable(j: Job)
    requires DISTANCE_MAX < j.Start()
    ensures Usable(j, 0)
  {
  }

  /** LZ4_compress_generic without history, on a table prepared for it. */
  ghost predicate Prepared(c: Stream, n: int, ty: TableType)
    reads c, c.hashTable
  {
    && c.hashTable.Length == SLOTS && 0 <= c.currentOffset
    && c.dictCtx == null && c.dictionary == 0 && c.dictSize == 0
    && Past(c.hashTable[..], Slots(ty), c.currentOffset)
    && match ty
       case Cleared => false
       case ByPtr => c.currentOffset == 0 && forall h :: 0 <= h < Slots(ByPtr) ==> c.hashTable[h] == 0
       case ByU32 => c.currentOffset == 0
       case ByU16 => c.currentOffset == 0 || c.currentOffset + n < LIMIT_64K
  }

  method CompressPrepared(c: Stream, mem: seq<byte>, source: int, dst: array<byte>, n: int, cap: int, limit: Limit,
      ty: TableType, small: bool, accel: int, wide: bool)
    returns (result: int, consumed: int)
    requires Prepared(c, n, ty) && 1 <= accel && (limit.LimitedOutput? ==> 0 <= cap)
    requires 0 <= n <= MAX_INPUT_SIZE ==>
      HistoryAt(|mem|, source, n, 0, 0, NoDict) && RoomFor(n, limit, cap, dst.Length)
    requires (ty.ByPtr? ==> source > DISTANCE_MAX) && (small == (ty.ByU16? && c.currentOffset != 0))
    modifies c, c.hashTable, dst
    ensures if 0 <= n <= MAX_INPUT_SIZE
      then Outcome(dst[..], [], mem[source..source + n], limit, cap, ty, result, consumed)
            else result == 0 && consumed == 0
    ensures c.hashTable.Length == SLOTS
    ensures if Compresses(n, limit, cap, ty)
            then c.currentOffset == old(c.currentOffset) + n && c.tableType == ty
              && (!ty.ByPtr? ==> Past(c.hashTable[..], Slots(ty), c.currentOffset))
            else unchanged(c) && unchanged(c.hashTable)
  {
    hide Outcome, Past, CompressBound, Ready;
    if Compresses(n, limit, cap, ty) {
      if ty.ByPtr? {
        PointersAreReady(mem, source, n, wide, accel, limit, cap, c.hashTable[..], dst.Length);
      } else {
        CallIsReady(mem, source, n, c.currentOffset, 0, 0, NoDict, ty, small, wide, accel, limit, cap, c.hashTable[..],
          dst.Length);
      }
    }
    result, consumed := c.CompressGeneric(mem, source, dst, n, cap, limit, ty, NoDict, small, accel, wide, []);
  }

  lemma InitialIsPrepared(c: Stream, n: int, ty: TableType)
    requires c.Initial() && !ty.Cleared?
    ensures Prepared(c, n, ty)
  {
    hide Past;
    PastZero(c.hashTable[..], Slots(ty), 0);
  }

  /** The choice of output mode shared by the entry points. */
  method CompressChecked(c: Stream, mem: seq<byte>, source: int, dst: array<byte>, n: int, cap: int, ty: TableType,
      small: bool, accel: int, wide: bool)
    returns (result: int)
    requires Prepared(c, n, ty) && 1 <= accel && 0 <= cap <= dst.Length && (ty.ByU16? ==> n < LIMIT_64K)
    requires 0 <= n <= MAX_INPUT_SIZE ==> 0 <= source && source + n <= |mem|
    requires (ty.ByPtr? ==> source > DISTANCE_MAX) && (small == (ty.ByU16? && c.currentOffset != 0))
    modifies c, c.hashTable, dst
    ensures if 0 <= n <= MAX_INPUT_SIZE then OneShot(dst[..], mem[source..source + n], cap, result) else result == 0
    ensures c.hashTable.Length == SLOTS
    ensures if 0 < n <= MAX_INPUT_SIZE
            then c.currentOffset == old(c.currentOffset) + n && c.tableType == ty
              && (!ty.ByPtr? ==> Past(c.hashTable[..], Slots(ty), c.currentOffset))
            else unchanged(c) && unchanged(c.hashTable)
  {
    hide Outcome, Past, Prepared, CompressBound, OneShot;
    var limit, olimit := if cap >= CompressBound(n) then NotLimited else LimitedOutput, if cap >= CompressBound(n)
      then 0 else cap;
    var consumed;
    result, consumed := CompressPrepared(c, mem, source, dst, n, olimit, limit, ty, small, accel, wide);
    if 0 <= n <= MAX_INPUT_SIZE { OutcomeOneShot(dst[..], mem[source..source + n], limit, olimit, cap, ty, result,
      consumed); }
  }

  /** LZ4_compress_fast_extState, and with a local state LZ4_compress_fast. */
  method CompressFastExtState(state: Stream, mem: seq<byte>, source: int, dst: array<byte>, n: int, cap: int,
      acceleration: int, ptr32: bool)
    returns (result: int)
    requires state.hashTable.Length == SLOTS && 0 <= cap <= dst.Length
    requires 0 <= n <= MAX_INPUT_SIZE ==> 0 <= source && source + n <= |mem|
    modifies state, state.hashTable, dst
    ensures if 0 <= n <= MAX_INPUT_SIZE then OneShot(dst[..], mem[source..source + n], cap, result) else result == 0
  {
    hide OneShot, Past, Prepared, CompressBound;
    state.Reset();
    var ty := TableFor(n, source, ptr32);
    InitialIsPrepared(state, n, ty);
    result := CompressChecked(state, mem, source, dst, n, cap, ty, false, Acceleration(acceleration), !ptr32);
  }

  /** LZ4_compress_default */
  method CompressDefault(mem: seq<byte>, source: int, dst: array<byte>, n: int, cap: int, ptr32: bool)
      returns (result: int)
    requires 0 <= cap <= dst.Length
    requires 0 <= n <= MAX_INPUT_SIZE ==> 0 <= source && source + n <= |mem|
    modifies dst
    ensures if 0 <= n <= MAX_INPUT_SIZE then OneShot(dst[..], mem[source..source + n], cap, result) else result == 0
  {
    hide OneShot;
    var state := new Stream();
    result := CompressFastExtState(state, mem, source, dst, n, cap, 1, ptr32);
  }

  // ---------- filling a given output ----------

  /** What LZ4_compress_destSize promises: at most `target` bytes, which decode to exactly the first
      `consumed` bytes; when the input was cut, at most one byte of the output is unused. */
  ghost predicate Filled(dst: seq<byte>, src: seq<byte>, target: int, result: int, consumed: int)
  {
    && 0 <= result <= |dst| && 0 <= consumed <= |src| && result <= Max(target, 0)
    && (result == 0 <==> target < 1)
    && (result > 0 ==>
       Encodes(dst[..result], src, 0, consumed) && Decode(dst[..result], 0, []) == Some(src[..consumed]))
    && (consumed < |src| ==> target - 1 <= result)
  }

  lemma OutcomeFilled(dst: seq<byte>, src: seq<byte>, target: int, ty: TableType, result: int, consumed: int)
    requires Outcome(dst, [], src, FillOutput, target, ty, result, consumed) && |src| <= MAX_INPUT_SIZE
    requires (ty.ByU16? ==> |src| < LIMIT_64K) && (target < 1 ==> result == 0)
    ensures Filled(dst, src, target, result, if result == 0 then |src| else consumed)
  {
    hide Encodes, Decode, CompressBound;
    assert [] + src == src;
    if result > 0 {
      var none: seq<byte> := [];
      assert src[..0] == none;
      EncodesMeans(dst[..result], src, 0, consumed, none);
      assert none + src[0..consumed] == src[..consumed];
    }
  }

  lemma OneShotFilled(dst: seq<byte>, src: seq<byte>, target: int, result: int)
    requires OneShot(dst, src, target, result) && CompressBound(|src|) <= target && |src| <= MAX_INPUT_SIZE
    ensures Filled(dst, src, target, result, |src|)
  {
    hide Encodes, Decode;
    assert src[..|src|] == src;
  }

  /** LZ4_compress_destSize; *srcSizePtr is written only when something was compressed. */
  method CompressDestSize(state: Stream, mem: seq<byte>, source: int, dst: array<byte>, n: int, target: int,
      ptr32: bool)
    returns (result: int, consumed: int)
    requires state.hashTable.Length == SLOTS && target <= dst.Length
    requires 0 <= n <= MAX_INPUT_SIZE && 0 <= source && source + n <= |mem|
    modifies state, state.hashTable, dst
    ensures Filled(dst[..], mem[source..source + n], target, result, consumed)
  {
    hide OneShot, Past, Prepared, CompressBound, Outcome, Filled;
    consumed := n;
    ghost var src := mem[source..source + n];
    if target >= CompressBound(n) {
      BoundPositive(n);
      result := CompressFastExtState(state, mem, source, dst, n, target, 1, ptr32);
      OneShotFilled(dst[..], src, target, result);
    } else {
      state.Reset();
      var ty, k := TableFor(n, source, ptr32), 0;
      InitialIsPrepared(state, n, ty);
      result, k := CompressPrepared(state, mem, source, dst, n, target, FillOutput, ty, false, 1, !ptr32);
      FillNeedsRoom(dst[..], src, target, ty, result, k);
      OutcomeFilled(dst[..], src, target, ty, result, k);
      if result > 0 { consumed := k; }
    }
  }

  lemma BoundPositive(n: int)
    requires 0 <= n <= MAX_INPUT_SIZE
    ensures 0 < CompressBound(n)
  {
  }

  lemma FillNeedsRoom(dst: seq<byte>, src: seq<byte>, target: int, ty: TableType, result: int, consumed: int)
    requires Outcome(dst, [], src, FillOutput, target, ty, result, consumed)
    ensures 0 <= result && (target < 1 ==> result == 0)
  {
  }

  // ---------- reusing a state ----------

  const OFFSET_MAX: int := 0x8000_0000

  ghost predicate Zero(table: seq<int>)
  {
    forall h :: 0 <= h < |table| ==> table[h] == 0
  }

  /** What holds of a state after any use: its entries are earlier positions of the type it notes. */
  ghost predicate Consistent(c: Stream)
    reads c, c.hashTable
  {
    && c.hashTable.Length == SLOTS && 0 <= c.currentOffset <= OFFSET_MAX
    && match c.tableType
       case Cleared => Zero(c.hashTable[..])
       case ByPtr => true
       case ByU32 => Past(c.hashTable[..], Slots(ByU32), c.currentOffset)
       case ByU16 => Past(c.hashTable[..], Slots(ByU16), c.currentOffset)
  }

  /** The states reached from LZ4_initStream by LZ4_compress_fast_extState_fastReset calls. */
  ghost predicate Reusable(c: Stream)
    reads c, c.hashTable
  {
    Consistent(c) && (c.tableType.Cleared? ==> c.currentOffset == 0)
  }

  lemma InitialIsReusable(c: Stream)
    requires c.Initial()
    ensures Reusable(c)
  {
  }

  const GB: int := 0x4000_0000

  /** When LZ4_prepareTable resets a table that has been used. */
  predicate MustReset(tableType: TableType, currentOffset: int, n: int, ty: TableType)
  {
    || tableType != ty
    || (ty.ByU16? && currentOffset + n >= 0xFFFF)
    || (ty.ByU32? && currentOffset > GB)
    || ty.ByPtr?
    || n >= 4096
  }

  /** LZ4_prepareTable */
  method PrepareTable(c: Stream, n: int, ty: TableType)
    requires c.hashTable.Length == SLOTS && 0 <= n
    modifies c, c.hashTable
    ensures c.dictCtx == null && c.dictionary == 0 && c.dictSize == 0
    ensures var reset := !old(c.tableType).Cleared? && MustReset(old(c.tableType), old(c.currentOffset), n, ty);
      var offset := if reset then 0 else old(c.currentOffset);
      && c.tableType == (if reset then Cleared else old(c.tableType))
      && c.currentOffset == (if offset != 0 && ty.ByU32? then offset + KB64 else offset)
      && (if reset then forall h :: 0 <= h < SLOTS ==> c.hashTable[h] == 0 else unchanged(c.hashTable))
  {
    if !c.tableType.Cleared? {
      if MustReset(c.tableType, c.currentOffset, n, ty) {
        c.ClearTable();
        c.currentOffset := 0;
        c.tableType := Cleared;
      }
    }
    if c.currentOffset != 0 && ty.ByU32? { c.currentOffset := c.currentOffset + KB64; }
    c.dictCtx := null;
    c.dictionary := 0;
    c.dictSize := 0;
  }

  method PrepareFor(c: Stream, n: int, source: int, ptr32: bool) returns (ty: TableType)
    requires Reusable(c) && 0 <= n
    modifies c, c.hashTable
    ensures ty == TableFor(n, source, ptr32) && Prepared(c, n, ty) && Reusable(c)
  {
    hide Past, MustReset;
    ty := TableFor(n, source, ptr32);
    ghost var table := c.hashTable[..];
    ghost var reset := !c.tableType.Cleared? && MustReset(c.tableType, c.currentOffset, n, ty);
    ResetCases(c.tableType, c.currentOffset, n, ty);
    PrepareTable(c, n, ty);
    if reset || c.tableType.Cleared? {
      PastZero(c.hashTable[..], Slots(ty), 0);
    } else {
      assert c.hashTable[..] == table;
    }
  }

  /** Without a reset, a used table has the right type and (for two-byte entries) room left. */
  lemma ResetCases(tableType: TableType, currentOffset: int, n: int, ty: TableType)
    ensures !MustReset(tableType, currentOffset, n, ty) ==> tableType == ty && !ty.ByPtr? && n < 4096
    ensures !MustReset(tableType, currentOffset, n, ty) && ty.ByU16? ==> currentOffset + n < 0xFFFF
  {
  }

  /** LZ4_compress_fast_extState_fastReset: whatever earlier calls left, the result is what a fresh
      state would promise, and the state can be reused again. */
  method CompressFastReset(state: Stream, mem: seq<byte>, source: int, dst: array<byte>, n: int, cap: int,
      acceleration: int, ptr32: bool)
    returns (result: int)
    requires Reusable(state) && 0 <= n && 0 <= cap <= dst.Length
    requires n <= MAX_INPUT_SIZE ==> 0 <= source && source + n <= |mem|
    modifies state, state.hashTable, dst
    ensures if n <= MAX_INPUT_SIZE then OneShot(dst[..], mem[source..source + n], cap, result) else result == 0
    ensures Reusable(state)
  {
    hide OneShot, Past, Prepared;
    var ty := PrepareFor(state, n, source, ptr32);
    OffsetNat(state, n, ty);
    result := CompressChecked(state, mem, source, dst, n, cap, ty, ty.ByU16? && state.currentOffset != 0,
      Acceleration(acceleration), !ptr32);
  }

  lemma OffsetNat(c: Stream, n: int, ty: TableType)
    requires Prepared(c, n, ty)
    ensures 0 <= c.currentOffset && !ty.Cleared? && (0 <= n <= MAX_INPUT_SIZE ==> c.currentOffset + n <= OFFSET_MAX)
  {
  }

  /** One call of a run. */
  datatype Request = Request(source: int, n: int, cap: int, acceleration: int)

  ghost predicate RequestOk(r: Request, memSize: int, capacity: int)
  {
    0 <= r.n && 0 <= r.cap <= capacity && (r.n <= MAX_INPUT_SIZE ==> 0 <= r.source && r.source + r.n <= memSize)
  }

  /** What a run's k-th block must be. */
  ghost predicate Answered(block: seq<byte>, mem: seq<byte>, r: Request)
  {
    && (0 <= r.source && 0 <= r.n <= MAX_INPUT_SIZE && r.source + r.n <= |mem| ==>
         (block != [] ==> Decode(block, 0, []) == Some(mem[r.source..r.source + r.n]))
         && (block == [] ==> r.cap < CompressBound(r.n)))
    && (r.n > MAX_INPUT_SIZE ==> block == [])
  }

  /** Any number of calls on one state, successful or not: each answer is sound. */
  method CompressMany(mem: seq<byte>, dst: array<byte>, requests: seq<Request>, ptr32: bool)
      returns (blocks: seq<seq<byte>>)
    requires forall k :: 0 <= k < |requests| ==> RequestOk(requests[k], |mem|, dst.Length)
    modifies dst
    ensures |blocks| == |requests| && forall k :: 0 <= k < |requests| ==> Answered(blocks[k], mem, requests[k])
  {
    hide Answered, RequestOk, OneShot, Reusable;
    var state := new Stream();
    InitialIsReusable(state);
    blocks := [];
    for k := 0 to |requests|
      invariant Reusable(state) && fresh(state) && fresh(state.hashTable) && |blocks| == k
      invariant forall i :: 0 <= i < k ==> Answered(blocks[i], mem, requests[i])
    {
      var block := AnswerOne(state, mem, dst, requests[k], ptr32);
      blocks := blocks + [block];
    }
  }

  method AnswerOne(state: Stream, mem: seq<byte>, dst: array<byte>, r: Request, ptr32: bool) returns (block: seq<byte>)
    requires Reusable(state) && RequestOk(r, |mem|, dst.Length)
    modifies state, state.hashTable, dst
    ensures Reusable(state) && Answered(block, mem, r)
  {
    hide Reusable, Encodes, Decode, CompressBound;
    var result := CompressFastReset(state, mem, r.source, dst, r.n, r.cap, r.acceleration, ptr32);
    block := dst[..result];
  }
}
