/** The hash table of the fast compressor: what its entries mean in the call at hand, and why a
    candidate taken from it lies inside the window. */
module FastTable {
  import opened Bytes
  import opened BlockFormat
  import opened MatchLength
  import opened Windows
  import opened Alias
  import opened BlockOutput

  datatype TableType = Cleared | ByPtr | ByU32 | ByU16

  /** dict_directive: where the data before the source lies. */
  datatype History = NoDict | WithPrefix | UsingExtDict | UsingDictCtx

  /** LZ4_64Klimit */
  const LIMIT_64K: nat := 65547

  /** The table is 16 KB: 8192 entries of two bytes, or half as many of four. */
  const SLOTS: nat := 0x2000

  function Slots(ty: TableType): nat { if ty.ByU16? then SLOTS else SLOTS / 2 }

  function LE64(s: seq<byte>): int
    requires |s| == 8
  {
    LE32(s[0], s[1], s[2], s[3]) + 0x1_0000_0000 * LE32(s[4], s[5], s[6], s[7])
  }

  function Hash4(v: int, ty: TableType): (h: int)
    ensures 0 <= h < Slots(ty)
  {
    var m := (v * 2654435761) % 0x1_0000_0000;
    if ty.ByU16? then m / 0x8_0000 else m / 0x10_0000
  }

  function Hash5(v: int): (h: int)
    ensures 0 <= h < SLOTS / 2
  {
    var m := (v * 0x100_0000 % 0x1_0000_0000_0000_0000) * 889523592379 % 0x1_0000_0000_0000_0000;
    m / 0x10_0000_0000_0000
  }

  /** sizeof(reg_t) */
  function Unit(wide: bool): int { if wide then 8 else 4 }

  /** LZ4_hashPosition; `wide` on a 64-bit platform. */
  function HashPosition(mem: seq<byte>, p: int, ty: TableType, wide: bool): (h: int)
    requires 0 <= p && p + Unit(wide) <= |mem|
    ensures 0 <= h < Slots(ty)
  {
    if wide && !ty.ByU16? then Hash5(LE64(mem[p..p + 8]))
    else Hash4(LE32(mem[p], mem[p + 1], mem[p + 2], mem[p + 3]), ty)
  }

  /** One call.  The window shows x, the known history followed by the source x[s0..]; dtab is the
      table of an attached dictionary whose indices are `delta` below this call's. */
  datatype Job = Job(w: Window, mem: seq<byte>, x: seq<byte>, s0: int, ty: TableType, mode: History, small: bool,
                     dtab: seq<int>, delta: int, wide: bool, accel: int, limit: Limit, olimit: int)
  {
    /** startIndex */
    function Start(): int { w.lo + s0 }
    function External(): bool { mode.UsingExtDict? || mode.UsingDictCtx? }
    /** mflimitPlusOne, as an index */
    function MflimitPlusOne(): int { w.end - MFLIMIT + 1 }
    function Matchlimit(): int { w.end - LASTLITERALS }
    /** Where index i lives. */
    function Addr(i: int): int { if i < w.dl then w.dictBase + i else w.base + i }
  }

  /** An entry from before this call: a position whose four bytes lie before the source, and that
      is in the window, too far away for a match, or refused by the dictSmall check. */
  ghost predicate Usable(j: Job, e: int)
  {
    && 0 <= e && (e == 0 || e + MINMATCH <= j.Start())
    && (j.w.lo <= e || e + DISTANCE_MAX + 1 <= j.Start() || j.small)
  }

  ghost predicate DictTableOk(j: Job)
  {
    |j.dtab| == SLOTS && forall h :: 0 <= h < SLOTS / 2 ==> Usable(j, j.dtab[h] + j.delta)
  }

  /** What the callers of the compressor guarantee. */
  ghost predicate JobOk(j: Job, capacity: int)
  {
    && Shows(j.w, j.mem, j.x)
    && 0 <= j.s0 <= |j.x| && |j.x| - j.s0 <= MAX_INPUT_SIZE && 0 <= j.Start()
    && !j.ty.Cleared? && 1 <= j.accel
    && j.w.dl == (if j.External() then j.Start() else j.w.lo)
    && (j.ty.ByU16? ==> !j.External() && j.w.end < LIMIT_64K)
    && (j.External() ==> j.ty.ByU32? && (j.s0 == 0 || MINMATCH <= j.Start()))
    && (j.External() ==> j.w.dictBase + j.w.lo != j.w.base + j.w.dl || Tame(j.s0, |j.x| - j.s0))
    && (j.mode.UsingDictCtx? ==> DISTANCE_MAX < j.Start() && DictTableOk(j))
    && Usable(j, 0)
    && (if j.limit.NotLimited? then CompressBound(|j.x| - j.s0) <= capacity else 0 <= j.olimit <= capacity)
    && (j.limit.FillOutput? ==> 1 <= j.olimit)
  }

  /** The hash of index i of the source. */
  function HashAt(j: Job, i: int): (h: int)
    ensures 0 <= h < Slots(j.ty)
  {
    var p := j.w.base + i;
    if 0 <= p && p + Unit(j.wide) <= |j.mem| then HashPosition(j.mem, p, j.ty, j.wide) else 0
  }

  /** An entry from before this call.  With an attached dictionary such entries are not looked at. */
  ghost predicate Earlier(j: Job, e: int)
  {
    if j.mode.UsingDictCtx? then 0 <= e && (e == 0 || e + MINMATCH <= j.Start()) else Usable(j, e)
  }

  /** An entry of slot h: usable from before, or an earlier index of the source that hashes to h. */
  ghost predicate EntryOk(j: Job, e: int, h: int, next: int)
  {
    Earlier(j, e) || (j.Start() <= e < next && HashAt(j, e) == h)
  }

  ghost predicate TableOk(j: Job, table: seq<int>, next: int)
  {
    |table| == SLOTS && forall h :: 0 <= h < Slots(j.ty) ==> EntryOk(j, table[h], h, next)
  }

  lemma TableLater(j: Job, table: seq<int>, next: int, next1: int)
    requires TableOk(j, table, next) && next <= next1
    ensures TableOk(j, table, next1)
  {
    hide Earlier, HashAt;
  }

  lemma TableSet(j: Job, table: seq<int>, h: int, e: int, next: int)
    requires TableOk(j, table, next) && 0 <= h < SLOTS && EntryOk(j, e, h, next)
    ensures TableOk(j, table[h := e], next)
  {
    hide Usable, EntryOk;
  }

  /** How an index is stored: two-byte entries keep the low 16 bits. */
  function Stored(ty: TableType, i: int): int { if ty.ByU16? then i % 0x1_0000 else i }

  /** LZ4_putIndexOnHash.  No index is ever cut short. */
  method Put(j: Job, t: array<int>, i: int, h: int, ghost capacity: int, ghost next: int)
    requires JobOk(j, capacity) && TableOk(j, t[..], next) && h == HashAt(j, i)
    requires j.Start() <= i < next && i + MFLIMIT <= j.w.end
    modifies t
    ensures TableOk(j, t[..], next) && Stored(j.ty, i) == i
  {
    hide Usable, HashAt, TableOk, DictTableOk, Shows, CompressBound;
    TableSize(j, t[..], next);
    TableSet(j, t[..], h, i, next);
    t[h] := Stored(j.ty, i);
    assert t[..] == old(t[..])[h := i];
  }

  lemma TableSize(j: Job, table: seq<int>, next: int)
    requires TableOk(j, table, next)
    ensures |table| == SLOTS && Slots(j.ty) <= SLOTS
  {
  }

  // ---------- candidates ----------

  /** The candidate for hash h: this call's entry or, when that predates the source and a
      dictionary is attached, the dictionary's. */
  function Candidate(j: Job, e: int, h: int): int
    requires 0 <= h < |j.dtab| || !j.mode.UsingDictCtx?
  {
    if j.mode.UsingDictCtx? && e < j.Start() then j.dtab[h] + j.delta else e
  }

  lemma CandidateOk(j: Job, table: seq<int>, h: int, next: int, capacity: int)
    requires JobOk(j, capacity) && TableOk(j, table, next) && 0 <= h < Slots(j.ty)
    ensures h < |table| && (j.mode.UsingDictCtx? ==> h < |j.dtab|)
    ensures var m := Candidate(j, table[h], h); Usable(j, m) || j.Start() <= m < next
  {
    hide Shows, CompressBound, HashAt, Usable;
    assert EntryOk(j, table[h], h, next);
    if j.mode.UsingDictCtx? && table[h] < j.Start() { assert Usable(j, j.dtab[h] + j.delta); }
    hide HashAt;
  }

  /** The index tests before four bytes are compared: dictSmall, then the distance, which two-byte
      entries leave out. */
  predicate Accepted(j: Job, m: int, current: int)
  {
    !(j.small && m < j.w.lo) && (j.ty.ByU16? || current <= m + DISTANCE_MAX)
  }

  /** m is in the window of index i, with four bytes on one side of the dictionary's end. */
  ghost predicate Reachable(j: Job, i: int, m: int)
  {
    j.w.lo <= m < i <= m + DISTANCE_MAX && (m < j.w.dl ==> m + MINMATCH <= j.w.dl)
  }

  /** The distance test may be left out: indices of two bytes are never further apart. */
  lemma AcceptedReaches(j: Job, m: int, next: int, i: int, capacity: int)
    requires JobOk(j, capacity) && (Usable(j, m) || j.Start() <= m < next)
    requires next <= i && j.Start() < i && i + MFLIMIT <= j.w.end && Accepted(j, m, i)
    ensures Reachable(j, i, m)
  {
    hide Shows, CompressBound, DictTableOk;
    ShowsBounds(j.w, j.mem, j.x);
  }
}
