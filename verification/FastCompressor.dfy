/** LZ4_compress_generic: the main loop of the fast compressor in every output mode, table type
    and history mode. */
module FastCompressor {
  import opened Bytes
  import opened BlockFormat
  import opened BlockWriter
  import opened HcEncoder
  import opened BlockOutput
  import opened FastEncoder
  import opened FastTable
  import opened FastSearch
  import opened Windows
  import opened MatchLength

  /** LZ4_minLength */
  const MIN_LENGTH: nat := MFLIMIT + 1

  /** What the output modes keep between sequences. */
  ghost predicate Room(j: Job, o: Output)
    reads o
  {
    && (j.limit.LimitedOutput? && o.seqs != [] ==> o.op + 1 + LASTLITERALS <= j.olimit)
    && (j.limit.FillOutput? ==> TailRoom(o, j.olimit))
  }

  ghost predicate OutOk(j: Job, o: Output)
    reads o, o.dst
  {
    o.Valid(j.x, j.s0) && j.s0 <= o.anchor <= |j.x| && MatchesInside(o, j.x) && Room(j, o)
  }

  // ---------- a shortened match and the table ----------

  /** No entry is an index in [a, b). */
  ghost predicate Hollow(j: Job, table: seq<int>, a: int, b: int)
  {
    |table| == SLOTS && forall h :: 0 <= h < Slots(j.ty) ==> !(a <= table[h] < b)
  }

  lemma ClearOne(j: Job, table: seq<int>, a: int, p: int, next: int, capacity: int)
    requires JobOk(j, capacity) && TableOk(j, table, next) && Hollow(j, table, a, p) && j.Start() < a <= p
    ensures TableOk(j, table[HashAt(j, p) := 0], next) && Hollow(j, table[HashAt(j, p) := 0], a, p + 1)
  {
    hide Shows, CompressBound, DictTableOk, HashAt;
    forall h | 0 <= h < Slots(j.ty) && table[h] == p ensures h == HashAt(j, p) {
      assert EntryOk(j, table[h], h, next);
    }
    assert EntryOk(j, 0, HashAt(j, p), next);
    hide Usable;
    TableSet(j, table, HashAt(j, p), 0, next);
  }

  lemma HollowIsEarlier(j: Job, table: seq<int>, a: int, next: int)
    requires TableOk(j, table, next) && Hollow(j, table, a, next) && j.Start() < a
    ensures TableOk(j, table, a)
  {
    hide HashAt, Earlier;
    forall h | 0 <= h < Slots(j.ty) ensures EntryOk(j, table[h], h, a) {
      assert EntryOk(j, table[h], h, next);
    }
  }

  /** for (ptr = ip; ptr <= filledIp; ++ptr): clearing the hashes of these positions removes every
      entry at or beyond ip. */
  method ClearFrom(j: Job, t: array<int>, i: int, filledIp: int, ghost capacity: int)
    requires JobOk(j, capacity) && TableOk(j, t[..], filledIp + 1) && j.Start() < i <= filledIp + 1
    modifies t
    ensures TableOk(j, t[..], i)
  {
    hide JobOk, HashAt, TableOk;
    TableSize(j, t[..], filledIp + 1);
    var ptr := i;
    while ptr <= filledIp
      invariant i <= ptr <= filledIp + 1 && TableOk(j, t[..], filledIp + 1) && Hollow(j, t[..], i, ptr)
    {
      ClearOne(j, t[..], i, ptr, filledIp + 1, capacity);
      ghost var before := t[..];
      t[HashAt(j, ptr)] := 0;
      assert t[..] == before[HashAt(j, ptr) := 0];
      ptr := ptr + 1;
    }
    HollowIsEarlier(j, t[..], i, filledIp + 1);
  }

  // ---------- one match ----------

  /** A match found at index i, of which `known` bytes have been compared already; everything up to
      `top` may be in the table. */
  ghost predicate InHand(j: Job, o: Output, i: int, m: int, known: int, filledIp: int, next: bool)
    reads o, o.dst
  {
    && OutOk(j, o) && o.anchor + j.w.lo <= i && j.Start() <= i && i + MFLIMIT <= j.w.end
    && MINMATCH <= known && Equal(j, i, m, known) && i + known + MFLIMIT - MINMATCH <= j.w.end
    && (if next then o.seqs != [] && i == o.anchor + j.w.lo && filledIp < i && known == MINMATCH
        else filledIp == i + known - MINMATCH)
  }

  /** What is needed to emit a match. */
  lemma EmitReady(j: Job, o: Output, i: int, ml: int, next: bool, capacity: int)
    requires JobOk(j, capacity) && OutOk(j, o) && o.dst.Length == capacity
    requires o.anchor + j.w.lo <= i && i + MFLIMIT <= j.w.end && MINMATCH <= ml && i + ml <= j.Matchlimit()
      && (next ==> o.seqs != [])
    ensures |j.x| == j.w.end - j.w.lo
    ensures if j.limit.NotLimited? then StoresFit(o.op, i - j.w.lo - o.anchor, ml - MINMATCH, o.dst.Length)
            else j.olimit <= o.dst.Length && (next && j.limit.LimitedOutput? ==> o.op + 1 + LASTLITERALS <= j.olimit)
  {
    hide Shows, CompressBound, DictTableOk, Usable, Parsed, EncodeAll, Holds, StoresFit;
    ShowsBounds(j.w, j.mem, j.x);
    if j.limit.NotLimited? { StoresAlwaysFit(o, j.x, j.s0, i - j.w.lo, ml); }
  }

  /** The invariants of the output after a sequence, from how it was decided. */
  lemma EmittedRoom(j: Job, o: Output, op0: int, ll: nat, i: int, ml: nat, next: bool, capacity: int)
    requires JobOk(j, capacity) && o.Valid(j.x, j.s0) && o.seqs != [] && MINMATCH <= ml
    requires i + MFLIMIT <= j.w.end && i + ml <= j.Matchlimit() && j.Start() <= i
    requires var r := Decision(op0, ll, ml, next, j.limit, j.olimit);
      && r.Emitted? && o.anchor == i - j.w.lo + r.ml && o.op == OffsetPos(op0, ll) + 2 + TailSize(r.ml - MINMATCH)
      && o.seqs[|o.seqs| - 1].mlen == r.ml && r.ml >= MINMATCH
    ensures OutOk(j, o)
  {
    hide Shows, CompressBound, DictTableOk, Usable, Parsed, EncodeAll, Holds, Decision, OffsetPos, TailSize;
    ShowsBounds(j.w, j.mem, j.x);
    DecisionBounds(op0, ll, ml, next, j.limit, j.olimit);
  }

  lemma OutcomeModes(op: int, ll: int, ml: int, next: bool, limit: Limit, olimit: int)
    ensures var r := Decision(op, ll, ml, next, limit, olimit);
      r.Rewound? ==> limit.FillOutput?
  {
    hide LiteralsOverflow, CodeOverflows, TooClose, OffsetPos, CutCode;
  }

  lemma EqualDistance(j: Job, i: int, m: int, n: int)
    requires Equal(j, i, m, n)
    ensures 1 <= i - m <= DISTANCE_MAX && j.Start() <= i && i + n <= j.Matchlimit()
  {
    hide Same;
  }

  /** A limited output that is refused is smaller than the worst case. */
  ghost predicate TooSmall(j: Job)
  {
    j.limit.LimitedOutput? && j.olimit < CompressBound(|j.x| - j.s0)
  }

  lemma RefusedMeans(j: Job, o: Output, i: int, ml: int, next: bool, capacity: int)
    requires JobOk(j, capacity) && o.Valid(j.x, j.s0) && o.anchor + j.w.lo <= i && MINMATCH <= ml
      && i + ml <= j.Matchlimit()
    requires Decision(o.op, i - j.w.lo - o.anchor, ml, next, j.limit, j.olimit).Refused?
    ensures TooSmall(j)
  {
    hide Shows, DictTableOk, Usable, Parsed, EncodeAll, Holds, CompressBound;
    ShowsBounds(j.w, j.mem, j.x);
    SequenceWithinBound(o, j.x, j.s0, i - j.w.lo, ml);
  }

  /** Label _next_match, with the checks that lead there: the sequence is emitted, and then nothing
      in the table lies at or beyond its end; or the output is full. */
  method EncodeMatch(j: Job, t: array<int>, o: Output, i: int, m: int, ghost known: int, filledIp: int, next: bool)
    returns (r: Outcome)
    requires JobOk(j, o.dst.Length) && InHand(j, o, i, m, known, filledIp, next)
      && TableOk(j, t[..], i + known - MINMATCH + 1)
    modifies t, o, o.dst
    ensures OutOk(j, o)
    ensures r.Emitted? ==> o.seqs != [] && i + MINMATCH <= i + r.ml <= j.Matchlimit() && o.anchor == i + r.ml - j.w.lo
    ensures r.Emitted? ==> TableOk(j, t[..], Min(i + r.ml, j.MflimitPlusOne()))
    ensures !r.Emitted? ==> TableOk(j, t[..], j.MflimitPlusOne())
    ensures r.Refused? ==> TooSmall(j)
    ensures r.Rewound? ==> j.limit.FillOutput?
  {
    hide JobOk, Equal, TableOk, Parsed, Holds, EncodeAll, Genuine, Decision, OffsetPos, TailSize, Usable,
      EndRestrictions;
    ghost var capacity, op0, ll, top := o.dst.Length, o.op, i - j.w.lo - o.anchor, i + known - MINMATCH + 1;
    var ml := Measure(j, i, m, known, capacity);
    EmitReady(j, o, i, ml, next, capacity);
    EqualDistance(j, i, m, known);
    if Decision(op0, ll, ml, next, j.limit, j.olimit).Refused? { RefusedMeans(j, o, i, ml, next, capacity); }
    r := Emit(o, j.x, j.s0, i - j.w.lo, ml, i - m, next, j.limit, j.olimit);
    OutcomeModes(op0, ll, ml, next, j.limit, j.olimit);
    if r.Emitted? {
      EmittedRoom(j, o, op0, ll, i, ml, next, capacity);
      if r.ml < ml && i + r.ml <= filledIp {
        ClearFrom(j, t, i + r.ml, filledIp, capacity);
      } else {
        TableLater(j, t[..], top, Min(i + r.ml, j.MflimitPlusOne()));
      }
    } else {
      TableLater(j, t[..], top, j.MflimitPlusOne());
    }
  }

  // ---------- the main loop ----------

  /** Where the loop stands: about to search from index i; at index i, just after a match; done; or
      out of room in a limited output. */
  datatype Phase = Search(i: int) | Test(i: int, filledIp: int) | LastLiterals | NoRoom

  ghost predicate PhaseOk(j: Job, o: Output, table: seq<int>, ph: Phase)
    reads o
  {
    match ph
    case Search(i) => j.Start() < i <= j.MflimitPlusOne() && o.anchor + j.w.lo <= i && TableOk(j, table, i)
    case Test(i, filledIp) =>
      && j.Start() + MINMATCH <= i <= j.Matchlimit() && o.anchor + j.w.lo == i && o.seqs != []
      && TableOk(j, table, Min(i, j.MflimitPlusOne())) && filledIp < j.MflimitPlusOne()
    case LastLiterals => TableOk(j, table, j.MflimitPlusOne())
    case NoRoom => TooSmall(j) && TableOk(j, table, j.MflimitPlusOne())
  }

  ghost predicate StateOk(j: Job, t: array<int>, o: Output, ph: Phase)
    reads t, o, o.dst
  {
    JobOk(j, o.dst.Length) && OutOk(j, o) && PhaseOk(j, o, t[..], ph)
  }

  /** With the anchor, what the loop decreases: a shortened match may end before the index the
      search for it started at, but never at or before the anchor. */
  function Rank(ph: Phase): nat
  {
    match ph
    case Search(_) => 1
    case Test(_, _) => 2
    case LastLiterals => 0
    case NoRoom => 0
  }

  function After(r: Outcome, i: int, filledIp: int): Phase
  {
    match r
    case Emitted(ml) => Test(i + ml, filledIp)
    case Refused => NoRoom
    case Rewound => LastLiterals
  }

  /** Find a match, catch up, encode. */
  method StepSearch(j: Job, t: array<int>, o: Output, i0: int) returns (ph: Phase)
    requires StateOk(j, t, o, Search(i0))
    modifies t, o, o.dst
    ensures StateOk(j, t, o, ph) && (Rank(ph) == 0 || old(o.anchor) < o.anchor)
  {
    hide JobOk, Equal, TableOk, OutOk;
    ghost var capacity := o.dst.Length;
    AnchorBounds(j, o, capacity);
    var found, i, m := FindMatch(j, t, i0, capacity);
    if !found { return LastLiterals; }
    var back := CatchUp(j, o.anchor + j.w.lo, i, m, capacity);
    EqualDistance(j, i + back, m + back, MINMATCH - back);
    var r := EncodeMatch(j, t, o, i + back, m + back, MINMATCH - back, i, false);
    return After(r, i + back, i);
  }

  lemma AnchorBounds(j: Job, o: Output, capacity: int)
    requires JobOk(j, capacity) && OutOk(j, o)
    ensures j.Start() <= o.anchor + j.w.lo && |j.x| == j.w.end - j.w.lo
  {
    hide Shows, CompressBound, DictTableOk, Usable, Parsed, EncodeAll, Holds;
    ShowsBounds(j.w, j.mem, j.x);
  }

  /** Just after a match: end of chunk, or fill the table and test the next position. */
  method StepTest(j: Job, t: array<int>, o: Output, i: int, filledIp: int) returns (ph: Phase)
    requires StateOk(j, t, o, Test(i, filledIp))
    modifies t, o, o.dst
    ensures StateOk(j, t, o, ph)
    ensures Rank(ph) == 0 || old(o.anchor) < o.anchor || (o.anchor == old(o.anchor) && Rank(ph) < 2)
  {
    hide JobOk, TableOk, OutOk, Equal, InHand;
    if i >= j.MflimitPlusOne() { return LastLiterals; }
    var hit, m := TestNext(j, t, i, o.dst.Length);
    if !hit { return Search(i + 1); }
    ph := EncodeNext(j, t, o, i, m, filledIp);
  }

  /** LZ4_putPosition(ip-2), then the candidate at ip. */
  method TestNext(j: Job, t: array<int>, i: int, ghost capacity: int) returns (hit: bool, m: int)
    requires JobOk(j, capacity) && TableOk(j, t[..], i) && j.Start() + MINMATCH <= i < j.MflimitPlusOne()
    modifies t
    ensures TableOk(j, t[..], i + 1) && (hit ==> Equal(j, i, m, MINMATCH))
  {
    hide JobOk, TableOk, Equal, HashAt;
    Put(j, t, i - 2, HashAt(j, i - 2), capacity, i);
    hit, m := TryAt(j, t, i, HashAt(j, i), capacity, i);
  }

  /** token = op++, *token = 0, goto _next_match */
  method EncodeNext(j: Job, t: array<int>, o: Output, i: int, m: int, filledIp: int) returns (ph: Phase)
    requires JobOk(j, o.dst.Length) && OutOk(j, o) && o.seqs != [] && o.anchor + j.w.lo == i
    requires i + MFLIMIT <= j.w.end && Equal(j, i, m, MINMATCH) && TableOk(j, t[..], i + 1)
    modifies t, o, o.dst
    ensures StateOk(j, t, o, ph) && (Rank(ph) == 0 || old(o.anchor) < o.anchor)
  {
    hide JobOk, TableOk, OutOk, Equal;
    EqualDistance(j, i, m, MINMATCH);
    var filled := Min(filledIp, i - 1);
    var r := EncodeMatch(j, t, o, i, m, MINMATCH, filled, true);
    ph := After(r, i, filled);
  }

  method Step(j: Job, t: array<int>, o: Output, ph: Phase) returns (ph1: Phase)
    requires StateOk(j, t, o, ph) && (ph.Search? || ph.Test?)
    modifies t, o, o.dst
    ensures StateOk(j, t, o, ph1)
    ensures Rank(ph1) == 0 || old(o.anchor) < o.anchor || (o.anchor == old(o.anchor) && Rank(ph1) < Rank(ph))
  {
    hide StateOk;
    match ph
    case Search(i) => ph1 := StepSearch(j, t, o, i);
    case Test(i, filledIp) => ph1 := StepTest(j, t, o, i, filledIp);
  }

  /** First byte, then the loop until only literals are left. */
  method Parse(j: Job, t: array<int>, o: Output) returns (ph: Phase)
    requires JobOk(j, o.dst.Length) && OutOk(j, o) && TableOk(j, t[..], j.Start())
    requires o.anchor == j.s0 && j.Start() + MIN_LENGTH <= j.w.end
    modifies t, o, o.dst
    ensures OutOk(j, o) && TableOk(j, t[..], j.MflimitPlusOne())
    ensures ph.LastLiterals? || (ph.NoRoom? && TooSmall(j))
  {
    hide JobOk, TableOk, OutOk, StateOk;
    ghost var capacity := o.dst.Length;
    TableLater(j, t[..], j.Start(), j.Start() + 1);
    Put(j, t, j.Start(), HashAt(j, j.Start()), capacity, j.Start() + 1);
    ph := Search(j.Start() + 1);
    Started(j, t, o);
    while ph.Search? || ph.Test?
      invariant StateOk(j, t, o, ph)
      decreases Rank(ph) > 0, |j.x| - o.anchor, Rank(ph)
    {
      Bounded(j, t, o, ph);
      ph := Step(j, t, o, ph);
      Bounded(j, t, o, ph);
    }
    Parsed0(j, t, o, ph);
  }

  lemma Started(j: Job, t: array<int>, o: Output)
    requires JobOk(j, o.dst.Length) && OutOk(j, o) && TableOk(j, t[..], j.Start() + 1)
    requires o.anchor == j.s0 && j.Start() + MIN_LENGTH <= j.w.end
    ensures StateOk(j, t, o, Search(j.Start() + 1))
  {
    hide JobOk, TableOk, OutOk;
  }

  lemma Bounded(j: Job, t: array<int>, o: Output, ph: Phase)
    requires StateOk(j, t, o, ph)
    ensures o.anchor <= |j.x|
  {
    hide JobOk, TableOk;
  }

  lemma Parsed0(j: Job, t: array<int>, o: Output, ph: Phase)
    requires StateOk(j, t, o, ph) && !ph.Search? && !ph.Test?
    ensures OutOk(j, o) && TableOk(j, t[..], j.MflimitPlusOne()) && (ph.NoRoom? ==> TooSmall(j))
  {
    hide JobOk, TableOk, OutOk;
  }

  /** The entries a call leaves: indices before `end`, four bytes at least. */
  ghost predicate Past(table: seq<int>, slots: int, end: int)
  {
    slots <= |table| && forall h :: 0 <= h < slots ==> 0 <= table[h] && (table[h] == 0 || table[h] + MINMATCH <= end)
  }

  lemma TablePast(j: Job, table: seq<int>, next: int)
    requires TableOk(j, table, next) && next <= Max(j.Start(), j.MflimitPlusOne()) && 0 <= j.Start() <= j.w.end
    ensures Past(table, Slots(j.ty), j.w.end)
  {
    hide HashAt;
    forall h | 0 <= h < Slots(j.ty) ensures 0 <= table[h] && (table[h] == 0 || table[h] + MINMATCH <= j.w.end) {
      assert EntryOk(j, table[h], h, next);
    }
  }

  /** LZ4_compress_generic_validated on the job it sets up.  For every table the callers may leave:
      termination; a block that decodes to what was consumed, or 0; the output limits; and a table fit
      for the next call. */
  method CompressJob(j: Job, t: array<int>, dst: array<byte>) returns (result: int, consumed: int, o: Output)
    requires JobOk(j, dst.Length) && TableOk(j, t[..], j.Start())
    modifies t, dst
    ensures fresh(o) && o.dst == dst
    ensures Compressed(o, j.x, j.s0, j.limit, j.olimit, result, consumed)
    ensures Past(t[..], Slots(j.ty), j.w.end) && |t[..]| == SLOTS
  {
    hide JobOk, TableOk, Compressed, Past;
    JobBounds(j, dst.Length);
    o := new Output(dst, j.x, j.s0);
    Initial(j, o);
    if j.w.end - j.Start() >= MIN_LENGTH {
      var ph := Parse(j, t, o);
      TablePast(j, t[..], j.MflimitPlusOne());
      TableSize(j, t[..], j.MflimitPlusOne());
      if ph.NoRoom? {
        Nothing(j, o);
        return 0, 0, o;
      }
    } else {
      TablePast(j, t[..], j.Start());
      TableSize(j, t[..], j.Start());
    }
    LastReady(j, o);
    result, consumed := Last(o, j.x, j.s0, j.limit, j.olimit);
  }

  lemma JobBounds(j: Job, capacity: int)
    requires JobOk(j, capacity)
    ensures 0 <= j.s0 <= |j.x| && |j.x| == j.w.end - j.w.lo && 0 <= j.Start()
  {
    hide Shows, CompressBound, DictTableOk, Usable;
    ShowsBounds(j.w, j.mem, j.x);
  }

  lemma Initial(j: Job, o: Output)
    requires JobOk(j, o.dst.Length) && o.op == 0 && o.anchor == j.s0 && o.seqs == [] && o.Valid(j.x, j.s0)
    ensures OutOk(j, o) && 0 <= j.Start() <= j.w.end
  {
    hide Shows, CompressBound, DictTableOk, Usable, Parsed, EncodeAll, Holds;
    ShowsBounds(j.w, j.mem, j.x);
  }

  lemma Nothing(j: Job, o: Output)
    requires JobOk(j, o.dst.Length) && TooSmall(j)
    ensures Compressed(o, j.x, j.s0, j.limit, j.olimit, 0, 0)
  {
    hide Shows, CompressBound, DictTableOk, Usable, IsBlock;
  }

  lemma LastReady(j: Job, o: Output)
    requires JobOk(j, o.dst.Length) && OutOk(j, o)
    ensures o.Valid(j.x, j.s0) && j.s0 <= o.anchor <= |j.x| && |j.x| - j.s0 <= MAX_INPUT_SIZE && MatchesInside(o, j.x)
    ensures if j.limit == NotLimited then CompressBound(|j.x| - j.s0) <= o.dst.Length else 0 <= j.olimit <= o.dst.Length
    ensures j.limit == FillOutput ==> TailRoom(o, j.olimit)
  {
    hide Shows, CompressBound, DictTableOk, Usable, Parsed, EncodeAll, Holds;
  }
}
