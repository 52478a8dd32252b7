/** The search loop of LZ4_compress_generic: candidates from the hash table, the backward
    extension and the match length across the end of the dictionary. */
module FastSearch {
  import opened Bytes
  import opened BlockFormat
  import opened MatchLength
  import opened Windows
  import opened BlockOutput
  import opened FastTable
  import opened Alias

  /** n bytes at index i equal those at index m, all of which lie on m's side of the dictionary's end. */
  ghost predicate Equal(j: Job, i: int, m: int, n: int)
  {
    && j.w.lo <= m < i <= m + DISTANCE_MAX && j.Start() <= i && 0 <= n && i + n <= j.Matchlimit()
    && (m < j.w.dl ==> m + n <= j.w.dl)
    && Same(j.mem, j.w.base + i, j.Addr(m), n)
  }

  lemma EqualIsGenuine(j: Job, i: int, m: int, n: int, capacity: int)
    requires JobOk(j, capacity) && Equal(j, i, m, n)
    ensures Genuine(j.x, i - j.w.lo, i - m, n)
  {
    hide Shows, CompressBound, DictTableOk, Usable, Genuine, Same;
    if m < j.w.dl { GenuineInDict(j.w, j.mem, j.x, i, m, n); } else { GenuineInPrefix(j.w, j.mem, j.x, i, m, n); }
  }

  /** One turn: take the candidate for index i, put i in its place, test and compare. */
  method TryAt(j: Job, t: array<int>, i: int, h: int, ghost capacity: int, ghost next: int) returns (hit: bool, m: int)
    requires JobOk(j, capacity) && TableOk(j, t[..], next) && h == HashAt(j, i)
    requires next <= i && j.Start() < i && i + MFLIMIT <= j.w.end
    modifies t
    ensures TableOk(j, t[..], i + 1)
    ensures hit ==> Equal(j, i, m, MINMATCH)
  {
    hide Shows, CompressBound, DictTableOk, Usable, HashAt, TableOk, Same, Accepted, Candidate;
    TableSize(j, t[..], next);
    CandidateOk(j, t[..], h, next, capacity);
    m := Candidate(j, t[h], h);
    TableLater(j, t[..], next, i + 1);
    Put(j, t, i, h, capacity, i + 1);
    hit := false;
    if Accepted(j, m, i) {
      AcceptedReaches(j, m, next, i, capacity);
      hit := Same(j.mem, j.w.base + i, j.Addr(m), MINMATCH);
    }
  }

  /** The search for a match from index i0 on, in growing steps; not found when the next position
      would pass mflimitPlusOne. */
  method FindMatch(j: Job, t: array<int>, i0: int, ghost capacity: int) returns (found: bool, i: int, m: int)
    requires JobOk(j, capacity) && TableOk(j, t[..], i0) && j.Start() < i0 <= j.MflimitPlusOne()
    modifies t
    ensures found ==> i0 <= i < j.MflimitPlusOne() && Equal(j, i, m, MINMATCH) && TableOk(j, t[..], i + 1)
    ensures TableOk(j, t[..], j.MflimitPlusOne())
  {
    hide Shows, CompressBound, DictTableOk, Usable, HashAt, TableOk, Equal;
    var forward, step, searchMatchNb := i0, 1, j.accel * 64;
    var forwardH := HashAt(j, i0);
    ghost var next := i0;
    found, i, m := false, i0, 0;
    while true
      invariant i0 <= forward && next <= forward && next <= j.MflimitPlusOne() && forward <= j.MflimitPlusOne()
      invariant 1 <= step && 64 <= searchMatchNb && forwardH == HashAt(j, forward)
      invariant TableOk(j, t[..], next)
      decreases j.MflimitPlusOne() - forward
    {
      var h := forwardH;
      i := forward;
      forward := forward + step;
      step := searchMatchNb / 64;
      searchMatchNb := searchMatchNb + 1;
      if forward > j.MflimitPlusOne() {
        TableLater(j, t[..], next, j.MflimitPlusOne());
        return;
      }
      found, m := TryAt(j, t, i, h, capacity, next);
      forwardH := HashAt(j, forward);
      next := i + 1;
      if found {
        TableLater(j, t[..], next, j.MflimitPlusOne());
        return;
      }
    }
  }

  // ---------- from four equal bytes to a match ----------

  /** lowLimit, as an address: the start of the segment the candidate lies in. */
  function LowAddr(j: Job, m: int): int { if m < j.w.dl then j.w.dictBase + j.w.lo else j.w.base + j.w.dl }

  lemma EqualBounds(j: Job, i: int, m: int, n: int, capacity: int)
    requires JobOk(j, capacity) && Equal(j, i, m, n)
    ensures 0 <= j.w.base + j.w.dl && 0 <= j.w.base + j.Start() && j.w.base + j.w.end <= |j.mem|
      && 0 <= LowAddr(j, m) <= j.Addr(m)
    ensures j.Addr(m) + n <= |j.mem| && j.w.lo <= j.w.dl <= j.Start()
    ensures m < j.w.dl ==> j.External() && j.w.dl == j.Start() && 0 <= j.Addr(m) && j.Addr(m) + (j.w.dl - m) <= |j.mem|
    ensures m >= j.w.dl ==> j.Addr(m) == j.w.base + m
  {
    hide Shows, CompressBound, DictTableOk, Usable, Same;
    ShowsBounds(j.w, j.mem, j.x);
  }

  /** Catch up: the same match, moved back while the bytes before it agree. */
  method CatchUp(j: Job, anchor: int, i: int, m: int, ghost capacity: int) returns (back: int)
    requires JobOk(j, capacity) && Equal(j, i, m, MINMATCH) && j.Start() <= anchor <= i
    ensures back <= 0 && anchor <= i + back && Equal(j, i + back, m + back, MINMATCH - back)
    ensures anchor < i + back && LowAddr(j, m) < j.Addr(m) + back ==>
      j.mem[j.w.base + i + back - 1] != j.mem[j.Addr(m) + back - 1]
  {
    hide Shows, CompressBound, DictTableOk, Usable, Same, JobOk;
    EqualBounds(j, i, m, MINMATCH, capacity);
    back := CountBack(j.mem, j.w.base + i, j.Addr(m), j.w.base + anchor, LowAddr(j, m));
    SameJoin(j.mem, j.w.base + i + back, j.Addr(m) + back, -back, MINMATCH);
  }

  /** As many equal bytes as a limit allows are within what LZ4_count finds. */
  lemma CountReaches(mem: seq<byte>, a: int, b: int, limit: int, n: int)
    requires 0 <= a && 0 <= b && MINMATCH <= n && a + n <= limit <= |mem| && b + (limit - a) <= |mem|
      && Same(mem, a, b, n)
    ensures n <= MINMATCH + CommonLength(mem, a + MINMATCH, b + MINMATCH, limit)
    ensures Same(mem, a, b, MINMATCH)
  {
    hide CommonLength;
    SameSub(mem, a, b, n, 0, MINMATCH);
    SameSub(mem, a, b, n, MINMATCH, n - MINMATCH);
    StrideTest(mem, a + MINMATCH, b + MINMATCH, limit, 0, n - MINMATCH);
  }

  /** The match length for a candidate taken to be in the dictionary: up to the dictionary's end, and on
      from the start of the source. */
  method LengthFromDict(j: Job, i: int, m: int, ghost known: int, ghost capacity: int) returns (ml: int)
    requires JobOk(j, capacity) && Equal(j, i, m, known) && MINMATCH <= known && InDictionary(j, m)
    requires i + known + MFLIMIT - MINMATCH <= j.w.end
    ensures known <= ml && i + ml <= j.Matchlimit() && Genuine(j.x, i - j.w.lo, i - m, ml)
  {
    hide Shows, CompressBound, DictTableOk, Usable, Same, Genuine, CommonLength, JobOk, Equal;
    EqualBounds(j, i, m, known, capacity);
    DictBounds(j, i, m, known, capacity);
    var a, b, dictEnd, matchlimit := j.w.base + i, j.Addr(m), j.w.dictBase + j.w.dl, j.w.base + j.Matchlimit();
    var limit := a + (dictEnd - b);
    if limit > matchlimit { limit := matchlimit; }
    var n := Count(j.mem, a + MINMATCH, b + MINMATCH, limit);
    ml := n + MINMATCH;
    if a + ml == limit {
      var more := Count(j.mem, limit, j.w.base + j.Start(), matchlimit);
      ml := ml + more;
    }
    if m < j.w.dl { MeasuredInDict(j, i, m, known, capacity); } else { MeasuredAliased(j, i, m, known, capacity); }
  }

  lemma DictBounds(j: Job, i: int, m: int, n: int, capacity: int)
    requires JobOk(j, capacity) && Equal(j, i, m, n) && MINMATCH <= n && j.External()
    ensures 0 <= j.w.base + j.Start() <= j.w.base + i && i + n <= j.Matchlimit() && j.w.base + j.Matchlimit() <= |j.mem|
    ensures 0 <= j.Addr(m) && j.Addr(m) + n <= |j.mem| && j.w.dictBase + j.w.dl <= |j.mem|
  {
    hide CompressBound, DictTableOk, Usable, Same;
  }

  /** A match that is in the dictionary. */
  lemma MeasuredInDict(j: Job, i: int, m: int, known: int, capacity: int)
    requires JobOk(j, capacity) && Equal(j, i, m, known) && MINMATCH <= known && m < j.w.dl && j.External()
    requires j.Addr(m) >= 0 && 0 <= j.w.base + j.Start() <= j.w.base + i && j.w.base + j.Matchlimit() <= |j.mem|
      && j.w.dictBase + j.w.dl <= |j.mem|
    ensures var ml :=
      Measured(j.mem, j.w.base + i, j.Addr(m), j.w.base + j.Start(), j.w.dictBase + j.w.dl, j.w.base + j.Matchlimit());
      known <= ml && i + ml <= j.Matchlimit() && Genuine(j.x, i - j.w.lo, i - m, ml)
  {
    hide Shows, CompressBound, DictTableOk, Usable, Same, Genuine, CommonLength, JobOk;
    EqualBounds(j, i, m, known, capacity);
    var limit := Min(i + (j.w.dl - m), j.Matchlimit());
    var a, b := j.w.base + i, j.Addr(m);
    CountReaches(j.mem, a, b, j.w.base + limit, known);
    Grown(j.mem, a, b, j.w.base + limit);
    var ml := CommonLength(j.mem, a + MINMATCH, b + MINMATCH, j.w.base + limit) + MINMATCH;
    EqualIsGenuine(j, i, m, ml, capacity);
    if i + ml == limit { CountOn(j, i, m, ml, capacity); }
  }

  /** more = LZ4_count(limit, source, matchlimit) */
  lemma CountOn(j: Job, i: int, m: int, ml: int, capacity: int)
    requires JobOk(j, capacity) && Equal(j, i, m, ml) && m < j.w.dl && (m + ml == j.w.dl || i + ml == j.Matchlimit())
    requires 0 <= j.w.base + j.Start() <= j.w.base + i && j.w.base + j.Matchlimit() <= |j.mem|
    ensures var more := CommonLength(j.mem, j.w.base + i + ml, j.w.base + j.Start(), j.w.base + j.Matchlimit());
      i + ml + more <= j.Matchlimit() && Genuine(j.x, i - j.w.lo, i - m, ml + more)
  {
    hide Shows, CompressBound, DictTableOk, Usable, Same, Genuine, CommonLength;
    EqualBounds(j, i, m, ml, capacity);
    EqualIsGenuine(j, i, m, ml, capacity);
    var a, b, limit := j.w.base + i + ml, j.w.base + j.Start(), j.w.base + j.Matchlimit();
    CommonLengthIsCommon(j.mem, a, b, limit);
    if m + ml == j.w.dl {
      var more := CommonLength(j.mem, a, b, limit);
      GenuineInPrefix(j.w, j.mem, j.x, i + ml, j.w.dl, more);
      GenuineJoin(j.x, i - j.w.lo, i - m, ml, more);
    }
  }

  /** A match in the source, and a dictionary that starts there: the sizes are tame. */
  lemma MeasuredAliased(j: Job, i: int, m: int, known: int, capacity: int)
    requires JobOk(j, capacity) && Equal(j, i, m, known) && MINMATCH <= known && j.w.dl <= m && InDictionary(j, m)
    requires i + known + MFLIMIT - MINMATCH <= j.w.end
    requires j.Addr(m) >= 0 && 0 <= j.w.base + j.Start() <= j.w.base + i && j.w.base + j.Matchlimit() <= |j.mem|
      && j.w.dictBase + j.w.dl <= |j.mem|
    ensures var ml :=
      Measured(j.mem, j.w.base + i, j.Addr(m), j.w.base + j.Start(), j.w.dictBase + j.w.dl, j.w.base + j.Matchlimit());
      known <= ml && i + ml <= j.Matchlimit() && Genuine(j.x, i - j.w.lo, i - m, ml)
  {
    hide Shows, CompressBound, DictTableOk, Usable, Same, Genuine, CommonLength, Measured, Tame;
    EqualBounds(j, i, m, known, capacity);
    AliasedSizes(j, m, capacity);
    var source := j.w.base + j.Start();
    TameIsHarmless(j.mem, source, j.s0, |j.x| - j.s0, j.w.base + i, j.w.base + m, known);
    var ml := Measured(j.mem, j.w.base + i, j.w.base + m, source, source + j.s0, j.w.base + j.Matchlimit());
    EqualIsGenuine(j, i, m, ml, capacity);
  }

  lemma AliasedSizes(j: Job, m: int, capacity: int)
    requires JobOk(j, capacity) && j.w.dl <= m && InDictionary(j, m)
    ensures Tame(j.s0, |j.x| - j.s0) && MINMATCH <= j.s0 && j.w.dictBase + j.w.dl == j.w.base + j.Start() + j.s0
    ensures j.w.base + j.Matchlimit() == Matchlimit(j.w.base + j.Start(), |j.x| - j.s0)
  {
    hide CompressBound, DictTableOk, Usable;
  }

  method LengthInPrefix(j: Job, i: int, m: int, ghost known: int, ghost capacity: int) returns (ml: int)
    requires JobOk(j, capacity) && Equal(j, i, m, known) && MINMATCH <= known && j.w.dl <= m
    ensures known <= ml && i + ml <= j.Matchlimit() && Genuine(j.x, i - j.w.lo, i - m, ml)
  {
    hide Shows, CompressBound, DictTableOk, Usable, Same, Genuine, CommonLength, JobOk;
    EqualBounds(j, i, m, known, capacity);
    var a, b, limit := j.w.base + i, j.w.base + m, j.w.base + j.Matchlimit();
    CountReaches(j.mem, a, b, limit, known);
    var n := Count(j.mem, a + MINMATCH, b + MINMATCH, limit);
    Grown(j.mem, a, b, limit);
    ml := n + MINMATCH;
    EqualIsGenuine(j, i, m, ml, capacity);
  }

  /** lowLimit == dictionary: a match in the dictionary passes this pointer test, and one in the source
      if the dictionary starts there too. */
  predicate InDictionary(j: Job, m: int) { j.External() && LowAddr(j, m) == j.w.dictBase + j.w.lo }

  lemma PointerTest(j: Job, i: int, m: int, n: int, capacity: int)
    requires JobOk(j, capacity) && Equal(j, i, m, n) && !InDictionary(j, m)
    ensures j.w.dl <= m
  {
    hide Shows, CompressBound, DictTableOk, Usable, Same;
  }

  /** Encode MatchLength, first half: how long the match is. */
  method Measure(j: Job, i: int, m: int, ghost known: int, ghost capacity: int) returns (ml: int)
    requires JobOk(j, capacity) && Equal(j, i, m, known) && MINMATCH <= known
      && i + known + MFLIMIT - MINMATCH <= j.w.end
    ensures known <= ml && i + ml <= j.Matchlimit() && Genuine(j.x, i - j.w.lo, i - m, ml)
  {
    hide JobOk, Equal, Genuine, InDictionary;
    if InDictionary(j, m) {
      ml := LengthFromDict(j, i, m, known, capacity);
    } else {
      PointerTest(j, i, m, known, capacity);
      ml := LengthInPrefix(j, i, m, known, capacity);
    }
  }
}
