/** LZ4HC_compress_hashChain: the lazy parser that keeps up to three overlapping matches and
    jumps between its labels.  The labels are phases here; each step keeps an invariant that no
    single branch shows, and the sequences it emits tile the input. */
module HcParser {
  import opened Bytes
  import opened BlockFormat
  import opened BlockWriter
  import opened BlockOutput
  import opened HcEncoder
  import opened HcTables
  import opened HcMatchFinder
  import opened Windows

  /** (ML_MASK - 1) + MINMATCH */
  const OPTIMAL_ML: int := 18

  /** One call: the window shows x, whose last part x[s0..] is the source. */
  datatype Job = Job(w: Window, att: Option<Attached>, mem: seq<byte>, x: seq<byte>, s0: int, attempts: int,
    limit: Limit, oend: int)
  {
    /** The window of the stream's own tables. */
    function Own(): Window { OwnWindow(w, att) }
    function Mflimit(): int { |x| - MFLIMIT }
    function Matchlimit(): int { |x| - LASTLITERALS }
  }

  ghost predicate JobOk(j: Job, capacity: int)
  {
    && Searchable(j.w, j.att, j.mem, j.x) && j.w.end < 0x1_0000_0000
    && j.w.dl - j.w.lo <= j.s0 <= |j.x| && |j.x| - j.s0 <= MAX_INPUT_SIZE
    && if j.limit == NotLimited then CompressBound(|j.x| - j.s0) <= capacity else j.oend <= capacity
  }

  /** A match: positions of the data and of what it repeats (ip/ref, start2/ref2, start3/ref3). */
  datatype M = M(start: int, ref: int, len: int)
  {
    function End(): int { start + len }
  }

  ghost predicate Is(x: seq<byte>, m: M)
  {
    MINMATCH <= m.len && m.End() + LASTLITERALS <= |x| && 1 <= m.start - m.ref <= DISTANCE_MAX
    && Genuine(x, m.start, m.start - m.ref, m.len)
  }

  /** start += c, ref += c, ml -= c */
  function Shift(m: M, c: int): M { M(m.start + c, m.ref + c, m.len - c) }

  lemma IsSub(x: seq<byte>, m: M, c: int, len: int)
    requires Is(x, m) && 0 <= c && MINMATCH <= len && c + len <= m.len
    ensures Is(x, M(m.start + c, m.ref + c, len))
  {
    GenuineSub(x, m.start, m.start - m.ref, m.len, m.start + c, len);
  }

  /** The length the first match is squeezed to when the second starts too close. */
  function Squeezed(m1: M, m2: M): int
  {
    var len := Min(m1.len, OPTIMAL_ML);
    if m1.start + len > m2.End() - MINMATCH then m2.start - m1.start + m2.len - MINMATCH else len
  }

  /** The second match, moved out of the way of the squeezed first one. */
  function Corrected(m1: M, m2: M): M
  {
    if m2.start - m1.start < OPTIMAL_ML && Squeezed(m1, m2) > m2.start - m1.start
    then Shift(m2, Squeezed(m1, m2) - (m2.start - m1.start))
    else m2
  }

  // ---------- phases ----------

  datatype Phase =
    | Outer(ip: int)
    | Search2(m0: M, m1: M)
    | Search3(n1: M, n2: M)
    | LastLiterals
    | Overflow(m: M)

  /** What holds at label _Search2: ML0, saved in case too much was skipped, starts at most two
      positions before ML1 and is shorter. */
  ghost predicate AtSearch2(x: seq<byte>, anchor: int, mflimit: int, m0: M, m1: M)
  {
    && Is(x, m0) && Is(x, m1) && anchor <= m0.start <= m1.start <= m0.start + 2 && m1.start <= mflimit
    && m0.End() <= m1.End() && (m0.start < m1.start ==> m0.len < m1.len)
  }

  /** What holds at label _Search3: room for at least 4 + 4 bytes from ML1's start to ML2's end, and
      ML2 starts at most one byte after ML1's end, in which case it is longer than the minimum. */
  ghost predicate AtSearch3(x: seq<byte>, anchor: int, mflimit: int, m1: M, m2: M)
  {
    && Is(x, m1) && Is(x, m2) && anchor <= m1.start <= m2.start <= mflimit && m1.End() <= mflimit
    && m1.start + 2 * MINMATCH <= m2.End()
    && m2.start <= m1.End() + 1 && (m1.End() < m2.start ==> MINMATCH < m2.len)
  }

  /** A limited output that overflows is smaller than the worst case. */
  ghost predicate TooSmall(j: Job)
  {
    j.limit == LimitedOutput ==> j.oend < CompressBound(|j.x| - j.s0)
  }

  ghost predicate PhaseOk(j: Job, anchor: int, next: int, ph: Phase)
  {
    match ph
    case Outer(ip) => anchor <= ip <= |j.x| && next <= ip
    case Search2(m0, m1) => AtSearch2(j.x, anchor, j.Mflimit(), m0, m1) && next <= m1.End() - 2
    case Search3(m1, m2) => AtSearch3(j.x, anchor, j.Mflimit(), m1, m2) && next <= m2.End() - 3
    case LastLiterals => true
    case Overflow(m) => j.limit != NotLimited && Is(j.x, m) && anchor <= m.start <= j.Mflimit() && TooSmall(j)
  }

  /** How far the matches in hand reach: what grows while the anchor stays. */
  function Reach(ph: Phase): int
  {
    match ph
    case Outer(ip) => ip
    case Search2(m0, m1) => m1.End()
    case Search3(m1, m2) => m2.End()
    case LastLiterals => 0
    case Overflow(m) => 0
  }

  // ---------- the arithmetic of the corrections ----------

  lemma SqueezedLength(x: seq<byte>, m1: M, m2: M)
    requires Is(x, m1) && Is(x, m2) && m1.start <= m2.start && m1.start + 2 * MINMATCH <= m2.End()
    ensures MINMATCH <= Squeezed(m1, m2) <= m1.len && Squeezed(m1, m2) <= OPTIMAL_ML
    ensures m1.start + Squeezed(m1, m2) <= m2.End() - MINMATCH
  {
    hide Genuine;
  }

  lemma CorrectedOk(x: seq<byte>, m1: M, m2: M)
    requires Is(x, m1) && Is(x, m2) && m1.start <= m2.start && m1.start + 2 * MINMATCH <= m2.End()
    ensures var m := Corrected(m1, m2);
      && Is(x, m) && m.End() == m2.End() && m2.start <= m.start && m1.start + MINMATCH <= m.start
      && (m == m2 || (m.start <= m1.End() && m.start == m1.start + Squeezed(m1, m2)))
      && (m == m2 || m.len < m2.len)
  {
    hide Genuine;
    SqueezedLength(x, m1, m2);
    var c := Squeezed(m1, m2) - (m2.start - m1.start);
    if m2.start - m1.start < OPTIMAL_ML && c > 0 {
      IsSub(x, m2, c, m2.len - c);
    }
  }

  // ---------- output ----------

  /** The output so far, with what the end-of-block rules and the output limit need of it. */
  ghost predicate OutOk(j: Job, o: Output)
    reads o, o.dst
  {
    && o.Valid(j.x, j.s0) && o.anchor <= |j.x|
    && (o.seqs != [] ==> o.anchor <= j.Matchlimit() && o.anchor - o.seqs[|o.seqs| - 1].mlen <= j.Mflimit())
    && (o.seqs == [] ==> o.op == 0 && o.anchor == j.s0)
    && (j.limit != NotLimited && o.seqs != [] ==> o.op + LASTLITERALS <= j.oend)
  }

  method Encode(j: Job, o: Output, m: M) returns (overflow: bool)
    requires JobOk(j, o.dst.Length) && OutOk(j, o) && Is(j.x, m) && o.anchor <= m.start <= j.Mflimit()
    modifies o, o.dst
    ensures OutOk(j, o) && (overflow ==> j.limit != NotLimited && o.anchor == old(o.anchor) && TooSmall(j))
    ensures !overflow ==> o.anchor == m.End()
  {
    hide Searchable, Genuine, Parsed, Fits, TailSize, NoRoom, CompressBound;
    if j.limit == NotLimited { AlwaysFits(o, j.x, j.s0, m.start, m.len); }
    SequenceWithinBound(o, j.x, j.s0, m.start, m.len);
    NoRoomMeans(o.op, m.start - o.anchor, m.len - MINMATCH, j.oend);
    overflow := o.Emit(j.x, j.s0, m.start, m.len, m.start - m.ref, j.limit != NotLimited, j.oend);
  }

  lemma NoRoomMeans(op: int, ll: nat, mcode: nat, oend: int)
    ensures NoRoom(op, ll, mcode, oend) ==> oend < op + ll + ll / 255 + mcode / 255 + 14
  {
  }

  // ---------- searching ----------

  /** LZ4HC_InsertAndGetWiderMatch, or LZ4HC_InsertAndFindBestMatch when low == ip. */
  method Widen(j: Job, t: HcTable, ip: int, low: int, longest: int, ghost capacity: int) returns (m: M)
    requires JobOk(j, capacity) && t.Valid(j.Own()) && t.nextToUpdate <= ip + j.w.lo
    requires j.s0 <= low <= ip && ip + MINMATCH <= j.Matchlimit()
    requires ip - low < longest && low + longest <= j.Matchlimit()
    modifies t, t.hashTable, t.chainTable
    ensures t.Valid(j.Own()) && t.nextToUpdate == ip + j.w.lo && NextBound(j, t)
    ensures longest <= m.len
    ensures longest < m.len && MINMATCH <= m.len ==> Is(j.x, m) && low <= m.start <= ip && ip + MINMATCH <= m.End()
  {
    SearchableBounds(j.w, j.att, j.mem, j.x);
    var lo := j.w.lo;
    var q := Query(ip + lo, low + lo, j.Matchlimit() + lo, j.attempts, j.attempts > 128, false, false);
    var b := InsertAndGetWiderMatch(t, j.w, j.att, j.mem, j.x, q, longest);
    m := M(b.start - lo, b.ref - lo, b.longest);
  }

  // ---------- steps ----------

  /** Positions are only chained as far as matches are looked for. */
  ghost predicate NextBound(j: Job, t: HcTable)
    reads t
  {
    t.nextToUpdate <= Max(j.s0 + j.w.lo, j.w.end - LASTLITERALS - MINMATCH)
  }

  /** Tables, output and phase together. */
  ghost predicate StateOk(j: Job, t: HcTable, o: Output, ph: Phase)
    reads t, t.hashTable, t.chainTable, o, o.dst
  {
    && JobOk(j, o.dst.Length) && OutOk(j, o) && t.Valid(j.Own()) && NextBound(j, t)
    && j.s0 <= o.anchor
    && PhaseOk(j, o.anchor, t.nextToUpdate - j.w.lo, ph)
  }

  /** while (ip <= mflimit): find a first match, or go on by one byte. */
  method StepOuter(j: Job, t: HcTable, o: Output, ip: int) returns (ph: Phase)
    requires StateOk(j, t, o, Outer(ip))
    modifies t, t.hashTable, t.chainTable
    ensures StateOk(j, t, o, ph)
    ensures ph.LastLiterals? || (ip < Reach(ph) && !ph.Overflow?)
  {
    hide Searchable, Genuine, CompressBound, OutOk;
    if ip > j.Mflimit() { return LastLiterals; }
    var m := Widen(j, t, ip, ip, MINMATCH - 1, o.dst.Length);
    if m.len < MINMATCH { return Outer(ip + 1); }
    return Search2(m, m);
  }

  /** Label _Search2. */
  method StepSearch2(j: Job, t: HcTable, o: Output, m0: M, m1: M) returns (ph: Phase)
    requires StateOk(j, t, o, Search2(m0, m1))
    modifies t, t.hashTable, t.chainTable, o, o.dst
    ensures StateOk(j, t, o, ph)
    ensures ph.Overflow? || old(o.anchor) < o.anchor || (o.anchor == old(o.anchor) && m1.End() < Reach(ph))
  {
    hide Searchable, Genuine, CompressBound, OutOk;
    var m2 := M(0, 0, m1.len);
    if m1.End() <= j.Mflimit() {
      m2 := Widen(j, t, m1.End() - 2, m1.start, m1.len, o.dst.Length);
    }
    if m2.len == m1.len {
      var overflow := Encode(j, o, m1);
      return if overflow then Overflow(m1) else Outer(m1.End());
    }
    var first := if m0.start < m1.start && m2.start < m1.start + m0.len then m0 else m1;
    if m2.start - first.start < 3 {
      return Search2(m0, m2);
    }
    return Search3(first, m2);
  }

  /** ml3 == ml2: encode ML1, cut at ML2's start, and ML2. */
  method EncodeBoth(j: Job, t: HcTable, o: Output, m1: M, m2: M) returns (ph: Phase)
    requires StateOk(j, t, o, Search3(m1, m2)) && m1.start + MINMATCH <= m2.start
    modifies o, o.dst
    ensures StateOk(j, t, o, ph) && (ph.Overflow? || old(o.anchor) < o.anchor)
  {
    hide Searchable, Genuine, CompressBound, OutOk;
    var first := M(m1.start, m1.ref, if m2.start < m1.End() then m2.start - m1.start else m1.len);
    IsSub(j.x, m1, 0, first.len);
    var overflow := Encode(j, o, first);
    if overflow { return Overflow(first); }
    overflow := Encode(j, o, m2);
    return if overflow then Overflow(m2) else Outer(m2.End());
  }

  /** ML3 leaves ML2 no room but starts at or after ML1's end: encode ML1 and let ML3 replace it,
      keeping what is left of ML2 (or ML3 itself) as the saved match. */
  method EncodeFirstRestart(j: Job, t: HcTable, o: Output, m1: M, m2: M, m3: M) returns (ph: Phase)
    requires StateOk(j, t, o, Search3(m1, m2)) && Third(j.x, j.Mflimit(), m2, m3)
    requires m1.End() <= m3.start < m1.End() + 3
    modifies o, o.dst
    ensures StateOk(j, t, o, ph) && (ph.Overflow? || old(o.anchor) < o.anchor)
  {
    hide Searchable, Genuine, CompressBound, OutOk;
    var saved := m2;
    if m2.start < m1.End() {
      var correction := m1.End() - m2.start;
      saved := Shift(m2, correction);
      if saved.len < MINMATCH { saved := m3; }
      else { IsSub(j.x, m2, correction, saved.len); }
    }
    var overflow := Encode(j, o, m1);
    return if overflow then Overflow(m1) else Search2(saved, m3);
  }

  /** ML3, found from ML2's end, is longer than ML2. */
  ghost predicate Third(x: seq<byte>, mflimit: int, m2: M, m3: M)
  {
    && Is(x, m3) && m2.End() <= mflimit && m2.len < m3.len
    && m2.start <= m3.start <= m2.End() - 3 && m2.End() < m3.End()
  }

  /** Three ascending matches: encode ML1, squeezed when ML2 overlaps it; ML2 and ML3 move up. */
  method EncodeFirstShift(j: Job, t: HcTable, o: Output, m1: M, m2: M, m3: M) returns (ph: Phase)
    requires StateOk(j, t, o, Search3(m1, m2)) && Third(j.x, j.Mflimit(), m2, m3)
    requires m1.End() + 3 <= m3.start && m1.start + MINMATCH <= m2.start
    modifies o, o.dst
    ensures StateOk(j, t, o, ph) && (ph.Overflow? || old(o.anchor) < o.anchor)
  {
    hide Searchable, Genuine, CompressBound, OutOk, Squeezed;
    var first, second := m1, m2;
    if m2.start < m1.End() {
      SqueezedLength(j.x, m1, m2);
      CorrectedOk(j.x, m1, m2);
      first := M(m1.start, m1.ref, if m2.start - m1.start < OPTIMAL_ML then Squeezed(m1, m2) else m2.start - m1.start);
      second := Corrected(m1, m2);
      IsSub(j.x, m1, 0, first.len);
    }
    var overflow := Encode(j, o, first);
    return if overflow then Overflow(first) else Search3(second, m3);
  }

  /** Label _Search3. */
  method StepSearch3(j: Job, t: HcTable, o: Output, m1: M, n2: M) returns (ph: Phase)
    requires StateOk(j, t, o, Search3(m1, n2))
    modifies t, t.hashTable, t.chainTable, o, o.dst
    ensures StateOk(j, t, o, ph)
    ensures ph.Overflow? || old(o.anchor) < o.anchor || (o.anchor == old(o.anchor) && n2.End() < Reach(ph))
  {
    hide Searchable, Genuine, CompressBound, OutOk, Corrected;
    CorrectedOk(j.x, m1, n2);
    var m2 := Corrected(m1, n2);
    var m3 := M(0, 0, m2.len);
    if m2.End() <= j.Mflimit() {
      m3 := Widen(j, t, m2.End() - 3, m2.start, m2.len, o.dst.Length);
    }
    if m3.len == m2.len {
      ph := EncodeBoth(j, t, o, m1, m2);
    } else if m3.start >= m1.End() + 3 {
      ph := EncodeFirstShift(j, t, o, m1, m2, m3);
    } else if m3.start >= m1.End() {
      ph := EncodeFirstRestart(j, t, o, m1, m2, m3);
    } else {
      ph := Search3(m1, m3);
    }
  }

  method Step(j: Job, t: HcTable, o: Output, ph: Phase) returns (ph1: Phase)
    requires StateOk(j, t, o, ph) && !ph.LastLiterals? && !ph.Overflow?
    modifies t, t.hashTable, t.chainTable, o, o.dst
    ensures StateOk(j, t, o, ph1)
    ensures ph1.LastLiterals? || ph1.Overflow? || old(o.anchor) < o.anchor
         || (o.anchor == old(o.anchor) && Reach(ph) < Reach(ph1))
  {
    hide StateOk;
    match ph
    case Outer(ip) => ph1 := StepOuter(j, t, o, ip);
    case Search2(m0, m1) => ph1 := StepSearch2(j, t, o, m0, m1);
    case Search3(m1, m2) => ph1 := StepSearch3(j, t, o, m1, m2);
  }

  // ---------- the end of the block ----------

  lemma NoOverflowRoom(j: Job, o: Output, oend: int)
    requires OutOk(j, o) && j.limit == FillOutput && j.oend == oend - LASTLITERALS && 1 <= oend
    ensures TailRoom(o, oend)
  {
    hide Parsed, EncodeAll, Genuine, EncodeSequence;
    if o.seqs != [] { LastEncodable(o.seqs); }
  }

  lemma LastEncodable(seqs: seq<Sequence>)
    requires AllEncodable(seqs) && seqs != []
    ensures Encodable(seqs[|seqs| - 1])
  {
  }

  /** _dest_overflow in fill mode: cut the match so that it and the last literals fit, or drop it. */
  method DestOverflow(j: Job, o: Output, m: M, oend: int)
    requires JobOk(j, o.dst.Length) && OutOk(j, o) && j.limit == FillOutput && j.oend == oend - LASTLITERALS
    requires 1 <= oend <= o.dst.Length && Is(j.x, m) && j.s0 <= o.anchor <= m.start <= j.Mflimit()
    modifies o, o.dst
    ensures o.Valid(j.x, j.s0) && j.s0 <= o.anchor <= |j.x| && TailRoom(o, oend)
    ensures o.seqs != [] ==> o.anchor <= j.Matchlimit() && o.anchor - o.seqs[|o.seqs| - 1].mlen <= j.Mflimit()
  {
    hide Searchable, Genuine, Parsed, Fits, TailSize, NoRoom, CompressBound, EncodeAll, AllEncodable, Holds;
    NoOverflowRoom(j, o, oend);
    var ll := m.start - o.anchor;
    var llTotalCost := 1 + TailSize(ll) + ll;
    var maxLitPos := j.oend - 3;
    if o.op + llTotalCost <= maxLitPos {
      var bytesLeftForMl := maxLitPos - (o.op + llTotalCost);
      var maxMlSize := MINMATCH + (ML_MASK - 1) + bytesLeftForMl * 255;
      var ml := Min(m.len, maxMlSize);
      if oend - (o.op + llTotalCost + 2) - 1 + ml >= MFLIMIT {
        CutMatchFits(o.op, ll, ml, bytesLeftForMl, oend, o.dst.Length);
        IsSub(j.x, m, 0, ml);
        var overflow := o.Emit(j.x, j.s0, m.start, ml, m.start - m.ref, false, oend);
      }
    }
  }

  lemma CutMatchFits(op: int, ll: nat, ml: int, left: nat, oend: int, capacity: int)
    requires 0 <= op && left == oend - LASTLITERALS - 3 - (op + 1 + TailSize(ll) + ll) && oend <= capacity
    requires MINMATCH <= ml <= MINMATCH + (ML_MASK - 1) + left * 255
    requires oend - (op + 1 + TailSize(ll) + ll + 2) - 1 + ml >= MFLIMIT
    ensures Fits(op, ll, ml - MINMATCH, capacity)
    ensures var op1 := op + 3 + TailSize(ll) + ll + TailSize(ml - MINMATCH);
            op1 + LASTLITERALS + 1 <= oend && op1 + MFLIMIT + 1 <= oend + ml
  {
    assert TailSize(ml - MINMATCH) <= left;
  }

  /** The main loop over the phases, until only literals are left or the output is full. */
  method Parse(j: Job, t: HcTable, o: Output) returns (ph: Phase)
    requires StateOk(j, t, o, Outer(j.s0))
    modifies t, t.hashTable, t.chainTable, o, o.dst
    ensures StateOk(j, t, o, ph) && (ph.LastLiterals? || ph.Overflow?)
  {
    hide OutOk, PhaseOk, JobOk;
    ph := Outer(j.s0);
    while !ph.LastLiterals? && !ph.Overflow?
      invariant StateOk(j, t, o, ph)
      decreases !ph.LastLiterals? && !ph.Overflow?, |j.x| - o.anchor, |j.x| - Reach(ph)
    {
      InRange(j, t, o, ph);
      ph := Step(j, t, o, ph);
      InRange(j, t, o, ph);
    }
  }

  lemma InRange(j: Job, t: HcTable, o: Output, ph: Phase)
    requires StateOk(j, t, o, ph)
    ensures o.anchor <= |j.x| && Reach(ph) <= |j.x|
  {
    hide Genuine, Searchable, Parsed;
  }

  /** LZ4HC_compress_hashChain.  For every input, and all tables that fit the window: termination, a
      block that decodes to what was consumed, the end-of-block rules and the output limits. */
  method CompressHashChain(t: HcTable, w: Window, att: Option<Attached>, mem: seq<byte>, x: seq<byte>, s0: int,
      dst: array<byte>, maxOutputSize: int, attempts: int, limit: Limit)
    returns (result: int, consumed: int, o: Output)
    requires Searchable(w, att, mem, x) && w.end < 0x1_0000_0000 && t.Valid(OwnWindow(w, att))
      && t.nextToUpdate <= s0 + w.lo
    requires w.dl - w.lo <= s0 <= |x| && |x| - s0 <= MAX_INPUT_SIZE
    requires if limit == NotLimited then CompressBound(|x| - s0) <= dst.Length else 0 <= maxOutputSize <= dst.Length
    requires limit == FillOutput ==> 1 <= maxOutputSize
    modifies t, t.hashTable, t.chainTable, dst
    ensures fresh(o) && o.dst == dst && t.Valid(OwnWindow(w, att))
    ensures t.nextToUpdate <= Max(s0 + w.lo, w.end - LASTLITERALS - MINMATCH)
    ensures |x| - s0 < MFLIMIT ==> t.nextToUpdate == old(t.nextToUpdate)
    ensures Compressed(o, x, s0, limit, maxOutputSize, result, consumed)
  {
    hide Parsed, CompressBound, EncodeAll, AllEncodable, Holds, IsBlock, Searchable, Genuine;
    SearchableBounds(w, att, mem, x);
    var oend := if limit == FillOutput then maxOutputSize - LASTLITERALS else maxOutputSize;
    var j := Job(w, att, mem, x, s0, attempts, limit, oend);
    o := new Output(dst, x, s0);
    if |x| - s0 > MFLIMIT {
      var ph := Parse(j, t, o);
      if ph.Overflow? {
        if limit != FillOutput { return 0, 0, o; }
        DestOverflow(j, o, ph.m, maxOutputSize);
      } else if limit == FillOutput {
        NoOverflowRoom(j, o, maxOutputSize);
      }
    }
    result, consumed := Last(o, x, s0, limit, maxOutputSize);
  }
}