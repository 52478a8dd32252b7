/** LZ4HC_InsertAndGetWiderMatch: a match it reports repeats the bytes it points at, whatever
    the tables hold, across the dictionary boundary and in the repeated-pattern branch that
    claims a length without comparing. */
module HcMatchFinder {
  import opened Bytes
  import opened BlockFormat
  import opened MatchLength
  import opened HcTables
  import opened Windows

  /** The search position and its limits, as indices: LZ4HC_InsertAndGetWiderMatch's arguments. */
  datatype Query = Query(ip: int, low: int, high: int, attempts: int, patternAnalysis: bool, chainSwap: bool,
    favorDecSpeed: bool)

  ghost predicate QueryOk(w: Window, q: Query)
  {
    && w.dl <= q.low <= q.ip && q.ip + MINMATCH <= q.high && q.high + LASTLITERALS <= w.end
    && (q.chainSwap ==> q.low == q.ip)
  }

  /** Only with chainSwap may a candidate be one of the dictionary's last three bytes; comparing four bytes
      there reads up to three more. */
  predicate Roomy(w: Window, size: int, q: Query)
  {
    q.chainSwap && w.lo < w.dl ==> w.dictBase + w.dl + 3 <= size
  }

  datatype Best = Best(longest: int, ref: int, start: int)

  /** b is a genuine match that contains the four bytes at q.ip. */
  ghost predicate Found(w: Window, x: seq<byte>, q: Query, b: Best)
  {
    && b.start - b.ref <= DISTANCE_MAX
    && q.low <= b.start <= q.ip && q.ip + MINMATCH <= b.start + b.longest <= q.high
    && Genuine(x, b.start - w.lo, b.start - b.ref, b.longest)
  }

  function LowestMatchIndex(w: Window, ip: int): int
  {
    if w.lo + (DISTANCE_MAX + 1) > ip then w.lo else ip - DISTANCE_MAX
  }

  /** A backward part and a forward part around ip make one match. */
  lemma GenuineAround(x: seq<byte>, p: int, off: int, back: int, n: int)
    requires back <= 0 && Genuine(x, p + back, off, -back) && Genuine(x, p, off, n)
    ensures Genuine(x, p + back, off, n - back)
  {
    GenuineJoin(x, p + back, off, -back, n);
  }

  lemma SeesBounds(w: Window, mem: seq<byte>, x: seq<byte>)
    requires Sees(w, mem, x)
    ensures MAXD <= w.lo <= w.dl <= w.end && |x| == w.end - w.lo
    ensures 0 <= w.dictBase + w.lo && w.dictBase + w.dl <= |mem|
    ensures 0 <= w.base + w.dl && w.base + w.end <= |mem| && Shows(w, mem, x)
  {
  }

  // ---------- one candidate ----------

  /** What looking at a candidate may do to the best match so far. */
  ghost predicate Improves(w: Window, x: seq<byte>, q: Query, b: Best, b1: Best, ml: int)
  {
    && (ml == 0 || MINMATCH <= ml)
    && (b1 == b || (b1.longest == ml > b.longest && Found(w, x, q, b1)))
    && ml <= b1.longest
  }

  /** Four equal bytes in the prefix, grown to both sides. */
  method GrowInPrefix(w: Window, mem: seq<byte>, ghost x: seq<byte>, q: Query, m: int)
    returns (back: int, ml: int)
    requires Sees(w, mem, x) && QueryOk(w, q) && w.dl <= m < q.ip
    requires Same(mem, w.base + q.ip, w.base + m, MINMATCH)
    ensures q.low <= q.ip + back <= q.ip && MINMATCH - back <= ml && q.ip + back + ml <= q.high
    ensures Genuine(x, q.ip + back - w.lo, q.ip - m, ml)
  {
    hide Sees, Shows, Genuine, Same, CommonLength;
    SeesBounds(w, mem, x);
    back := 0;
    var pi, pm := w.base + q.ip, w.base + m;
    if q.ip > q.low { back := CountBack(mem, pi, pm, w.base + q.low, w.base + w.dl); }
    else { SameNothing(mem, pi, pm); }
    var n := Count(mem, pi + MINMATCH, pm + MINMATCH, w.base + q.high);
    Grown(mem, pi, pm, w.base + q.high);
    ml := MINMATCH + n - back;
    GenuineInPrefix(w, mem, x, q.ip, m, MINMATCH + n);
    GenuineInPrefix(w, mem, x, q.ip + back, m + back, -back);
    GenuineAround(x, q.ip - w.lo, q.ip - m, back, MINMATCH + n);
  }

  lemma SameWithin(mem: seq<byte>, a: int, b: int, n: int)
    requires Same(mem, a, b, n)
    ensures 0 <= a && a + n <= |mem| && 0 <= b && b + n <= |mem|
  {
  }

  lemma SameNothing(mem: seq<byte>, a: int, b: int)
    requires 0 <= a <= |mem| && 0 <= b <= |mem|
    ensures Same(mem, a, b, 0)
  {
  }

  /** The candidate lies in the current prefix. */
  method TryPrefix(w: Window, mem: seq<byte>, ghost x: seq<byte>, q: Query, m: int, b: Best)
    returns (ml: int, b1: Best)
    requires Sees(w, mem, x) && QueryOk(w, q) && w.dl <= m < q.ip <= m + DISTANCE_MAX
    requires q.ip - q.low < b.longest && q.low + b.longest <= q.high
    ensures Improves(w, x, q, b, b1, ml)
  {
    hide Sees, Shows, Genuine, Same;
    SeesBounds(w, mem, x);
    ml, b1 := 0, b;
    var pi, pm := w.base + q.ip, w.base + m;
    var k := b.longest - 1 - (q.ip - q.low);
    if Same(mem, pi + k, pm + k, 2) {
      if Same(mem, pi, pm, MINMATCH) {
        var back;
        back, ml := GrowInPrefix(w, mem, x, q, m);
        if ml > b.longest { b1 := Best(ml, m + back, q.ip + back); }
      }
    }
  }

  /** Four equal bytes in the dictionary, grown forward, on into the prefix when the dictionary
      ends.  Too close to its end the four bytes prove nothing, and nothing is added to them. */
  method GrowInDict(w: Window, mem: seq<byte>, ghost x: seq<byte>, q: Query, m: int) returns (ml: int)
    requires Sees(w, mem, x) && QueryOk(w, q) && w.lo <= m < w.dl
    requires Same(mem, w.base + q.ip, w.dictBase + m, MINMATCH)
    ensures MINMATCH <= ml && q.ip + ml <= q.high
    ensures if m + MINMATCH <= w.dl then Genuine(x, q.ip - w.lo, q.ip - m, ml) else ml == MINMATCH
  {
    hide Sees, Shows, Genuine, Same, CommonLength;
    SeesBounds(w, mem, x);
    var pi, pm := w.base + q.ip, w.dictBase + m;
    SameWithin(mem, pi, pm, MINMATCH);
    var vLimit := q.ip + (w.dl - m);
    if vLimit > q.high { vLimit := q.high; }
    var n := Count(mem, pi + MINMATCH, pm + MINMATCH, w.base + vLimit);
    ml := n + MINMATCH;
    if m + MINMATCH <= w.dl {
      Grown(mem, pi, pm, w.base + vLimit);
      GenuineInDict(w, mem, x, q.ip, m, ml);
    } else {
      CommonLengthIsCommon(mem, pi + MINMATCH, pm + MINMATCH, w.base + vLimit);
    }
    if q.ip + ml == vLimit && vLimit < q.high {
      var more := Count(mem, pi + ml, w.base + w.dl, w.base + q.high);
      CommonLengthIsCommon(mem, pi + ml, w.base + w.dl, w.base + q.high);
      GenuineInPrefix(w, mem, x, q.ip + ml, w.dl, more);
      GenuineJoin(x, q.ip - w.lo, q.ip - m, ml, more);
      ml := ml + more;
    }
  }

  /** The candidate lies in the external dictionary.  Close to its end a candidate may be a
      false one, but only when no longer match can come of it. */
  method TryDict(w: Window, mem: seq<byte>, ghost x: seq<byte>, q: Query, m: int, b: Best)
    returns (ml: int, b1: Best)
    requires Sees(w, mem, x) && QueryOk(w, q) && w.lo <= m < w.dl && q.ip <= m + DISTANCE_MAX
    requires (Good(w, m) || (q.chainSwap && MINMATCH <= b.longest)) && Roomy(w, |mem|, q)
    requires 0 <= b.longest
    ensures Improves(w, x, q, b, b1, ml)
  {
    hide Sees, Shows, Genuine, Same;
    SeesBounds(w, mem, x);
    ml, b1 := 0, b;
    var pi, pm := w.base + q.ip, w.dictBase + m;
    assert pm + MINMATCH <= |mem|;
    if Same(mem, pi, pm, MINMATCH) {
      ml := GrowInDict(w, mem, x, q, m);
      if q.ip > q.low {
        var back := CountBack(mem, pi, pm, w.base + q.low, w.dictBase + w.lo);
        GenuineInDict(w, mem, x, q.ip + back, m + back, -back);
        GenuineAround(x, q.ip - w.lo, q.ip - m, back, ml);
        ml := ml - back;
        if ml > b.longest { b1 := Best(ml, m + back, q.ip + back); }
      } else if ml > b.longest {
        b1 := Best(ml, m, q.ip);
      }
    }
  }

  method TryCandidate(w: Window, mem: seq<byte>, ghost x: seq<byte>, q: Query, m: int, b: Best)
    returns (ml: int, b1: Best)
    requires Sees(w, mem, x) && QueryOk(w, q) && LowestMatchIndex(w, q.ip) <= m < q.ip
    requires q.ip - q.low < b.longest && q.low + b.longest <= q.high
    requires (Good(w, m) || (q.chainSwap && MINMATCH <= b.longest)) && Roomy(w, |mem|, q)
    ensures Improves(w, x, q, b, b1, ml)
  {
    hide Sees, Shows, Good, Found;
    if q.favorDecSpeed && q.ip - m < 8 {
      ml, b1 := 0, b;
    } else if m >= w.dl {
      ml, b1 := TryPrefix(w, mem, x, q, m, b);
    } else {
      ml, b1 := TryDict(w, mem, x, q, m, b);
    }
  }

  // ---------- the next candidate ----------

  /** A candidate index that may be looked at, or that ends the search. */
  ghost predicate NextOk(w: Window, q: Query, m: int, longest: int)
  {
    0 <= m < q.ip && (Good(w, m) || m < LowestMatchIndex(w, q.ip) || (q.chainSwap && MINMATCH <= longest))
  }

  lemma FollowLink(w: Window, q: Query, chain: seq<int>, m: int)
    requires MAXD <= w.lo && ChainOk(w, chain, q.ip) && LowestMatchIndex(w, q.ip) <= m < q.ip && Good(w, m)
    ensures |chain| == MAXD && NextOk(w, q, m - chain[Slot(m)], 0)
  {
    hide Slot;
    assert Chained(w, q.ip, m);
  }

  lemma AnyLink(w: Window, q: Query, chain: seq<int>, m: int, i: int, longest: int)
    requires MAXD <= w.lo && ChainOk(w, chain, q.ip) && LowestMatchIndex(w, q.ip) <= m < q.ip
    requires q.chainSwap && MINMATCH <= longest
    ensures |chain| == MAXD && NextOk(w, q, m - chain[Slot(i)], longest)
  {
    hide Slot;
  }

  /** After a match as long as the best one: the position inside it whose chain link reaches
      furthest back. */
  method FurthestLink(chain: array<int>, m: int, longest: int, pos0: int) returns (distance: int, pos: int)
    requires chain.Length == MAXD && (forall s :: 0 <= s < MAXD ==> 0 <= chain[s] <= DISTANCE_MAX)
    requires MINMATCH <= longest && 0 <= pos0
    ensures 1 <= distance <= DISTANCE_MAX && 0 <= pos && (distance == 1 ==> pos == pos0)
  {
    distance, pos := 1, pos0;
    var end, step, accel, p := longest - MINMATCH + 1, 1, 16, 0;
    while p < end
      invariant 1 <= distance <= DISTANCE_MAX && 0 <= pos && (distance == 1 ==> pos == pos0)
      invariant 0 <= p && 1 <= step && 16 <= accel
      decreases end - p
    {
      var candidate := chain[Slot(m + p)];
      step := accel / 16;
      accel := accel + 1;
      if candidate > distance {
        distance, pos := candidate, p;
        accel := 16;
      }
      p := p + step;
    }
  }

  // ---------- repeated patterns ----------

  /** Indices i..i+n of the window all hold b. */
  ghost predicate AllByte(w: Window, x: seq<byte>, i: int, n: int, b: byte)
  {
    0 <= n && 0 <= i - w.lo && i - w.lo + n <= |x| && forall k :: i - w.lo <= k < i - w.lo + n ==> x[k] == b
  }

  lemma AllByteJoin(w: Window, x: seq<byte>, i: int, n: int, m: int, b: byte)
    requires AllByte(w, x, i, n, b) && AllByte(w, x, i + n, m, b)
    ensures AllByte(w, x, i, n + m, b)
  {
  }

  lemma AllByteSub(w: Window, x: seq<byte>, i: int, n: int, j: int, m: int, b: byte)
    requires AllByte(w, x, i, n, b) && i <= j && 0 <= m && j + m <= i + n
    ensures AllByte(w, x, j, m, b)
  {
  }

  /** Two runs of the same byte match each other, compared or not. */
  lemma RunsMatch(w: Window, x: seq<byte>, ip: int, m: int, n: int, b: byte)
    requires AllByte(w, x, ip, n, b) && AllByte(w, x, m, n, b) && m < ip
    ensures Genuine(x, ip - w.lo, ip - m, n)
  {
    var p, q := ip - w.lo, m - w.lo;
    var l, r := x[p..p + n], x[q..q + n];
    assert |l| == |r| && forall k :: 0 <= k < n ==> l[k] == r[k];
  }

  predicate Uniform(pattern: seq<byte>, b: byte)
  {
    pattern == [b, b, b, b]
  }

  lemma UniformPhase(pattern: seq<byte>, b: byte, i: int)
    requires Uniform(pattern, b)
    ensures Phase(pattern, i) == b
  {
  }

  lemma UniformRotates(pattern: seq<byte>, b: byte, rotate: int)
    requires Uniform(pattern, b)
    ensures Uniform(RotatePattern(rotate, pattern), b)
  {
  }

  lemma SliceAt(x: seq<byte>, a: int, y: seq<byte>, b: int, n: int, j: int)
    requires 0 <= a && a + n <= |x| && 0 <= b && b + n <= |y| && 0 <= j < n && x[a..a + n] == y[b..b + n]
    ensures x[a + j] == y[b + j]
  {
    assert x[a..a + n][j] == x[a + j] && y[b..b + n][j] == y[b + j];
  }

  lemma RunInPrefix(w: Window, mem: seq<byte>, x: seq<byte>, i: int, n: int, pattern: seq<byte>, b: byte)
    requires Sees(w, mem, x) && w.dl <= i && i + n <= w.end && Uniform(pattern, b)
    requires Repeats(mem, w.base + i, n, pattern) || RepeatsBack(mem, w.base + i + n, n, pattern)
    ensures AllByte(w, x, i, n, b)
  {
    hide Sees, Shows, Uniform, Phase;
    SeesBounds(w, mem, x);
    ShowsPrefix(w, mem, x, i, n);
    forall k | i - w.lo <= k < i - w.lo + n ensures x[k] == b {
      var j := k - (i - w.lo);
      SliceAt(x, i - w.lo, mem, w.base + i, n, j);
      UniformPhase(pattern, b, j);
      UniformPhase(pattern, b, j - n);
    }
  }

  lemma RunInDict(w: Window, mem: seq<byte>, x: seq<byte>, i: int, n: int, pattern: seq<byte>, b: byte)
    requires Sees(w, mem, x) && w.lo <= i && i + n <= w.dl && Uniform(pattern, b)
    requires Repeats(mem, w.dictBase + i, n, pattern) || RepeatsBack(mem, w.dictBase + i + n, n, pattern)
    ensures AllByte(w, x, i, n, b)
  {
    hide Sees, Shows, Uniform, Phase;
    SeesBounds(w, mem, x);
    ShowsDict(w, mem, x, i, n);
    forall k | i - w.lo <= k < i - w.lo + n ensures x[k] == b {
      var j := k - (i - w.lo);
      SliceAt(x, i - w.lo, mem, w.dictBase + i, n, j);
      UniformPhase(pattern, b, j);
      UniformPhase(pattern, b, j - n);
    }
  }

  lemma WordRepeats(mem: seq<byte>, a: int, pattern: seq<byte>)
    requires |pattern| == 4 && 0 <= a && a + 4 <= |mem| && mem[a..a + 4] == pattern
    ensures Repeats(mem, a, 4, pattern)
  {
    forall k | a <= k < a + 4 ensures mem[k] == Phase(pattern, k - a) {
      assert mem[k] == mem[a..a + 4][k - a];
    }
  }

  /** forwardPatternLength: how far the run goes on from the candidate, over the dictionary's end. */
  method RunForward(w: Window, mem: seq<byte>, ghost x: seq<byte>, q: Query, c: int, pattern: seq<byte>, ghost b: byte)
    returns (n: int)
    requires Sees(w, mem, x) && QueryOk(w, q) && w.lo <= c < q.ip && Good(w, c) && Uniform(pattern, b)
    requires var p := (if c < w.dl then w.dictBase else w.base) + c;
      0 <= p && p + 4 <= |mem| && mem[p..p + 4] == pattern
    ensures MINMATCH <= n && AllByte(w, x, c, n, b)
  {
    hide Sees, Shows, AllByte, Repeats, RepeatsBack, RotatePattern, Uniform, Phase;
    SeesBounds(w, mem, x);
    if c < w.dl {
      var p := w.dictBase + c;
      n := CountPattern(mem, p + 4, w.dictBase + w.dl, pattern);
      WordRepeats(mem, p, pattern);
      RunInDict(w, mem, x, c, 4, pattern, b);
      RunInDict(w, mem, x, c + 4, n, pattern, b);
      AllByteJoin(w, x, c, 4, n, b);
      n := n + 4;
      if p + n == w.dictBase + w.dl {
        UniformRotates(pattern, b, n);
        var more := CountPattern(mem, w.base + w.dl, w.base + q.high, RotatePattern(n, pattern));
        RunInPrefix(w, mem, x, w.dl, more, RotatePattern(n, pattern), b);
        AllByteJoin(w, x, c, n, more, b);
        n := n + more;
      }
    } else {
      n := CountPattern(mem, w.base + c + 4, w.base + q.high, pattern);
      WordRepeats(mem, w.base + c, pattern);
      RunInPrefix(w, mem, x, c, 4, pattern, b);
      RunInPrefix(w, mem, x, c + 4, n, pattern, b);
      AllByteJoin(w, x, c, 4, n, b);
      n := n + 4;
    }
  }

  /** backLength: how far the run goes back from the candidate, over the start of the prefix. */
  method RunBackward(w: Window, mem: seq<byte>, ghost x: seq<byte>, c: int, pattern: seq<byte>, ghost b: byte)
    returns (n: int)
    requires Sees(w, mem, x) && w.lo <= c < w.end && Uniform(pattern, b)
    ensures 0 <= n && w.lo <= c - n && AllByte(w, x, c - n, n, b)
  {
    hide Sees, Shows, AllByte, Repeats, RepeatsBack, RotatePattern;
    SeesBounds(w, mem, x);
    if c < w.dl {
      n := ReverseCountPattern(mem, w.dictBase + c, w.dictBase + w.lo, pattern);
      RunInDict(w, mem, x, c - n, n, pattern, b);
    } else {
      n := ReverseCountPattern(mem, w.base + c, w.base + w.dl, pattern);
      RunInPrefix(w, mem, x, c - n, n, pattern, b);
      if c - n == w.dl && w.lo < w.dl {
        UniformRotates(pattern, b, -n);
        var more := ReverseCountPattern(mem, w.dictBase + w.dl, w.dictBase + w.lo, RotatePattern(-n, pattern));
        RunInDict(w, mem, x, w.dl - more, more, RotatePattern(-n, pattern), b);
        AllByteJoin(w, x, w.dl - more, more, n, b);
        n := n + more;
      }
    }
  }

  /** LZ4HC_protectDictEnd, on 32-bit arithmetic that wraps. */
  predicate ProtectDictEnd(dl: int, m: int)
  {
    (dl - 1 - m) % 0x1_0000_0000 >= 3
  }

  lemma ProtectedIsGood(w: Window, m: int)
    requires MAXD <= w.dl < 0x1_0000_0000 && 0 <= m < 0x1_0000_0000
    ensures ProtectDictEnd(w.dl, m) <==> m + MINMATCH <= w.dl || w.dl <= m
  {
  }

  /** Where the search goes next: on with candidate m, or nowhere. */
  datatype Move = Stop(b: Best) | Go(m: int, b: Best)

  ghost predicate MoveOk(w: Window, x: seq<byte>, q: Query, b: Best, mv: Move)
  {
    && (mv.b == b || (mv.b.longest > b.longest && Found(w, x, q, mv.b)))
    && (mv.Go? ==> NextOk(w, q, mv.m, mv.b.longest))
  }

  /** Either segment of the pattern is long enough: go to its end; or start at its beginning and,
      when no backward extension is possible, claim the common run at once. */
  method PatternJump(w: Window, ghost x: seq<byte>, q: Query, chain: array<int>, c: int, back: int, forward: int,
                     srcLength: int, ghost byt: byte, b: Best)
    returns (mv: Move)
    requires QueryOk(w, q) && MAXD <= w.lo <= w.dl <= w.end < 0x1_0000_0000 && ChainOk(w, chain[..], q.ip)
    requires 0 <= back && LowestMatchIndex(w, q.ip) <= c - back && c < q.ip && Good(w, c)
    requires MINMATCH <= forward && AllByte(w, x, c - back, back + forward, byt)
    requires MINMATCH <= srcLength && q.ip + srcLength <= q.high && AllByte(w, x, q.ip, srcLength, byt)
    ensures MoveOk(w, x, q, b, mv)
  {
    hide AllByte, Genuine, ChainOk, Slot, ProtectDictEnd;
    var segment := back + forward;
    var target := if segment >= srcLength && forward <= srcLength then c + forward - srcLength else c - back;
    ProtectedIsGood(w, target);
    if !ProtectDictEnd(w.dl, target) {
      return Go(w.dl, b);
    }
    if (segment >= srcLength && forward <= srcLength) || q.ip != q.low {
      return Go(target, b);
    }
    var maxML := Min(segment, srcLength);
    var b1 := b;
    if b.longest < maxML {
      if q.ip - target > DISTANCE_MAX { return Stop(b); }
      AllByteSub(w, x, target, segment, target, maxML, byt);
      AllByteSub(w, x, q.ip, srcLength, q.ip, maxML, byt);
      RunsMatch(w, x, q.ip, target, maxML, byt);
      b1 := Best(maxML, target, q.ip);
    }
    FollowLink(w, q, chain[..], target);
    var distance := chain[Slot(target)];
    if distance > target { return Stop(b1); }
    return Go(target - distance, b1);
  }

  /** repeat_state_e, with srcPatternLength. */
  datatype Repeat = Untested | NotRepeated | Confirmed(length: int)

  ghost predicate RepeatOk(w: Window, x: seq<byte>, q: Query, byt: byte, r: Repeat)
  {
    r.Confirmed? ==> MINMATCH <= r.length && q.ip + r.length <= q.high && AllByte(w, x, q.ip, r.length, byt)
  }

  /** pattern & 0xFFFF == pattern >> 16 and pattern & 0xFF == pattern >> 24, on the four bytes. */
  predicate LooksRepeated(pattern: seq<byte>)
  {
    |pattern| == 4 && pattern[0] == pattern[2] && pattern[1] == pattern[3] && pattern[0] == pattern[3]
  }

  method TestRepeat(w: Window, mem: seq<byte>, ghost x: seq<byte>, q: Query, pattern: seq<byte>) returns (r: Repeat)
    requires Sees(w, mem, x) && QueryOk(w, q) && At(mem, w.base + q.ip, pattern) && |pattern| == 4
    ensures RepeatOk(w, x, q, pattern[0], r)
    ensures r.Confirmed? ==> Uniform(pattern, pattern[0])
  {
    hide Sees, Shows, AllByte, Repeats, RepeatsBack;
    SeesBounds(w, mem, x);
    r := NotRepeated;
    if LooksRepeated(pattern) {
      var pi := w.base + q.ip;
      var n := CountPattern(mem, pi + 4, w.base + q.high, pattern);
      WordRepeats(mem, pi, pattern);
      RunInPrefix(w, mem, x, q.ip, 4, pattern, pattern[0]);
      RunInPrefix(w, mem, x, q.ip + 4, n, pattern, pattern[0]);
      AllByteJoin(w, x, q.ip, 4, n, pattern[0]);
      r := Confirmed(n + 4);
    }
  }

  /** The run around a candidate that repeats the pattern, not further back than a match may reach. */
  method MeasureRun(w: Window, mem: seq<byte>, ghost x: seq<byte>, q: Query, c: int, pattern: seq<byte>)
    returns (back: int, forward: int)
    requires Sees(w, mem, x) && QueryOk(w, q) && LowestMatchIndex(w, q.ip) <= c < q.ip && Good(w, c) && w.lo <= c
    requires |pattern| == 4 && Uniform(pattern, pattern[0])
    requires var p := (if c < w.dl then w.dictBase else w.base) + c;
      0 <= p && p + 4 <= |mem| && mem[p..p + 4] == pattern
    ensures 0 <= back && LowestMatchIndex(w, q.ip) <= c - back && MINMATCH <= forward
    ensures AllByte(w, x, c - back, back + forward, pattern[0])
  {
    hide Sees, Shows, AllByte, Uniform, LowestMatchIndex, Good;
    SeesBounds(w, mem, x);
    forward := RunForward(w, mem, x, q, c, pattern, pattern[0]);
    var backLength := RunBackward(w, mem, x, c, pattern, pattern[0]);
    AllByteJoin(w, x, c - backLength, backLength, forward, pattern[0]);
    back := c - Max(c - backLength, LowestMatchIndex(w, q.ip));
    AllByteSub(w, x, c - backLength, backLength + forward, c - back, back + forward, pattern[0]);
  }

  lemma LowestInWindow(w: Window, ip: int, c: int)
    requires LowestMatchIndex(w, ip) <= c
    ensures w.lo <= c
  {
  }

  /** The candidate just before this one repeats the pattern: measure its run and jump. */
  method TryPattern(w: Window, mem: seq<byte>, ghost x: seq<byte>, q: Query, chain: array<int>, c: int,
                    pattern: seq<byte>, length: int, b: Best)
    returns (taken: bool, mv: Move)
    requires Sees(w, mem, x) && QueryOk(w, q) && w.end < 0x1_0000_0000 && ChainOk(w, chain[..], q.ip)
    requires |pattern| == 4 && Uniform(pattern, pattern[0]) && RepeatOk(w, x, q, pattern[0], Confirmed(length))
    requires 0 <= c < q.ip
    ensures taken ==> MoveOk(w, x, q, b, mv)
  {
    hide Sees, Shows, AllByte, ChainOk, ProtectDictEnd, MoveOk, Uniform, LowestMatchIndex;
    SeesBounds(w, mem, x);
    taken, mv := false, Stop(b);
    ProtectedIsGood(w, c);
    if c >= LowestMatchIndex(w, q.ip) && ProtectDictEnd(w.dl, c) {
      LowestInWindow(w, q.ip, c);
      var p := (if c < w.dl then w.dictBase else w.base) + c;
      if mem[p..p + 4] == pattern {
        var back, forward := MeasureRun(w, mem, x, q, c, pattern);
        mv := PatternJump(w, x, q, chain, c, back, forward, length, pattern[0], b);
        taken := true;
      }
    }
  }

  /** chainSwap: after a match as long as the best, look for a faster chain inside it. */
  method TrySwap(w: Window, q: Query, chain: array<int>, m: int, ml: int, b: Best, pos0: int)
    returns (taken: bool, mv: Move, pos: int)
    requires MAXD <= w.lo && ChainOk(w, chain[..], q.ip) && LowestMatchIndex(w, q.ip) <= m < q.ip
    requires QueryOk(w, q) && 0 <= pos0 && (ml == 0 || MINMATCH <= ml) && 0 < b.longest
    ensures taken ==> mv.b == b && (mv.Go? ==> NextOk(w, q, mv.m, b.longest))
    ensures 0 <= pos && (pos == pos0 || (q.chainSwap && MINMATCH <= b.longest))
  {
    hide Good, Slot, Chained, LinkOk;
    taken, mv, pos := false, Stop(b), pos0;
    if q.chainSwap && ml == b.longest && m + b.longest <= q.ip {
      var distance;
      distance, pos := FurthestLink(chain, m, b.longest, pos0);
      if distance > 1 {
        taken := true;
        mv := if distance > m then Stop(b) else Go(m - distance, b);
      }
    }
  }

  /** What is carried from candidate to candidate. */
  datatype Cursor = Cursor(m: int, b: Best, chainPos: int, repeat: Repeat, going: bool)

  ghost predicate CursorOk(w: Window, x: seq<byte>, q: Query, pattern: seq<byte>, b0: Best, c: Cursor)
  {
    && (c.b == b0 || (c.b.longest > b0.longest && Found(w, x, q, c.b)))
    && (c.going ==> NextOk(w, q, c.m, c.b.longest))
    && 0 <= c.chainPos && (c.chainPos > 0 ==> q.chainSwap && MINMATCH <= c.b.longest)
    && |pattern| == 4 && RepeatOk(w, x, q, pattern[0], c.repeat)
    && (c.repeat.Confirmed? ==> Uniform(pattern, pattern[0]))
  }

  ghost predicate SearchOk(w: Window, mem: seq<byte>, x: seq<byte>, q: Query, chain: seq<int>, pattern: seq<byte>,
      b0: Best)
  {
    && Sees(w, mem, x) && QueryOk(w, q) && Roomy(w, |mem|, q) && w.end < 0x1_0000_0000 && ChainOk(w, chain, q.ip)
    && At(mem, w.base + q.ip, pattern) && q.ip - q.low < b0.longest && q.low + b0.longest <= q.high
  }

  /** After a move: the cursor with the new candidate, or stopped. */
  function Moved(c: Cursor, mv: Move, pos: int): Cursor
  {
    if mv.Go? then c.(m := mv.m, b := mv.b, chainPos := pos) else c.(b := mv.b, chainPos := pos, going := false)
  }

  lemma StillWide(w: Window, x: seq<byte>, q: Query, b0: Best, b: Best)
    requires b == b0 || (b.longest > b0.longest && Found(w, x, q, b))
    requires QueryOk(w, q) && q.ip - q.low < b0.longest && q.low + b0.longest <= q.high
    ensures q.ip - q.low < b.longest && q.low + b.longest <= q.high && 0 < b.longest
  {
    hide Genuine;
  }

  /** The pattern shortcut: test the pattern if that was not done, then try the candidate before c.m. */
  method TryRepeat(w: Window, mem: seq<byte>, ghost x: seq<byte>, q: Query, chain: array<int>, pattern: seq<byte>,
                   ghost b0: Best, c: Cursor)
    returns (taken: bool, c1: Cursor)
    requires SearchOk(w, mem, x, q, chain[..], pattern, b0) && CursorOk(w, x, q, pattern, b0, c) && 0 < c.m <= q.ip
    ensures CursorOk(w, x, q, pattern, b0, c1) && (!taken ==> c1 == c.(repeat := c1.repeat))
  {
    hide Sees, ChainOk, Found, AllByte, Uniform, At, Slot, Good, QueryOk, NextOk;
    taken, c1 := false, c;
    if c.repeat.Untested? {
      var r := TestRepeat(w, mem, x, q, pattern);
      c1 := c.(repeat := r);
    }
    if c1.repeat.Confirmed? {
      var mv;
      taken, mv := TryPattern(w, mem, x, q, chain, c.m - 1, pattern, c1.repeat.length, c.b);
      if taken { c1 := Moved(c1, mv, 0); }
    }
  }

  lemma SearchParts(w: Window, mem: seq<byte>, x: seq<byte>, q: Query, chain: seq<int>, pattern: seq<byte>, b0: Best)
    requires SearchOk(w, mem, x, q, chain, pattern, b0)
    ensures MAXD <= w.lo && ChainOk(w, chain, q.ip) && |chain| == MAXD
  {
    hide Shows;
  }

  /** Follow the current chain. */
  method FollowChain(w: Window, ghost x: seq<byte>, q: Query, chain: array<int>, ghost pattern: seq<byte>,
      ghost b0: Best, c: Cursor)
    returns (c1: Cursor)
    requires MAXD <= w.lo && ChainOk(w, chain[..], q.ip) && chain.Length == MAXD && CursorOk(w, x, q, pattern, b0, c)
    requires c.going && LowestMatchIndex(w, q.ip) <= c.m < q.ip
    ensures CursorOk(w, x, q, pattern, b0, c1)
  {
    hide ChainOk, Found, Uniform, Slot, NextOk, RepeatOk, LowestMatchIndex;
    NextLink(w, q, chain[..], c.m, c.chainPos, c.b.longest);
    c1 := c.(m := c.m - chain[Slot(c.m + c.chainPos)]);
  }

  /** Candidate m has been looked at: try the pattern shortcut, else follow the chain. */
  method Follow(w: Window, mem: seq<byte>, ghost x: seq<byte>, q: Query, chain: array<int>, pattern: seq<byte>,
                ghost b0: Best, c: Cursor)
    returns (c1: Cursor)
    requires SearchOk(w, mem, x, q, chain[..], pattern, b0) && CursorOk(w, x, q, pattern, b0, c)
    requires c.going && LowestMatchIndex(w, q.ip) <= c.m < q.ip
    ensures CursorOk(w, x, q, pattern, b0, c1)
  {
    hide SearchOk, CursorOk, Slot;
    SearchParts(w, mem, x, q, chain[..], pattern, b0);
    c1 := c;
    if q.patternAnalysis && c.chainPos == 0 && chain[Slot(c.m)] == 1 {
      var taken;
      taken, c1 := TryRepeat(w, mem, x, q, chain, pattern, b0, c);
      if taken { return; }
    }
    c1 := FollowChain(w, x, q, chain, pattern, b0, c1);
  }

  lemma NextLink(w: Window, q: Query, chain: seq<int>, m: int, pos: int, longest: int)
    requires MAXD <= w.lo && ChainOk(w, chain, q.ip) && LowestMatchIndex(w, q.ip) <= m < q.ip
    requires NextOk(w, q, m, longest) && (pos > 0 ==> q.chainSwap && MINMATCH <= longest) && 0 <= pos
    ensures |chain| == MAXD && NextOk(w, q, m - chain[Slot(m + pos)], longest)
  {
    hide ChainOk, Slot;
    if q.chainSwap && MINMATCH <= longest {
      AnyLink(w, q, chain, m, m + pos, longest);
    } else {
      FollowLink(w, q, chain, m);
    }
  }

  method Iterate(w: Window, mem: seq<byte>, ghost x: seq<byte>, q: Query, chain: array<int>, pattern: seq<byte>,
                 ghost b0: Best, c: Cursor)
    returns (c1: Cursor)
    requires SearchOk(w, mem, x, q, chain[..], pattern, b0) && CursorOk(w, x, q, pattern, b0, c)
    requires c.going && LowestMatchIndex(w, q.ip) <= c.m < q.ip
    ensures CursorOk(w, x, q, pattern, b0, c1)
  {
    hide Sees, Shows, ChainOk, Found, AllByte, Uniform, At, Slot, Good, QueryOk, RepeatOk;
    SeesBounds(w, mem, x);
    StillWide(w, x, q, b0, c.b);
    var ml, b := TryCandidate(w, mem, x, q, c.m, c.b);
    c1 := c.(b := b);
    var taken, mv, pos := TrySwap(w, q, chain, c.m, ml, b, c.chainPos);
    if taken { return Moved(c1, mv, pos); }
    c1 := c1.(chainPos := pos);
    c1 := Follow(w, mem, x, q, chain, pattern, b0, c1);
  }

  method Search(w: Window, mem: seq<byte>, ghost x: seq<byte>, q: Query, chain: array<int>, pattern: seq<byte>,
      c0: Cursor)
    returns (b: Best, attempts: int)
    requires SearchOk(w, mem, x, q, chain[..], pattern, c0.b) && CursorOk(w, x, q, pattern, c0.b, c0)
    ensures b == c0.b || (b.longest > c0.b.longest && Found(w, x, q, b))
  {
    hide SearchOk, Found, RepeatOk, NextOk, Uniform;
    var c := c0;
    attempts := q.attempts;
    while c.going && c.m >= LowestMatchIndex(w, q.ip) && attempts > 0
      invariant CursorOk(w, x, q, pattern, c0.b, c)
      decreases attempts
    {
      attempts := attempts - 1;
      CandidateIsEarlier(w, x, q, pattern, c0.b, c);
      c := Iterate(w, mem, x, q, chain, pattern, c0.b, c);
    }
    b := c.b;
  }

  lemma CandidateIsEarlier(w: Window, x: seq<byte>, q: Query, pattern: seq<byte>, b0: Best, c: Cursor)
    requires CursorOk(w, x, q, pattern, b0, c) && c.going
    ensures c.m < q.ip
  {
  }

  lemma FirstCandidate(t: HcTable, w: Window, q: Query, h: int)
    requires t.Valid(w) && t.nextToUpdate == q.ip && 0 <= h < HASH_SIZE
    ensures t.hashTable.Length == HASH_SIZE && NextOk(w, q, t.hashTable[h], 0) && ChainOk(w, t.chainTable[..], q.ip)
  {
    hide ChainOk;
    assert t.hashTable[h] == t.hashTable[..][h];
  }

  /** The search of LZ4HC_InsertAndGetWiderMatch in the stream's own window: no better than `longest`,
      or a genuine wider match; and the attempts that are left. */
  method SearchOwn(t: HcTable, w: Window, mem: seq<byte>, ghost x: seq<byte>, q: Query, longest: int)
    returns (b: Best, attempts: int)
    requires Sees(w, mem, x) && QueryOk(w, q) && Roomy(w, |mem|, q) && w.end < 0x1_0000_0000
    requires t.Valid(w) && t.nextToUpdate <= q.ip
    requires q.ip - q.low < longest && q.low + longest <= q.high
    modifies t, t.hashTable, t.chainTable
    ensures t.Valid(w) && t.nextToUpdate == q.ip
    ensures longest <= b.longest && (b.longest > longest ==> Found(w, x, q, b))
  {
    hide Sees, Shows, ChainOk, HashOk, Found, AllByte, Uniform, At, Slot, HashPtr, LowestMatchIndex, Good;
    SeesBounds(w, mem, x);
    t.Insert(mem, w, w.base, q.ip, None);
    var pi := w.base + q.ip;
    AtSlice(mem, pi, 4);
    FirstCandidate(t, w, q, HashPtr(mem, pi));
    var c := Cursor(t.hashTable[HashPtr(mem, pi)], Best(longest, 0, 0), 0, Untested, true);
    b, attempts := Search(w, mem, x, q, t.chainTable, mem[pi..pi + 4], c);
  }

  lemma AtSlice(mem: seq<byte>, i: int, n: int)
    requires 0 <= i && 0 <= n && i + n <= |mem|
    ensures At(mem, i, mem[i..i + n])
  {
  }

  // ---------- an attached dictionary ----------

  /** The tables and indices of a stream loaded with a dictionary, indices start..end. */
  datatype Attached = Attached(hash: seq<int>, chain: seq<int>, base: int, start: int, end: int)

  /** Four bytes of the dictionary. */
  predicate InDict(a: Attached, i: int) { a.start <= i && i + MINMATCH <= a.end }

  /** What a table entry or a chain link may lead to: into the dictionary, or out of reach. */
  predicate DictEntry(a: Attached, i: int) { InDict(a, i) || (0 <= i && i + DISTANCE_MAX < a.end) }

  ghost predicate AttachedOk(a: Attached)
  {
    && |a.hash| == HASH_SIZE && |a.chain| == MAXD
    && (forall h :: 0 <= h < HASH_SIZE ==> DictEntry(a, a.hash[h]))
    && (forall i :: InDict(a, i) ==> DictEntry(a, i - a.chain[Slot(i)]))
    && (forall s :: 0 <= s < MAXD ==> 0 <= a.chain[s])
  }

  /** The stream's own window: without an attached dictionary in front. */
  function OwnWindow(w: Window, att: Option<Attached>): Window
  {
    if att.None? then w else Window(w.dl, w.dl, w.end, w.base, w.base)
  }

  /** What a search needs: the window shows the data; an attached dictionary is its part below dl. */
  ghost predicate Searchable(w: Window, att: Option<Attached>, mem: seq<byte>, x: seq<byte>)
  {
    match att
    case None => Sees(w, mem, x)
    case Some(a) =>
      && MAXD <= w.dl && Shows(w, mem, x) && AttachedOk(a)
      && w.dl - w.lo == a.end - a.start && w.dictBase + w.dl == a.base + a.end
  }

  lemma SearchableBounds(w: Window, att: Option<Attached>, mem: seq<byte>, x: seq<byte>)
    requires Searchable(w, att, mem, x)
    ensures w.lo <= w.dl <= w.end && |x| == w.end - w.lo && MAXD <= OwnWindow(w, att).lo && Shows(w, mem, x)
    ensures 0 <= w.base + w.dl && w.base + w.end <= |mem| && 0 <= w.dictBase + w.lo && w.dictBase + w.dl <= |mem|
  {
    hide AttachedOk;
  }

  lemma OwnSees(w: Window, att: Option<Attached>, mem: seq<byte>, x: seq<byte>)
    requires Searchable(w, att, mem, x)
    ensures var own := OwnWindow(w, att);
      own.lo - w.lo <= |x| && 0 <= own.lo - w.lo && Sees(own, mem, x[own.lo - w.lo..])
  {
    hide AttachedOk;
    if att.Some? {
      var y := x[w.dl - w.lo..];
      assert y[..0] == [] && y[0..] == y && mem[w.base + w.dl..w.base + w.dl] == [];
    } else {
      assert x[0..] == x;
    }
  }

  /** A match within the own window is one in the whole. */
  lemma FoundOwn(w: Window, att: Option<Attached>, x: seq<byte>, q: Query, b: Best)
    requires var own := OwnWindow(w, att); 0 <= own.lo - w.lo <= |x| && Found(own, x[own.lo - w.lo..], q, b)
    ensures Found(w, x, q, b)
  {
    var d := OwnWindow(w, att).lo - w.lo;
    var p, off := b.start - (w.lo + d), b.start - b.ref;
    SliceOfSlice(x, d, |x|, p, p + b.longest);
    SliceOfSlice(x, d, |x|, p - off, p - off + b.longest);
    assert x[d..] == x[d..|x|];
  }

  /** One candidate in the attached dictionary: its length stops at the dictionary's end. */
  method TryAttached(w: Window, a: Attached, mem: seq<byte>, ghost x: seq<byte>, q: Query, dictMatchIndex: int, b: Best)
    returns (b1: Best)
    requires Searchable(w, Some(a), mem, x) && QueryOk(w, q) && InDict(a, dictMatchIndex)
    requires q.ip - (dictMatchIndex + w.dl - a.end) <= DISTANCE_MAX
    ensures b1 == b || (b1.longest > b.longest && Found(w, x, q, b1))
  {
    hide Shows, Genuine, Same, CommonLength, AttachedOk;
    SearchableBounds(w, Some(a), mem, x);
    b1 := b;
    var m := dictMatchIndex + w.dl - a.end;
    var pi, pm := w.base + q.ip, a.base + dictMatchIndex;
    if Same(mem, pi, pm, MINMATCH) {
      var vLimit := q.ip + (a.end - dictMatchIndex);
      if vLimit > q.high { vLimit := q.high; }
      var n := Count(mem, pi + MINMATCH, pm + MINMATCH, w.base + vLimit);
      Grown(mem, pi, pm, w.base + vLimit);
      var mlt, back := n + MINMATCH, 0;
      if q.ip > q.low { back := CountBack(mem, pi, pm, w.base + q.low, a.base + a.start); }
        else { SameNothing(mem, pi, pm); }
      GenuineInDict(w, mem, x, q.ip, m, mlt);
      GenuineInDict(w, mem, x, q.ip + back, m + back, -back);
      GenuineAround(x, q.ip - w.lo, q.ip - m, back, mlt);
      mlt := mlt - back;
      if mlt > b.longest { b1 := Best(mlt, m + back, q.ip + back); }
    }
  }

  lemma FollowDict(a: Attached, i: int)
    requires AttachedOk(a) && InDict(a, i)
    ensures |a.chain| == MAXD && 0 <= Slot(i) < MAXD && DictEntry(a, i - a.chain[Slot(i)])
  {
    hide Slot;
  }

  lemma FirstInDict(a: Attached, h: int)
    requires AttachedOk(a) && 0 <= h < HASH_SIZE
    ensures h < |a.hash| && DictEntry(a, a.hash[h])
  {
  }

  /** The chain of the attached dictionary, as long as its links stay within reach. */
  method SearchAttached(w: Window, a: Attached, mem: seq<byte>, ghost x: seq<byte>, q: Query, attempts: int, b: Best)
    returns (b1: Best)
    requires Searchable(w, Some(a), mem, x) && QueryOk(w, q)
    ensures b1 == b || (b1.longest > b.longest && Found(w, x, q, b1))
  {
    hide Shows, Found, Slot, HashPtr, AttachedOk;
    SearchableBounds(w, Some(a), mem, x);
    var h := HashPtr(mem, w.base + q.ip);
    FirstInDict(a, h);
    var i, left := a.hash[h], attempts;
    b1 := b;
    while q.ip - (i + w.dl - a.end) <= DISTANCE_MAX && left > 0
      invariant DictEntry(a, i) && (b1 == b || (b1.longest > b.longest && Found(w, x, q, b1)))
      decreases left
    {
      left := left - 1;
      b1 := TryAttached(w, a, mem, x, q, i, b1);
      FollowDict(a, i);
      i := i - a.chain[Slot(i)];
    }
  }

  /** LZ4HC_InsertAndGetWiderMatch: no better than `longest`, or a genuine wider match, in the stream's
      own window or in the attached dictionary. */
  method InsertAndGetWiderMatch(t: HcTable, w: Window, att: Option<Attached>, mem: seq<byte>, ghost x: seq<byte>,
      q: Query, longest: int)
    returns (b: Best)
    requires Searchable(w, att, mem, x) && QueryOk(w, q) && w.end < 0x1_0000_0000
    requires att.None? ==> Roomy(w, |mem|, q)
    requires t.Valid(OwnWindow(w, att)) && t.nextToUpdate <= q.ip
    requires q.ip - q.low < longest && q.low + longest <= q.high
    modifies t, t.hashTable, t.chainTable
    ensures t.Valid(OwnWindow(w, att)) && t.nextToUpdate == q.ip
    ensures longest <= b.longest && (b.longest > longest ==> Found(w, x, q, b))
  {
    hide Sees, Found, ChainOk, HashOk, Searchable;
    var own := OwnWindow(w, att);
    OwnSees(w, att, mem, x);
    var attempts;
    b, attempts := SearchOwn(t, own, mem, x[own.lo - w.lo..], q, longest);
    if b.longest > longest { FoundOwn(w, att, x, q, b); }
    if att.Some? && attempts > 0 && q.ip - LowestMatchIndex(own, q.ip) < DISTANCE_MAX {
      b := SearchAttached(w, att.value, mem, x, q, attempts, b);
    }
  }
}
