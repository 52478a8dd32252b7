/** LZ4_streamDecode_t and LZ4_decompress_safe_continue: where the decoder looks for history from
    block to block, and why a ring buffer of LZ4_decoderRingBufferSize bytes is enough for ever. */
module DecoderStream {
  import opened Bytes
  import opened BlockFormat
  import opened Block32
  import opened DecoderCopies
  import opened Memory
  import opened DecoderState
  import opened DecoderMatches
  import opened BlockDecoder
  import opened DecoderApi

  /** The fields of LZ4_streamDecode_t. */
  datatype Place = Place(prefixEnd: int, prefixSize: int, externalDict: int, extDictSize: int)

  function DictEnd(p: Place): int { p.externalDict + p.extDictSize }

  function Window(n: int): int { Min(n, DISTANCE_MAX) }

  /** Addresses make sense. */
  predicate Sane(p: Place, size: int)
  {
    && 0 <= p.prefixSize && 0 <= p.extDictSize && (p.prefixSize == 0 ==> p.extDictSize == 0)
    && (p.prefixSize > 0 ==> 0 <= p.prefixEnd - p.prefixSize && p.prefixEnd <= size)
    && (p.extDictSize > 0 ==> 0 <= p.externalDict && DictEnd(p) <= size)
  }

  /** External dictionary and prefix, as memory holds them now. */
  ghost function View(p: Place, m: seq<byte>): seq<byte>
    requires Sane(p, |m|)
  {
    (if p.extDictSize > 0 then m[p.externalDict..DictEnd(p)] else []) + (if p.prefixSize > 0
      then m[p.prefixEnd - p.prefixSize..p.prefixEnd] else [])
  }

  /** The last 64 KB - 1 of everything decoded so far are where the decoder will look for them. */
  ghost predicate Known(p: Place, m: seq<byte>, all: seq<byte>)
  {
    Sane(p, |m|) && SameTail(all, View(p, m), Window(|all|))
  }

  /** Which arguments LZ4_decompress_safe_continue passes on. */
  function CallEnv(p: Place, src: int, n: int, dst: int, capacity: int): Env
  {
    if p.prefixSize == 0 then Env(src, src + n, dst, dst + capacity, dst, 0, 0, false, false)
    else if p.prefixEnd == dst then
      if p.prefixSize >= KB64 - 1 then Env(src, src + n, dst, dst + capacity, dst - (KB64 - 1), 0, 0, false, false)
      else if p.extDictSize == 0 then Env(src, src + n, dst, dst + capacity, dst - p.prefixSize, 0, 0, false, false)
      else Env(src, src + n, dst, dst + capacity, dst - p.prefixSize, DictEnd(p), p.extDictSize, true, false)
    else Env(src, src + n, dst, dst + capacity, dst, p.prefixEnd, p.prefixSize, true, false)
  }

  /** Where the output may go: the history must lie in front of it, apart from it, or (ring buffer)
      far enough behind it; and a new segment may only start when the last one holds the window. */
  predicate Placed(p: Place, total: int, dst: int, capacity: int)
  {
    && DictFar(CallEnv(p, 0, 0, dst, capacity))
    && (p.prefixSize > 0 && p.prefixEnd != dst ==> Window(total) <= p.prefixSize)
  }

  lemma EnvIsOk(p: Place, m: seq<byte>, total: int, src: int, n: int, dst: int, capacity: int)
    requires Sane(p, |m|) && Areas(|m|, src, n, dst, capacity) && Placed(p, total, dst, capacity)
    requires Apart(src, n, dst, capacity)
    ensures var e := CallEnv(p, src, n, dst, capacity);
      && EnvOk(e, |m|) && InputApart(e) && !e.partial
      && e.src == src && e.iend == src + n && e.dst == dst && e.oend == dst + capacity
  {
  }

  /** A call looks into the end of the view. */
  lemma HistoryInView(p: Place, m: seq<byte>, src: int, n: int, dst: int, capacity: int) returns (pre: seq<byte>)
    requires Sane(p, |m|) && EnvOk(CallEnv(p, src, n, dst, capacity), |m|)
    ensures View(p, m) == pre + History(CallEnv(p, src, n, dst, capacity), m)
  {
    hide DictFar;
    var h := History(CallEnv(p, src, n, dst, capacity), m);
    pre := View(p, m)[..|View(p, m)| - |h|];
    assert View(p, m) == pre + h;
  }

  /** What the decoder sees ends with the window of what was decoded. */
  lemma HistoryTail(p: Place, m: seq<byte>, all: seq<byte>, src: int, n: int, dst: int, capacity: int)
    requires Known(p, m, all) && Placed(p, |all|, dst, capacity)
    requires EnvOk(CallEnv(p, src, n, dst, capacity), |m|)
    ensures SameTail(all, History(CallEnv(p, src, n, dst, capacity), m), Window(|all|))
  {
    hide SameTail;
    var h := History(CallEnv(p, src, n, dst, capacity), m);
    SameTailSize(all, View(p, m), Window(|all|));
    var pre := HistoryInView(p, m, src, n, dst, capacity);
    SameTailDrop(all, pre, h, Window(|all|));
  }

  /** What the decoder sees is no more than what was decoded. */
  predicate Whole(p: Place, total: int)
  {
    p.prefixSize + p.extDictSize <= total
  }

  /** A block means the same to the decoder as to someone who has seen everything: when it is well
      formed for the latter, and for any bytes when the decoder sees no more than that. */
  lemma WindowMeaning(input: seq<byte>, all: seq<byte>, hist: seq<byte>, more: seq<byte>, d: int)
    requires SameTail(all, hist, Window(|all|)) && Decode32(input, 0, hist) == Some(hist + more)
    requires |hist| <= |all| || EndsWell32(input, 0, 0, |all|, d, 0)
    ensures Decode32(input, 0, all) == Some(all + more)
  {
    hide Decode32, EndsWell32;
    var w := Window(|all|);
    var tail, a, b := all[|all| - w..], all[..|all| - w], hist[..|hist| - w];
    assert a + tail == all && b + tail == hist;
    TailDecodes(input, a, b, tail, d);
    var x := BehindTail(input, a, tail);
    var y := BehindTail(input, b, tail);
    assert (hist + y)[|hist|..] == y && (hist + more)[|hist|..] == more;
  }

  lemma BehindTail(input: seq<byte>, pre: seq<byte>, tail: seq<byte>) returns (x: seq<byte>)
    requires Decode32(input, 0, tail).Some?
    ensures |tail| <= |Decode32(input, 0, tail).value| && x == Decode32(input, 0, tail).value[|tail|..]
    ensures Decode32(input, 0, pre + tail) == Some(pre + tail + x)
  {
    hide Decode32;
    DecodeSuffix32(input, 0, pre, tail);
    PrefixOfDecode32(input, 0, tail);
    x := Decode32(input, 0, tail).value[|tail|..];
    assert Decode32(input, 0, tail).value == tail + x;
    assert pre + (tail + x) == pre + tail + x;
  }

  lemma TailDecodes(input: seq<byte>, a: seq<byte>, b: seq<byte>, tail: seq<byte>, d: int)
    requires |tail| == Window(|a + tail|) && Decode32(input, 0, b + tail).Some?
    requires |b| <= |a| || EndsWell32(input, 0, 0, |a + tail|, d, 0)
    ensures Decode32(input, 0, tail).Some?
  {
    hide Decode32, EndsWell32;
    if EndsWell32(input, 0, 0, |a + tail|, d, 0) {
      EndsWell32Window(input, 0, 0, |a + tail|, |tail|, d, 0);
      EndsWell32Decodes(input, 0, tail, |tail|, d, 0);
    } else if |tail| == DISTANCE_MAX {
      DecodeWindow32(input, 0, b, tail);
    } else {
      assert b + tail == tail;
    }
  }

  /** The state after a block of d > 0 bytes. */
  function Advance(p: Place, dst: int, d: int): Place
  {
    if p.prefixSize == 0 then p.(prefixSize := d, prefixEnd := dst + d)
    else if p.prefixEnd == dst then p.(prefixSize := p.prefixSize + d, prefixEnd := dst + d)
    else Place(dst + d, d, p.prefixEnd - p.prefixSize, p.prefixSize)
  }

  /** ... and after an empty one: a change of segment is already noted. */
  function Linger(p: Place, dst: int): Place
  {
    if p.prefixSize == 0 || p.prefixEnd == dst then p
    else p.(extDictSize := p.prefixSize, externalDict := p.prefixEnd - p.prefixSize)
  }

  lemma NextIsSane(p: Place, size: int, src: int, n: int, dst: int, capacity: int, d: int)
    requires Sane(p, size) && EnvOk(CallEnv(p, src, n, dst, capacity), size) && 0 <= d <= capacity
    ensures Sane(Next(p, dst, d), size)
  {
  }

  function Next(p: Place, dst: int, d: int): Place
  {
    if d == 0 then Linger(p, dst) else Advance(p, dst, d)
  }

  /** v ends with t. */
  ghost predicate EndsWith(v: seq<byte>, t: seq<byte>)
  {
    |t| <= |v| && v[|v| - |t|..] == t
  }

  lemma ViewSuffix(q: Place, m: seq<byte>, lo: int, hi: int)
    requires Sane(q, |m|) && 0 <= lo <= hi <= |m|
    requires if q.prefixSize == 0 then lo == hi else q.prefixEnd == hi && hi - lo <= q.prefixSize
    ensures EndsWith(View(q, m), m[lo..hi])
  {
    if q.prefixSize > 0 { SliceJoin(m, q.prefixEnd - q.prefixSize, lo, hi); }
  }

  lemma ViewExact(q: Place, m: seq<byte>, a: int, b: int, lo: int, hi: int)
    requires Sane(q, |m|) && 0 <= a < b <= |m| && 0 <= lo < hi <= |m|
    requires q.externalDict == a && DictEnd(q) == b && q.prefixEnd == hi && q.prefixSize == hi - lo
    ensures View(q, m) == m[a..b] + m[lo..hi]
  {
  }

  /** What the next view ends with: the dictionary of this call, if any, and its prefix with the output. */
  lemma ViewEnds(p: Place, m: seq<byte>, src: int, n: int, dst: int, capacity: int, d: int)
    requires Sane(p, |m|) && EnvOk(CallEnv(p, src, n, dst, capacity), |m|) && 0 <= d <= capacity
    ensures Sane(Next(p, dst, d), |m|)
    ensures EndsWith(View(Next(p, dst, d), m), Seen(CallEnv(p, src, n, dst, capacity), m, d))
  {
    hide DictFar, View, EndsWith, Sane;
    NextIsSane(p, |m|, src, n, dst, capacity, d);
    var e, q := CallEnv(p, src, n, dst, capacity), Next(p, dst, d);
    SaneBounds(p, |m|);
    if !e.ext {
      ViewSuffix(q, m, e.low, dst + d);
      assert Seen(e, m, d) == m[e.low..dst + d];
    } else {
      if d == 0 && p.prefixEnd != dst {
        ViewSuffix(q, m, p.prefixEnd - p.prefixSize, p.prefixEnd);
        assert Seen(e, m, d) == m[p.prefixEnd - p.prefixSize..p.prefixEnd];
      } else {
        ViewExact(q, m, e.dictEnd - e.dictSize, e.dictEnd, e.low, dst + d);
        EndsWithSelf(View(q, m));
      }
    }
  }

  lemma EndsWithSelf(v: seq<byte>)
    ensures EndsWith(v, v)
  {
  }

  lemma SaneBounds(p: Place, size: int)
    requires Sane(p, size)
    ensures 0 <= p.prefixSize && 0 <= p.extDictSize && (p.prefixSize == 0 ==> p.extDictSize == 0)
    ensures p.prefixSize > 0 ==> 0 <= p.prefixEnd - p.prefixSize && p.prefixEnd <= size
  {
  }

  /** Dictionary, prefix and d bytes of output. */
  ghost function Seen(e: Env, m: seq<byte>, d: int): seq<byte>
    requires EnvOk(e, |m|) && 0 <= d <= e.oend - e.dst
  {
    DictOf(e, m) + m[e.low..e.dst + d]
  }

  lemma TailPieces(v: seq<byte>, a: seq<byte>, b: seq<byte>, f: seq<byte>, r: int)
    requires EndsWith(v, a + b) && |f| == |a| + |b| && 0 <= r <= |a|
    requires f[|a|..] == b && f[|a| - r..|a|] == a[|a| - r..]
    ensures SameTail(f, v, r + |b|)
  {
    assert f[|f| - (r + |b|)..] == f[|a| - r..|a|] + f[|a|..];
    assert v[|v| - (r + |b|)..] == v[|v| - |a + b|..][|a| - r..];
    assert (a + b)[|a| - r..] == a[|a| - r..] + b;
  }

  /** The decoded data ends with the dictionary in reach, the prefix and the output. */
  lemma SeenPieces(e: Env, m: seq<byte>, op: int, f: seq<byte>)
    requires EnvOk(e, |m|) && OutHolds(e, m, op, f) && DictHolds(e, m, op, f)
    ensures var a, r := DictOf(e, m), Reach(e, op);
      && 0 <= r <= |a| && |f| == |a| + (op - e.low) && 0 <= e.low <= op <= |m|
      && f[|a|..] == m[e.low..op] && f[|a| - r..|a|] == a[|a| - r..]
  {
    hide DictFar;
    var a, r := DictOf(e, m), Reach(e, op);
    if e.ext { SliceOfSlice(m, e.dictEnd - e.dictSize, e.dictEnd, e.dictSize - r, e.dictSize); }
    assert a[|a| - r..] == a[|a| - r..|a|];
  }

  /** The next view ends with what the call has decoded, as far as the window reaches. */
  lemma ViewTail(p: Place, m: seq<byte>, src: int, n: int, dst: int, capacity: int, d: int, f: seq<byte>)
    requires Sane(p, |m|) && EnvOk(CallEnv(p, src, n, dst, capacity), |m|) && 0 <= d <= capacity
    requires var e := CallEnv(p, src, n, dst, capacity); OutHolds(e, m, dst + d, f) && DictHolds(e, m, dst + d, f)
    ensures Sane(Next(p, dst, d), |m|)
    ensures var e := CallEnv(p, src, n, dst, capacity);
      SameTail(f, View(Next(p, dst, d), m), Reach(e, dst + d) + (dst + d - e.low))
  {
    hide EnvOk, OutHolds, DictHolds, View, Next, CallEnv, Sane, EndsWith, SameTail, Reach, DictOf;
    ViewEnds(p, m, src, n, dst, capacity, d);
    var e := CallEnv(p, src, n, dst, capacity);
    EnvStarts(p, src, n, dst, capacity);
    SeenPieces(e, m, dst + d, f);
    TailPieces(View(Next(p, dst, d), m), DictOf(e, m), m[e.low..dst + d], f, Reach(e, dst + d));
  }

  lemma EnvStarts(p: Place, src: int, n: int, dst: int, capacity: int)
    ensures CallEnv(p, src, n, dst, capacity).dst == dst && CallEnv(p, src, n, dst, capacity).oend == dst + capacity
  {
  }

  lemma KnownIsSane(p: Place, m: seq<byte>, all: seq<byte>)
    requires Known(p, m, all)
    ensures Sane(p, |m|)
  {
  }

  lemma ReachWindow(e: Env, op: int, n: int)
    requires n == e.dictSize + (op - e.low) && 0 <= e.dictSize && e.low <= op
    ensures Window(n) <= Reach(e, op) + (op - e.low)
  {
  }

  lemma WindowGrows(total: int, h: int, d: int)
    requires Window(total) <= h && 0 <= d && 0 <= total
    ensures 0 <= Window(total + d) <= Window(total) + d && Window(total + d) <= Window(h + d)
  {
  }

  /** The window moves on with the output, through every case. */
  lemma StillKnown(p: Place, m: seq<byte>, m1: seq<byte>, all: seq<byte>, src: int, n: int, dst: int, capacity: int,
                   hist: seq<byte>, more: seq<byte>)
    requires Known(p, m, all) && Placed(p, |all|, dst, capacity)
    requires var e := CallEnv(p, src, n, dst, capacity);
      && EnvOk(e, |m|) && |m1| == |m| && hist == History(e, m) && |more| <= capacity
      && OutHolds(e, m1, dst + |more|, hist + more) && DictHolds(e, m1, dst + |more|, hist + more)
    ensures Known(Next(p, dst, |more|), m1, all + more)
  {
    hide SameTail, OutHolds, DictHolds, History, DictFar, View, Sane, Next, CallEnv, Reach, Window, Placed, EnvOk;
    var e := CallEnv(p, src, n, dst, capacity);
    var f := hist + more;
    HistoryTail(p, m, all, src, n, dst, capacity);
    SameTailSize(all, hist, Window(|all|));
    SameTailGrows(all, hist, Window(|all|), more);
    var w := Window(|all| + |more|);
    WindowGrows(|all|, |hist|, |more|);
    SameTailLess(all + more, f, Window(|all|) + |more|, w);
    OutSizes(e, m1, dst + |more|, f);
    KnownIsSane(p, m, all);
    ViewTail(p, m1, src, n, dst, capacity, |more|, f);
    var k := Reach(e, dst + |more|) + (dst + |more| - e.low);
    ReachWindow(e, dst + |more|, |f|);
    SameTailLess(f, View(Next(p, dst, |more|), m1), k, w);
    SameTailTrans(all + more, f, View(Next(p, dst, |more|), m1), w);
  }

  // ---------- the state and its calls ----------

  /** What a caller gets from one call: the bytes at dst are what the block means after everything
      decoded so far, and the state knows them. */
  ghost predicate Continued(input: seq<byte>, all: seq<byte>, m: seq<byte>, dst: int, result: int, q: Place)
  {
    && 0 <= dst && 0 <= result && dst + result <= |m|
    && Meaning(input, all, m[dst..dst + result])
    && Known(q, m, all + m[dst..dst + result])
  }

  ghost function ContinueCall(e: Env, m: seq<byte>, all: seq<byte>, d: int): Call
    requires EnvOk(e, |m|)
  {
    var input := m[e.src..e.iend];
    Call(input, History(e, m), Acceptable(input, |all|, d) && d <= e.oend - e.dst, d)
  }

  lemma ContinueStart(p: Place, m: seq<byte>, all: seq<byte>, src: int, n: int, dst: int, capacity: int, d: int)
    requires Known(p, m, all) && Areas(|m|, src, n, dst, capacity) && Placed(p, |all|, dst, capacity)
    requires Apart(src, n, dst, capacity)
    ensures var e := CallEnv(p, src, n, dst, capacity);
      && EnvOk(e, |m|) && Callable(e, ContinueCall(e, m, all, d), m)
      && e.dst == dst && e.oend == dst + capacity && e.src == src && e.iend == src + n && !e.partial
  {
    hide SameTail, Acceptable, EndsWell32, DictFar, History, Window;
    EnvIsOk(p, m, |all|, src, n, dst, capacity);
    HistoryTail(p, m, all, src, n, dst, capacity);
    SameTailSize(all, History(CallEnv(p, src, n, dst, capacity), m), Window(|all|));
    var e := CallEnv(p, src, n, dst, capacity);
    var c := ContinueCall(e, m, all, d);
    if c.good {
      AcceptableEndsWell(c.input, |all|, d);
      WindowIs(|all|);
      EndsWell32Window(c.input, 0, 0, |all|, |c.hist|, d, 0);
    }
    Start(e, c, m);
  }

  lemma WindowIs(n: int)
    ensures Window(n) == Min(n, DISTANCE_MAX)
  {
  }

  lemma HistorySize(p: Place, m: seq<byte>, src: int, n: int, dst: int, capacity: int)
    requires EnvOk(CallEnv(p, src, n, dst, capacity), |m|) && Sane(p, |m|)
    ensures |History(CallEnv(p, src, n, dst, capacity), m)| <= p.prefixSize + p.extDictSize
  {
    hide DictFar;
  }

  lemma ContinueEnd(p: Place, m: seq<byte>, m1: seq<byte>, all: seq<byte>, src: int, n: int, dst: int, capacity: int,
      d: int, result: int)
    requires Known(p, m, all) && Areas(|m|, src, n, dst, capacity) && Placed(p, |all|, dst, capacity)
    requires Apart(src, n, dst, capacity) && |m1| == |m| && 0 <= result
    requires var e := CallEnv(p, src, n, dst, capacity);
      && EnvOk(e, |m|) && Decompressed(e, ContinueCall(e, m, all, d), m1, result)
      && (Whole(p, |all|) || ContinueCall(e, m, all, d).good)
    ensures result <= capacity && Continued(m[src..src + n], all, m1, dst, result, Next(p, dst, result))
  {
    hide SameTail, Acceptable, EndsWell32, DictFar, History, Window, Decode32, OutHolds, DictHolds, Next, Known,
      Meaning;
    KnownIsSane(p, m, all);
    EnvIsOk(p, m, |all|, src, n, dst, capacity);
    var e := CallEnv(p, src, n, dst, capacity);
    var c := ContinueCall(e, m, all, d);
    HistoryTail(p, m, all, src, n, dst, capacity);
    HistorySize(p, m, src, n, dst, capacity);
    FullResult(e, c, m1, result);
    PrefixOfDecode32(c.input, 0, c.hist);
    var more := m1[dst..dst + result];
    assert Decode32(c.input, 0, c.hist).value == c.hist + more;
    if c.good { AcceptableEndsWell(c.input, |all|, d); }
    WindowMeaning(c.input, all, c.hist, more, d);
    HasMeaning(c.input, all, more);
    StillKnown(p, m, m1, all, src, n, dst, capacity, c.hist, more);
  }

  /** The block's meaning after all that the decoder sees. */
  lemma ViewMeaning(p: Place, m: seq<byte>, m1: seq<byte>, all: seq<byte>, src: int, n: int, dst: int, capacity: int,
      d: int, result: int)
    requires Known(p, m, all) && |m1| == |m| && 0 <= result && 0 <= dst && 0 <= capacity <= INT_MAX
    requires var e := CallEnv(p, src, n, dst, capacity);
      && EnvOk(e, |m|) && Decompressed(e, ContinueCall(e, m, all, d), m1, result)
    ensures 0 <= src <= src + n <= |m| && dst + result <= |m1|
    ensures Meaning(m[src..src + n], View(p, m), m1[dst..dst + result])
  {
    hide SameTail, Acceptable, EndsWell32, DictFar, History, Window, Decode32, OutHolds, DictHolds, Meaning, View, Sane;
    KnownIsSane(p, m, all);
    var e := CallEnv(p, src, n, dst, capacity);
    var c := ContinueCall(e, m, all, d);
    EnvStarts(p, src, n, dst, capacity);
    FullResult(e, c, m1, result);
    var pre := HistoryInView(p, m, src, n, dst, capacity);
    var x := BehindTail(c.input, pre, c.hist);
    assert x == m1[dst..dst + result];
    HasMeaning(c.input, View(p, m), x);
  }

  /** After a call that fails, or decodes nothing, away from the prefix the decoder sees its prefix twice. */
  lemma PrefixTwice(p: Place, m: seq<byte>, dst: int)
    requires Sane(p, |m|) && p.prefixSize > 0 && p.prefixEnd != dst
    ensures var prefix := m[p.prefixEnd - p.prefixSize..p.prefixEnd];
      Sane(Linger(p, dst), |m|) && View(Linger(p, dst), m) == prefix + prefix
  {
  }

  /** One match that reaches back one byte further than x, and twelve literals. */
  function BeyondBlock(x: seq<byte>, lits: seq<byte>): (r: seq<byte>)
    requires |x| < DISTANCE_MAX && |lits| == 12
    ensures |r| == 16
  {
    [0] + OffsetBytes(|x| + 1) + [0xC0] + lits
  }

  /** ... so that it then accepts a block that is not valid after x. */
  lemma BeyondDecodes(x: seq<byte>, lits: seq<byte>)
    requires 0 < |x| < DISTANCE_MAX && |lits| == 12
    ensures var b := BeyondBlock(x, lits);
      Decode32(b, 0, x) == None && Decode32(b, 0, x + x).Some? && EndsWell32(b, 0, 0, |x + x|, 16, 1)
  {
    hide CopyMatch32;
    var b := BeyondBlock(x, lits);
    BeyondSteps(b, |x| + 1);
    hide StepAt32;
    assert x + b[1..1] == x && x + x + b[1..1] == x + x;
  }

  lemma BeyondSteps(b: seq<byte>, off: int)
    requires |b| == 16 && b[0] == 0 && LE16(b[1], b[2]) == off && 0 <= off <= DISTANCE_MAX && b[3] == 0xC0
    ensures StepAt32(b, 0) == Match(1, 0, off, 4, 3) && StepAt32(b, 3) == Final(4, 12) && MatchNibble(b[3]) == 0
  {
    hide ReadRun;
    assert LitNibble(b[0]) == 0 && MatchNibble(b[0]) == 0 && LitNibble(b[3]) == 12;
    assert ReadLength32(b, 1, 0) == Some((0, 1)) && ReadLength32(b, 3, 0) == Some((0, 3));
    assert ReadLength32(b, 4, 12) == Some((12, 4));
  }

  class StreamDecode {
    var prefixEnd: int
    var prefixSize: int
    var externalDict: int
    var extDictSize: int

    ghost function State(): Place
      reads this
    {
      Place(prefixEnd, prefixSize, externalDict, extDictSize)
    }

    /** LZ4_setStreamDecode: start from a dictionary, or from nothing. */
    constructor (dictionary: int, dictSize: int, ghost m: seq<byte>)
      requires 0 <= dictionary && 0 <= dictSize && dictionary + dictSize <= |m|
      ensures Known(State(), m, m[dictionary..dictionary + dictSize])
      ensures State() == Place(dictionary + dictSize, dictSize, 0, 0)
    {
      prefixSize := dictSize;
      prefixEnd := dictionary + dictSize;
      externalDict, extDictSize := 0, 0;
      new;
      ghost var v, dict := View(State(), m), m[dictionary..dictionary + dictSize];
      assert v == dict;
    }

    /** LZ4_decompress_safe_continue: first block, next block of a segment, or a new segment; any
        bytes whatsoever, and success for well-formed blocks. */
    method DecompressSafeContinue(mem: array<byte>, src: int, dst: int, compressedSize: int, maxOutputSize: int,
                                  ghost m: seq<byte>, ghost all: seq<byte>, ghost d: int) returns (result: int)
      requires mem[..] == m && Known(State(), m, all) && Areas(|m|, src, compressedSize, dst, maxOutputSize)
      requires Placed(State(), |all|, dst, maxOutputSize)
      requires Apart(src, compressedSize, dst, maxOutputSize)
      modifies mem, this
      ensures Agree(m, mem[..], dst, dst + maxOutputSize) && result <= maxOutputSize
      ensures 0 <= result ==> (
        && dst + result <= mem.Length
        && Meaning(m[src..src + compressedSize], View(old(State()), m), mem[..][dst..dst + result]))
      ensures Whole(old(State()), |all|) && 0 <= result ==>
        Continued(m[src..src + compressedSize], all, mem[..], dst, result, State())
      ensures Acceptable(m[src..src + compressedSize], |all|, d) && d <= maxOutputSize ==>
        result == d && Continued(m[src..src + compressedSize], all, mem[..], dst, result, State())
      ensures Whole(old(State()), |all|) && 0 < result ==> Whole(State(), |all| + result)
      ensures 0 < result ==> State() == Advance(old(State()), dst, result)
      ensures result <= 0 ==> State() == Linger(old(State()), dst)
    {
      hide Known, Placed, Agree, Acceptable, Callable, Decompressed, Continued, ContinueCall, EnvOk, Meaning, View;
      ghost var p := State();
      ContinueStart(p, m, all, src, compressedSize, dst, maxOutputSize, d);
      var e := Env(src, src + compressedSize, dst, dst + maxOutputSize, dst, 0, 0, false, false);
      var rolling := prefixSize != 0 && prefixEnd == dst;
      if prefixSize == 0 {
      } else if rolling {
        if prefixSize >= KB64 - 1 {
          e := e.(low := dst - (KB64 - 1));
        } else if extDictSize == 0 {
          e := e.(low := dst - prefixSize);
        } else {
          e := e.(low := dst - prefixSize, dictEnd := externalDict + extDictSize, dictSize := extDictSize, ext := true);
        }
      } else {
        extDictSize := prefixSize;
        externalDict := prefixEnd - extDictSize;
        e := e.(dictEnd := externalDict + extDictSize, dictSize := extDictSize, ext := true);
      }
      result := DecompressGeneric(mem, e, ContinueCall(e, m, all, d), m);
      AgreeSize(m, mem[..], dst, dst + maxOutputSize);
      CallGood(p, m, mem[..], all, src, compressedSize, dst, maxOutputSize, d, result);
      if 0 <= result {
        ViewMeaning(p, m, mem[..], all, src, compressedSize, dst, maxOutputSize, d, result);
      }
      ghost var good := Acceptable(m[src..src + compressedSize], |all|, d) && d <= maxOutputSize;
      if 0 <= result && (Whole(p, |all|) || good) {
        ContinueEnd(p, m, mem[..], all, src, compressedSize, dst, maxOutputSize, d, result);
      }
      WholeNext(p, m, all, dst, result);
      if result <= 0 { return; }
      if rolling {
        prefixSize := prefixSize + result;
        prefixEnd := prefixEnd + result;
      } else {
        prefixSize := result;
        prefixEnd := dst + result;
      }
    }
  }

  lemma WholeNext(p: Place, m: seq<byte>, all: seq<byte>, dst: int, d: int)
    requires Known(p, m, all)
    ensures Whole(p, |all|) && 0 < d ==> Whole(Advance(p, dst, d), |all| + d)
  {
    hide SameTail;
  }

  lemma CallGood(p: Place, m: seq<byte>, m1: seq<byte>, all: seq<byte>, src: int, n: int, dst: int, capacity: int,
      d: int, result: int)
    requires var e := CallEnv(p, src, n, dst, capacity);
      EnvOk(e, |m|) && Decompressed(e, ContinueCall(e, m, all, d), m1, result) && 0 <= capacity <= INT_MAX
    ensures var good := Acceptable(m[src..src + n], |all|, d) && d <= capacity;
      && ContinueCall(CallEnv(p, src, n, dst, capacity), m, all, d).good == good
      && (good ==> result == d && 0 <= d) && result <= capacity
  {
    hide Acceptable, DictFar, History, Decode32, OutHolds, DictHolds, EndsWell32;
    if Acceptable(m[src..src + n], |all|, d) && d <= capacity {
      AcceptableEndsWell(m[src..src + n], |all|, d);
      EndsWell32Grows(m[src..src + n], 0, 0, |all|, d, 0);
    }
  }
}
