/** The decoding context of the frame layer, and its 64 KB history: a window that moves between the
    caller's buffers and a private one (LZ4F_updateDict and the end-of-call preservation). */
module FrameHistory {
  import opened Bytes
  import opened DecoderCopies
  import opened Memory
  import opened DecoderApi
  import opened DecoderStream

  datatype Stage =
    | GetFrameHeader | StoreFrameHeader | Init
    | GetBlockHeader | StoreBlockHeader
    | CopyDirect | GetBlockChecksum
    | GetCBlock | StoreCBlock
    | FlushOut
    | GetSuffix | StoreSuffix
    | GetSFrameSize | StoreSFrameSize
    | SkipSkippable

  datatype FrameInfo = FrameInfo(skippable: bool, linked: bool, blockChecksum: bool, contentChecksum: bool,
                                 contentSize: int, blockSizeID: int, dictID: int)

  const NULL: int := -1

  const TMP_OUT_MAX: int := 0x42_0000
  const TMP_IN_MAX: int := 0x40_0004

  /** LZ4F_dctx.  Buffers are addresses in the one memory, all private ones in [lo, hi); the two
      XXH32 states are represented by what has been fed to them.  Ghost fields say where the
      context stands in its frame. */
  class Dctx {
    var info: FrameInfo
    var dStage: Stage
    var frameRemainingSize: int
    var maxBlockSize: int
    var maxBufferSize: int
    const tmpIn: int
    var tmpInSize: int
    var tmpInTarget: int
    const tmpOutBuffer: int
    var dict: int
    var dictSize: int
    var tmpOut: int
    var tmpOutSize: int
    var tmpOutStart: int
    var xxh: seq<byte>
    var blockXxh: seq<byte>
    const header: int
    ghost const lo: int
    ghost const hi: int
    ghost var tmpInCapacity: int
    ghost var pos: int
    ghost var out: seq<byte>
    ghost var dec: seq<byte>
    ghost var blockStart: int
    ghost var blockOut: seq<byte>

    /** LZ4F_createDecompressionContext, with private memory at base. */
    constructor (base: int)
      ensures lo == tmpOutBuffer == base && tmpIn == base + TMP_OUT_MAX && header == tmpIn + TMP_IN_MAX
        && hi == header + 19
      ensures dStage == GetFrameHeader && dict == NULL && dictSize == 0 && maxBufferSize == 0 && frameRemainingSize == 0
      ensures pos == 0 && out == dec == []
    {
      tmpOutBuffer, tmpIn, header := base, base + TMP_OUT_MAX, base + TMP_OUT_MAX + TMP_IN_MAX;
      lo, hi := base, base + TMP_OUT_MAX + TMP_IN_MAX + 19;
      info := FrameInfo(false, false, false, false, 0, 0, 0);
      dStage, frameRemainingSize, maxBlockSize, maxBufferSize := GetFrameHeader, 0, 0, 0;
      tmpInSize, tmpInTarget, dict, dictSize := 0, 0, NULL, 0;
      tmpOut, tmpOutSize, tmpOutStart, xxh, blockXxh := base, 0, 0, [], [];
      tmpInCapacity, pos, out, dec, blockStart, blockOut := 0, 0, [], [], 0, [];
    }
  }

  // ---------- the window ----------

  ghost predicate DictIn(m: seq<byte>, dict: int, dictSize: int)
  {
    0 <= dictSize && (dictSize > 0 ==> 0 <= dict && dict + dictSize <= |m|)
  }

  ghost function DictBytes(m: seq<byte>, dict: int, dictSize: int): seq<byte>
    requires DictIn(m, dict, dictSize)
  {
    if dictSize == 0 then [] else m[dict..dict + dictSize]
  }

  /** How much history must be kept when `rest` decoded bytes still wait to be flushed: together
      they make 64 KB, or everything. */
  function Need(total: int, rest: int): int { Max(0, Min(KB64, total + rest) - rest) }

  /** The dictionary ends with the part of the history that later blocks can reach. */
  ghost predicate Kept(m: seq<byte>, dict: int, dictSize: int, hist: seq<byte>, rest: int)
  {
    && DictIn(m, dict, dictSize) && dictSize <= |hist|
    && SameTail(hist, DictBytes(m, dict, dictSize), Need(|hist|, rest))
  }

  /** hist ends with c, followed in `now` by `more`. */
  lemma AppendTail(hist: seq<byte>, c: seq<byte>, more: seq<byte>, now: seq<byte>, v: int)
    requires EndsWith(hist, c) && EndsWith(now, c + more) && 0 <= v <= |c| + |more|
    ensures SameTail(hist + more, now, v)
  {
    var all, w := hist + more, |c| + |more|;
    assert all[|all| - w..] == hist[|hist| - |c|..] + more;
    assert SameTail(all, now, w);
    SameTailLess(all, now, w, v);
  }

  /** The last k bytes of the dictionary are the last k of the history, as far as it is kept. */
  lemma KeptTail(m: seq<byte>, dict: int, dictSize: int, hist: seq<byte>, rest: int, k: int)
    requires Kept(m, dict, dictSize, hist, rest) && 0 <= k <= Need(|hist|, rest)
    ensures k <= dictSize && EndsWith(hist, DictBytes(m, dict, dictSize)[dictSize - k..])
  {
    SameTailLess(hist, DictBytes(m, dict, dictSize), Need(|hist|, rest), k);
  }

  lemma DictTail(m: seq<byte>, dict: int, dictSize: int, k: int)
    requires DictIn(m, dict, dictSize) && 0 < k <= dictSize
    ensures 0 <= dict + dictSize - k && dict + dictSize <= |m|
    ensures DictBytes(m, dict, dictSize)[dictSize - k..] == m[dict + dictSize - k..dict + dictSize]
  {
    SliceOfSlice(m, dict, dict + dictSize, dictSize - k, dictSize);
    var d := DictBytes(m, dict, dictSize);
    assert d[dictSize - k..] == d[dictSize - k..dictSize];
  }

  // ---------- the private buffer ----------

  /** tmpOutBuffer, its size, the part of the block in it that is flushed already, and the private
      memory around it. */
  datatype Tmp = Tmp(buffer: int, size: int, out: int, outSize: int, outStart: int, lo: int, hi: int)

  ghost function TmpOf(d: Dctx): Tmp
    reads d
  {
    Tmp(d.tmpOutBuffer, d.maxBufferSize, d.tmpOut, d.tmpOutSize, d.tmpOutStart, d.lo, d.hi)
  }

  /** The dictionary is in the private buffer or apart from it. */
  predicate DictOk(t: Tmp, dict: int, dictSize: int)
  {
    if dict == t.buffer then dictSize <= t.size
    else dictSize == 0 || (0 <= dict && Apart(dict, dictSize, t.lo, t.hi - t.lo))
  }

  /** A block is being flushed: what is in front of it in the private buffer is room for as much
      history as may be needed, and its flushed part is the end of the history. */
  ghost predicate FlushIn(m: seq<byte>, t: Tmp, hist: seq<byte>)
  {
    && 0 <= t.buffer <= t.out && 0 <= t.outStart <= t.outSize
    && t.out + t.outSize <= t.buffer + t.size && t.buffer + t.size <= |m|
    && Min(KB64, |hist| - t.outStart) <= t.out - t.buffer <= |hist| - t.outStart
    && EndsWith(hist, m[t.out..t.out + t.outStart])
  }

  lemma NeedGrows(total: int, rest: int, n: int, rest1: int)
    requires 0 <= total && 0 <= n && 0 <= rest1 && (rest1 == rest - n || rest == rest1 == 0)
    ensures Need(total + n, rest1) <= Need(total, rest) + n
  {
  }

  /** A new dictionary that ends with k bytes of the old one and the new bytes keeps the history. */
  lemma KeptGrows(m: seq<byte>, dict: int, dictSize: int, hist: seq<byte>, rest: int, k: int,
                  m1: seq<byte>, dict1: int, dictSize1: int, more: seq<byte>, rest1: int)
    requires Kept(m, dict, dictSize, hist, rest) && 0 <= k <= dictSize
    requires DictIn(m1, dict1, dictSize1) && dictSize1 <= |hist| + |more|
    requires EndsWith(DictBytes(m1, dict1, dictSize1), DictBytes(m, dict, dictSize)[dictSize - k..] + more)
    requires Need(|hist| + |more|, rest1) <= Min(k, Need(|hist|, rest)) + |more|
    ensures Kept(m1, dict1, dictSize1, hist + more, rest1)
  {
    hide EndsWith, SameTail, Need, DictIn, DictBytes;
    DictInBounds(m, dict, dictSize);
    NeedRange(|hist|, rest);
    NeedRange(|hist| + |more|, rest1);
    var d, d1 := DictBytes(m, dict, dictSize), DictBytes(m1, dict1, dictSize1);
    var v := Min(k, Need(|hist|, rest));
    KeptTail(m, dict, dictSize, hist, rest, v);
    EndsWithLess(d1, d, k, v, more);
    AppendTail(hist, d[dictSize - v..], more, d1, Need(|hist| + |more|, rest1));
  }

  lemma NeedRange(total: int, rest: int)
    requires 0 <= total
    ensures 0 <= Need(total, rest) && (0 <= rest ==> Need(total, rest) <= total && Need(total, rest) <= KB64)
  {
  }

  lemma EndsWithLess(d1: seq<byte>, d: seq<byte>, k: int, v: int, more: seq<byte>)
    requires 0 <= v <= k <= |d| && EndsWith(d1, d[|d| - k..] + more)
    ensures EndsWith(d1, d[|d| - v..] + more)
  {
    var t, u := d[|d| - k..] + more, d[|d| - v..] + more;
    assert u == t[k - v..];
    assert d1[|d1| - |u|..] == d1[|d1| - |t|..][k - v..];
  }

  lemma KeptIn(m: seq<byte>, dict: int, dictSize: int, hist: seq<byte>, rest: int)
    requires Kept(m, dict, dictSize, hist, rest)
    ensures DictIn(m, dict, dictSize) && dictSize <= |hist| && Need(|hist|, rest) <= dictSize
  {
  }

  /** Prefix mode: the output lies directly behind the dictionary. */
  lemma PrefixMode(m: seq<byte>, dict: int, dictSize: int, hist: seq<byte>, rest: int, n: int, rest1: int)
    requires Kept(m, dict, dictSize, hist, rest) && 0 <= dict && 0 <= n && dict + dictSize + n <= |m|
    requires 0 <= rest1 && (rest1 == rest - n || rest == rest1 == 0)
    ensures Kept(m, dict, dictSize + n, hist + m[dict + dictSize..dict + dictSize + n], rest1)
  {
    hide EndsWith, SameTail, Need, Kept;
    KeptIn(m, dict, dictSize, hist, rest);
    NeedGrows(|hist|, rest, n, rest1);
    PrefixEnds(m, dict, dictSize, n);
    KeptGrows(m, dict, dictSize, hist, rest, dictSize, m, dict, dictSize + n, m[dict + dictSize..dict + dictSize + n],
      rest1);
  }

  lemma PrefixEnds(m: seq<byte>, dict: int, dictSize: int, n: int)
    requires 0 <= dict && 0 <= dictSize && 0 <= n && dict + dictSize + n <= |m|
    ensures EndsWith(DictBytes(m, dict, dictSize + n),
      DictBytes(m, dict, dictSize)[dictSize - dictSize..] + m[dict + dictSize..dict + dictSize + n])
  {
    var d, e := DictBytes(m, dict, dictSize), DictBytes(m, dict, dictSize + n);
    assert d == m[dict..dict + dictSize] && e == m[dict..dict + dictSize + n];
    assert e == d + m[dict + dictSize..dict + dictSize + n];
    assert d[0..] == d;
  }

  /** The output of this call reaches back 64 KB: it becomes the dictionary. */
  lemma OwnHistory(m: seq<byte>, hist: seq<byte>, start: int, dstPtr: int, n: int, rest1: int)
    requires 0 <= start <= dstPtr && 0 <= n && dstPtr + n <= |m| && EndsWith(hist, m[start..dstPtr])
    requires KB64 <= dstPtr - start + n && 0 <= rest1
    ensures Kept(m, start, dstPtr - start + n, hist + m[dstPtr..dstPtr + n], rest1)
  {
    hide EndsWith, SameTail, Need;
    var c, more := m[start..dstPtr], m[dstPtr..dstPtr + n];
    EndsWithSize(hist, c);
    NeedRange(|hist| + n, rest1);
    SliceJoin(m, start, dstPtr, dstPtr + n);
    EndsWithSelf(c + more);
    AppendTail(hist, c, more, DictBytes(m, start, dstPtr - start + n), Need(|hist| + n, rest1));
  }

  lemma EndsWithSize(v: seq<byte>, t: seq<byte>)
    requires EndsWith(v, t)
    ensures |t| <= |v|
  {
  }

  // ---------- preserving history in front of a block being flushed ----------

  /** How much is copied in front of a block of outSize bytes that has room for `front`. */
  function CopySize(outSize: int, front: int): int
  {
    if outSize > KB64 then 0 else Min(KB64 - outSize, front)
  }

  lemma CopySizeEnough(t: Tmp, total: int)
    requires t.buffer <= t.out && 0 <= t.outStart <= t.outSize
    requires Min(KB64, total - t.outStart) <= t.out - t.buffer <= total - t.outStart
    ensures var c := CopySize(t.outSize, t.out - t.buffer);
      && 0 <= c <= t.out - t.buffer && Need(total, t.outSize - t.outStart) <= c + t.outStart
      && (0 < c ==> c + t.outStart <= Need(total, t.outSize - t.outStart))
  {
  }

  lemma FlushFacts(m: seq<byte>, t: Tmp, hist: seq<byte>)
    requires FlushIn(m, t, hist)
    ensures 0 <= t.buffer <= t.out && 0 <= t.outStart <= t.outSize
    ensures t.out + t.outSize <= t.buffer + t.size && t.buffer + t.size <= |m|
    ensures Min(KB64, |hist| - t.outStart) <= t.out - t.buffer <= |hist| - t.outStart
    ensures EndsWith(hist, m[t.out..t.out + t.outStart])
  {
  }

  /** The dictionary ends with what was flushed of the block, behind c more bytes. */
  lemma BeforeFlushed(m: seq<byte>, t: Tmp, hist: seq<byte>, dict: int, dictSize: int, c: int)
    requires FlushIn(m, t, hist) && Kept(m, dict, dictSize, hist, t.outSize - t.outStart)
    requires 0 < c && c + t.outStart <= Need(|hist|, t.outSize - t.outStart)
    ensures 0 <= dict + dictSize - t.outStart - c && dict + dictSize <= |m| && c + t.outStart <= dictSize
    ensures EndsWith(hist,
      m[dict + dictSize - t.outStart - c..dict + dictSize - t.outStart] + m[t.out..t.out + t.outStart])
  {
    hide Need, SameTail, Kept, DictBytes, DictIn, EndsWith, FlushIn;
    var k := c + t.outStart;
    FlushFacts(m, t, hist);
    KeptIn(m, dict, dictSize, hist, t.outSize - t.outStart);
    KeptTail(m, dict, dictSize, hist, t.outSize - t.outStart, k);
    DictTail(m, dict, dictSize, k);
    var e := dict + dictSize;
    SliceJoin(m, e - k, e - t.outStart, e);
    EndsWithParts(hist, m[e - k..e - t.outStart], m[e - t.outStart..e], m[t.out..t.out + t.outStart]);
  }

  lemma EndsWithParts(h: seq<byte>, a: seq<byte>, b: seq<byte>, b1: seq<byte>)
    requires EndsWith(h, a + b) && EndsWith(h, b1) && |b| == |b1|
    ensures EndsWith(h, a + b1)
  {
    assert h[|h| - |b|..] == h[|h| - |a + b|..][|a|..];
    assert (a + b)[|a|..] == b;
  }

  /** memcpy of the history in front of tmpOut: the private buffer becomes the dictionary. */
  method PreserveInFront(d: Dctx, mem: array<byte>, ghost m: seq<byte>, ghost hist: seq<byte>)
    requires mem[..] == m && FlushIn(m, TmpOf(d), hist)
      && Kept(m, d.dict, d.dictSize, hist, d.tmpOutSize - d.tmpOutStart)
    modifies d`dict, d`dictSize, mem
    ensures Agree(m, mem[..], d.tmpOutBuffer, d.tmpOut)
    ensures d.dict == d.tmpOutBuffer && d.dictSize == d.tmpOut - d.tmpOutBuffer + d.tmpOutStart
    ensures Kept(mem[..], d.dict, d.dictSize, hist, d.tmpOutSize - d.tmpOutStart)
  {
    hide Need, SameTail, Kept, EndsWith, FlushIn, CopySize, Agree;
    ghost var t := TmpOf(d);
    FlushFacts(m, t, hist);
    CopySizeEnough(t, |hist|);
    var c := CopySize(d.tmpOutSize, d.tmpOut - d.tmpOutBuffer);
    var oldDictEnd := d.dict + d.dictSize - d.tmpOutStart;
    if c > 0 {
      BeforeFlushed(m, t, hist, d.dict, d.dictSize, c);
      MemMove(mem, d.tmpOut - c, oldDictEnd - c, c, m);
      AgreeSize(m, mem[..], t.out - c, t.out);
      AgreeSlice(m, mem[..], t.out - c, t.out, t.out, t.outStart);
      AgreeWider(m, mem[..], t.out - c, t.out, t.buffer, t.out);
    } else {
      EmptyFront(hist, m[t.out..t.out], m[t.out..t.out + t.outStart]);
      AgreeSelf(m, t.buffer, t.out);
    }
    SliceJoin(mem[..], t.out - c, t.out, t.out + t.outStart);
    KeptInTmp(mem[..], t, hist, c);
    d.dict := d.tmpOutBuffer;
    d.dictSize := d.tmpOut - d.tmpOutBuffer + d.tmpOutStart;
  }

  lemma EmptyFront(h: seq<byte>, e: seq<byte>, f: seq<byte>)
    requires EndsWith(h, f) && |e| == 0
    ensures EndsWith(h, e + f)
  {
    assert e + f == f;
  }

  lemma KeptInTmp(m: seq<byte>, t: Tmp, hist: seq<byte>, c: int)
    requires 0 <= c <= t.out - t.buffer && 0 <= t.buffer && 0 <= t.outStart <= t.outSize && t.out + t.outStart <= |m|
    requires EndsWith(hist, m[t.out - c..t.out + t.outStart]) && t.out - t.buffer + t.outStart <= |hist|
    requires Need(|hist|, t.outSize - t.outStart) <= c + t.outStart
    ensures Kept(m, t.buffer, t.out - t.buffer + t.outStart, hist, t.outSize - t.outStart)
  {
    hide Need, SameTail;
    var d, e := m[t.buffer..t.out + t.outStart], m[t.out - c..t.out + t.outStart];
    SliceJoin(m, t.buffer, t.out - c, t.out + t.outStart);
    assert EndsWith(d, e + []);
    assert hist + [] == hist;
    NeedRange(|hist|, t.outSize - t.outStart);
    AppendTail(hist, e, [], d, Need(|hist|, t.outSize - t.outStart));
  }

  // ---------- joining dictionary and output in the private buffer ----------

  /** memcpy of the last k bytes of the dictionary to the start of the private buffer. */
  method MoveToFront(mem: array<byte>, buffer: int, dict: int, dictSize: int, k: int, ghost m: seq<byte>)
    requires mem[..] == m && DictIn(m, dict, dictSize) && 0 <= k <= dictSize && 0 <= buffer && buffer + k <= |m|
    modifies mem
    ensures Agree(m, mem[..], buffer, buffer + k)
    ensures |mem[..]| == |m| && mem[..][buffer..buffer + k] == DictBytes(m, dict, dictSize)[dictSize - k..]
  {
    hide Agree;
    if k > 0 {
      DictTail(m, dict, dictSize, k);
      MemMove(mem, buffer, dict + dictSize - k, k, m);
    } else {
      AgreeSelf(m, buffer, buffer);
    }
    AgreeSize(m, mem[..], buffer, buffer + k);
  }

  /** memcpy of the output behind the k bytes that are there. */
  method AppendInTmp(mem: array<byte>, buffer: int, k: int, dstPtr: int, n: int, ghost m: seq<byte>,
      ghost front: seq<byte>)
    requires mem[..] == m && 0 <= buffer && 0 <= k && 0 <= n && buffer + k + n <= |m| && 0 <= dstPtr
      && dstPtr + n <= |m|
    requires m[buffer..buffer + k] == front
    modifies mem
    ensures Agree(m, mem[..], buffer + k, buffer + k + n)
    ensures |mem[..]| == |m| && mem[..][buffer..buffer + k + n] == front + m[dstPtr..dstPtr + n]
  {
    hide Agree;
    MemMove(mem, buffer + k, dstPtr, n, m);
    AgreeSize(m, mem[..], buffer + k, buffer + k + n);
    AgreeSlice(m, mem[..], buffer + k, buffer + k + n, buffer, k);
    SliceJoin(mem[..], buffer, buffer + k, buffer + k + n);
  }

  /** The private buffer holds k bytes of the dictionary and the new bytes. */
  lemma JoinedKept(m: seq<byte>, dict: int, dictSize: int, hist: seq<byte>, k: int, m1: seq<byte>, buffer: int,
      more: seq<byte>)
    requires Kept(m, dict, dictSize, hist, 0) && 0 <= k <= dictSize && 0 <= buffer && buffer + k + |more| <= |m1|
    requires m1[buffer..buffer + k + |more|] == DictBytes(m, dict, dictSize)[dictSize - k..] + more
    requires k == dictSize || KB64 <= k + |more|
    ensures Kept(m1, buffer, k + |more|, hist + more, 0)
  {
    hide EndsWith, SameTail, Need, Kept;
    KeptIn(m, dict, dictSize, hist, 0);
    JoinArithmetic(|hist|, k, dictSize, |more|);
    var t := DictBytes(m, dict, dictSize)[dictSize - k..] + more;
    EndsWithSelf(t);
    DictBytesAll(m1, buffer, k + |more|, t);
    KeptGrows(m, dict, dictSize, hist, 0, k, m1, buffer, k + |more|, more, 0);
  }

  lemma DictBytesAll(m: seq<byte>, dict: int, dictSize: int, t: seq<byte>)
    requires 0 <= dict && 0 <= dictSize && dict + dictSize <= |m| && m[dict..dict + dictSize] == t
    ensures DictBytes(m, dict, dictSize) == t
  {
  }

  lemma JoinArithmetic(total: int, k: int, dictSize: int, n: int)
    requires Need(total, 0) <= dictSize <= total && 0 <= k <= dictSize && 0 <= n && (k == dictSize || KB64 <= k + n)
    ensures Need(total + n, 0) <= Min(k, Need(total, 0)) + n
  {
  }

  lemma WholeDict(m: seq<byte>, dict: int, dictSize: int)
    requires DictIn(m, dict, dictSize) && 0 <= dict && dict + dictSize <= |m|
    ensures m[dict..dict + dictSize] == DictBytes(m, dict, dictSize)[dictSize - dictSize..]
  {
    var d := DictBytes(m, dict, dictSize);
    assert d[0..] == d;
  }

  /** Join the end of the dictionary (which may itself be private) and the output. */
  method JoinInTmp(mem: array<byte>, buffer: int, size: int, dict: int, dictSize: int, dstPtr: int, n: int,
      ghost m: seq<byte>, ghost hist: seq<byte>)
    returns (dictSize1: int)
    requires mem[..] == m && Kept(m, dict, dictSize, hist, 0) && 0 <= buffer && buffer + size <= |m| && KB64 <= size
    requires 0 <= n < KB64 && 0 <= dstPtr && dstPtr + n <= |m| && Apart(dstPtr, n, buffer, size)
    modifies mem
    ensures Agree(m, mem[..], buffer, buffer + size) && dictSize1 <= size
    ensures Kept(mem[..], buffer, dictSize1, hist + m[dstPtr..dstPtr + n], 0)
  {
    hide Need, SameTail, Kept, EndsWith, Agree, DictBytes, DictIn;
    KeptIn(m, dict, dictSize, hist, 0);
    DictInBounds(m, dict, dictSize);
    var k := Min(KB64 - n, dictSize);
    MoveToFront(mem, buffer, dict, dictSize, k, m);
    ghost var m1 := mem[..];
    AgreeWider(m, m1, buffer, buffer + k, buffer, buffer + size);
    AgreeSlice(m, m1, buffer, buffer + k, dstPtr, n);
    AppendInTmp(mem, buffer, k, dstPtr, n, m1, DictBytes(m, dict, dictSize)[dictSize - k..]);
    AgreeTrans(m, m1, mem[..], buffer, buffer + size, buffer + k, buffer + k + n, buffer, buffer + size);
    JoinedKept(m, dict, dictSize, hist, k, mem[..], buffer, m[dstPtr..dstPtr + n]);
    return k + n;
  }

  /** The private buffer already is the dictionary: append, after trimming it when it is full. */
  method CompleteTmp(mem: array<byte>, buffer: int, size: int, dictSize: int, dstPtr: int, n: int, ghost m: seq<byte>,
      ghost hist: seq<byte>)
    returns (dictSize1: int)
    requires mem[..] == m && Kept(m, buffer, dictSize, hist, 0) && 0 <= buffer && dictSize <= size
      && buffer + size <= |m| && 2 * KB64 <= size
    requires 0 <= n < KB64 && 0 <= dstPtr && dstPtr + n <= |m| && Apart(dstPtr, n, buffer, size)
    modifies mem
    ensures Agree(m, mem[..], buffer, buffer + size) && dictSize1 <= size
    ensures Kept(mem[..], buffer, dictSize1, hist + m[dstPtr..dstPtr + n], 0)
  {
    hide Need, SameTail, Kept, EndsWith, Agree, DictBytes, DictIn;
    KeptIn(m, buffer, dictSize, hist, 0);
    if dictSize + n > size {
      dictSize1 := JoinInTmp(mem, buffer, size, buffer, dictSize, dstPtr, n, m, hist);
    } else {
      DictInBounds(m, buffer, dictSize);
      WholeDict(m, buffer, dictSize);
      AppendInTmp(mem, buffer, dictSize, dstPtr, n, m, DictBytes(m, buffer, dictSize)[dictSize - dictSize..]);
      AgreeWider(m, mem[..], buffer + dictSize, buffer + dictSize + n, buffer, buffer + size);
      JoinedKept(m, buffer, dictSize, hist, dictSize, mem[..], buffer, m[dstPtr..dstPtr + n]);
      dictSize1 := dictSize + n;
    }
  }

  lemma DictInBounds(m: seq<byte>, dict: int, dictSize: int)
    requires DictIn(m, dict, dictSize)
    ensures 0 <= dictSize && |DictBytes(m, dict, dictSize)| == dictSize
  {
  }

  // ---------- LZ4F_updateDict ----------

  /** A piece of the output lies at dstPtr, in a buffer apart from the private one; what this call
      has put in front of it is the end of the history. */
  ghost predicate PieceOk(m: seq<byte>, t: Tmp, hist: seq<byte>, dstStart: int, dstPtr: int, n: int)
  {
    && 0 <= t.lo <= t.buffer && t.buffer + t.size <= t.hi <= |m| && 3 * KB64 <= t.size
    && 0 <= dstStart <= dstPtr && 0 <= n && dstPtr + n <= |m|
    && (dstPtr + n < t.lo || t.hi < dstStart)
    && EndsWith(hist, m[dstStart..dstPtr])
  }

  /** The piece was copied from the private buffer, where more of its block may follow. */
  ghost predicate FromTmp(m: seq<byte>, t: Tmp, hist: seq<byte>, dict: int, dictSize: int, dstPtr: int, n: int)
  {
    && FlushIn(m, t, hist) && 0 <= n <= t.outSize - t.outStart && 0 <= dstPtr && dstPtr + n <= |m|
    && m[dstPtr..dstPtr + n] == m[t.out + t.outStart..t.out + t.outStart + n]
    && (dict == t.buffer && dictSize > 0 ==> dict + dictSize == t.out + t.outStart)
  }

  /** The private buffer goes on being the dictionary, or becomes it. */
  method ContinueInTmp(d: Dctx, mem: array<byte>, ghost dstPtr: int, dstSize: int, ghost m: seq<byte>,
      ghost hist: seq<byte>)
    requires mem[..] == m && FromTmp(m, TmpOf(d), hist, d.dict, d.dictSize, dstPtr, dstSize)
    requires Kept(m, d.dict, d.dictSize, hist, d.tmpOutSize - d.tmpOutStart)
    requires DictOk(TmpOf(d), d.dict, d.dictSize) && d.dictSize > 0
    modifies d`dict, d`dictSize, mem
    ensures Agree(m, mem[..], d.tmpOutBuffer, d.tmpOut)
    ensures Kept(mem[..], d.dict, d.dictSize, hist + m[dstPtr..dstPtr + dstSize],
      d.tmpOutSize - d.tmpOutStart - dstSize)
    ensures DictOk(TmpOf(d), d.dict, d.dictSize) && d.dict == d.tmpOutBuffer && 0 <= d.dict
    ensures d.dict + d.dictSize == d.tmpOut + d.tmpOutStart + dstSize
  {
    hide Need, SameTail, Kept, EndsWith, Agree, FlushIn;
    ghost var t := TmpOf(d);
    FlushFacts(m, t, hist);
    AgreeSelf(m, d.tmpOutBuffer, d.tmpOut);
    if d.dict != d.tmpOutBuffer {
      PreserveInFront(d, mem, m, hist);
      AgreeSize(m, mem[..], d.tmpOutBuffer, d.tmpOut);
      AgreeSlice(m, mem[..], d.tmpOutBuffer, d.tmpOut, d.tmpOut + d.tmpOutStart, dstSize);
    }
    PrefixMode(mem[..], d.dict, d.dictSize, hist, d.tmpOutSize - d.tmpOutStart, dstSize,
      d.tmpOutSize - d.tmpOutStart - dstSize);
    d.dictSize := d.dictSize + dstSize;
  }

  /** LZ4F_updateDict: after every branch the dictionary ends with the reachable history, extended by
      the piece; it is private, or it ends where the output goes on. */
  method UpdateDict(d: Dctx, mem: array<byte>, dstPtr: int, dstSize: int, dstBufferStart: int, withinTmp: bool,
                    ghost m: seq<byte>, ghost hist: seq<byte>)
    requires mem[..] == m && PieceOk(m, TmpOf(d), hist, dstBufferStart, dstPtr, dstSize)
    requires Kept(m, d.dict, d.dictSize, hist, if withinTmp then d.tmpOutSize - d.tmpOutStart else 0)
    requires DictOk(TmpOf(d), d.dict, d.dictSize)
    requires withinTmp ==> FromTmp(m, TmpOf(d), hist, d.dict, d.dictSize, dstPtr, dstSize)
    modifies d`dict, d`dictSize, mem
    ensures Agree(m, mem[..], d.tmpOutBuffer, if withinTmp then d.tmpOut else d.tmpOutBuffer + d.maxBufferSize)
    ensures Kept(mem[..], d.dict, d.dictSize, hist + m[dstPtr..dstPtr + dstSize],
                 if withinTmp then d.tmpOutSize - d.tmpOutStart - dstSize else 0)
    ensures DictOk(TmpOf(d), d.dict, d.dictSize) && 0 <= d.dict
    ensures d.dict == d.tmpOutBuffer || d.dict + d.dictSize == dstPtr + dstSize
    ensures withinTmp && d.dict == d.tmpOutBuffer ==> d.dict + d.dictSize == d.tmpOut + d.tmpOutStart + dstSize
  {
    hide Need, SameTail, Kept, EndsWith, Agree, FlushIn;
    ghost var rest := if withinTmp then d.tmpOutSize - d.tmpOutStart else 0;
    ghost var t := TmpOf(d);
    KeptIn(m, d.dict, d.dictSize, hist, rest);
    AgreeSelf(m, d.tmpOutBuffer, if withinTmp then d.tmpOut else d.tmpOutBuffer + d.maxBufferSize);
    if d.dictSize == 0 {
      KeptNowhere(m, d.dict, dstPtr, hist, rest);
      d.dict := dstPtr;
    }
    if d.dict + d.dictSize == dstPtr {
      PrefixMode(m, d.dict, d.dictSize, hist, rest, dstSize, if withinTmp then rest - dstSize else 0);
      d.dictSize := d.dictSize + dstSize;
      return;
    }
    if dstPtr - dstBufferStart + dstSize >= KB64 {
      OwnHistory(m, hist, dstBufferStart, dstPtr, dstSize, if withinTmp then rest - dstSize else 0);
      d.dict := dstBufferStart;
      d.dictSize := dstPtr - dstBufferStart + dstSize;
      return;
    }
    if withinTmp {
      ContinueInTmp(d, mem, dstPtr, dstSize, m, hist);
      return;
    }
    if d.dict == d.tmpOutBuffer {
      d.dictSize := CompleteTmp(mem, d.tmpOutBuffer, d.maxBufferSize, d.dictSize, dstPtr, dstSize, m, hist);
    } else {
      d.dictSize := JoinInTmp(mem, d.tmpOutBuffer, d.maxBufferSize, d.dict, d.dictSize, dstPtr, dstSize, m, hist);
      d.dict := d.tmpOutBuffer;
    }
  }

  lemma KeptNowhere(m: seq<byte>, dict: int, dict1: int, hist: seq<byte>, rest: int)
    requires Kept(m, dict, 0, hist, rest)
    ensures Kept(m, dict1, 0, hist, rest)
  {
  }
}
