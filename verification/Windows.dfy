/** The memory a compressor finds matches in: an external dictionary segment and the current
    prefix, indexed as one virtual run of bytes. */
module Windows {
  import opened Bytes
  import opened BlockFormat
  import opened MatchLength

  /** Indices lo..end; index i lives at dictBase + i below dl, at base + i from dl on. */
  datatype Window = Window(lo: int, dl: int, end: int, base: int, dictBase: int)

  /** mem shows x through the window. */
  ghost predicate Shows(w: Window, mem: seq<byte>, x: seq<byte>)
  {
    && w.lo <= w.dl <= w.end && |x| == w.end - w.lo
    && 0 <= w.dictBase + w.lo && w.dictBase + w.dl <= |mem|
    && 0 <= w.base + w.dl && w.base + w.end <= |mem|
    && x[..w.dl - w.lo] == mem[w.dictBase + w.lo..w.dictBase + w.dl]
    && x[w.dl - w.lo..] == mem[w.base + w.dl..w.base + w.end]
  }

  lemma ShowsPrefix(w: Window, mem: seq<byte>, x: seq<byte>, i: int, n: int)
    requires Shows(w, mem, x) && w.dl <= i && 0 <= n && i + n <= w.end
    ensures 0 <= i - w.lo && i - w.lo + n <= |x| && 0 <= w.base + i && w.base + i + n <= |mem|
    ensures x[i - w.lo..i - w.lo + n] == mem[w.base + i..w.base + i + n]
  {
    var d := w.dl - w.lo;
    SliceOfSlice(x, d, |x|, i - w.dl, i - w.dl + n);
    SliceOfSlice(mem, w.base + w.dl, w.base + w.end, i - w.dl, i - w.dl + n);
    assert x[d..] == x[d..|x|];
  }

  lemma ShowsDict(w: Window, mem: seq<byte>, x: seq<byte>, i: int, n: int)
    requires Shows(w, mem, x) && w.lo <= i && 0 <= n && i + n <= w.dl
    ensures 0 <= i - w.lo && i - w.lo + n <= |x| && 0 <= w.dictBase + i && w.dictBase + i + n <= |mem|
    ensures x[i - w.lo..i - w.lo + n] == mem[w.dictBase + i..w.dictBase + i + n]
  {
    var d := w.dl - w.lo;
    SliceOfSlice(x, 0, d, i - w.lo, i - w.lo + n);
    SliceOfSlice(mem, w.dictBase + w.lo, w.dictBase + w.dl, i - w.lo, i - w.lo + n);
    assert x[..d] == x[0..d];
  }

  lemma ShowsBounds(w: Window, mem: seq<byte>, x: seq<byte>)
    requires Shows(w, mem, x)
    ensures w.lo <= w.dl <= w.end && |x| == w.end - w.lo
    ensures 0 <= w.dictBase + w.lo && w.dictBase + w.dl <= |mem|
    ensures 0 <= w.base + w.dl && w.base + w.end <= |mem|
  {
  }

  // ---------- equal memory is a genuine match ----------

  lemma GenuineInPrefix(w: Window, mem: seq<byte>, x: seq<byte>, ip: int, m: int, n: int)
    requires Shows(w, mem, x) && w.dl <= m < ip && 0 <= n && ip + n <= w.end
    requires Same(mem, w.base + ip, w.base + m, n)
    ensures Genuine(x, ip - w.lo, ip - m, n)
  {
    hide Shows;
    ShowsPrefix(w, mem, x, ip, n);
    ShowsPrefix(w, mem, x, m, n);
  }

  lemma GenuineInDict(w: Window, mem: seq<byte>, x: seq<byte>, ip: int, m: int, n: int)
    requires Shows(w, mem, x) && w.lo <= m && m + n <= w.dl <= ip && 0 <= n && ip + n <= w.end
    requires m < ip && Same(mem, w.base + ip, w.dictBase + m, n)
    ensures Genuine(x, ip - w.lo, ip - m, n)
  {
    hide Shows;
    ShowsPrefix(w, mem, x, ip, n);
    ShowsDict(w, mem, x, m, n);
  }

  /** Four equal bytes and what LZ4_count adds to them. */
  lemma Grown(mem: seq<byte>, a: int, b: int, limit: int)
    requires Same(mem, a, b, MINMATCH) && a + MINMATCH <= limit <= |mem| && b + (limit - a) <= |mem|
    ensures var n := CommonLength(mem, a + MINMATCH, b + MINMATCH, limit);
            a + MINMATCH + n <= limit && Same(mem, a, b, MINMATCH + n)
  {
    hide CommonLength;
    CommonLengthIsCommon(mem, a + MINMATCH, b + MINMATCH, limit);
    SameJoin(mem, a, b, MINMATCH, CommonLength(mem, a + MINMATCH, b + MINMATCH, limit));
  }
}
