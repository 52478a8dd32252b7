/** The window of an HC compression stream from block to block, on values: how the prefix becomes the
    external dictionary, what overlapping sources take from it, and which bytes of memory must still
    hold the history. */
module HcHistory {
  import opened Bytes
  import opened Windows
  import opened HcTables

  const GB: int := 0x4000_0000
  const INDEX_MAX: int := 0xFE00_0000

  /** LZ4HC_init_internal: a new index space above the old one, or from 64 KB on after 1 GB. */
  function InitWindow(end: int, start: int): Window
  {
    var s := (if end > GB then 0 else end) + MAXD;
    Window(s, s, s, start - s, start - s)
  }

  /** Where the data ends in memory. */
  function EndAddr(w: Window): int { w.base + w.end }

  /** Auto-init if forgotten: the stream has no base yet.  (NULL is modelled by a lowLimit of 0, which no
      stream with a base has.) */
  function Start(w: Window, src: int): Window { if w.lo == 0 then InitWindow(w.end, src) else w }

  /** Check overflow: beyond 2 GB the last 64 KB of the prefix are loaded anew. */
  function Reload(w: Window): Window
  {
    if w.end > 2 * GB then
      var size := Min(w.end - w.dl, MAXD);
      var base := EndAddr(w) - size - MAXD;
      Window(MAXD, MAXD, MAXD + size, base, base)
    else w
  }

  /** LZ4HC_setExternalDict, for a source that does not follow the data. */
  function ExternDict(w: Window, src: int): Window { Window(w.dl, w.end, w.end, src - w.end, w.base) }

  function Extern(w: Window, src: int): Window { if src != EndAddr(w) then ExternDict(w, src) else w }

  /** Check overlapping input/dictionary space: the dictionary loses what the source covers, and all up
      to it. */
  function Trim(w: Window, src: int, n: int): Window
  {
    var dictBegin, dictEnd := w.dictBase + w.lo, w.dictBase + w.dl;
    if src + n > dictBegin && src < dictEnd then
      var lo := Min(src + n, dictEnd) - w.dictBase;
      w.(lo := if w.dl - lo < 4 then w.dl else lo)
    else w
  }

  /** The window a call works with, and the one it leaves. */
  function InUse(w: Window, src: int, n: int): Window { Trim(Extern(Reload(Start(w, src)), src), src, n) }

  function Grow(w: Window, n: int): Window { w.(end := w.end + n) }

  function Next(w: Window, src: int, n: int): Window { Grow(InUse(w, src, n), n) }

  predicate Sane(w: Window) { MAXD <= w.lo <= w.dl <= w.end <= INDEX_MAX }

  lemma InUseSane(w: Window, src: int, n: int)
    requires 0 <= w.end <= INDEX_MAX && (w.lo != 0 ==> Sane(w)) && 0 <= n
    ensures var u := InUse(w, src, n); Sane(u) && EndAddr(u) == src && u.end <= 2 * GB
  {
  }

  // ---------- the history in memory ----------

  /** The bytes a window shows: the dictionary, if there is one, and the prefix. */
  predicate Readable(w: Window, size: int)
  {
    && w.lo <= w.dl <= w.end && 0 <= w.base + w.dl && EndAddr(w) <= size
    && (w.lo < w.dl ==> 0 <= w.dictBase + w.lo && w.dictBase + w.dl <= size)
  }

  function Known(mem: seq<byte>, w: Window): (r: seq<byte>)
    requires Readable(w, |mem|)
    ensures |r| == w.end - w.lo
  {
    (if w.lo < w.dl then mem[w.dictBase + w.lo..w.dictBase + w.dl] else []) + mem[w.base + w.dl..w.base + w.end]
  }

  /** The window shows the end of the history. */
  ghost predicate InPlace(mem: seq<byte>, w: Window, hist: seq<byte>)
  {
    Readable(w, |mem|) && w.end - w.lo <= |hist| && Known(mem, w) == hist[|hist| - (w.end - w.lo)..]
  }

  /** A window on the end of what another shows. */
  lemma InPlaceLess(mem: seq<byte>, w: Window, w1: Window, hist: seq<byte>)
    requires InPlace(mem, w, hist) && Readable(w1, |mem|) && w1.end - w1.lo <= w.end - w.lo
    requires Known(mem, w1) == Known(mem, w)[(w.end - w.lo) - (w1.end - w1.lo)..]
    ensures InPlace(mem, w1, hist)
  {
    var k, n := w.end - w.lo, w1.end - w1.lo;
    SliceOfSlice(hist, |hist| - k, |hist|, k - n, k);
    assert hist[|hist| - k..] == hist[|hist| - k..|hist|];
    assert Known(mem, w)[k - n..] == Known(mem, w)[k - n..k];
  }

  lemma EmptyWindow(mem: seq<byte>, w: Window, hist: seq<byte>)
    requires w.lo == w.dl == w.end && 0 <= EndAddr(w) <= |mem|
    ensures InPlace(mem, w, hist)
  {
  }

  lemma SuffixOfSuffix(hist: seq<byte>, k: int, n: int)
    requires 0 <= n <= k <= |hist|
    ensures hist[|hist| - k..][k - n..] == hist[|hist| - n..]
  {
    var a, b := hist[|hist| - k..][k - n..], hist[|hist| - n..];
    assert |a| == |b| && forall i :: 0 <= i < n ==> a[i] == b[i];
  }

  lemma SuffixOfSum(d: seq<byte>, p: seq<byte>, k: int)
    requires 0 <= k <= |p|
    ensures (d + p)[|d| + k..] == p[k..]
  {
    var a, b := (d + p)[|d| + k..], p[k..];
    assert |a| == |b| && forall i :: 0 <= i < |b| ==> a[i] == b[i];
  }

  lemma SuffixOfSlice(m: seq<byte>, a: int, b: int, k: int)
    requires 0 <= a <= b <= |m| && 0 <= k <= b - a
    ensures m[a..b][k..] == m[a + k..b]
  {
    var x, y := m[a..b][k..], m[a + k..b];
    assert |x| == |y| && forall i :: 0 <= i < |y| ==> x[i] == y[i];
  }

  /** The last n bytes of the prefix are the end of the history. */
  lemma PrefixEnd(mem: seq<byte>, w: Window, hist: seq<byte>, n: int)
    requires InPlace(mem, w, hist) && 0 <= n <= w.end - w.dl
    ensures 0 <= EndAddr(w) - n && mem[EndAddr(w) - n..EndAddr(w)] == hist[|hist| - n..]
  {
    var d := if w.lo < w.dl then mem[w.dictBase + w.lo..w.dictBase + w.dl] else [];
    var p, k := mem[w.base + w.dl..w.base + w.end], w.end - w.dl - n;
    assert Known(mem, w) == d + p && |d| == w.dl - w.lo;
    SuffixOfSum(d, p, k);
    SuffixOfSlice(mem, w.base + w.dl, w.base + w.end, k);
    SuffixOfSuffix(hist, w.end - w.lo, n);
  }

  /** A window without dictionary whose prefix is the end of the history. */
  lemma OnlyPrefix(mem: seq<byte>, w: Window, hist: seq<byte>)
    requires w.lo == w.dl <= w.end && Readable(w, |mem|) && w.end - w.dl <= |hist|
    requires mem[w.base + w.dl..w.base + w.end] == hist[|hist| - (w.end - w.dl)..]
    ensures InPlace(mem, w, hist)
  {
  }

  lemma ReloadInPlace(mem: seq<byte>, w: Window, hist: seq<byte>)
    requires InPlace(mem, w, hist)
    ensures InPlace(mem, Reload(w), hist)
  {
    if w.end > 2 * GB {
      var r := Reload(w);
      ReadableParts(mem, w, hist);
      PrefixEnd(mem, w, hist, r.end - r.dl);
      OnlyPrefix(mem, r, hist);
    }
  }

  lemma ReadableParts(mem: seq<byte>, w: Window, hist: seq<byte>)
    requires InPlace(mem, w, hist)
    ensures w.lo <= w.dl <= w.end && 0 <= w.base + w.dl && EndAddr(w) <= |mem| && w.end - w.lo <= |hist|
  {
  }

  lemma ExternInPlace(mem: seq<byte>, w: Window, src: int, hist: seq<byte>)
    requires InPlace(mem, w, hist) && 0 <= src <= |mem|
    ensures InPlace(mem, Extern(w, src), hist)
  {
    if src != EndAddr(w) {
      PrefixEnd(mem, w, hist, w.end - w.dl);
      ExternBytes(mem, w, src);
    }
  }

  lemma ExternBytes(mem: seq<byte>, w: Window, src: int)
    requires Readable(w, |mem|) && 0 <= src <= |mem|
    ensures Readable(ExternDict(w, src), |mem|) && Known(mem, ExternDict(w, src)) == mem[w.base + w.dl..w.base + w.end]
  {
    var e := ExternDict(w, src);
    assert mem[e.base + e.dl..e.base + e.end] == [];
  }

  lemma TrimInPlace(mem: seq<byte>, w: Window, src: int, n: int, hist: seq<byte>)
    requires InPlace(mem, w, hist) && 0 <= n
    ensures InPlace(mem, Trim(w, src, n), hist)
  {
    var t := Trim(w, src, n);
    if t.lo > w.lo && w.lo < w.dl {
      var d, k := mem[w.dictBase + w.lo..w.dictBase + w.dl], t.lo - w.lo;
      SliceOfSlice(mem, w.dictBase + w.lo, w.dictBase + w.dl, k, w.dl - w.lo);
      assert (d + mem[w.base + w.dl..w.base + w.end])[k..] == d[k..] + mem[w.base + w.dl..w.base + w.end];
      InPlaceLess(mem, w, t, hist);
    } else {
      assert t == w;
    }
  }

  /** A history that is wholly in place is ready for any source. */
  lemma StillInPlace(mem: seq<byte>, w: Window, src: int, n: int, hist: seq<byte>)
    requires w.lo != 0 && InPlace(mem, w, hist) && 0 <= src <= |mem| && 0 <= n
    ensures InPlace(mem, InUse(w, src, n), hist)
  {
    hide InPlace;
    ReloadInPlace(mem, w, hist);
    ExternInPlace(mem, Reload(w), src, hist);
    TrimInPlace(mem, Extern(Reload(w), src), src, n, hist);
  }

  lemma SuffixGrows(hist: seq<byte>, more: seq<byte>, k: int)
    requires 0 <= k <= |hist|
    ensures (hist + more)[|hist| - k..] == hist[|hist| - k..] + more
  {
    var a, b := (hist + more)[|hist| - k..], hist[|hist| - k..] + more;
    assert |a| == |b| && forall i :: 0 <= i < |b| ==> a[i] == b[i];
  }

  lemma KnownGrows(mem: seq<byte>, u: Window, n: int)
    requires Readable(u, |mem|) && 0 <= n && EndAddr(u) + n <= |mem|
    ensures var v := u.(end := u.end + n);
      Readable(v, |mem|) && Known(mem, v) == Known(mem, u) + mem[EndAddr(u)..EndAddr(u) + n]
  {
    var d := if u.lo < u.dl then mem[u.dictBase + u.lo..u.dictBase + u.dl] else [];
    SliceJoin(mem, u.base + u.dl, EndAddr(u), EndAddr(u) + n);
    Concat3(d, mem[u.base + u.dl..u.base + u.end], mem[EndAddr(u)..EndAddr(u) + n]);
  }

  /** After the block the source is part of the history. */
  lemma NextInPlace(mem: seq<byte>, u: Window, src: int, n: int, hist: seq<byte>)
    requires InPlace(mem, u, hist) && EndAddr(u) == src && 0 <= n && src + n <= |mem|
    ensures InPlace(mem, u.(end := u.end + n), hist + mem[src..src + n])
  {
    hide Known;
    KnownGrows(mem, u, n);
    SuffixGrows(hist, mem[src..src + n], u.end - u.lo);
  }

  /** LZ4_saveDictHC: the last r bytes of the prefix, at their new place. */
  function Saved(w: Window, safeBuffer: int, r: int): Window
  {
    Window(w.end - r, w.end - r, w.end, safeBuffer + r - w.end, w.dictBase)
  }

  lemma SavedInPlace(m: seq<byte>, m1: seq<byte>, w: Window, safeBuffer: int, r: int, hist: seq<byte>)
    requires InPlace(m, w, hist) && 0 <= r <= w.end - w.dl && 0 <= safeBuffer && safeBuffer + r <= |m1|
    requires 0 <= EndAddr(w) - r && EndAddr(w) <= |m| && m1[safeBuffer..safeBuffer + r] == m[EndAddr(w) - r..EndAddr(w)]
    ensures InPlace(m1, Saved(w, safeBuffer, r), hist)
  {
    ReadableParts(m, w, hist);
    PrefixEnd(m, w, hist, r);
    OnlyPrefix(m1, Saved(w, safeBuffer, r), hist);
  }

  /** Each live index names the history byte at distance end - index, on either side of dl. */
  lemma IndexNamesByte(mem: seq<byte>, w: Window, hist: seq<byte>, i: int)
    requires InPlace(mem, w, hist) && w.lo <= i < w.end
    ensures var p := (if i < w.dl then w.dictBase else w.base) + i;
      0 <= p < |mem| && mem[p] == hist[|hist| - (w.end - i)]
  {
    assert Known(mem, w)[i - w.lo] == hist[|hist| - (w.end - w.lo)..][i - w.lo];
  }
}
