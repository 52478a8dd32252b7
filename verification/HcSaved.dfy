/** LZ4_saveDictHC with a dictionary attached: when the stream still knows its history afterwards, and what
    goes wrong when it does not. */
module HcSaved {
  import opened Bytes
  import opened BlockFormat
  import opened Memory
  import opened Windows
  import opened HcTables
  import opened HcHistory
  import opened HcStream

  /** Addresses and sizes of a prefix w, an attached dictionary d and r bytes to be saved: dictionary and
      prefix are apart, and so are dictionary and buffer. */
  predicate Separate(w: Window, d: Window, safeBuffer: int, r: int, size: int)
  {
    && w.lo == w.dl && d.lo == d.dl <= d.end && 0 <= r <= w.end - w.dl && r <= MAXD
    && 0 <= d.base + d.dl && EndAddr(d) <= size && 0 <= w.base + w.dl && EndAddr(w) <= size
    && 0 <= safeBuffer && safeBuffer + r <= size
    && (EndAddr(d) <= w.base + w.dl || EndAddr(w) <= d.base + d.dl)
    && (EndAddr(d) <= safeBuffer || safeBuffer + r <= d.base + d.dl)
  }

  /** Memory with bytes 1 in [a, b) and bytes 0 elsewhere. */
  function Marked(size: nat, a: int, b: int): (m: seq<byte>)
    ensures |m| == size
  {
    seq(size, i => if a <= i < b then 1 else 0)
  }

  function MarkedToo(m: seq<byte>, a: int, b: int): (m1: seq<byte>)
    ensures |m1| == |m|
  {
    seq(|m|, i requires 0 <= i < |m| => if a <= i < b then 1 else m[i])
  }

  /** The dictionary holds bytes 0, the data after it bytes 1. */
  lemma BeforeSave(w: Window, d: Window, safeBuffer: int, r: int, size: nat)
    requires Separate(w, d, safeBuffer, r, size)
    ensures var m := Marked(size, w.base + w.dl, EndAddr(w));
      InPlace(m, Reached(w, d), Repeated(0, d.end - d.dl) + Repeated(1, w.end - w.dl))
  {
    var m, k, p := Marked(size, w.base + w.dl, EndAddr(w)), d.end - d.dl, w.end - w.dl;
    var hist := Repeated(0, k) + Repeated(1, p);
    assert m[w.base + w.dl..EndAddr(w)] == Repeated(1, p) == hist[k..];
    if w.end - w.lo < MAXD {
      assert m[d.base + d.dl..EndAddr(d)] == Repeated(0, k);
      ExtendedShows(m, w, d, hist);
    }
  }

  lemma ExtendedShows(m: seq<byte>, w: Window, d: Window, hist: seq<byte>)
    requires w.lo == w.dl <= w.end && d.lo == d.dl <= d.end && 0 <= d.base + d.dl && EndAddr(d) <= |m|
    requires 0 <= w.base + w.dl && EndAddr(w) <= |m|
    requires hist == m[d.base + d.dl..EndAddr(d)] + m[w.base + w.dl..EndAddr(w)]
    ensures InPlace(m, Extended(w, d), hist)
  {
    var e := Extended(w, d);
    assert e.dictBase + e.lo == d.base + d.dl && e.dictBase + e.dl == EndAddr(d);
    assert hist[|hist| - (e.end - e.lo)..] == hist;
  }

  /** Afterwards the dictionary is in front of the last r bytes, where the history has other data. */
  lemma AfterSave(m1: seq<byte>, w: Window, d: Window, safeBuffer: int, r: int)
    requires Separate(w, d, safeBuffer, r, |m1|) && r < w.end - w.dl && r < MAXD && d.dl < d.end
    requires m1[EndAddr(d) - 1] == 0
    ensures !InPlace(m1, Reached(Saved(w, safeBuffer, r), d), Repeated(0, d.end - d.dl) + Repeated(1, w.end - w.dl))
  {
    var k, p := d.end - d.dl, w.end - w.dl;
    var e, hist := Reached(Saved(w, safeBuffer, r), d), Repeated(0, k) + Repeated(1, p);
    var i := e.lo + (k - 1);
    assert e.end - e.lo == k + r && e.dictBase + i == EndAddr(d) - 1;
    if InPlace(m1, e, hist) { IndexNamesByte(m1, e, hist, i); }
  }

  lemma MarkedStep(w: Window, d: Window, safeBuffer: int, r: int, size: nat, hist: seq<byte>)
    requires Separate(w, d, safeBuffer, r, size)
    requires InPlace(Marked(size, w.base + w.dl, EndAddr(w)), Reached(w, d), hist)
    ensures var m := Marked(size, w.base + w.dl, EndAddr(w)); var m1 := MarkedToo(m, safeBuffer, safeBuffer + r);
      && SaveStep(m, m1, w, d, safeBuffer, r, hist) && |m| == |m1| == size
      && (d.dl < d.end ==> m1[EndAddr(d) - 1] == 0)
  {
    hide InPlace, Reached;
    var m := Marked(size, w.base + w.dl, EndAddr(w));
    var m1 := MarkedToo(m, safeBuffer, safeBuffer + r);
    assert m1[safeBuffer..safeBuffer + r] == Repeated(1, r) == m[EndAddr(w) - r..EndAddr(w)];
  }

  /** Wherever Keeps fails, there are data for which the history is not in place. */
  lemma SavedLoses(w: Window, d: Window, safeBuffer: int, r: int, size: nat)
    requires Separate(w, d, safeBuffer, r, size) && !Keeps(w, d, r)
    ensures exists m, m1, hist ::
      |m| == size && SaveStep(m, m1, w, d, safeBuffer, r, hist)
      && !InPlace(m1, Reached(Saved(w, safeBuffer, r), d), hist)
  {
    hide InPlace, SaveStep, Reached, Saved, Repeated, Marked, MarkedToo;
    var m := Marked(size, w.base + w.dl, EndAddr(w));
    var m1 := MarkedToo(m, safeBuffer, safeBuffer + r);
    var hist := Repeated(0, d.end - d.dl) + Repeated(1, w.end - w.dl);
    BeforeSave(w, d, safeBuffer, r, size);
    MarkedStep(w, d, safeBuffer, r, size, hist);
    AfterSave(m1, w, d, safeBuffer, r);
  }

  /** Saving keeps the history in place, for all data, if and only if it saves all of the prefix, or 64 KB,
      or the dictionary is empty. */
  lemma SavedExactly(w: Window, d: Window, safeBuffer: int, r: int, size: nat)
    requires Separate(w, d, safeBuffer, r, size)
    ensures Keeps(w, d, r) <==> forall m, m1, hist ::
      |m| == size && SaveStep(m, m1, w, d, safeBuffer, r, hist)
      ==> InPlace(m1, Reached(Saved(w, safeBuffer, r), d), hist)
  {
    hide InPlace, SaveStep, Reached, Keeps;
    if Keeps(w, d, r) {
      forall m, m1, hist | |m| == size && SaveStep(m, m1, w, d, safeBuffer, r, hist)
        ensures InPlace(m1, Reached(Saved(w, safeBuffer, r), d), hist)
      {
        SavedStays(m, m1, w, d, safeBuffer, r, hist);
      }
    } else {
      SavedLoses(w, d, safeBuffer, r, size);
    }
  }

  /** A dictionary of k bytes is attached, p bytes follow, r of them are saved, and n more follow those: a
      match that the stream sees, across the bytes it does not know to be missing, is none in the history. */
  lemma LostBytesAreHarmful(k: nat, p: nat, r: nat, n: nat)
    requires 4 <= k && r < p && r + 5 <= DISTANCE_MAX && n >= 13
    ensures var D, X, Y := Repeated(0, k), Repeated(1, p), Repeated(0, n);
      && Genuine(D + X[p - r..] + Y, k + r + 1, r + 5, 4)
      && !Genuine(D + X + Y, k + p + 1, r + 5, 4)
  {
    var D, X, Y := Repeated(0, k), Repeated(1, p), Repeated(0, n);
    var seen, truth := D + X[p - r..] + Y, D + X + Y;
    assert seen[k + r + 1..k + r + 5] == seen[k - 4..k];
    assert truth[k + p + 4] == 0 && truth[k + p - r - 1] == 1;
    if Genuine(truth, k + p + 1, r + 5, 4) { GenuineAt(truth, k + p + 1, r + 5, 4, k + p + 4); }
  }

  /** For example: attach a dictionary, compress 5000 bytes, save 1000 and go on behind them.  The
      dictionary is still attached, and taken to end where the 1000 bytes start. */
  lemma SaveThousandOfFive(dict: int, k: int, src: int, safeBuffer: int, n: int, size: nat)
    requires 0 < k <= MAXD && 0 <= dict && dict + k <= src && 0 <= n
    requires src + 5000 <= safeBuffer && safeBuffer + 1000 + n <= size
    ensures var w := Grow(Start(Window(0, 0, 0, 0, 0), src), 5000); var d := DictWindow(dict, k);
      var s := Saved(w, safeBuffer, 1000);
      && SavedSize(1000, w) == 1000 && InUse(s, safeBuffer + 1000, n) == s
      && Reached(s, d).lo == s.lo - k && Reached(s, d).dictBase + s.lo == dict + k
      && exists m, m1, hist ::
           |m| == size && SaveStep(m, m1, w, d, safeBuffer, 1000, hist) && !InPlace(m1, Reached(s, d), hist)
  {
    hide InPlace, SaveStep;
    SavedLoses(Grow(Start(Window(0, 0, 0, 0, 0), src), 5000), DictWindow(dict, k), safeBuffer, 1000, size);
  }
}
