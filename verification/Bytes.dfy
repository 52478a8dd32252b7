/** Bytes, options and little-endian fields shared by every LZ4 component. */
module Bytes {

  type byte = x: int | 0 <= x < 256

  datatype Option<+T> = None | Some(value: T)

  const KB64: nat := 65536

  function Min(a: int, b: int): int { if a <= b then a else b }

  function Max(a: int, b: int): int { if a >= b then a else b }

  function LE16(lo: int, hi: int): int { lo + 0x100 * hi }

  function LE32(a: int, b: int, c: int, d: int): int { a + 0x100 * b + 0x1_0000 * c + 0x100_0000 * d }

  function Repeated(b: byte, n: nat): (r: seq<byte>)
    ensures |r| == n
  {
    seq(n, _ => b)
  }

  lemma SliceOfSlice<T>(x: seq<T>, a: int, b: int, c: int, d: int)
    requires 0 <= a <= b <= |x| && 0 <= c <= d <= b - a
    ensures x[a..b][c..d] == x[a + c..a + d]
  {
    var l, r := x[a..b][c..d], x[a + c..a + d];
    assert |l| == |r|;
    forall k | 0 <= k < |l| ensures l[k] == r[k] {
      assert l[k] == x[a..b][c + k] == x[a + c + k];
    }
  }

  /** x holds e at position i. */
  ghost predicate At<T>(x: seq<T>, i: int, e: seq<T>)
  {
    0 <= i && i + |e| <= |x| && x[i..i + |e|] == e
  }

  lemma AtParts<T>(x: seq<T>, i: int, a: seq<T>, b: seq<T>)
    requires At(x, i, a + b)
    ensures At(x, i, a) && At(x, i + |a|, b)
  {
    SliceOfSlice(x, i, i + |a| + |b|, 0, |a|);
    SliceOfSlice(x, i, i + |a| + |b|, |a|, |a| + |b|);
    assert (a + b)[0..|a|] == a && (a + b)[|a|..|a| + |b|] == b;
  }

  lemma AtIndex<T>(x: seq<T>, i: int, e: seq<T>, k: int)
    requires At(x, i, e) && 0 <= k < |e|
    ensures 0 <= i + k < |x| && x[i + k] == e[k]
  {
    assert x[i..i + |e|][k] == e[k];
  }

  lemma Concat3<T>(a: seq<T>, b: seq<T>, c: seq<T>)
    ensures a + b + c == a + (b + c)
  {
  }

  lemma SliceJoin<T>(x: seq<T>, i: int, j: int, k: int)
    requires 0 <= i <= j <= k <= |x|
    ensures x[i..j] + x[j..k] == x[i..k]
  {
  }

  /** a and b end with the same w bytes. */
  ghost predicate SameTail(a: seq<byte>, b: seq<byte>, w: int)
  {
    0 <= w <= |a| && w <= |b| && a[|a| - w..] == b[|b| - w..]
  }

  lemma SameTailLess(a: seq<byte>, b: seq<byte>, w: int, i: int)
    requires SameTail(a, b, w) && 0 <= i <= w
    ensures SameTail(a, b, i)
  {
    assert a[|a| - i..] == a[|a| - w..][w - i..];
    assert b[|b| - i..] == b[|b| - w..][w - i..];
  }

  lemma SameTailTrans(a: seq<byte>, b: seq<byte>, c: seq<byte>, w: int)
    requires SameTail(a, b, w) && SameTail(b, c, w)
    ensures SameTail(a, c, w)
  {
  }

  lemma SameTailDrop(a: seq<byte>, pre: seq<byte>, b: seq<byte>, w: int)
    requires SameTail(a, pre + b, w) && w <= |b|
    ensures SameTail(a, b, w)
  {
    assert (pre + b)[|pre + b| - w..] == b[|b| - w..];
  }

  lemma SameTailGrows(a: seq<byte>, b: seq<byte>, w: int, more: seq<byte>)
    requires SameTail(a, b, w)
    ensures SameTail(a + more, b + more, w + |more|)
  {
    assert (a + more)[|a + more| - (w + |more|)..] == a[|a| - w..] + more;
    assert (b + more)[|b + more| - (w + |more|)..] == b[|b| - w..] + more;
  }

  lemma SameTailSize(a: seq<byte>, b: seq<byte>, w: int)
    requires SameTail(a, b, w)
    ensures w <= |b|
  {
  }

  /** The last k bytes. */
  function Suffix(s: seq<byte>, k: int): seq<byte>
    requires 0 <= k <= |s|
  {
    s[|s| - k..]
  }
}
