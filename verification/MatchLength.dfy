/** LZ4_count and the backward and pattern counters of the HC match finder.  They compare in
    strides of 8, 4, 2 and 1 bytes; what they return is an exact common length. */
module MatchLength {
  import opened Bytes

  /** mem[a..a+n] and mem[b..b+n] hold the same bytes. */
  predicate Same(mem: seq<byte>, a: int, b: int, n: int)
  {
    0 <= n && 0 <= a && a + n <= |mem| && 0 <= b && b + n <= |mem| && mem[a..a + n] == mem[b..b + n]
  }

  lemma SameJoin(mem: seq<byte>, a: int, b: int, n: int, m: int)
    requires Same(mem, a, b, n) && Same(mem, a + n, b + n, m)
    ensures Same(mem, a, b, n + m)
  {
    SliceJoin(mem, a, a + n, a + n + m);
    SliceJoin(mem, b, b + n, b + n + m);
  }

  lemma SameSub(mem: seq<byte>, a: int, b: int, n: int, k: int, m: int)
    requires Same(mem, a, b, n) && 0 <= k && 0 <= m && k + m <= n
    ensures Same(mem, a + k, b + k, m)
  {
    SliceOfSlice(mem, a, a + n, k, k + m);
    SliceOfSlice(mem, b, b + n, k, k + m);
  }

  lemma SameAt(mem: seq<byte>, a: int, b: int, len: int, n: int)
    requires Same(mem, a, b, len) && 0 <= n
    ensures n < len ==> mem[a + n] == mem[b + n]
  {
    if n < len { assert mem[a..a + len][n] == mem[b..b + len][n]; }
  }

  lemma SameOne(mem: seq<byte>, a: int, b: int)
    requires 0 <= a < |mem| && 0 <= b < |mem| && mem[a] == mem[b]
    ensures Same(mem, a, b, 1)
  {
  }

  /** The length of the common prefix of mem[a..limit] and mem[b..]. */
  function CommonLength(mem: seq<byte>, a: int, b: int, limit: int): nat
    requires 0 <= a && limit <= |mem| && 0 <= b && b + (limit - a) <= |mem|
    decreases limit - a
  {
    if a < limit && mem[a] == mem[b] then 1 + CommonLength(mem, a + 1, b + 1, limit) else 0
  }

  lemma {:induction false} CommonLengthIsCommon(mem: seq<byte>, a: int, b: int, limit: int)
    requires 0 <= a <= |mem| && limit <= |mem| && 0 <= b <= |mem| && b + (limit - a) <= |mem|
    ensures var n := CommonLength(mem, a, b, limit);
      && Same(mem, a, b, n) && a + n <= Max(a, limit)
      && (a + n < limit ==> mem[a + n] != mem[b + n])
    decreases limit - a
  {
    if a < limit && mem[a] == mem[b] {
      CommonLengthIsCommon(mem, a + 1, b + 1, limit);
      SameOne(mem, a, b);
      SameJoin(mem, a, b, 1, CommonLength(mem, a + 1, b + 1, limit));
    }
  }

  /** A stride of `step` more bytes is equal exactly when the common length reaches that far. */
  lemma {:induction false} StrideTest(mem: seq<byte>, a: int, b: int, limit: int, n: int, step: nat)
    requires 0 <= a <= limit <= |mem| && 0 <= b && b + (limit - a) <= |mem|
    requires 0 <= n <= CommonLength(mem, a, b, limit)
    ensures a + n + step <= limit && Same(mem, a + n, b + n, step) <==> n + step <= CommonLength(mem, a, b, limit)
  {
    var len := CommonLength(mem, a, b, limit);
    CommonLengthIsCommon(mem, a, b, limit);
    if n + step <= len {
      SameSub(mem, a, b, len, n, step);
    } else if a + n + step <= limit && Same(mem, a + n, b + n, step) {
      SameAt(mem, a + n, b + n, step, len - n);
    }
  }

  /** The first position where two different words of 8 bytes differ. */
  method NbCommonBytes(mem: seq<byte>, a: int, b: int, ghost limit: int) returns (n: int)
    requires 0 <= a && a + 8 <= limit <= |mem| && 0 <= b && b + (limit - a) <= |mem| && !Same(mem, a, b, 8)
    ensures n == CommonLength(mem, a, b, limit) < 8
  {
    StrideTest(mem, a, b, limit, 0, 8);
    n := 0;
    while mem[a + n] == mem[b + n]
      invariant 0 <= n <= CommonLength(mem, a, b, limit) < 8
      decreases 8 - n
    {
      assert Same(mem, a + n, b + n, 1);
      StrideTest(mem, a, b, limit, n, 1);
      n := n + 1;
    }
    CommonLengthIsCommon(mem, a, b, limit);
    SameAt(mem, a, b, CommonLength(mem, a, b, limit), n);
  }

  lemma {:induction false} CommonLengthSkip(mem: seq<byte>, a: int, b: int, limit: int, n: int)
    requires 0 <= a <= limit <= |mem| && 0 <= b && b + (limit - a) <= |mem|
    requires 0 <= n <= CommonLength(mem, a, b, limit)
    ensures a + n <= limit && CommonLength(mem, a, b, limit) == n + CommonLength(mem, a + n, b + n, limit)
    decreases n
  {
    if n > 0 { CommonLengthSkip(mem, a + 1, b + 1, limit, n - 1); }
  }

  /** LZ4_count: words of 8 while they are equal, the differing word settled byte-wise, then a
      tail of 4, 2 and 1. */
  method Count(mem: seq<byte>, a: int, b: int, limit: int) returns (n: int)
    requires 0 <= a <= |mem| && limit <= |mem| && 0 <= b <= |mem| && b + (limit - a) <= |mem|
    ensures n == CommonLength(mem, a, b, limit)
  {
    n := 0;
    if a >= limit { return; }
    while a + n < limit - 7
      invariant 0 <= n <= CommonLength(mem, a, b, limit) && a + n <= limit
    {
      StrideTest(mem, a, b, limit, n, 8);
      CommonLengthSkip(mem, a, b, limit, n);
      if Same(mem, a + n, b + n, 8) {
        n := n + 8;
      } else {
        var k := NbCommonBytes(mem, a + n, b + n, limit);
        return n + k;
      }
    }
    CommonLengthIsCommon(mem, a, b, limit);
    n := Tail(mem, a, b, limit, n, 4);
    n := Tail(mem, a, b, limit, n, 2);
    n := Tail(mem, a, b, limit, n, 1);
  }

  method Tail(mem: seq<byte>, a: int, b: int, limit: int, n: int, step: int) returns (n1: int)
    requires 0 <= a <= limit <= |mem| && 0 <= b && b + (limit - a) <= |mem| && step > 0
    requires 0 <= n <= CommonLength(mem, a, b, limit) < n + 2 * step
    ensures n1 <= CommonLength(mem, a, b, limit) < n1 + step && 0 <= n1
  {
    n1 := n;
    CommonLengthIsCommon(mem, a, b, limit);
    StrideTest(mem, a, b, limit, n, step);
    if a + n <= limit - step && Same(mem, a + n, b + n, step) { n1 := n + step; }
  }

  /** LZ4HC_countBack: minus the number of common bytes just before a and b, down to amin and bmin. */
  method CountBack(mem: seq<byte>, a: int, b: int, amin: int, bmin: int) returns (back: int)
    requires 0 <= amin <= a <= |mem| && 0 <= bmin <= b <= |mem|
    ensures back <= 0 && amin <= a + back && bmin <= b + back
    ensures Same(mem, a + back, b + back, -back)
    ensures amin < a + back && bmin < b + back ==> mem[a + back - 1] != mem[b + back - 1]
  {
    back := 0;
    var min := Max(amin - a, bmin - b);
    while back > min && mem[a + back - 1] == mem[b + back - 1]
      invariant min <= back <= 0 && Same(mem, a + back, b + back, -back)
    {
      assert Same(mem, a + back - 1, b + back - 1, 1);
      SameJoin(mem, a + back - 1, b + back - 1, 1, -back);
      back := back - 1;
    }
  }

  /** Byte i of the pattern repeated without end in both directions. */
  function Phase(pattern: seq<byte>, i: int): byte
    requires |pattern| == 4
  {
    pattern[i % 4]
  }

  lemma PhaseStep(pattern: seq<byte>, i: int)
    requires |pattern| == 4
    ensures Phase(pattern, i) == Phase(pattern, i + 4)
  {
  }

  lemma {:induction false} PhasePeriod(pattern: seq<byte>, i: int, words: nat)
    requires |pattern| == 4
    ensures Phase(pattern, i) == Phase(pattern, i + 4 * words) == Phase(pattern, i - 4 * words)
    decreases words
  {
    if words > 0 {
      PhasePeriod(pattern, i, words - 1);
      PhaseStep(pattern, i + 4 * (words - 1));
      PhaseStep(pattern, i - 4 * words);
    }
  }

  /** mem repeats the pattern from a for n bytes. */
  ghost predicate Repeats(mem: seq<byte>, a: int, n: int, pattern: seq<byte>)
  {
    |pattern| == 4 && 0 <= n && 0 <= a && a + n <= |mem| && forall k :: a <= k < a + n ==>
      mem[k] == Phase(pattern, k - a)
  }

  lemma RepeatsWord(mem: seq<byte>, a: int, words: nat, pattern: seq<byte>)
    requires Repeats(mem, a, 4 * words, pattern) && a + 4 * words + 8 <= |mem|
    requires mem[a + 4 * words..a + 4 * words + 8] == pattern + pattern
    ensures Repeats(mem, a, 4 * words + 8, pattern)
  {
    var n := 4 * words;
    forall k | a + n <= k < a + n + 8 ensures mem[k] == Phase(pattern, k - a) {
      var j := k - a - n;
      assert mem[k] == mem[a + n..a + n + 8][j];
      PhasePeriod(pattern, j, words);
    }
  }

  /** LZ4HC_countPattern, for a pattern of period 1, 2 or 4. */
  method CountPattern(mem: seq<byte>, a: int, limit: int, pattern: seq<byte>) returns (n: int)
    requires |pattern| == 4 && 0 <= a <= |mem| && limit <= |mem|
    ensures 0 <= n && Repeats(mem, a, n, pattern) && a + n <= Max(a, limit)
    ensures a + n < limit ==> mem[a + n] != Phase(pattern, n)
  {
    hide Phase;
    n := 0;
    ghost var words: nat := 0;
    while a + n < limit - 7 && mem[a + n..a + n + 8] == pattern + pattern
      invariant n == 4 * words && Repeats(mem, a, n, pattern) && a + n <= Max(a, limit)
    {
      RepeatsWord(mem, a, words, pattern);
      n := n + 8;
      words := words + 2;
    }
    while a + n < limit && mem[a + n] == Phase(pattern, n)
      invariant Repeats(mem, a, n, pattern) && a + n <= Max(a, limit)
    {
      n := n + 1;
    }
  }

  /** The pattern, ending just before b, fills the n bytes below b. */
  ghost predicate RepeatsBack(mem: seq<byte>, b: int, n: int, pattern: seq<byte>)
  {
    |pattern| == 4 && 0 <= n <= b <= |mem| && forall k :: b - n <= k < b ==> mem[k] == Phase(pattern, k - b)
  }

  lemma RepeatsBackWord(mem: seq<byte>, b: int, words: nat, pattern: seq<byte>)
    requires RepeatsBack(mem, b, 4 * words, pattern) && 4 * words + 4 <= b
    requires mem[b - 4 * words - 4..b - 4 * words] == pattern
    ensures RepeatsBack(mem, b, 4 * words + 4, pattern)
  {
    var n := 4 * words + 4;
    forall k | b - n <= k < b - n + 4 ensures mem[k] == Phase(pattern, k - b) {
      var j := k - b + n;
      assert mem[k] == mem[b - n..b - n + 4][j];
      PhasePeriod(pattern, j, words + 1);
    }
  }

  /** LZ4HC_reverseCountPattern: words of 4 downwards, then single bytes. */
  method ReverseCountPattern(mem: seq<byte>, b: int, low: int, pattern: seq<byte>) returns (n: int)
    requires |pattern| == 4 && 0 <= low <= b <= |mem|
    ensures 0 <= n && RepeatsBack(mem, b, n, pattern) && low <= b - n
    ensures low < b - n ==> mem[b - n - 1] != Phase(pattern, -n - 1)
  {
    hide Phase;
    n := 0;
    ghost var words: nat := 0;
    while b - n >= low + 4 && mem[b - n - 4..b - n] == pattern
      invariant n == 4 * words && RepeatsBack(mem, b, n, pattern) && low <= b - n
    {
      RepeatsBackWord(mem, b, words, pattern);
      n := n + 4;
      words := words + 1;
    }
    while b - n > low && mem[b - n - 1] == Phase(pattern, -n - 1)
      invariant RepeatsBack(mem, b, n, pattern) && low <= b - n
    {
      n := n + 1;
    }
  }

  /** LZ4HC_rotatePattern on a little-endian word: byte k moves to byte k + rotate. */
  function RotatePattern(rotate: int, pattern: seq<byte>): (r: seq<byte>)
    requires |pattern| == 4
    ensures |r| == 4
    ensures pattern[0] == pattern[1] == pattern[2] == pattern[3] ==> r == pattern
  {
    var k := (-rotate) % 4;
    pattern[k..] + pattern[..k]
  }
}
