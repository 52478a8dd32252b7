/** The decoder's view of memory: where input, output, prefix and external dictionary lie, what
    each of them must still hold, and why a copy that overshoots does no harm. */
module DecoderState {
  import opened Bytes
  import opened BlockFormat
  import opened BlockShape
  import opened MatchLength
  import opened DecoderCopies
  import opened Memory

  /** Addresses in one memory: the block [src, iend), the output [dst, oend), the prefix that
      starts at low, and the external dictionary of dictSize bytes that ends at dictEnd. */
  datatype Env = Env(src: int, iend: int, dst: int, oend: int, low: int, dictEnd: int, dictSize: int, ext: bool,
    partial: bool)

  /** The input is apart from the output, or (in place) stays ahead of it. */
  predicate InputApart(e: Env)
  {
    e.iend <= e.dst || e.oend <= e.src
  }

  /** The dictionary is apart from the output, or (ring buffer) its last 64 KB start far enough
      after the first output byte. */
  predicate DictFar(e: Env)
  {
    !e.ext || e.dictEnd <= e.dst || e.oend <= e.dictEnd - e.dictSize || e.low + OVERSHOOT <= e.dictEnd - DISTANCE_MAX
  }

  predicate EnvOk(e: Env, size: int)
  {
    && 0 <= e.src <= e.iend <= size && e.iend - e.src <= 0x7FFF_FFFF && 0 <= e.low <= e.dst <= e.oend <= size
    && 0 <= e.dictSize && (e.ext ==> 0 <= e.dictEnd - e.dictSize && e.dictEnd <= size) && (!e.ext ==> e.dictSize == 0)
    && DictFar(e)
  }

  /** The input from ip on is still what was given. */
  ghost predicate Intact(e: Env, input: seq<byte>, m: seq<byte>, ip: int)
  {
    && |input| == e.iend - e.src && 0 <= e.src <= ip <= e.iend <= |m|
    && m[ip..e.iend] == input[ip - e.src..]
  }

  /** Memory below op, back to the prefix start, is the end of the data decoded so far. */
  ghost predicate OutHolds(e: Env, m: seq<byte>, op: int, out: seq<byte>)
  {
    && 0 <= e.dictSize && 0 <= e.low <= op <= |m| && |out| == e.dictSize + (op - e.low)
    && m[e.low..op] == out[e.dictSize..]
  }

  /** How many dictionary bytes a match at op can still reach. */
  function Reach(e: Env, op: int): int
  {
    Max(0, Min(e.dictSize, DISTANCE_MAX - (op - e.low)))
  }

  /** That part of the dictionary is still intact. */
  ghost predicate DictHolds(e: Env, m: seq<byte>, op: int, out: seq<byte>)
  {
    && 0 <= e.dictSize <= |out| && (e.ext ==>
      0 <= e.dictEnd - e.dictSize && e.dictEnd <= |m|
      && m[e.dictEnd - Reach(e, op)..e.dictEnd] == out[e.dictSize - Reach(e, op)..e.dictSize])
  }

  // ---------- reading ----------

  lemma InputByte(e: Env, input: seq<byte>, m: seq<byte>, ip: int, k: int)
    requires Intact(e, input, m, ip) && ip <= k < e.iend
    ensures 0 <= k - e.src < |input| && 0 <= k < |m| && m[k] == input[k - e.src]
  {
    assert m[ip..e.iend][k - ip] == input[ip - e.src..][k - ip];
  }

  lemma InputSlice(e: Env, input: seq<byte>, m: seq<byte>, ip: int, n: int)
    requires Intact(e, input, m, ip) && 0 <= n && ip + n <= e.iend
    ensures 0 <= ip - e.src && ip - e.src + n <= |input| && ip + n <= |m|
      && m[ip..ip + n] == input[ip - e.src..ip - e.src + n]
  {
    SliceOfSlice(m, ip, e.iend, 0, n);
    SliceOfSlice(input, ip - e.src, |input|, 0, n);
    assert input[ip - e.src..] == input[ip - e.src..|input|];
  }

  lemma IntactLater(e: Env, input: seq<byte>, m: seq<byte>, ip: int, ip1: int)
    requires Intact(e, input, m, ip) && ip <= ip1 <= e.iend
    ensures Intact(e, input, m, ip1)
  {
    SliceOfSlice(m, ip, e.iend, ip1 - ip, e.iend - ip);
    SliceOfSlice(input, ip - e.src, |input|, ip1 - ip, e.iend - ip);
    assert input[ip - e.src..] == input[ip - e.src..|input|] && input[ip1 - e.src..] == input[ip1 - e.src..|input|];
  }

  // ---------- writing ----------

  /** Writes below the input position that counts, or apart from the input, leave it intact. */
  lemma IntactFrame(e: Env, input: seq<byte>, m: seq<byte>, m1: seq<byte>, a: int, b: int, ip: int)
    requires Intact(e, input, m, ip) && Agree(m, m1, a, b)
    requires b <= ip || (InputApart(e) && e.dst <= a && b <= e.oend)
    ensures Intact(e, input, m1, ip)
  {
    AgreeSlice(m, m1, a, b, ip, e.iend - ip);
  }

  /** New bytes directly after the output become output. */
  lemma OutGrows(e: Env, m: seq<byte>, m1: seq<byte>, b: int, op: int, out: seq<byte>, n: int)
    requires OutHolds(e, m, op, out) && Agree(m, m1, op, b) && 0 <= n && op + n <= |m| && 0 <= e.dictSize
    ensures |m1| == |m| && OutHolds(e, m1, op + n, out + m1[op..op + n])
  {
    AgreeSlice(m, m1, op, b, e.low, op - e.low);
    SliceJoin(m1, e.low, op, op + n);
    var o := out + m1[op..op + n];
    assert o[e.dictSize..] == out[e.dictSize..] + m1[op..op + n];
  }

  /** The part of the dictionary that later matches reach is beyond any overshoot. */
  lemma DictFrame(e: Env, m: seq<byte>, m1: seq<byte>, a: int, b: int, op: int, op1: int, out: seq<byte>,
      out1: seq<byte>)
    requires EnvOk(e, |m|) && DictHolds(e, m, op, out) && Agree(m, m1, a, b)
    requires e.dst <= a && b <= e.oend && e.low <= op <= op1 && b <= op1 + OVERSHOOT
    requires |out| <= |out1| && out1[..|out|] == out
    ensures DictHolds(e, m1, op1, out1)
  {
    var r, r1 := Reach(e, op), Reach(e, op1);
    if e.ext {
      SliceOfSlice(m, e.dictEnd - r, e.dictEnd, r - r1, r);
      SliceOfSlice(out, e.dictSize - r, e.dictSize, r - r1, r);
      if r1 > 0 { AgreeSlice(m, m1, a, b, e.dictEnd - r1, r1); }
      SliceOfSlice(out1, 0, |out|, e.dictSize - r1, e.dictSize);
      assert out1[..|out|] == out1[0..|out|];
    }
  }

  /** A match copied byte for byte from `off` back is what the reference copy regenerates. */
  lemma CopiedIsCopyMatch(out: seq<byte>, grown: seq<byte>, off: nat, n: nat)
    requires 1 <= off <= |out| && |grown| == |out| + n && grown[..|out|] == out && Genuine(grown, |out|, off, n)
    ensures grown == CopyMatch(out, off, n)
  {
    CopyMatchRegenerates(grown, |out|, off, n);
    assert grown[..|out| + n] == grown;
  }

  /** ... for a match inside the block. */
  lemma SameIsGenuine(e: Env, m: seq<byte>, op: int, n: int, off: int, out: seq<byte>, grown: seq<byte>)
    requires OutHolds(e, m, op + n, grown) && Same(m, op, op - off, n) && 0 <= n && e.low <= op - off && 1 <= off
    requires |grown| == |out| + n && 0 <= e.dictSize
    ensures Genuine(grown, |out|, off, n)
  {
    var p, q := op - e.low, op - off - e.low;
    SliceOfSlice(m, e.low, op + n, p, p + n);
    SliceOfSlice(m, e.low, op + n, q, q + n);
    SliceOfSlice(grown, e.dictSize, |grown|, p, p + n);
    SliceOfSlice(grown, e.dictSize, |grown|, q, q + n);
    assert grown[e.dictSize..] == grown[e.dictSize..|grown|];
  }
}
