/** Copying a match in the block decoder: from the external dictionary, across its end into the
    prefix, or inside the prefix; whole, or cut at the end of the output. */
module DecoderMatches {
  import opened Bytes
  import opened BlockFormat
  import opened BlockShape
  import opened Block32
  import opened MatchLength
  import opened DecoderCopies
  import opened Memory
  import opened DecoderState

  lemma OutSizes(e: Env, m: seq<byte>, op: int, out: seq<byte>)
    requires OutHolds(e, m, op, out)
    ensures 0 <= e.dictSize && 0 <= e.low <= op <= |m| && |out| == e.dictSize + (op - e.low)
  {
  }

  lemma CopySize(out: seq<byte>, off: nat, n: nat)
    requires 1 <= off <= |out|
    ensures |CopyMatch(out, off, n)| == |out| + n && CopyMatch(out, off, n)[..|out|] == out
  {
    CopyMatchIsGenuine(out, off, n);
  }

  /** Copying n bytes and then k more at the same offset is one copy. */
  lemma {:induction false} CopyMatchSplit(out: seq<byte>, off: nat, n: nat, k: nat)
    requires 1 <= off <= |out|
    ensures CopyMatch(CopyMatch(out, off, n), off, k) == CopyMatch(out, off, n + k)
    decreases n
  {
    if n > 0 { CopyMatchSplit(out + [out[|out| - off]], off, n - 1, k); }
  }

  /** Memory that repeats itself at distance off holds what the reference copy appends. */
  lemma EchoIsCopyMatch(e: Env, m: seq<byte>, m1: seq<byte>, b: int, op: int, out: seq<byte>, off: int, n: int)
    requires OutHolds(e, m, op, out) && Agree(m, m1, op, b) && Same(m1, op, op - off, n)
    requires 1 <= off && e.low <= op - off && 0 <= n && op + n <= |m|
    ensures off <= |out| && OutHolds(e, m1, op + n, CopyMatch(out, off, n))
  {
    hide OutHolds, Agree, Same, Genuine, CopyMatch;
    OutSizes(e, m, op, out);
    OutGrows(e, m, m1, b, op, out, n);
    AgreeSize(m, m1, op, b);
    var grown := out + m1[op..op + n];
    SameIsGenuine(e, m1, op, n, off, out, grown);
    CopiedIsCopyMatch(out, grown, off, n);
  }

  lemma Copy32Is(out: seq<byte>, off: nat, n: nat)
    requires 1 <= off <= |out|
    ensures CopyMatch32(out, off, n) == CopyMatch(out, off, n)
  {
  }

  lemma ClearedBytes(m: seq<byte>, a: int, n: int)
    requires Cleared(m, a, n)
    ensures m[a..a + n] == Repeated(0, n)
  {
  }

  /** ... and cleared memory what it gives at offset 0. */
  lemma WithinIsCopy(e: Env, m: seq<byte>, m1: seq<byte>, b: int, op: int, out: seq<byte>, off: int, n: int)
    requires OutHolds(e, m, op, out) && Agree(m, m1, op, b) && Same(m1, op, op - off, n)
    requires 0 <= off && e.low <= op - off && 0 <= n && op + n <= |m| && (off == 0 ==> Cleared(m1, op, n))
    ensures off <= |out| && OutHolds(e, m1, op + n, CopyMatch32(out, off, n))
  {
    hide OutHolds, Agree, Same, CopyMatch, Cleared;
    OutSizes(e, m, op, out);
    if off > 0 {
      EchoIsCopyMatch(e, m, m1, b, op, out, off, n);
    } else {
      AgreeSize(m, m1, op, b);
      OutGrows(e, m, m1, b, op, out, n);
      ClearedBytes(m1, op, n);
    }
  }

  // ---------- from the external dictionary ----------

  lemma DictSlice(e: Env, m: seq<byte>, op: int, out: seq<byte>, c: int, n: int)
    requires DictHolds(e, m, op, out) && e.ext && 0 <= n <= c <= Reach(e, op)
    ensures 0 <= e.dictSize - c && e.dictSize <= |out| && 0 <= e.dictEnd - c && e.dictEnd <= |m|
    ensures m[e.dictEnd - c..e.dictEnd - c + n] == out[e.dictSize - c..e.dictSize - c + n]
  {
    var r := Reach(e, op);
    SliceOfSlice(m, e.dictEnd - r, e.dictEnd, r - c, r - c + n);
    SliceOfSlice(out, e.dictSize - r, e.dictSize, r - c, r - c + n);
  }

  lemma DictIsGenuine(out: seq<byte>, more: seq<byte>, off: int, n: int)
    requires 1 <= off <= |out| && 0 <= n <= off && |more| == n && more == out[|out| - off..|out| - off + n]
    ensures out + more == CopyMatch(out, off, n)
  {
    hide CopyMatch;
    var g := out + more;
    assert g[|out|..|out| + n] == more;
    assert g[|out| - off..|out| - off + n] == out[|out| - off..|out| - off + n];
    CopiedIsCopyMatch(out, g, off, n);
  }

  /** memmove(op, dictEnd - c, n): the match starts c bytes before the end of the dictionary. */
  method CopyFromDict(mem: array<byte>, e: Env, op: int, off: int, n: int, ghost m: seq<byte>, ghost out: seq<byte>)
    requires mem[..] == m && OutHolds(e, m, op, out) && DictHolds(e, m, op, out) && e.ext
    requires var c := off - (op - e.low); 0 <= n <= c <= Reach(e, op) && 0 < c
    requires op + n <= |m|
    modifies mem
    ensures Agree(m, mem[..], op, op + n)
    ensures 1 <= off <= |out| && OutHolds(e, mem[..], op + n, CopyMatch(out, off, n))
  {
    hide OutHolds, DictHolds, Agree, Reach, CopyMatch;
    ghost var c := off - (op - e.low);
    OutSizes(e, m, op, out);
    DictSlice(e, m, op, out, c, n);
    MemMove(mem, op, e.dictEnd - (off - (op - e.low)), n, m);
    OutGrows(e, m, mem[..], op + n, op, out, n);
    DictIsGenuine(out, mem[..][op..op + n], off, n);
  }

  /** A match that starts in the external dictionary; it may stretch into the prefix. */
  method CopyExternal(mem: array<byte>, e: Env, op: int, off: int, n: int, ghost m: seq<byte>, ghost out: seq<byte>)
    requires mem[..] == m && OutHolds(e, m, op, out) && DictHolds(e, m, op, out) && e.ext
    requires 0 < off - (op - e.low) <= Reach(e, op) && 0 <= n && op + n <= |m|
    modifies mem
    ensures Agree(m, mem[..], op, op + n)
    ensures 1 <= off <= |out| && OutHolds(e, mem[..], op + n, CopyMatch(out, off, n))
  {
    hide OutHolds, DictHolds, Agree, Reach, CopyMatch, Same;
    var copySize := off - (op - e.low);
    OutSizes(e, m, op, out);
    if n <= copySize {
      CopyFromDict(mem, e, op, off, n, m, out);
    } else {
      CopyFromDict(mem, e, op, off, copySize, m, out);
      ghost var m1 := mem[..];
      AgreeSize(m, m1, op, op + copySize);
      var op1, restSize := op + copySize, n - copySize;
      EchoExact(mem, op1, op1 - e.low, restSize, m1);
      CopySize(out, off, copySize);
      EchoIsCopyMatch(e, m1, mem[..], op1 + restSize, op1, CopyMatch(out, off, copySize), off, restSize);
      CopyMatchSplit(out, off, copySize, restSize);
      AgreeTrans(m, m1, mem[..], op, op1, op1, op1 + restSize, op, op + n);
    }
  }
}
