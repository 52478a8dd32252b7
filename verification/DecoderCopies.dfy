/** The copies of the block decoder, on one memory in which input, output and dictionary may lie
    anywhere: memcpy and memmove, strides of 8 that run past the end, and the two small tables
    that turn a match offset below 8 into an equivalent one of at least 8. */
module DecoderCopies {
  import opened Bytes
  import opened MatchLength
  import opened Memory

  lemma SameFrame(m: seq<byte>, m1: seq<byte>, lo: int, hi: int, a: int, b: int, n: int)
    requires Agree(m, m1, lo, hi) && Same(m, a, b, n)
    requires (a + n <= lo || hi <= a) && (b + n <= lo || hi <= b)
    ensures Same(m1, a, b, n)
  {
    AgreeSlice(m, m1, lo, hi, a, n);
    AgreeSlice(m, m1, lo, hi, b, n);
  }

  /** What a do-while copy of strides of 8 covers. */
  function RoundUp8(n: int): (r: int)
    ensures n <= r && 8 <= r && (0 < n ==> r <= n + 7) && (n <= 0 ==> r == 8)
  {
    if n <= 8 then 8 else n + (-n) % 8
  }

  lemma RoundUp8Next(n: int)
    ensures RoundUp8(n) == if 8 < n then 8 + RoundUp8(n - 8) else 8
  {
  }

  /** A copy whose source is not written repeats it in the final memory. */
  lemma CopiedSame(m: seq<byte>, m1: seq<byte>, d: int, s: int, n: int)
    requires 0 <= n && 0 <= s && s + n <= d && d + n <= |m|
    requires Agree(m, m1, d, d + n) && m1[d..d + n] == m[s..s + n]
    ensures Same(m1, d, s, n)
  {
    AgreeSlice(m, m1, d, d + n, s, n);
  }

  /** m1 is m with [d, d+c) written so that each byte equals the one dist before it. */
  ghost predicate Echoed(m: seq<byte>, m1: seq<byte>, d: int, dist: int, c: int)
  {
    Agree(m, m1, d, d + c) && Same(m1, d, d - dist, c)
  }

  lemma EchoOn(m: seq<byte>, m1: seq<byte>, m2: seq<byte>, d: int, dist: int, c: int, n: int)
    requires Echoed(m, m1, d, dist, c) && 0 <= c && 0 <= n <= dist <= d && d + c + n <= |m|
    requires Agree(m1, m2, d + c, d + c + n) && m2[d + c..d + c + n] == m1[d + c - dist..d + c - dist + n]
    ensures Echoed(m, m2, d, dist, c + n)
  {
    hide Same, Agree;
    AgreeSize(m, m1, d, d + c);
    CopiedSame(m1, m2, d + c, d + c - dist, n);
    SameFrame(m1, m2, d + c, d + c + n, d, d - dist, c);
    SameJoin(m2, d, d - dist, c, n);
    AgreeTrans(m, m1, m2, d, d + c, d + c, d + c + n, d, d + c + n);
  }

  /** One more memcpy of n bytes at the same distance. */
  method EchoStep(mem: array<byte>, d: int, dist: int, c: int, n: int, ghost m: seq<byte>)
    requires Echoed(m, mem[..], d, dist, c) && 0 <= c && 0 <= n <= dist <= d && d + c + n <= |m|
    modifies mem
    ensures Echoed(m, mem[..], d, dist, c + n)
  {
    hide Same, Agree;
    ghost var m1 := mem[..];
    AgreeSize(m, m1, d, d + c);
    MemMove(mem, d + c, d + c - dist, n, m1);
    EchoOn(m, m1, mem[..], d, dist, c, n);
  }

  lemma EchoedParts(m: seq<byte>, m1: seq<byte>, d: int, dist: int, c: int)
    requires Echoed(m, m1, d, dist, c)
    ensures |m1| == |m| && Agree(m, m1, d, d + c) && Same(m1, d, d - dist, c)
  {
  }

  lemma EchoedNothing(m: seq<byte>, d: int, dist: int)
    requires 0 <= dist <= d <= |m|
    ensures Echoed(m, m, d, dist, 0)
  {
  }

  /** Afterwards each byte of [d, d+n) equals the one dist before it. */
  method WildEcho(mem: array<byte>, d: int, dist: int, n: int, ghost m: seq<byte>)
    requires mem[..] == m && 8 <= dist <= d && d + RoundUp8(n) <= |m|
    modifies mem
    ensures Echoed(m, mem[..], d, dist, RoundUp8(n))
  {
    hide Echoed, RoundUp8;
    EchoedNothing(m, d, dist);
    EchoStep(mem, d, dist, 0, 8, m);
    var c := 8;
    RoundUp8Next(n);
    while c < n
      invariant 8 <= c && c + (if c < n then RoundUp8(n - c) else 0) == RoundUp8(n)
      invariant Echoed(m, mem[..], d, dist, c)
    {
      EchoStep(mem, d, dist, c, 8, m);
      RoundUp8Next(n - c);
      c := c + 8;
    }
  }

  /** m1 is m with [d, d+c) a copy of what m holds at s. */
  ghost predicate Copied(m: seq<byte>, m1: seq<byte>, d: int, s: int, c: int)
  {
    && Agree(m, m1, d, d + c) && 0 <= c && 0 <= d && d + c <= |m| && 0 <= s && s + c <= |m|
    && m1[d..d + c] == m[s..s + c]
  }

  lemma CopiedStep(m: seq<byte>, m1: seq<byte>, m2: seq<byte>, d: int, s: int, c: int)
    requires Copied(m, m1, d, s, c) && d + c + 8 <= |m| && s + c + 8 <= |m|
    requires d + 8 <= s || s + c + 8 <= d
    requires Agree(m1, m2, d + c, d + c + 8) && m2[d + c..d + c + 8] == m1[s + c..s + c + 8]
    ensures Copied(m, m2, d, s, c + 8)
  {
    hide Agree;
    AgreeSize(m, m1, d, d + c);
    AgreeSize(m1, m2, d + c, d + c + 8);
    AgreeSlice(m, m1, d, d + c, s + c, 8);
    AgreeSlice(m1, m2, d + c, d + c + 8, d, c);
    SliceJoin(m2, d, d + c, d + c + 8);
    SliceJoin(m, s, s + c, s + c + 8);
    AgreeTrans(m, m1, m2, d, d + c, d + c, d + c + 8, d, d + c + 8);
  }

  method CopyStride(mem: array<byte>, d: int, s: int, c: int, ghost m: seq<byte>)
    requires Copied(m, mem[..], d, s, c) && d + c + 8 <= |m| && s + c + 8 <= |m|
    requires d + 8 <= s || s + c + 8 <= d
    modifies mem
    ensures Copied(m, mem[..], d, s, c + 8)
  {
    hide Agree;
    ghost var m1 := mem[..];
    AgreeSize(m, m1, d, d + c);
    MemMove(mem, d + c, s + c, 8, m1);
    CopiedStep(m, m1, mem[..], d, s, c);
  }

  lemma CopiedNothing(m: seq<byte>, d: int, s: int)
    requires 0 <= d <= |m| && 0 <= s <= |m|
    ensures Copied(m, m, d, s, 0)
  {
  }

  lemma CopiedLess(m: seq<byte>, m1: seq<byte>, d: int, s: int, c: int, n: int)
    requires Copied(m, m1, d, s, c) && 0 <= n <= c
    ensures |m1| == |m| && m1[d..d + n] == m[s..s + n]
  {
    SliceOfSlice(m1, d, d + c, 0, n);
    SliceOfSlice(m, s, s + c, 0, n);
  }

  /** LZ4_wildCopy8 of literals: source ahead of the destination by at least 8, or apart from it. */
  method WildCopy(mem: array<byte>, d: int, s: int, n: int, ghost m: seq<byte>)
    requires mem[..] == m && 0 <= n && 0 <= d && d + RoundUp8(n) <= |m| && 0 <= s && s + RoundUp8(n) <= |m|
    requires d + 8 <= s || s + RoundUp8(n) <= d
    modifies mem
    ensures Agree(m, mem[..], d, d + RoundUp8(n)) && mem[..][d..d + n] == m[s..s + n]
  {
    hide Copied, RoundUp8;
    CopiedNothing(m, d, s);
    CopyStride(mem, d, s, 0, m);
    var c := 8;
    RoundUp8Next(n);
    while c < n
      invariant 8 <= c && c + (if c < n then RoundUp8(n - c) else 0) == RoundUp8(n)
      invariant Copied(m, mem[..], d, s, c)
    {
      CopyStride(mem, d, s, c, m);
      RoundUp8Next(n - c);
      c := c + 8;
    }
    CopiedLess(m, mem[..], d, s, c, n);
    CopiedAgree(m, mem[..], d, s, c);
  }

  lemma CopiedAgree(m: seq<byte>, m1: seq<byte>, d: int, s: int, c: int)
    requires Copied(m, m1, d, s, c)
    ensures Agree(m, m1, d, d + c)
  {
  }

  // ---------- offsets below 8 ----------

  /** r is a multiple of off. */
  predicate Multiple(off: int, r: int)
    decreases r
  {
    0 < off && (r == 0 || (off <= r && Multiple(off, r - off)))
  }

  /** [op, op+a) repeats at distance off, what follows at distance dist, a multiple of off that
      stays inside the first period. */
  ghost predicate TwoPeriods(m: seq<byte>, op: int, off: int, a: int, dist: int, n: int)
  {
    && 0 < off <= op && 0 <= a && 0 <= n && op + a + n <= |m|
    && off <= dist <= off + a && Multiple(off, dist)
    && Same(m, op, op - off, a) && Same(m, op + a, op + a - dist, n)
  }

  lemma {:induction false} PeriodAt(m: seq<byte>, op: int, off: int, a: int, dist: int, n: int, k: int)
    requires TwoPeriods(m, op, off, a, dist, n) && op <= k < op + a + n
    ensures m[k] == m[k - off]
    decreases k, 0
  {
    if k < op + a {
      SameAt(m, op, op - off, a, k - op);
    } else {
      SameAt(m, op + a, op + a - dist, n, k - op - a);
      PeriodDown(m, op, off, a, dist, n, k - off, dist - off);
    }
  }

  lemma {:induction false} PeriodDown(m: seq<byte>, op: int, off: int, a: int, dist: int, n: int, k: int, r: int)
    requires TwoPeriods(m, op, off, a, dist, n) && 0 <= r && k < op + a + n
    requires Multiple(off, r) && op - off <= k - r && (r > 0 ==> op <= k - r + off)
    ensures m[k] == m[k - r]
    decreases k, 1
  {
    if r > 0 {
      PeriodAt(m, op, off, a, dist, n, k);
      PeriodDown(m, op, off, a, dist, n, k - off, r - off);
    }
  }

  /** The longer distance gives the same bytes as the offset itself. */
  lemma PeriodExtend(m: seq<byte>, op: int, off: int, a: int, dist: int, n: int)
    requires TwoPeriods(m, op, off, a, dist, n)
    ensures Same(m, op, op - off, a + n)
  {
    hide Multiple, Same;
    assert a + n >= 0 && op - off >= 0 && op + a + n <= |m|;
    forall k | op <= k < op + a + n ensures m[k] == m[k - off] {
      PeriodAt(m, op, off, a, dist, n, k);
    }
    SameIfPointwise(m, op, off, a + n);
  }

  lemma SameIfPointwise(m: seq<byte>, op: int, off: int, n: int)
    requires 0 <= n && 0 < off <= op && op + n <= |m| && forall k :: op <= k < op + n ==> m[k] == m[k - off]
    ensures Same(m, op, op - off, n)
  {
    var l, r := m[op..op + n], m[op - off..op - off + n];
    assert |l| == |r|;
    forall j | 0 <= j < n ensures l[j] == r[j] {
      assert l[j] == m[op + j] && r[j] == m[op + j - off];
    }
  }

  function Inc32(off: int): int
  {
    match off case 1 => 1 case 2 => 2 case 3 => 1 case 5 => 4 case 6 => 4 case 7 => 4 case _ => 0
  }

  function Dec64(off: int): int
  {
    match off case 3 => -1 case 4 => -4 case 5 => 1 case 6 => 2 case 7 => 3 case _ => 0
  }

  /** inc32table and dec64table: both distances become multiples of the offset, the second at
      least 8, and never reach back beyond one period before the output. */
  lemma TablesGiveMultiples(off: int)
    requires 1 <= off < 8
    ensures var d4, d8 := off + 4 - Inc32(off), off + 8 - Inc32(off) + Dec64(off);
      && Multiple(off, d4) && 4 <= d4 && off <= d4 <= off + 4
      && Multiple(off, d8) && 8 <= d8 && off <= d8 <= off + 8
  {
    assert Multiple(off, off);
    if off == 1 { assert Multiple(1, 2); assert Multiple(1, 3); assert Multiple(1, 4); assert Multiple(1, 6); }
  }

  /** while (op < cpy) *op++ = *match++ */
  method EchoBytes(mem: array<byte>, d: int, dist: int, n: int, ghost m: seq<byte>)
    requires mem[..] == m && 1 <= dist <= d && d + n <= |m| && 0 <= n
    modifies mem
    ensures Echoed(m, mem[..], d, dist, n)
  {
    hide Echoed;
    EchoedNothing(m, d, dist);
    var c := 0;
    while c < n
      invariant 0 <= c <= n && Echoed(m, mem[..], d, dist, c)
    {
      EchoStep(mem, d, dist, c, 1, m);
      c := c + 1;
    }
  }

  /** A copy of exactly n bytes: byte by byte when it overlaps its own output, one memcpy otherwise. */
  method EchoExact(mem: array<byte>, d: int, dist: int, n: int, ghost m: seq<byte>)
    requires mem[..] == m && 1 <= dist <= d && d + n <= |m| && 0 <= n
    modifies mem
    ensures Agree(m, mem[..], d, d + n) && Same(mem[..], d, d - dist, n)
  {
    hide Echoed, Same, Agree;
    if n > dist {
      EchoBytes(mem, d, dist, n, m);
    } else {
      EchoedNothing(m, d, dist);
      EchoStep(mem, d, dist, 0, n, m);
    }
    EchoedParts(m, mem[..], d, dist, n);
  }

  /** [a, a+n) holds bytes 0. */
  ghost predicate Cleared(m: seq<byte>, a: int, n: int)
  {
    0 <= n && 0 <= a && a + n <= |m| && forall k :: a <= k < a + n ==> m[k] == 0
  }

  /** LZ4_write32(op, 0) */
  method Clear4(mem: array<byte>, op: int, ghost m: seq<byte>)
    requires mem[..] == m && 0 <= op && op + 4 <= |m|
    modifies mem
    ensures Agree(m, mem[..], op, op + 4) && Cleared(mem[..], op, 4)
  {
    mem[op], mem[op + 1], mem[op + 2], mem[op + 3] := 0, 0, 0, 0;
  }

  /** The first 4 bytes of a match whose offset is below 8, each copied after the one before it;
      at offset 0 each is copied onto itself and stays cleared. */
  method EchoFour(mem: array<byte>, op: int, off: int, ghost m: seq<byte>)
    requires mem[..] == m && 0 <= off <= op && op + 8 <= |m|
    modifies mem
    ensures Echoed(m, mem[..], op, off, 4) && (off == 0 ==> Cleared(mem[..], op, 4))
  {
    hide Agree, Same, Cleared;
    Clear4(mem, op, m);
    ghost var m0 := mem[..];
    AgreeSize(m, m0, op, op + 4);
    if off > 0 {
      EchoBytes(mem, op, off, 4, m0);
      AgreeTrans(m, m0, mem[..], op, op + 4, op, op + 4, op, op + 4);
    } else {
      SelfSame(m0, op, 4);
    }
  }

  lemma SelfSame(m: seq<byte>, a: int, n: int)
    requires 0 <= a && 0 <= n && a + n <= |m|
    ensures Same(m, a, a, n)
  {
  }

  /** The first 8 bytes of a match whose offset is below 8. */
  method EchoSmall(mem: array<byte>, op: int, off: int, ghost m: seq<byte>)
    requires mem[..] == m && 0 <= off < 8 && off <= op && op + 8 <= |m|
    modifies mem
    ensures Echoed(m, mem[..], op, off, 8) && (off == 0 ==> Cleared(mem[..], op, 8))
  {
    hide Agree, Inc32, Same, Cleared;
    EchoFour(mem, op, off, m);
    ghost var m1 := mem[..];
    AgreeSize(m, m1, op, op + 4);
    var d4 := off + 4 - Inc32(off);
    FourBack(off);
    MemMove(mem, op + 4, op + 4 - d4, 4, m1);
    CopiedSame(m1, mem[..], op + 4, op + 4 - d4, 4);
    SameFrame(m1, mem[..], op + 4, op + 8, op, op - off, 4);
    AgreeTrans(m, m1, mem[..], op, op + 4, op + 4, op + 8, op, op + 8);
    AgreeSize(m1, mem[..], op + 4, op + 8);
    if off > 0 {
      TablesGiveMultiples(off);
      PeriodExtend(mem[..], op, off, 4, d4, 4);
    } else {
      SelfSame(mem[..], op, 8);
      ClearedFrame(m1, mem[..], op + 4, op + 8, op, 4);
      ClearedEcho(mem[..], op, 4, 4);
    }
  }

  lemma FourBack(off: int)
    requires 0 <= off < 8
    ensures 4 <= off + 4 - Inc32(off) <= off + 4 && (off == 0 ==> Inc32(off) == 0)
  {
    if off > 0 { TablesGiveMultiples(off); }
  }

  lemma ClearedFrame(m: seq<byte>, m1: seq<byte>, lo: int, hi: int, a: int, n: int)
    requires Agree(m, m1, lo, hi) && Cleared(m, a, n) && a + n <= lo
    ensures Cleared(m1, a, n)
  {
  }

  /** Cleared bytes repeated are cleared bytes. */
  lemma {:induction false} ClearedEcho(m: seq<byte>, a: int, c: int, n: int)
    requires Cleared(m, a, c) && 0 < c && Same(m, a + c, a, n)
    ensures Cleared(m, a, c + n)
    decreases n
  {
    if n > 0 {
      SameSub(m, a + c, a, n, 0, n - 1);
      ClearedEcho(m, a, c, n - 1);
      SameAt(m, a + c, a, n, n - 1);
      assert m[a + c + (n - 1)] == m[a + (n - 1)];
    }
  }

  // ---------- a match inside the block ----------

  /** Going on where a first copy at the same distance stopped. */
  lemma EchoExtend(m: seq<byte>, m1: seq<byte>, m2: seq<byte>, d: int, dist: int, k: int, n: int, hi: int)
    requires Agree(m, m1, d, hi) && Same(m1, d, d - dist, k) && 0 < dist && d + k + n <= hi
    requires Echoed(m1, m2, d + k, dist, n)
    ensures Agree(m, m2, d, hi) && Same(m2, d, d - dist, k + n)
  {
    hide Same, Agree;
    SameNonNegative(m1, d, d - dist, k);
    SameFrame(m1, m2, d + k, d + k + n, d, d - dist, k);
    SameJoin(m2, d, d - dist, k, n);
    AgreeTrans(m, m1, m2, d, hi, d + k, d + k + n, d, hi);
  }

  lemma SameNonNegative(m: seq<byte>, a: int, b: int, n: int)
    requires Same(m, a, b, n)
    ensures 0 <= n
  {
  }

  /** Near the output end: strides up to oCopyLimit, whole strides may reach oend. */
  method EchoStrides(mem: array<byte>, d: int, dist: int, oend: int, ghost m: seq<byte>) returns (op: int)
    requires mem[..] == m && 8 <= dist <= d && d <= oend <= |m|
    modifies mem
    ensures op == Max(d, oend - 7) && Agree(m, mem[..], d, oend) && Same(mem[..], d, d - dist, op - d)
  {
    hide Same, Agree, Echoed, RoundUp8;
    op := d;
    if op < oend - 7 {
      WildEcho(mem, d, dist, oend - 7 - d, m);
      EchoedParts(m, mem[..], d, dist, RoundUp8(oend - 7 - d));
      SameSub(mem[..], d, d - dist, RoundUp8(oend - 7 - d), 0, oend - 7 - d);
      AgreeWider(m, mem[..], d, d + RoundUp8(oend - 7 - d), d, oend);
      op := oend - 7;
    } else {
      EchoedNothing(m, d, dist);
      EchoedParts(m, m, d, dist, 0);
      AgreeWider(m, m, d, d, d, oend);
    }
  }

  /** ... and single bytes from there. */
  method EchoNearEnd(mem: array<byte>, d: int, dist: int, cpy: int, oend: int, ghost m: seq<byte>)
    requires mem[..] == m && 8 <= dist <= d && cpy <= oend <= |m| && d <= oend
    modifies mem
    ensures Agree(m, mem[..], d, oend) && Same(mem[..], d, d - dist, Max(cpy - d, 0))
  {
    hide Same, Agree, Echoed;
    var op := EchoStrides(mem, d, dist, oend, m);
    ghost var m1 := mem[..];
    AgreeSize(m, m1, d, oend);
    if op < cpy {
      EchoBytes(mem, op, dist, cpy - op, m1);
      EchoExtend(m, m1, mem[..], d, dist, op - d, cpy - op, oend);
    } else {
      SameSub(m1, d, d - dist, op - d, 0, Max(cpy - d, 0));
    }
  }

  /** Away from the end: 8 bytes at once, strides of 8 for a match longer than 16. */
  method EchoFar(mem: array<byte>, d: int, dist: int, cpy: int, ghost m: seq<byte>)
    requires mem[..] == m && 8 <= dist <= d && d - 4 <= cpy && cpy + 12 <= |m|
    modifies mem
    ensures Agree(m, mem[..], d, cpy + 12) && Same(mem[..], d, d - dist, Max(cpy - d, 0))
  {
    hide Same, Agree, Echoed, RoundUp8;
    RoundUp8Next(8);
    WildEcho(mem, d, dist, 8, m);
    EchoedParts(m, mem[..], d, dist, 8);
    AgreeWider(m, mem[..], d, d + 8, d, cpy + 12);
    if cpy > d + 8 {
      ghost var m1 := mem[..];
      WildEcho(mem, d + 8, dist, cpy - d - 8, m1);
      ghost var r := RoundUp8(cpy - d - 8);
      EchoExtend(m, m1, mem[..], d, dist, 8, r, cpy + 12);
      SameSub(mem[..], d, d - dist, 8 + r, 0, cpy - d);
    } else {
      SameSub(mem[..], d, d - dist, 8, 0, Max(cpy - d, 0));
    }
  }

  /** The first 8 bytes of a match, and the distance at which the rest of it repeats. */
  method EchoFirst(mem: array<byte>, op: int, off: int, ghost m: seq<byte>) returns (dist: int)
    requires mem[..] == m && 0 <= off <= op && op + 8 <= |m|
    modifies mem
    ensures Echoed(m, mem[..], op, off, 8) && Spread(mem[..], op, off, dist)
  {
    hide Same, Agree, Echoed, Inc32, Dec64, Multiple, RoundUp8, Cleared;
    RoundUp8Next(8);
    if off < 8 {
      EchoSmall(mem, op, off, m);
      if off > 0 { TablesGiveMultiples(off); } else { NoOffset(); }
      return off + 8 - Inc32(off) + Dec64(off);
    }
    WildEcho(mem, op, off, 8, m);
    SelfMultiple(off);
    return off;
  }

  lemma NoOffset()
    ensures Inc32(0) == 0 && Dec64(0) == 0
  {
  }

  /** After the first 8 bytes: at distance dist a match at offset off goes on. */
  ghost predicate Spread(m: seq<byte>, op: int, off: int, dist: int)
  {
    8 <= dist <= op + 8 && if off == 0 then dist == 8 && Cleared(m, op, 8)
      else off <= dist <= off + 8 && Multiple(off, dist)
  }

  lemma SpreadFrame(m: seq<byte>, m1: seq<byte>, op: int, off: int, dist: int, hi: int)
    requires Spread(m, op, off, dist) && Agree(m, m1, op + 8, hi)
    ensures Spread(m1, op, off, dist)
  {
    hide Multiple;
  }

  /** Copy a match of the block itself.  It fails exactly when fewer than LASTLITERALS bytes of
      output are left after it.  An offset of 0 gives bytes 0. */
  method CopyWithin(mem: array<byte>, op: int, off: int, ml: int, oend: int, ghost m: seq<byte>) returns (ok: bool)
    requires mem[..] == m && 0 <= off <= op && 4 <= ml && op + 12 <= oend <= |m|
    modifies mem
    ensures ok == (op + ml + 5 <= oend)
    ensures Agree(m, mem[..], op, oend)
    ensures ok ==> Agree(m, mem[..], op, Min(oend, op + ml + 12)) && Same(mem[..], op, op - off, ml)
    ensures ok && off == 0 ==> Cleared(mem[..], op, ml)
  {
    hide Same, Agree, Echoed, RoundUp8, Spread, Cleared;
    var cpy := op + ml;
    var dist := EchoFirst(mem, op, off, m);
    ghost var m1 := mem[..];
    SpreadBounds(m1, op, off, dist);
    EchoedParts(m, m1, op, off, 8);
    AgreeWider(m, m1, op, op + 8, op, oend);
    AgreeWider(m, m1, op, op + 8, op, Min(oend, cpy + 12));
    if cpy > oend - 12 {
      if cpy > oend - 5 { return false; }
      EchoNearEnd(mem, op + 8, dist, cpy, oend, m1);
      AgreeTrans(m, m1, mem[..], op, op + 8, op + 8, oend, op, oend);
      SameFrame(m1, mem[..], op + 8, oend, op, op - off, 8);
      SpreadFrame(m1, mem[..], op, off, dist, oend);
    } else {
      EchoFar(mem, op + 8, dist, cpy, m1);
      AgreeTrans(m, m1, mem[..], op, op + 8, op + 8, cpy + 12, op, Min(oend, cpy + 12));
      AgreeWider(m, mem[..], op, Min(oend, cpy + 12), op, oend);
      SameFrame(m1, mem[..], op + 8, cpy + 12, op, op - off, 8);
      SpreadFrame(m1, mem[..], op, off, dist, cpy + 12);
    }
    AgreeSize(m, mem[..], op, oend);
    SpreadMatch(mem[..], op, off, dist, ml);
    return true;
  }

  lemma SpreadBounds(m: seq<byte>, op: int, off: int, dist: int)
    requires Spread(m, op, off, dist)
    ensures 8 <= dist <= op + 8
  {
    hide Multiple;
  }

  lemma SelfMultiple(off: int)
    requires 0 < off
    ensures Multiple(off, off)
  {
  }

  /** The first 8 bytes and what repeats at the longer distance are one match. */
  lemma SpreadMatch(m: seq<byte>, op: int, off: int, dist: int, ml: int)
    requires Spread(m, op, off, dist) && 0 <= off <= op && 0 <= ml && op + ml <= |m|
    requires Same(m, op, op - off, 8) && Same(m, op + 8, op + 8 - dist, Max(op + ml - (op + 8), 0))
    ensures Same(m, op, op - off, ml) && (off == 0 ==> Cleared(m, op, ml))
  {
    hide Multiple;
    var n := Max(ml - 8, 0);
    if off == 0 {
      SelfSame(m, op, ml);
      ClearedEcho(m, op, 8, n);
    } else {
      PeriodExtend(m, op, off, 8, dist, n);
      SameSub(m, op, op - off, 8 + n, 0, ml);
    }
  }
}
