/** The output side of a compressor: the write position, the anchor where the literals of the
    next sequence start, and (ghost) the parse that the bytes written so far encode. */
module BlockOutput {
  import opened Bytes
  import opened BlockFormat
  import opened BlockWriter
  import opened HcEncoder

  class Output {
    const dst: array<byte>
    var op: int
    var anchor: int
    ghost var seqs: seq<Sequence>

    /** Replaying what was written regenerates x up to the anchor, from s0 on. */
    ghost predicate Valid(x: seq<byte>, s0: int)
      reads this, dst
    {
      0 <= s0 && 0 <= op && Parsed(x, s0, seqs, anchor) && AllEncodable(seqs) && Holds(dst, op, EncodeAll(seqs))
    }

    constructor (dst: array<byte>, x: seq<byte>, s0: int)
      requires 0 <= s0 <= |x|
      ensures this.dst == dst && op == 0 && anchor == s0 && seqs == [] && Valid(x, s0)
    {
      this.dst := dst;
      op, anchor, seqs := 0, s0, [];
    }

    /** LZ4HC_encodeSequence on the state it updates: ip and anchor move past the match. */
    method Emit(x: seq<byte>, ghost s0: int, ip: int, ml: nat, off: nat, limited: bool, oend: int)
        returns (overflow: bool)
      requires Valid(x, s0) && anchor <= ip && ip + 8 <= |x|
      requires Genuine(x, ip, off, ml) && off <= DISTANCE_MAX && MINMATCH <= ml
      requires if limited then oend <= dst.Length else Fits(op, ip - anchor, ml - MINMATCH, dst.Length)
      modifies this, dst
      ensures Valid(x, s0)
      ensures overflow == (limited && NoRoom(old(op), ip - old(anchor), ml - MINMATCH, oend))
      ensures overflow ==> op == old(op) && anchor == old(anchor) && seqs == old(seqs)
      ensures !overflow ==> anchor == ip + ml && seqs == old(seqs) + [Sequence(x[old(anchor)..ip], off, ml)]
      ensures !overflow ==>
        op == old(op) + 3 + TailSize(ip - old(anchor)) + (ip - old(anchor)) + TailSize(ml - MINMATCH)
      ensures !overflow && limited ==> op + LASTLITERALS <= oend
    {
      hide Parsed, Holds, EncodeAll, Genuine, EncodeSequence, NoRoom, Fits, TailSize, AllEncodable;
      ParsedBounds(x, s0, seqs, anchor);
      HoldsSize(dst, op, EncodeAll(seqs));
      ghost var s := Sequence(x[anchor..ip], off, ml);
      ParsedSnoc(x, s0, seqs, anchor, ip, off, ml);
      var op1;
      overflow, op1 := EmitSequence(dst, op, x, anchor, ip, ml, off, limited, oend, EncodeAll(seqs));
      if !overflow {
        HoldsSize(dst, op1, EncodeAll(seqs) + EncodeSequence(s));
        op, anchor, seqs := op1, ip + ml, seqs + [s];
      }
    }
  }

  /** Without an output limit the worst-case bound leaves room for any sequence. */
  lemma AlwaysFits(o: Output, x: seq<byte>, s0: int, ip: int, ml: nat)
    requires o.Valid(x, s0) && o.anchor <= ip && MINMATCH <= ml && ip + ml + LASTLITERALS <= |x|
    requires |x| - s0 <= MAX_INPUT_SIZE && CompressBound(|x| - s0) <= o.dst.Length
    ensures Fits(o.op, ip - o.anchor, ml - MINMATCH, o.dst.Length)
  {
    hide Parsed, EncodeAll, AllEncodable;
    ParsedBounds(x, s0, o.seqs, o.anchor);
    EncodeAllBound(x, s0, o.seqs, o.anchor);
    FitsArithmetic(o.op, o.anchor - s0, ip - o.anchor, ml - MINMATCH, |x| - s0, o.dst.Length);
  }

  lemma FitsArithmetic(op: int, d: nat, ll: nat, mcode: nat, n: nat, capacity: int)
    requires 0 <= op <= d + d / 255 && d + ll + mcode + MINMATCH + LASTLITERALS <= n
    requires n + n / 255 + 16 <= capacity
    ensures Fits(op, ll, mcode, capacity)
  {
  }

  /** A sequence never needs more than the worst-case bound, whatever margin a check adds. */
  lemma SequenceWithinBound(o: Output, x: seq<byte>, s0: int, ip: int, ml: nat)
    requires o.Valid(x, s0) && o.anchor <= ip && MINMATCH <= ml && ip + ml + LASTLITERALS <= |x|
    requires |x| - s0 <= MAX_INPUT_SIZE
    ensures var ll := ip - o.anchor;
      o.op + ll + ll / 255 + (ml - MINMATCH) / 255 + 14 <= CompressBound(|x| - s0)
  {
    hide Parsed, EncodeAll, AllEncodable;
    ParsedBounds(x, s0, o.seqs, o.anchor);
    EncodeAllBound(x, s0, o.seqs, o.anchor);
    BoundArithmetic(o.op, o.anchor - s0, ip - o.anchor, ml - MINMATCH, |x| - s0);
  }

  lemma BoundArithmetic(op: int, d: nat, ll: nat, mcode: nat, n: nat)
    requires 0 <= op <= d + d / 255 && d + ll + mcode + MINMATCH + LASTLITERALS <= n
    ensures op + ll + ll / 255 + mcode / 255 + 14 <= n + n / 255 + 16
  {
  }

  // ---------- the final literal run ----------

  /** lastRun = avail - 1, minus (lastRun + 256 - RUN_MASK) / 256: the run that fills `avail` bytes. */
  function TruncatedRun(avail: int): int
  {
    avail - 1 - (avail - 1 + 256 - RUN_MASK) / 256
  }

  /** A truncated run fits, and leaves at most one byte of the output unused. */
  lemma TruncatedRunFills(avail: int)
    requires 1 <= avail
    ensures var run := TruncatedRun(avail);
      0 <= run && 1 + TailSize(run) + run <= avail <= 2 + TailSize(run) + run
    ensures TruncatedRun(avail) >= Min(avail - 1, 14)
  {
  }

  lemma ShorterRun(avail: int, run: nat)
    requires 1 <= avail < 1 + TailSize(run) + run
    ensures 0 <= TruncatedRun(avail) < run
  {
    TruncatedRunFills(avail);
    if TruncatedRun(avail) >= run { TailSizeMonotone(run, TruncatedRun(avail)); }
  }

  lemma TailSizeMonotone(a: nat, b: nat)
    requires a <= b
    ensures TailSize(a) <= TailSize(b)
  {
  }

  /** When the output may be filled up and the tail cut: room for the end-of-block literals. */
  ghost predicate TailRoom(o: Output, oend: int)
    reads o
  {
    && o.op < oend
    && (o.seqs != [] ==> o.op + LASTLITERALS + 1 <= oend && o.op + MFLIMIT + 1 <= oend + o.seqs[|o.seqs| - 1].mlen)
  }

  lemma LastFits(o: Output, x: seq<byte>, s0: int)
    requires o.Valid(x, s0) && o.anchor <= |x| && |x| - s0 <= MAX_INPUT_SIZE
    ensures o.op + 1 + TailSize(|x| - o.anchor) + (|x| - o.anchor) <= CompressBound(|x| - s0)
  {
    hide Parsed, EncodeAll, AllEncodable, TailSize;
    ParsedBounds(x, s0, o.seqs, o.anchor);
    EncodeAllBound(x, s0, o.seqs, o.anchor);
    TailSizeBound(|x| - o.anchor);
    QuotientSum(0, o.anchor - s0, |x| - o.anchor);
  }

  /** The final literals x[anchor..anchor+run] complete the block. */
  method Finish(o: Output, x: seq<byte>, ghost s0: int, run: nat) returns (size: int)
    requires o.Valid(x, s0) && o.anchor + run <= |x| && 0 <= o.anchor
    requires o.op + 1 + TailSize(run) + run <= o.dst.Length
    requires EndRestrictions(o.seqs, o.anchor, o.anchor + run)
    modifies o.dst
    ensures size == o.op + 1 + TailSize(run) + run && 0 < size <= o.dst.Length
    ensures IsBlock(o.dst[..size], x, s0, o.seqs, o.anchor, o.anchor + run)
  {
    hide Parsed, EncodeAll, EncodeLiterals, AllEncodable, EndRestrictions, TailSize;
    size := WriteLastLiterals(o.dst, o.op, x, o.anchor, run, EncodeAll(o.seqs));
  }

  // ---------- what a compressor returns ----------

  datatype Limit = NotLimited | LimitedOutput | FillOutput

  /** Nothing, or a block for the bytes of x[s0..] that were consumed. */
  ghost predicate Compressed(o: Output, x: seq<byte>, s0: int, limit: Limit, oend: int, result: int, consumed: int)
    reads o, o.dst
  {
    && 0 <= result <= o.dst.Length && 0 <= s0 && 0 <= consumed <= |x| - s0
    && (result > 0 ==>
       0 <= o.anchor <= s0 + consumed && IsBlock(o.dst[..result], x, s0, o.seqs, o.anchor, s0 + consumed))
    && (result > 0 && limit != FillOutput ==> consumed == |x| - s0)
    && (limit != NotLimited ==> result <= oend)
    && (result == 0 ==> limit == LimitedOutput && oend < CompressBound(|x| - s0))
    && (limit == NotLimited ==> 0 < result <= CompressBound(|x| - s0))
    && (limit == FillOutput ==> 0 < result && (consumed < |x| - s0 ==> oend - 1 <= result))
  }

  /** The last match obeys the end-of-block rules when everything is consumed. */
  ghost predicate MatchesInside(o: Output, x: seq<byte>)
    reads o
  {
    o.seqs != [] ==> o.anchor + LASTLITERALS <= |x| && o.anchor - o.seqs[|o.seqs| - 1].mlen + MFLIMIT <= |x|
  }

  /** _last_literals: the rest of the input, or in fill mode as much of it as the output holds. */
  method Last(o: Output, x: seq<byte>, s0: int, limit: Limit, oend: int) returns (result: int, consumed: int)
    requires o.Valid(x, s0) && s0 <= o.anchor <= |x| && |x| - s0 <= MAX_INPUT_SIZE && MatchesInside(o, x)
    requires if limit == NotLimited then CompressBound(|x| - s0) <= o.dst.Length else 0 <= oend <= o.dst.Length
    requires limit == FillOutput ==> TailRoom(o, oend)
    modifies o.dst
    ensures Compressed(o, x, s0, limit, oend, result, consumed)
  {
    hide Parsed, TailSize, CompressBound, EncodeAll, AllEncodable, Holds, IsBlock, TruncatedRun;
    var run := |x| - o.anchor;
    LastFits(o, x, s0);
    if limit != NotLimited && o.op + 1 + TailSize(run) + run > oend {
      if limit == LimitedOutput { return 0, 0; }
      ShorterRun(oend - o.op, run);
      TruncatedRunFills(oend - o.op);
      run := TruncatedRun(oend - o.op);
    }
    result := Finish(o, x, s0, run);
    consumed := o.anchor + run - s0;
  }

  // ---------- what the caller gets ----------

  /** block is a complete LZ4 block for x[s0..end], given x[..s0]. */
  ghost predicate Encodes(block: seq<byte>, x: seq<byte>, s0: int, end: int)
  {
    0 <= s0 <= end <= |x| && exists seqs, anchor: nat :: IsBlock(block, x, s0, seqs, anchor, end)
  }

  lemma CompressedEncodes(o: Output, x: seq<byte>, s0: int, limit: Limit, oend: int, result: int, consumed: int)
    requires Compressed(o, x, s0, limit, oend, result, consumed) && result > 0
    ensures Encodes(o.dst[..result], x, s0, s0 + consumed)
  {
    hide IsBlock;
  }

  /** Such a block decodes to its part of the data after any history that ends with the bytes the
      compressor saw, obeys the end-of-block rules, and is never larger than the worst case. */
  lemma EncodesMeans(block: seq<byte>, x: seq<byte>, s0: int, end: int, hist: seq<byte>)
    requires Encodes(block, x, s0, end) && SameTail(hist, x[..s0], s0)
    ensures Decode(block, 0, hist) == Some(hist + x[s0..end])
    ensures end - s0 <= MAX_INPUT_SIZE ==> |block| <= CompressBound(end - s0)
  {
    hide IsBlock, CompressBound, Decode;
    var seqs, anchor: nat :| IsBlock(block, x, s0, seqs, anchor, end);
    CompleteDecodes(block, x, s0, seqs, anchor, end);
    if end - s0 <= MAX_INPUT_SIZE { BlockWithinBound(block, x, s0, seqs, anchor, end); }
    var pre := hist[..|hist| - s0];
    assert x[..s0][|x[..s0]| - s0..] == x[..s0];
    assert hist == pre + x[..s0];
    DecodeSuffix(block, 0, pre, x[..s0]);
    assert x[..end] == x[..s0] + x[s0..end];
    assert pre + (x[..s0] + x[s0..end]) == hist + x[s0..end];
  }

  lemma CompleteDecodes(block: seq<byte>, x: seq<byte>, s0: int, seqs: seq<Sequence>, anchor: nat, end: int)
    requires 0 <= s0 <= end && IsBlock(block, x, s0, seqs, anchor, end)
    ensures Decode(block, 0, x[..s0]) == Some(x[..end])
  {
    hide Parsed, EncodeAll, EncodeLiterals, Decode, EndRestrictions;
    DecodeBlock(block, x, s0, seqs, anchor, end);
  }

  /** block is a complete LZ4 block for src, made with no more history than the end of hist. */
  ghost predicate EncodesAfter(block: seq<byte>, hist: seq<byte>, src: seq<byte>)
  {
    exists k :: 0 <= k <= |hist| && Encodes(block, Suffix(hist, k) + src, k, k + |src|)
  }

  lemma EncodesAfterMeans(block: seq<byte>, hist: seq<byte>, src: seq<byte>)
    requires EncodesAfter(block, hist, src)
    ensures Decode(block, 0, hist) == Some(hist + src)
    ensures |src| <= MAX_INPUT_SIZE ==> |block| <= CompressBound(|src|)
  {
    hide Encodes, Decode, CompressBound;
    var k :| 0 <= k <= |hist| && Encodes(block, Suffix(hist, k) + src, k, k + |src|);
    var x := hist[|hist| - k..] + src;
    assert x[..k] == hist[|hist| - k..];
    assert x[..k][|x[..k]| - k..] == hist[|hist| - k..];
    EncodesMeans(block, x, k, k + |src|, hist);
    assert x[k..k + |src|] == src;
  }

  /** What a call that continues a stream returns: 0 only when the output is smaller than the worst
      case. */
  ghost predicate Continued(dst: seq<byte>, hist: seq<byte>, src: seq<byte>, cap: int, result: int)
  {
    && 0 <= result <= |dst| && result <= cap
    && (result > 0 ==> EncodesAfter(dst[..result], hist, src))
    && (result == 0 ==> cap < CompressBound(|src|))
  }

  lemma CompressedContinued(o: Output, x: seq<byte>, s0: int, limit: Limit, oend: int, result: int, consumed: int,
                            hist: seq<byte>, src: seq<byte>, cap: int)
    requires Compressed(o, x, s0, limit, oend, result, consumed) && limit != FillOutput && |src| <= MAX_INPUT_SIZE
    requires 0 <= s0 <= |hist| && x == hist[|hist| - s0..] + src
    requires 0 <= cap && if limit == NotLimited then CompressBound(|src|) <= cap else oend == cap
    ensures Continued(o.dst[..], hist, src, cap, result)
  {
    hide IsBlock, CompressBound, Encodes;
    if result > 0 {
      CompressedEncodes(o, x, s0, limit, oend, result, consumed);
      assert o.dst[..][..result] == o.dst[..result];
      assert x == Suffix(hist, s0) + src;
    }
  }

  /** What a one-shot call returns: 0 only for an unsupported size or an output smaller than the
      worst case, and otherwise a block that decodes to the source. */
  ghost predicate OneShot(dst: seq<byte>, src: seq<byte>, cap: int, result: int)
  {
    && 0 <= result <= |dst| && result <= Max(cap, 0)
    && (result > 0 ==> Encodes(dst[..result], src, 0, |src|) && Decode(dst[..result], 0, []) == Some(src))
    && (result == 0 ==> cap < CompressBound(|src|))
  }

  lemma EncodesAlone(block: seq<byte>, src: seq<byte>)
    requires Encodes(block, src, 0, |src|)
    ensures Decode(block, 0, []) == Some(src)
  {
    hide Encodes, Decode, CompressBound;
    var none: seq<byte> := [];
    assert src[..0] == none && src[0..|src|] == src && none + src == src;
    EncodesMeans(block, src, 0, |src|, none);
  }
}
