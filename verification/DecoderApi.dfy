/** The one-shot entry points of the decoder: safe, partial, with a dictionary, and in place. */
module DecoderApi {
  import opened Bytes
  import opened BlockFormat
  import opened BlockOutput
  import opened BlockShape
  import opened Block32
  import opened DecoderCopies
  import opened Memory
  import opened DecoderState
  import opened BlockDecoder

  const INT_MAX: int := 0x7FFF_FFFF

  /** A block in memory, and an output area; both sizes are of type int. */
  predicate Areas(size: int, src: int, n: int, dst: int, capacity: int)
  {
    && 0 <= src && 0 <= n <= INT_MAX && src + n <= size
    && 0 <= dst && 0 <= capacity <= INT_MAX && dst + capacity <= size
  }

  predicate Apart(a: int, n: int, b: int, m: int)
  {
    a + n <= b || b + m <= a
  }

  ghost function DictOf(e: Env, m: seq<byte>): seq<byte>
    requires EnvOk(e, |m|)
  {
    if e.ext then m[e.dictEnd - e.dictSize..e.dictEnd] else []
  }

  /** The bytes in front of the output: external dictionary, then prefix. */
  ghost function History(e: Env, m: seq<byte>): seq<byte>
    requires EnvOk(e, |m|)
  {
    DictOf(e, m) + m[e.low..e.dst]
  }

  /** Neither input nor history has moved when the call starts. */
  lemma Start(e: Env, c: Call, m: seq<byte>)
    requires EnvOk(e, |m|) && (e.partial ==> !e.ext)
    requires 0 <= e.src <= e.iend <= |m| && c.input == m[e.src..e.iend] && c.hist == History(e, m)
    requires InputApart(e) || Margin32(c.input, 0, e.src - e.dst)
    requires c.good ==>
      EndsWell32(c.input, 0, 0, |c.hist|, c.d, Least(e)) && (!e.partial ==> c.d <= e.oend - e.dst)
    ensures Callable(e, c, m)
  {
    hide Margin32, EndsWell32, DictFar, InputApart;
    assert c.input[0..] == c.input;
    assert c.hist[e.dictSize..] == m[e.low..e.dst];
    if e.ext {
      var r := Reach(e, e.dst);
      assert c.hist[..e.dictSize] == m[e.dictEnd - e.dictSize..e.dictEnd];
      SliceOfSlice(m, e.dictEnd - e.dictSize, e.dictEnd, e.dictSize - r, e.dictSize);
      SliceOfSlice(c.hist, 0, e.dictSize, e.dictSize - r, e.dictSize);
      assert c.hist[0..e.dictSize] == c.hist[..e.dictSize];
    }
  }

  /** What a full call that returns `result` says of the bytes it was given, whatever they are: the
      output is what the decoder takes the block to mean, and what the format does if and only if
      the block is regular there. */
  ghost predicate Meaning(input: seq<byte>, hist: seq<byte>, output: seq<byte>)
  {
    && Decode32(input, 0, hist) == Some(hist + output)
    && (Decode(input, 0, hist) == Some(hist + output) <==> Regular(input, 0))
  }

  lemma HasMeaning(input: seq<byte>, hist: seq<byte>, output: seq<byte>)
    requires Decode32(input, 0, hist) == Some(hist + output) && |output| <= INT_MAX
    ensures Meaning(input, hist, output)
  {
    hide Decode, Decode32, Regular;
    SameMeaning(input, hist);
  }

  /** A well-formed block of d bytes, by the rules of the format or by what the decoder makes of them. */
  ghost predicate Acceptable(input: seq<byte>, h: int, d: int)
  {
    EndsWell(input, 0, 0, h, d) || EndsWell32(input, 0, 0, h, d, 0)
  }

  lemma AcceptableEndsWell(input: seq<byte>, h: int, d: int)
    requires Acceptable(input, h, d) && d <= INT_MAX
    ensures EndsWell32(input, 0, 0, h, d, 0)
  {
    hide EndsWell, EndsWell32, Regular;
    if EndsWell(input, 0, 0, h, d) { WellFormed(input, h, d); }
  }

  /** LZ4_decompress_safe, on any bytes whatsoever: what a non-negative result means, and that
      well-formed blocks succeed. */
  method DecompressSafe(mem: array<byte>, src: int, dst: int, compressedSize: int, maxDecompressedSize: int,
                        ghost m: seq<byte>, ghost d: int) returns (result: int)
    requires mem[..] == m && Areas(|m|, src, compressedSize, dst, maxDecompressedSize)
    requires Apart(src, compressedSize, dst, maxDecompressedSize)
    modifies mem
    ensures Agree(m, mem[..], dst, dst + maxDecompressedSize)
    ensures 0 <= result ==> (
      && result <= maxDecompressedSize && dst + result <= mem.Length
      && Meaning(m[src..src + compressedSize], [], mem[..][dst..dst + result]))
    ensures Acceptable(m[src..src + compressedSize], 0, d) && d <= maxDecompressedSize ==> result == d
  {
    hide Agree, Acceptable, EndsWell32, Decode32, Meaning, Callable, Decompressed;
    var e := Env(src, src + compressedSize, dst, dst + maxDecompressedSize, dst, 0, 0, false, false);
    ghost var input := m[src..src + compressedSize];
    ghost var good := Acceptable(input, 0, d) && d <= maxDecompressedSize;
    if good { AcceptableEndsWell(input, 0, d); }
    ghost var c := Call(input, [], good, d);
    Start(e, c, m);
    result := DecompressGeneric(mem, e, c, m);
    AgreeSize(m, mem[..], dst, dst + maxDecompressedSize);
    FullResult(e, c, mem[..], result);
    if 0 <= result {
      ghost var output := mem[..][dst..dst + result];
      assert Decode32(input, 0, []).value[0..] == [] + output;
      HasMeaning(input, [], output);
    }
  }

  /** The result of a full call in terms of the bytes after the history. */
  lemma FullResult(e: Env, c: Call, m: seq<byte>, result: int)
    requires Decompressed(e, c, m, result) && !e.partial && EnvOk(e, |m|)
    ensures c.good ==> result == c.d
    ensures 0 <= result ==> (
      && e.dst + result <= e.oend && Decode32(c.input, 0, c.hist).Some?
      && |Decode32(c.input, 0, c.hist).value| == |c.hist| + result
      && m[e.dst..e.dst + result] == Decode32(c.input, 0, c.hist).value[|c.hist|..])
  {
    hide Decode32, OutHolds, DictHolds;
  }

  /** The first `result` bytes of a block of d bytes. */
  ghost predicate FirstBytes(f: Option<seq<byte>>, d: int, result: int, output: seq<byte>)
  {
    f.Some? && |f.value| == d && 0 <= result <= d && output == f.value[..result]
  }

  /** LZ4_decompress_safe_partial: the first bytes of a well-formed block, as many as were asked for. */
  method DecompressSafePartial(mem: array<byte>, src: int, dst: int, compressedSize: int, targetOutputSize: int,
      dstCapacity: int, ghost m: seq<byte>, ghost d: int) returns (result: int)
    requires mem[..] == m && Areas(|m|, src, compressedSize, dst, Min(targetOutputSize, dstCapacity))
    requires Apart(src, compressedSize, dst, Min(targetOutputSize, dstCapacity))
    modifies mem
    ensures Agree(m, mem[..], dst, dst + Min(targetOutputSize, dstCapacity))
    ensures EndsWell32(m[src..src + compressedSize], 0, 0, 0, d, 1) ==> (
      && result == Min(d, Min(targetOutputSize, dstCapacity)) && 0 <= result && dst + result <= mem.Length
      && FirstBytes(Decode32(m[src..src + compressedSize], 0, []), d, result, mem[..][dst..dst + result]))
    ensures EndsWell(m[src..src + compressedSize], 0, 0, 0, d) && Regular(m[src..src + compressedSize], 0) ==> (
      && result == Min(d, Min(targetOutputSize, dstCapacity)) && 0 <= result && dst + result <= mem.Length
      && FirstBytes(Decode(m[src..src + compressedSize], 0, []), d, result, mem[..][dst..dst + result]))
  {
    hide Agree, Regular, EndsWell, EndsWell32, Decode, Decode32, Callable;
    var capacity := Min(targetOutputSize, dstCapacity);
    var e := Env(src, src + compressedSize, dst, dst + capacity, dst, 0, 0, false, true);
    ghost var input := m[src..src + compressedSize];
    if EndsWell(input, 0, 0, 0, d) && Regular(input, 0) {
      EndsWellIs32(input, 0, 0, 0, d);
      RegularDecode(input, 0, []);
    }
    ghost var c := Call(input, [], EndsWell32(input, 0, 0, 0, d, 1), d);
    Start(e, c, m);
    result := DecompressGeneric(mem, e, c, m);
    AgreeSize(m, mem[..], dst, dst + capacity);
  }

  // ---------- dictionaries ----------

  /** Offsets never reach back further than the window. */
  lemma {:induction false} EndsWellWindow(src: seq<byte>, i: nat, o: int, h: int, h1: int, d: int)
    requires EndsWell(src, i, o, h, d) && Min(h, DISTANCE_MAX) <= h1 && 0 <= o
    ensures EndsWell(src, i, o, h1, d)
    decreases |src| - i
  {
    hide ReadLength;
    var s := StepAt(src, i);
    if s.Match? { EndsWellWindow(src, s.next, o + s.ll + s.ml, h, h1, d); }
  }

  /** How LZ4_decompress_safe_usingDict passes a dictionary: as prefix when it ends where the output
      starts (at most 64 KB - 1 of it matters), as external dictionary otherwise. */
  function DictEnv(src: int, n: int, dst: int, capacity: int, dictStart: int, dictSize: int): Env
  {
    if dictSize == 0 then Env(src, src + n, dst, dst + capacity, dst, 0, 0, false, false)
    else if dictStart + dictSize == dst then
      Env(src, src + n, dst, dst + capacity, if dictSize >= KB64 - 1 then dst - (KB64 - 1) else dictStart, 0, 0, false,
        false)
    else Env(src, src + n, dst, dst + capacity, dst, dictStart + dictSize, dictSize, true, false)
  }

  /** LZ4_decompress_safe_usingDict, on any bytes whatsoever. */
  method DecompressSafeUsingDict(mem: array<byte>, src: int, dst: int, compressedSize: int, maxOutputSize: int,
                                 dictStart: int, dictSize: int, ghost m: seq<byte>, ghost d: int) returns (result: int)
    requires mem[..] == m && Areas(|m|, src, compressedSize, dst, maxOutputSize)
    requires 0 <= dictStart && 0 <= dictSize && dictStart + dictSize <= |m|
    requires Apart(src, compressedSize, dst, maxOutputSize) && Apart(dictStart, dictSize, dst, maxOutputSize)
    modifies mem
    ensures Agree(m, mem[..], dst, dst + maxOutputSize)
    ensures 0 <= result ==> (
      && result <= maxOutputSize && dst + result <= mem.Length
      && Meaning(m[src..src + compressedSize], m[dictStart..dictStart + dictSize], mem[..][dst..dst + result]))
    ensures Acceptable(m[src..src + compressedSize], dictSize, d) && d <= maxOutputSize ==> result == d
  {
    hide Agree, Acceptable, EndsWell32, Decode32, Meaning, Callable, Decompressed, DictEnv, History, EnvOk;
    var e := DictEnv(src, compressedSize, dst, maxOutputSize, dictStart, dictSize);
    ghost var input, dict := m[src..src + compressedSize], m[dictStart..dictStart + dictSize];
    ghost var good := Acceptable(input, dictSize, d) && d <= maxOutputSize;
    ghost var pre, hist := HistoryIsTail(m, src, compressedSize, dst, maxOutputSize, dictStart, dictSize);
    if good {
      AcceptableEndsWell(input, dictSize, d);
      EndsWell32Window(input, 0, 0, dictSize, |hist|, d, 0);
    }
    ghost var c := Call(input, hist, good, d);
    Start(e, c, m);
    result := DecompressGeneric(mem, e, c, m);
    AgreeSize(m, mem[..], dst, dst + maxOutputSize);
    FullResult(e, c, mem[..], result);
    if 0 <= result {
      DictResult(input, pre, hist, dict, mem[..][dst..dst + result]);
      HasMeaning(input, dict, mem[..][dst..dst + result]);
    }
  }

  lemma HistoryIsTail(m: seq<byte>, src: int, n: int, dst: int, capacity: int, dictStart: int, dictSize: int)
    returns (pre: seq<byte>, hist: seq<byte>)
    requires Areas(|m|, src, n, dst, capacity) && 0 <= dictStart && 0 <= dictSize && dictStart + dictSize <= |m|
    requires Apart(dictStart, dictSize, dst, capacity) && Apart(src, n, dst, capacity)
    ensures var e := DictEnv(src, n, dst, capacity, dictStart, dictSize);
      && EnvOk(e, |m|) && hist == History(e, m) && pre + hist == m[dictStart..dictStart + dictSize]
      && e.src == src && e.iend == src + n && e.dst == dst && e.oend == dst + capacity && !e.partial && InputApart(e)
    ensures Min(dictSize, DISTANCE_MAX) <= |hist|
  {
    hide InputApart;
    var e := DictEnv(src, n, dst, capacity, dictStart, dictSize);
    hist := History(e, m);
    pre := m[dictStart..dictStart + (dictSize - |hist|)];
    ApartInput(e);
    if dictSize > 0 && dictStart + dictSize == dst {
      SliceJoin(m, dictStart, dictStart + (dictSize - |hist|), dst);
    } else {
      assert hist == m[dictStart..dictStart + dictSize];
    }
  }

  lemma ApartInput(e: Env)
    requires Apart(e.src, e.iend - e.src, e.dst, e.oend - e.dst)
    ensures InputApart(e)
  {
  }

  lemma DictResult(input: seq<byte>, pre: seq<byte>, hist: seq<byte>, dict: seq<byte>, more: seq<byte>)
    requires pre + hist == dict && Decode32(input, 0, hist).Some?
    requires |Decode32(input, 0, hist).value| == |hist| + |more| && more == Decode32(input, 0, hist).value[|hist|..]
    ensures Decode32(input, 0, dict) == Some(dict + more)
  {
    hide Decode32;
    DecodeSuffix32(input, 0, pre, hist);
    PrefixOfDecode32(input, 0, hist);
    var f := Decode32(input, 0, hist).value;
    assert f == hist + more;
    assert pre + (hist + more) == dict + more;
  }

  // ---------- in place ----------

  /** LZ4_decompress_safe with the block at the end of the output buffer: a buffer of
      LZ4_DECOMPRESS_INPLACE_BUFFER_SIZE(d) is enough for every block smaller than its d bytes. */
  method DecompressInPlace(mem: array<byte>, buffer: int, compressedSize: int, d: int, capacity: int,
      ghost m: seq<byte>)
    returns (result: int)
    requires mem[..] == m && 0 <= buffer && 0 < compressedSize < d <= capacity <= d + InplaceMargin(d)
    requires d <= INT_MAX && buffer + d + InplaceMargin(d) <= |m|
    requires EndsWell(m[buffer + d + InplaceMargin(d) - compressedSize..buffer + d + InplaceMargin(d)], 0, 0, 0, d)
    modifies mem
    ensures Agree(m, mem[..], buffer, buffer + capacity)
    ensures result == d && buffer + d <= mem.Length
    ensures Decode(m[buffer + d + InplaceMargin(d) - compressedSize..buffer + d + InplaceMargin(d)], 0, [])
      == Some(mem[..][buffer..buffer + d])
  {
    hide Agree, EndsWell, EndsWell32, Regular, Decode, Decode32, Callable, Decompressed, InplaceMargin, Margin,
      Margin32;
    var iend := buffer + d + InplaceMargin(d);
    var src := iend - compressedSize;
    var e := Env(src, iend, buffer, buffer + capacity, buffer, 0, 0, false, false);
    ghost var input := m[src..iend];
    ghost var c := Call(input, [], true, d);
    WellFormed(input, 0, d);
    RegularDecode(input, 0, []);
    InplaceMarginHolds(input, 0, 0, 0, d);
    MarginIs32(input, 0, InplaceMargin(d) + d - compressedSize);
    Start(e, c, m);
    result := DecompressGeneric(mem, e, c, m);
    AgreeSize(m, mem[..], buffer, buffer + capacity);
    FullResult(e, c, mem[..], result);
  }

  // ---------- compressed blocks ----------

  /** Whatever a compressor emits is acceptable to the decoder and means its input. */
  lemma CompressedDecodes(block: seq<byte>, x: seq<byte>, a: nat, seqs: seq<Sequence>, anchor: nat, end: nat)
    requires IsBlock(block, x, a, seqs, anchor, end) && end - a <= INT_MAX
    ensures a <= end && EndsWell(block, 0, 0, a, end - a) && Regular(block, 0)
    ensures Decode(block, 0, x[..a]) == Some(x[..end])
  {
    hide Parsed, EncodeAll, EncodeLiterals, EndsWell, Regular;
    BlockEndsWell(block, x, a, seqs, anchor, end);
    EndsWellIsRegular(block, 0, 0, a, end - a);
    DecodeBlock(block, x, a, seqs, anchor, end);
  }

  /** What the compressor emits is what LZ4_decompress_safe and its relatives accept. */
  lemma EncodedEndsWell(block: seq<byte>, hist: seq<byte>, src: seq<byte>)
    requires EncodesAfter(block, hist, src) && |src| <= MAX_INPUT_SIZE
    ensures EndsWell(block, 0, 0, |hist|, |src|)
  {
    hide IsBlock, EndsWell, Decode;
    var h :| 0 <= h <= |hist| && Encodes(block, Suffix(hist, h) + src, h, h + |src|);
    var x := Suffix(hist, h) + src;
    var seqs, anchor: nat :| IsBlock(block, x, h, seqs, anchor, h + |src|);
    CompressedDecodes(block, x, h, seqs, anchor, h + |src|);
    EndsWellWindow(block, 0, 0, h, |hist|, |src|);
  }
}
