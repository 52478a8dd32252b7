/** From the caller's data to a frame and back: with any preferences, any dictionary, any sequence of
    compression calls, and any way of cutting the frame for decompression. */
module FrameRoundTrip {
  import opened Bytes
  import opened BlockFormat
  import opened BlockShape
  import opened FrameFormat
  import opened FrameEncoding
  import opened FrameBound
  import opened FrameCodec
  import opened FrameBackend
  import opened FrameCctx
  import opened FrameEncoder
  import opened FrameBegin
  import opened FrameOneShot
  import opened FrameSession
  import FS = FrameState
  import FD = FrameHistory
  import R = FrameReader

  // ---------- longer dictionaries ----------

  lemma {:induction false} EndsWellMore(src: seq<byte>, i: nat, o: int, h: int, h1: int, d: int)
    requires EndsWell(src, i, o, h, d) && h <= h1
    ensures EndsWell(src, i, o, h1, d)
    decreases |src| - i
  {
    hide ReadLength;
    if StepAt(src, i).Match? {
      var s := StepAt(src, i);
      EndsWellMore(src, s.next, o + s.ll + s.ml, h, h1, d);
    }
  }

  lemma DecodesMore(data: seq<byte>, pre: seq<byte>, hist: seq<byte>, more: seq<byte>, max: int)
    requires BlockDecodes(data, hist, more, max)
    ensures BlockDecodes(data, pre + hist, more, max)
  {
    hide Decode, EndsWell;
    DecodeSuffix(data, 0, pre, hist);
    Concat3(pre, hist, more);
    EndsWellMore(data, 0, 0, |hist|, |pre + hist|, |more|);
  }

  lemma BlockMore(s: seq<byte>, i: int, hd: Header, pre: seq<byte>, dict: seq<byte>, out: seq<byte>)
    requires BlockOk(s, i, hd, dict, out)
    ensures BlockOk(s, i, hd, pre + dict, out)
    ensures BlockContent(s, i, HistoryOf(hd, pre + dict, out)) == BlockContent(s, i, HistoryOf(hd, dict, out))
  {
    hide Decode, EndsWell, BlockFramed, BlockData, Le32, IsRaw;
    var hist := HistoryOf(hd, dict, out);
    Concat3(pre, dict, out);
    if !IsRaw(Le32(s, i)) {
      var more := BlockContent(s, i, hist);
      DecodesMore(BlockData(s, i), pre, hist, more, BlockSize(hd.blockSizeID));
      assert (pre + hist + more)[|pre + hist|..] == more;
    }
  }

  lemma {:induction false} BlocksMore(s: seq<byte>, i: nat, hd: Header, pre: seq<byte>, dict: seq<byte>, out: seq<byte>)
    requires Blocks(s, i, hd, dict, out).Some?
    ensures Blocks(s, i, hd, pre + dict, out) == Blocks(s, i, hd, dict, out)
    decreases |s| - i
  {
    hide BlockOk, BlockContent, HistoryOf, Le32, NextBlock;
    if Le32(s, i) != 0 {
      OkFramed(s, i, hd, dict, out);
      BlockEnds(s, i, hd);
      BlockMore(s, i, hd, pre, dict, out);
      BlocksMore(s, NextBlock(s, i, hd), hd, pre, dict, out + BlockContent(s, i, HistoryOf(hd, dict, out)));
    }
  }

  lemma BlockEnds(s: seq<byte>, i: int, hd: Header)
    requires BlockFramed(s, i, hd)
    ensures i < NextBlock(s, i, hd) <= |s|
  {
    hide Le32;
    DataSizeRange(s, i);
  }

  /** A frame stands for the same with every dictionary that ends with its own. */
  lemma LongerDict(s: seq<byte>, pre: seq<byte>, dict: seq<byte>)
    requires ParseFrame(s, dict).Some?
    ensures ParseFrame(s, pre + dict) == ParseFrame(s, dict)
  {
    hide Blocks, ParseHeader, Le32, Crc;
    if !IsSkippable(Le32(s, 0)) {
      var hd := ParseHeader(s).value;
      BlocksMore(s, hd.size, hd, pre, dict, []);
    }
  }

  // ---------- there and back ----------

  /** What a frame parses to, for a decoder with a dictionary at dictAt. */
  ghost function RunOf(frame: seq<byte>, p: Prefs, dict: seq<byte>, dictAt: int, full: seq<byte>): FS.Run
    requires PrefsOk(p)
  {
    FS.Run(frame, dict, dictAt, Content(HeaderOf(p), full, Max(0, |frame| - CrcSize(p.contentChecksum)), |frame|))
  }

  lemma FrameRuns(frame: seq<byte>, p: Prefs, pre: seq<byte>, dict: seq<byte>, dictAt: int, full: seq<byte>)
    requires PrefsOk(p) && IsFrame(frame, p, dict, full)
    ensures var r := RunOf(frame, p, pre + dict, dictAt, full);
      FS.RunOk(r) && FS.FullOf(r) == full && r.frame.end == |frame|
  {
    hide ParseFrame, HeaderBytes;
    LongerDict(frame, pre, dict);
  }

  /** The decoder's caller: a context between frames, buffers for input and output, and the dictionary. */
  ghost predicate Reader(d: FD.Dctx, mem: seq<byte>, base: int, input: int, n: int, output: int, capacity: int,
      dictAt: int, dict: seq<byte>)
    reads d
  {
    var r := FS.Run([], dict, dictAt, Skippable(0));
    FS.Home(d, base) && R.Between(d) && R.DictAt(mem, r) && R.Client(base, input, n, output, capacity, r, |mem|)
  }

  /** The decoder makes of a frame what it stands for. */
  method ReadBack(d: FD.Dctx, memory: array<byte>, frame: seq<byte>, input: int, n: int, output: int, capacity: int,
      dictAt: int, dictSize: int, cut: R.Cutting, ghost base: int, ghost p: Prefs,
      ghost pre: seq<byte>, ghost dict: seq<byte>, ghost full: seq<byte>)
    returns (content: seq<byte>)
    requires PrefsOk(p) && IsFrame(frame, p, dict, full)
    requires Reader(d, memory[..], base, input, n, output, capacity, dictAt, pre + dict) && dictSize == |pre + dict|
    requires R.Within(cut, input, n, output, capacity)
    modifies d, memory
    ensures content == full
  {
    hide IsFrame, PrefsOk, FS.RunOk, FS.FullOf, R.Between;
    FrameRuns(frame, p, pre, dict, dictAt, full);
    ghost var run := RunOf(frame, p, pre + dict, dictAt, full);
    var consumed;
    content, consumed :=
      R.DecodeFrame(d, memory, frame, input, n, output, capacity, dictAt, dictSize, cut, base, run);
  }

  /** Whatever is given to LZ4F_compressBegin/Update/flush/End comes back from LZ4F_decompress: for all
      preferences, all sequences of calls, all dictionaries (the compressor keeps the last 64 KB), and all
      ways of cutting input and output of the decoder. */
  method RoundTrip(c: Cctx, mem: array<byte>, dst: array<byte>, area: int, room: int, cd: Option<CDict>, p: Prefs,
      arena: int, ops: seq<Op>, wide: bool, d: FD.Dctx, memory: array<byte>, input: int, n: int, output: int,
      capacity: int, dictAt: int, dictSize: int, cut: R.Cutting, ghost base: int,
      ghost pre: seq<byte>, ghost dict: seq<byte>)
    returns (content: seq<byte>)
    requires PrefsOk(p) && Given(c, mem, dst, area, room, cd, p, arena, dict)
    requires p.linked ==> Owned(NextBuffer(c, p, arena), mem.Length)
    requires MAX_FH_SIZE <= dst.Length && UpdateBound(0, p) <= dst.Length && forall op :: op in ops ==>
      Fits(op, p, room, dst.Length)
    requires |InputOf(ops)| < 0x1_0000_0000_0000_0000 && (p.contentSize == 0 || p.contentSize == |InputOf(ops)|)
    requires memory != mem && memory != dst && memory != c.xxh.mem32 && memory !in c.codec.Own()
    requires Reader(d, memory[..], base, input, n, output, capacity, dictAt, pre + dict) && dictSize == |pre + dict|
    requires R.Within(cut, input, n, output, capacity)
    modifies c, c.codec.Own(), c.xxh, c.xxh.mem32, mem, dst, d, memory
    ensures content == InputOf(ops)
  {
    hide Given, IsFrame, Fits, UpdateBound, BufferFor, Owned, PrefsOk, Idle, Reader;
    SmallTotal(|InputOf(ops)|);
    var r, frame := CompressSession(c, mem, dst, area, room, cd, p, arena, ops, wide, dict);
    content := ReadBack(d, memory, frame, input, n, output, capacity, dictAt, dictSize, cut, base, p, pre,
      dict, InputOf(ops));
  }
}
