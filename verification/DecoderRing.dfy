/** Streaming decompression into a ring buffer, over any number of blocks. */
module DecoderRing {
  import opened Bytes
  import opened BlockFormat
  import opened BlockShape
  import opened Block32
  import opened DecoderCopies
  import opened Memory
  import opened DecoderState
  import opened DecoderApi
  import opened DecoderStream

  /** LZ4_decoderRingBufferSize */
  function DecoderRingBufferSize(maxBlockSize: int): int
  {
    if maxBlockSize < 0 || maxBlockSize > MAX_INPUT_SIZE then 0
    else KB64 + 14 + Max(maxBlockSize, 16)
  }

  /** A ring at [start, start+size) of memory, for blocks of at most maxBlock bytes. */
  datatype Ring = Ring(start: int, size: int, maxBlock: int)

  predicate RingFits(r: Ring, memory: int)
  {
    && 0 <= r.maxBlock <= MAX_INPUT_SIZE && DecoderRingBufferSize(r.maxBlock) <= r.size
    && 0 <= r.start && r.start + r.size <= memory
  }

  /** Segments always start at the start of the ring; a finished one is longer than the window and
      the longest overshoot together. */
  predicate InRing(p: Place, r: Ring, total: int)
  {
    && (p.prefixSize > 0 ==> p.prefixEnd - p.prefixSize == r.start && p.prefixEnd <= r.start + r.size)
    && (p.extDictSize > 0 ==> p.externalDict == r.start && DISTANCE_MAX + OVERSHOOT <= p.extDictSize)
    && (p.extDictSize == 0 ==> Window(total) <= p.prefixSize)
  }

  /** Blocks go next to each other, and back to the start when less than maxBlock remains. */
  function NextStart(p: Place, r: Ring): int
  {
    if p.prefixSize == 0 || r.start + r.size - p.prefixEnd < r.maxBlock then r.start else p.prefixEnd
  }

  lemma RingPlaced(p: Place, r: Ring, total: int, memory: int)
    requires RingFits(r, memory) && Sane(p, memory) && InRing(p, r, total) && 0 <= total
    ensures var dst := NextStart(p, r);
      && r.start <= dst && dst + r.maxBlock <= r.start + r.size && Placed(p, total, dst, r.maxBlock)
  {
  }

  lemma RingKept(p: Place, r: Ring, total: int, memory: int, d: int)
    requires RingFits(r, memory) && Sane(p, memory) && InRing(p, r, total) && 0 <= d <= r.maxBlock && 0 <= total
    ensures InRing(Next(p, NextStart(p, r), d), r, total + d)
  {
  }

  /** One block of the stream: it lands in the ring, and the window stays known. */
  method DecodeIntoRing(mem: array<byte>, sd: StreamDecode, r: Ring, src: int, n: int,
                        ghost m: seq<byte>, ghost all: seq<byte>, ghost d: int) returns (dst: int, result: int)
    requires mem[..] == m && RingFits(r, |m|) && Known(sd.State(), m, all) && InRing(sd.State(), r, |all|)
    requires 0 <= src && 0 <= n <= INT_MAX && src + n <= |m| && Apart(src, n, r.start, r.size)
    requires EndsWell(m[src..src + n], 0, 0, |all|, d) && d <= r.maxBlock
    modifies mem, sd
    ensures Agree(m, mem[..], r.start, r.start + r.size)
    ensures result == d && Continued(m[src..src + n], all, mem[..], dst, result, sd.State())
    ensures InRing(sd.State(), r, |all| + d)
  {
    hide Known, Placed, Agree, EndsWell, EndsWell32, Continued, InRing, Sane, Next, Advance, Linger, View, Meaning,
      Whole;
    ghost var p := sd.State();
    KnownIsSane(p, m, all);
    RingPlaced(p, r, |all|, |m|);
    EndsWellGrows(m[src..src + n], 0, 0, |all|, d);
    dst := if sd.prefixSize == 0 || r.start + r.size - sd.prefixEnd < r.maxBlock then r.start else sd.prefixEnd;
    result := sd.DecompressSafeContinue(mem, src, dst, n, r.maxBlock, m, all, d);
    AgreeWider(m, mem[..], dst, dst + r.maxBlock, r.start, r.start + r.size);
    RingKept(p, r, |all|, |m|, d);
    NextIs(p, dst, d);
  }

  lemma NextIs(p: Place, dst: int, d: int)
    ensures Next(p, dst, d) == if d == 0 then Linger(p, dst) else Advance(p, dst, d)
  {
  }

  // ---------- a whole stream ----------

  datatype Block = Block(src: int, size: int)

  ghost predicate BlocksApart(blocks: seq<Block>, r: Ring, memory: int)
  {
    forall k :: 0 <= k < |blocks| ==>
      var b := blocks[k];
      0 <= b.src && 0 <= b.size <= INT_MAX && b.src + b.size <= memory && Apart(b.src, b.size, r.start, r.size)
  }

  ghost function BlockBytes(m: seq<byte>, b: Block): seq<byte>
  {
    if 0 <= b.src && 0 <= b.size && b.src + b.size <= |m| then m[b.src..b.src + b.size] else []
  }

  /** What a decoder with unlimited memory makes of blocks k, k+1, ... after `all`; None unless each
      of them is well formed and of at most maxBlock bytes. */
  ghost function StreamBytes(m: seq<byte>, blocks: seq<Block>, k: nat, all: seq<byte>, maxBlock: int): Option<seq<byte>>
    decreases |blocks| - k
  {
    if k >= |blocks| then Some(all)
    else match Decode(BlockBytes(m, blocks[k]), 0, all)
      case None => None
      case Some(f) =>
        if |f| - |all| <= maxBlock && EndsWell(BlockBytes(m, blocks[k]), 0, 0, |all|, |f| - |all|)
        then StreamBytes(m, blocks, k + 1, f, maxBlock)
        else None
  }

  lemma StreamStep(m: seq<byte>, blocks: seq<Block>, k: nat, all: seq<byte>, maxBlock: int) returns (f: seq<byte>)
    requires k < |blocks| && StreamBytes(m, blocks, k, all, maxBlock).Some?
    ensures Decode(BlockBytes(m, blocks[k]), 0, all) == Some(f) && |f| - |all| <= maxBlock
    ensures EndsWell(BlockBytes(m, blocks[k]), 0, 0, |all|, |f| - |all|)
    ensures StreamBytes(m, blocks, k, all, maxBlock) == StreamBytes(m, blocks, k + 1, f, maxBlock)
  {
    hide Decode, EndsWell;
    f := Decode(BlockBytes(m, blocks[k]), 0, all).value;
  }

  lemma BlockKept(m: seq<byte>, m1: seq<byte>, blocks: seq<Block>, k: nat, r: Ring)
    requires BlocksApart(blocks, r, |m|) && Agree(m, m1, r.start, r.start + r.size) && k < |blocks|
    ensures var b := blocks[k];
      && 0 <= b.src && 0 <= b.size <= INT_MAX && b.src + b.size <= |m1| && Apart(b.src, b.size, r.start, r.size)
      && m1[b.src..b.src + b.size] == BlockBytes(m, b)
  {
    hide Agree;
    AgreeSize(m, m1, r.start, r.start + r.size);
    AgreeSlice(m, m1, r.start, r.start + r.size, blocks[k].src, blocks[k].size);
  }

  lemma ContinuedBytes(input: seq<byte>, all: seq<byte>, m: seq<byte>, dst: int, result: int, q: Place, f: seq<byte>)
    requires Continued(input, all, m, dst, result, q) && Decode(input, 0, all) == Some(f)
    requires EndsWell(input, 0, 0, |all|, result) && result <= INT_MAX
    ensures 0 <= dst && 0 <= result && dst + result <= |m| && all + m[dst..dst + result] == f && Known(q, m, f)
  {
    hide Known, Decode, Decode32, EndsWell, EndsWell32, Regular;
    WellFormed(input, |all|, result);
  }

  /** Any number of blocks through a ring of LZ4_decoderRingBufferSize(maxBlock) bytes: reading each
      block's output right after its call gives the whole stream. */
  method DecodeStream(mem: array<byte>, r: Ring, blocks: seq<Block>, ghost m: seq<byte>) returns (output: seq<byte>)
    requires mem[..] == m && RingFits(r, |m|) && BlocksApart(blocks, r, |m|)
    requires StreamBytes(m, blocks, 0, [], r.maxBlock).Some?
    modifies mem
    ensures Some(output) == StreamBytes(m, blocks, 0, [], r.maxBlock)
    ensures Agree(m, mem[..], r.start, r.start + r.size)
  {
    hide Known, Agree, EndsWell, Continued, InRing, Decode, StreamBytes, BlocksApart, BlockBytes;
    output := [];
    assert m[r.start..r.start] == [];
    var sd := new StreamDecode(r.start, 0, m);
    RingEmpty(r);
    AgreeSelf(m, r.start, r.start + r.size);
    var k := 0;
    while k < |blocks|
      invariant 0 <= k <= |blocks| && fresh(sd)
      invariant Known(sd.State(), mem[..], output) && InRing(sd.State(), r, |output|)
      invariant Agree(m, mem[..], r.start, r.start + r.size)
      invariant StreamBytes(m, blocks, k, output, r.maxBlock).Some?
      invariant StreamBytes(m, blocks, k, output, r.maxBlock) == StreamBytes(m, blocks, 0, [], r.maxBlock)
    {
      ghost var m1 := mem[..];
      AgreeSize(m, m1, r.start, r.start + r.size);
      BlockKept(m, m1, blocks, k, r);
      ghost var f := StreamStep(m, blocks, k, output, r.maxBlock);
      ghost var d := |f| - |output|;
      var dst, result := DecodeIntoRing(mem, sd, r, blocks[k].src, blocks[k].size, m1, output, d);
      ContinuedBytes(BlockBytes(m, blocks[k]), output, mem[..], dst, result, sd.State(), f);
      AgreeTrans(m, m1, mem[..], r.start, r.start + r.size, r.start, r.start + r.size, r.start, r.start + r.size);
      output := output + mem[dst..dst + result];
      k := k + 1;
    }
    StreamDone(m, blocks, k, output, r.maxBlock);
  }

  lemma RingEmpty(r: Ring)
    ensures InRing(Place(r.start, 0, 0, 0), r, 0)
  {
  }

  lemma StreamDone(m: seq<byte>, blocks: seq<Block>, k: nat, all: seq<byte>, maxBlock: int)
    requires k == |blocks|
    ensures StreamBytes(m, blocks, k, all, maxBlock) == Some(all)
  {
  }
}
