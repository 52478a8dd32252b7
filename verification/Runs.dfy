/** Runs of blocks that continue one another: the data, what each block must be, and the decoder at the
    other end. */
module Runs {
  import opened Bytes
  import opened BlockFormat
  import opened BlockShape
  import opened BlockOutput
  import DecoderApi
  import Ring = DecoderRing

  /** The k-th block of a run: its source in the memory of that moment, and the room for it. */
  datatype Piece = Piece(mem: seq<byte>, source: int, n: int, cap: int, acceleration: int)

  ghost predicate InMemory(p: Piece)
  {
    0 < p.source && 0 <= p.n <= MAX_INPUT_SIZE && p.source + p.n <= |p.mem|
  }

  ghost function Data(p: Piece): seq<byte>
  {
    if InMemory(p) then p.mem[p.source..p.source + p.n] else []
  }

  /** Everything before block k. */
  ghost function Before(pieces: seq<Piece>, k: nat): seq<byte>
    requires k <= |pieces|
  {
    if k == 0 then [] else Before(pieces, k - 1) + Data(pieces[k - 1])
  }

  /** Block k of the output: nothing (the caller sends the source as it is), or a block for it. */
  ghost predicate Sound(block: seq<byte>, hist: seq<byte>, p: Piece)
  {
    && (block == [] ==> p.cap < CompressBound(p.n))
    && (block != [] ==>
       EncodesAfter(block, hist, Data(p)) && Decode(block, 0, hist) == Some(hist + Data(p)) && |block| <= p.cap)
  }

  lemma BeforeNothing(pieces: seq<Piece>)
    ensures Before(pieces, 0) == []
  {
  }

  // ---------- the other end ----------

  /** The blocks as they arrive in the decoder's memory. */
  ghost predicate Arrived(m: seq<byte>, places: seq<Ring.Block>, blocks: seq<seq<byte>>)
  {
    |places| == |blocks| && forall k :: 0 <= k < |blocks| ==>
      blocks[k] != [] && Ring.BlockBytes(m, places[k]) == blocks[k]
  }

  lemma StreamTakes(m: seq<byte>, places: seq<Ring.Block>, k: nat, all: seq<byte>, maxBlock: int, f: seq<byte>)
    requires k < |places| && Decode(Ring.BlockBytes(m, places[k]), 0, all) == Some(f)
    requires |f| - |all| <= maxBlock && EndsWell(Ring.BlockBytes(m, places[k]), 0, 0, |all|, |f| - |all|)
    ensures Ring.StreamBytes(m, places, k, all, maxBlock) == Ring.StreamBytes(m, places, k + 1, f, maxBlock)
  {
    hide EndsWell, Decode, Ring.BlockBytes;
  }

  lemma SoundMeans(block: seq<byte>, hist: seq<byte>, p: Piece)
    requires Sound(block, hist, p) && block != [] && InMemory(p)
    ensures Decode(block, 0, hist) == Some(hist + Data(p)) && EndsWell(block, 0, 0, |hist|, |Data(p)|)
      && |Data(p)| == p.n
  {
    hide EncodesAfter, EndsWell, Decode;
    DecoderApi.EncodedEndsWell(block, hist, Data(p));
  }

  lemma BeforeStep(pieces: seq<Piece>, k: nat)
    requires k < |pieces|
    ensures Before(pieces, k + 1) == Before(pieces, k) + Data(pieces[k])
  {
  }

  /** Compressed blocks of at most maxBlock bytes each are a stream for the ring decoder. */
  lemma {:induction false} RunDecodes(pieces: seq<Piece>, blocks: seq<seq<byte>>, m: seq<byte>, places: seq<Ring.Block>,
      k: nat, maxBlock: int)
    requires |blocks| == |pieces| && k <= |pieces| && Arrived(m, places, blocks)
    requires forall i :: 0 <= i < |pieces| ==>
      Sound(blocks[i], Before(pieces, i), pieces[i]) && InMemory(pieces[i]) && pieces[i].n <= maxBlock
    ensures Ring.StreamBytes(m, places, k, Before(pieces, k), maxBlock) == Some(Before(pieces, |pieces|))
    decreases |pieces| - k
  {
    hide EndsWell, Decode, Before, Data, Sound, InMemory, Ring.BlockBytes, Ring.StreamBytes;
    if k < |pieces| {
      var hist := Before(pieces, k);
      SoundMeans(blocks[k], hist, pieces[k]);
      BeforeStep(pieces, k);
      RunDecodes(pieces, blocks, m, places, k + 1, maxBlock);
      StreamTakes(m, places, k, hist, maxBlock, hist + Data(pieces[k]));
    } else {
      Ring.StreamDone(m, places, k, Before(pieces, k), maxBlock);
    }
  }

  /** From end to end: blocks compressed one after another, decoded through a ring buffer of
      LZ4_decoderRingBufferSize(maxBlock) bytes, give back all the data. */
  method RoundTripThroughRing(pieces: seq<Piece>, blocks: seq<seq<byte>>, mem: array<byte>, r: Ring.Ring,
      places: seq<Ring.Block>)
    returns (output: seq<byte>)
    requires |blocks| == |pieces| && Ring.RingFits(r, mem.Length) && Ring.BlocksApart(places, r, mem.Length)
      && Arrived(mem[..], places, blocks)
    requires forall i :: 0 <= i < |pieces| ==>
      Sound(blocks[i], Before(pieces, i), pieces[i]) && InMemory(pieces[i]) && pieces[i].n <= r.maxBlock
    modifies mem
    ensures output == Before(pieces, |pieces|)
  {
    hide Sound, Ring.StreamBytes, Ring.BlocksApart;
    BeforeNothing(pieces);
    RunDecodes(pieces, blocks, mem[..], places, 0, r.maxBlock);
    output := Ring.DecodeStream(mem, r, places, mem[..]);
  }
}
