/** Whole runs of a fast compression stream: any number of blocks, with the caller's memory changing
    between them. */
module FastRun {
  import opened Bytes
  import opened BlockFormat
  import opened BlockOutput
  import opened FastTable
  import opened Alias
  import opened FastStream
  import opened FastHistory
  import opened Runs
  import C = FastContinue

  /** What the caller owes from block k on: of the history only what the call will still use has to be
      in memory unchanged, and no external dictionary starts where the source does, unless their sizes
      are tame.  The condition speaks of addresses, sizes and contents alone; `w` is what the stream remembers. */
  ghost predicate RunOk(w: Where, pieces: seq<Piece>, k: nat, hist: seq<byte>, capacity: int)
    decreases |pieces| - k
  {
    k < |pieces| ==>
      var p := pieces[k];
      var u := InUse(w, p.source, p.n).dict;
      && InMemory(p) && 0 <= p.cap <= capacity
      && (u.End() == p.source || u.start != p.source || Tame(u.size, p.n)) && InPlace(p.mem, u, hist)
      && RunOk(Next(w, p.source, p.n), pieces, k + 1, hist + Data(p), capacity)
  }

  method CompressOne(c: Stream, p: Piece, dst: array<byte>, wide: bool, ghost hist: seq<byte>)
      returns (block: seq<byte>)
    requires Live(c) && c.dictCtx == null && InMemory(p) && 0 <= p.cap <= dst.Length
    requires var u := InUse(Of(c), p.source, p.n).dict;
      (u.End() == p.source || u.start != p.source || Tame(u.size, p.n)) && InPlace(p.mem, u, hist)
    modifies c, c.hashTable, dst
    ensures Live(c) && c.dictCtx == null && Of(c) == Next(old(Of(c)), p.source, p.n)
    ensures Sound(block, hist, p)
  {
    hide InPlace, EncodesAfter, Decode, OwnOk, InUse, Next, Tame;
    var result := C.CompressFastContinue(c, p.mem, p.source, dst, p.n, p.cap, p.acceleration, wide, hist);
    block := dst[..result];
    assert block == dst[..][..result];
    if result > 0 { EncodesAfterMeans(block, hist, Data(p)); }
  }

  /** A run of any length from LZ4_initStream. */
  method CompressRun(pieces: seq<Piece>, dst: array<byte>, wide: bool) returns (blocks: seq<seq<byte>>)
    requires RunOk(Where(0, Dict(0, 0)), pieces, 0, [], dst.Length)
    modifies dst
    ensures |blocks| == |pieces| && forall k :: 0 <= k < |pieces| ==> Sound(blocks[k], Before(pieces, k), pieces[k])
  {
    hide Live, Sound, RunOk, Before, InPlace, InUse, Next, Tame;
    var c := new Stream();
    InitialIsLive(c, []);
    blocks := [];
    BeforeNothing(pieces);
    for k := 0 to |pieces|
      invariant fresh(c) && fresh(c.hashTable) && Live(c) && c.dictCtx == null && |blocks| == k
      invariant RunOk(Of(c), pieces, k, Before(pieces, k), dst.Length)
      invariant forall i :: 0 <= i < k ==> Sound(blocks[i], Before(pieces, i), pieces[i])
    {
      RunStep(Of(c), pieces, k, dst.Length);
      var block := CompressOne(c, pieces[k], dst, wide, Before(pieces, k));
      blocks := blocks + [block];
    }
  }

  lemma RunStep(w: Where, pieces: seq<Piece>, k: nat, capacity: int)
    requires k < |pieces| && RunOk(w, pieces, k, Before(pieces, k), capacity)
    ensures var p := pieces[k]; var u := InUse(w, p.source, p.n).dict;
      && InMemory(p) && 0 <= p.cap <= capacity && (u.End() == p.source || u.start != p.source || Tame(u.size, p.n))
      && InPlace(p.mem, u, Before(pieces, k))
      && RunOk(Next(w, p.source, p.n), pieces, k + 1, Before(pieces, k + 1), capacity)
  {
    hide InPlace, InUse, Next, InMemory, Data, Tame;
  }
}
