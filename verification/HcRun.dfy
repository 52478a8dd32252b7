/** Whole runs of an HC compression stream: any number of blocks, at any level, with the caller's memory
    changing between them. */
module HcRun {
  import opened Bytes
  import opened BlockFormat
  import opened BlockOutput
  import opened Windows
  import opened HcHistory
  import opened HcStream
  import opened Runs
  import opened HcContinue
  import A = HcApi

  /** What the caller owes from block k on: the last block can still be read, and the window the call
      will use shows the end of the history; w is what the stream remembers. */
  ghost predicate RunOk(w: Window, pieces: seq<Piece>, k: nat, hist: seq<byte>, capacity: int,
      level: int)
    decreases |pieces| - k
  {
    k < |pieces| ==>
      var p := pieces[k];
      && InMemory(p) && 0 <= p.cap <= capacity && PieceOk(w, p, hist, level)
      && RunOk(Next(w, p.source, p.n), pieces, k + 1, hist + Data(p), capacity, level)
  }

  ghost predicate PieceOk(w: Window, p: Piece, hist: seq<byte>, level: int)
  {
    var u := InUse(w, p.source, p.n);
    && Readable(Start(w, p.source), |p.mem|) && InPlace(p.mem, u, hist)
    && (u.lo < u.dl ==> u.dictBase + u.dl + Behind(level) <= |p.mem|)
  }

  method CompressOne(c: Stream, p: Piece, dst: array<byte>, ghost hist: seq<byte>) returns (block: seq<byte>)
    requires Live(c) && c.dictCtx == null && InMemory(p) && 0 <= p.cap <= dst.Length
      && PieceOk(c.W(), p, hist, c.compressionLevel)
    modifies c, c.table, c.table.hashTable, c.table.chainTable, dst
    ensures Behind(c.compressionLevel) == Behind(old(c.compressionLevel))
    ensures Live(c) && c.dictCtx == null && c.W() == Next(old(c.W()), p.source, p.n)
    ensures Sound(block, hist, p)
  {
    hide InPlace, EncodesAfter, Decode, Live, InUse, Readable, CompressBound;
    var result := A.CompressHCContinue(c, p.mem, p.source, p.n, dst, p.cap, hist);
    block := dst[..result];
    assert block == dst[..][..result];
    if result > 0 { EncodesAfterMeans(block, hist, Data(p)); }
  }

  /** A run of any length from LZ4_initStreamHC. */
  method CompressRun(pieces: seq<Piece>, dst: array<byte>, level: int) returns (blocks: seq<seq<byte>>)
    requires RunOk(Window(0, 0, 0, 0, 0), pieces, 0, [], dst.Length, level)
    modifies dst
    ensures |blocks| == |pieces| && forall k :: 0 <= k < |pieces| ==> Sound(blocks[k], Before(pieces, k), pieces[k])
  {
    hide Live, Sound, RunOk, Before, InPlace, Next, PieceOk;
    var c := new Stream();
    SetCompressionLevel(c, level);
    BlankIsLive(c, []);
    blocks := [];
    BeforeNothing(pieces);
    for k := 0 to |pieces|
      invariant fresh(c) && fresh(c.table) && fresh(c.table.hashTable) && fresh(c.table.chainTable)
      invariant Live(c) && c.dictCtx == null && |blocks| == k && Behind(c.compressionLevel) == Behind(level)
      invariant RunOk(c.W(), pieces, k, Before(pieces, k), dst.Length, level)
      invariant forall i :: 0 <= i < k ==> Sound(blocks[i], Before(pieces, i), pieces[i])
    {
      RunStep(c.W(), pieces, k, dst.Length, level);
      SameBehind(c.W(), pieces[k], Before(pieces, k), level, c.compressionLevel);
      var block := CompressOne(c, pieces[k], dst, Before(pieces, k));
      blocks := blocks + [block];
    }
  }

  lemma SameBehind(w: Window, p: Piece, hist: seq<byte>, level: int, level1: int)
    requires PieceOk(w, p, hist, level) && Behind(level) == Behind(level1)
    ensures PieceOk(w, p, hist, level1)
  {
    hide InUse, InPlace, Readable;
  }

  lemma RunStep(w: Window, pieces: seq<Piece>, k: nat, capacity: int, level: int)
    requires k < |pieces| && RunOk(w, pieces, k, Before(pieces, k), capacity, level)
    ensures var p := pieces[k];
      && InMemory(p) && 0 <= p.cap <= capacity && PieceOk(w, p, Before(pieces, k), level)
      && RunOk(Next(w, p.source, p.n), pieces, k + 1, Before(pieces, k + 1), capacity, level)
  {
    hide PieceOk, Next, InMemory, Data;
  }
}
