/** The capacity formulas of the frame compressor, and the block size it picks for one-shot calls. */
module FrameBound {
  import opened Bytes
  import opened FrameFormat
  import opened FrameEncoding

  function FrameBlockSize(p: Prefs): int { BlockSize(SizeID(p)) }

  function FrameEndSize(p: Prefs): int { BH_SIZE + CrcSize(p.contentChecksum) }

  /** LZ4F_compressBound_internal, with the number of full blocks kept in 32 bits. */
  function BoundInternal(srcSize: int, p: Prefs, alreadyBuffered: int): int
  {
    var flush := p.autoFlush || srcSize == 0;
    var blockSize := FrameBlockSize(p);
    var maxSrcSize := srcSize + Min(alreadyBuffered, blockSize - 1);
    var nbFullBlocks := maxSrcSize / blockSize % 0x1_0000_0000;
    var lastBlockSize := if flush then maxSrcSize % blockSize else 0;
    var nbBlocks := nbFullBlocks + (if lastBlockSize > 0 then 1 else 0);
    (BH_SIZE + CrcSize(p.blockChecksum)) * nbBlocks + blockSize * nbFullBlocks + lastBlockSize + FrameEndSize(p)
  }

  /** LZ4F_compressBound, where (size_t)-1 stands for any amount of buffered data. */
  function UpdateBound(srcSize: int, p: Prefs): int
  {
    BoundInternal(srcSize, p, if p.autoFlush then 0 else 0xFFFF_FFFF_FFFF_FFFF)
  }

  /** LZ4F_compressFrameBound */
  function CompressFrameBound(srcSize: int, p: Prefs): int
  {
    MAX_FH_SIZE + BoundInternal(srcSize, p.(autoFlush := true), 0)
  }

  /** Sizes for which the block count does fit 32 bits. */
  predicate Countable(srcSize: int) { 0 <= srcSize < 0x8000_0000_0000 }

  lemma BlockSizes(p: Prefs)
    ensures 0x1_0000 <= FrameBlockSize(p) <= 0x40_0000
  {
  }

  // ---------- what blocks cost ----------

  function BlockCost(p: Prefs, n: int): int { BH_SIZE + n + CrcSize(p.blockChecksum) }

  /** The most that r bytes in hand can make a call write: full blocks, and the rest if flushed. */
  function Budget(p: Prefs, r: int, flush: bool): int
    decreases r
  {
    var blockSize := FrameBlockSize(p);
    if r >= blockSize then BlockCost(p, blockSize) + Budget(p, r - blockSize, flush)
    else if flush && r > 0 then BlockCost(p, r)
    else 0
  }

  function Closed(p: Prefs, q: int, rest: int, flush: bool): int
  {
    BlockCost(p, FrameBlockSize(p)) * q + (if flush && rest > 0 then BlockCost(p, rest) else 0)
  }

  lemma DivStep(r: int, b: int)
    requires b > 0 && r >= b
    ensures r / b == (r - b) / b + 1 && r % b == (r - b) % b && (r - b) / b >= 0
  {
    DivUnique(r, b, (r - b) / b + 1, (r - b) % b);
  }

  lemma DivUnique(r: int, b: int, q: int, m: int)
    requires b > 0 && r == q * b + m && 0 <= m < b
    ensures r / b == q && r % b == m
  {
    var d, rest := r / b - q, r % b;
    DivDefinition(r, b);
    SmallMultiple(d, b, r / b, q, m - rest);
  }

  lemma DivDefinition(r: int, b: int)
    requires b > 0
    ensures r == r / b * b + r % b && 0 <= r % b < b
  {
  }

  lemma SmallMultiple(d: int, b: int, x: int, y: int, e: int)
    requires b > 0 && d == x - y && x * b - y * b == e && -b < e < b
    ensures d == 0
  {
    assert d * b == e;
    if d >= 1 { MultipleAtLeast(d, b); }
    if d <= -1 { MultipleAtLeast(-d, b); }
  }

  lemma MultipleAtLeast(d: int, b: int)
    requires d >= 1 && b > 0
    ensures d * b >= b && (-d) * b == -(d * b)
  {
  }

  lemma {:induction false} BudgetIsClosed(p: Prefs, r: int, flush: bool)
    requires 0 <= r
    ensures Budget(p, r, flush) == Closed(p, r / FrameBlockSize(p), r % FrameBlockSize(p), flush)
    decreases r
  {
    hide FrameBlockSize;
    BlockSizes(p);
    var b := FrameBlockSize(p);
    if r >= b {
      DivStep(r, b);
      BudgetIsClosed(p, r - b, flush);
      Distribute(BlockCost(p, b), (r - b) / b);
    } else {
      DivUnique(r, b, 0, r);
    }
  }

  lemma Distribute(c: int, q: int)
    ensures c * (q + 1) == c * q + c
  {
  }

  lemma CountFits(r: int, b: int)
    requires 0 <= r < 0x1_0000_0000_0000 && 0x1_0000 <= b
    ensures r / b % 0x1_0000_0000 == r / b
  {
  }

  /** The formula is what the blocks cost, and the end of the frame. */
  lemma BoundIsBudget(srcSize: int, p: Prefs, buffered: int)
    requires Countable(srcSize) && 0 <= buffered < FrameBlockSize(p)
    ensures BoundInternal(srcSize, p, buffered) == Budget(p, srcSize + buffered, p.autoFlush
      || srcSize == 0) + FrameEndSize(p)
  {
    hide FrameBlockSize, Budget;
    BlockSizes(p);
    var b, r := FrameBlockSize(p), srcSize + buffered;
    CountFits(r, b);
    BudgetIsClosed(p, r, p.autoFlush || srcSize == 0);
    var rest := r % b;
    CostSplit(p, r / b, b, if p.autoFlush || srcSize == 0 then rest else 0);
  }

  lemma CostSplit(p: Prefs, q: int, b: int, rest: int)
    requires 0 <= rest
    ensures (BH_SIZE + CrcSize(p.blockChecksum)) * (q + (if rest > 0 then 1 else 0)) + b * q + rest
         == BlockCost(p, b) * q + (if rest > 0 then BlockCost(p, rest) else 0)
  {
    var h := BH_SIZE + CrcSize(p.blockChecksum);
    assert BlockCost(p, b) * q == (h + b) * q == h * q + b * q;
    Distribute(h, q);
  }

  /** A flush can only add to it. */
  lemma {:induction false} BudgetFlush(p: Prefs, r: int)
    requires 0 <= r
    ensures 0 <= Budget(p, r, false) <= Budget(p, r, true)
    decreases r
  {
    hide FrameBlockSize;
    BlockSizes(p);
    if r >= FrameBlockSize(p) { BudgetFlush(p, r - FrameBlockSize(p)); }
  }

  /** More data can only cost more. */
  lemma {:induction false} BudgetMore(p: Prefs, r: int, r1: int, flush: bool)
    requires 0 <= r <= r1
    ensures 0 <= Budget(p, r, flush) <= Budget(p, r1, flush)
    decreases r1
  {
    hide FrameBlockSize;
    BlockSizes(p);
    var b := FrameBlockSize(p);
    if r >= b {
      BudgetMore(p, r - b, r1 - b, flush);
    } else if r1 >= b {
      BudgetMore(p, 0, r1 - b, flush);
    }
  }

  /** LZ4F_compressBound() covers LZ4F_compressUpdate(), whatever is buffered. */
  lemma BoundEnough(p: Prefs, srcSize: int, buffered: int)
    requires Countable(srcSize) && 0 <= buffered < FrameBlockSize(p) && (p.autoFlush ==> buffered == 0)
    ensures BoundInternal(srcSize, p, buffered) <= UpdateBound(srcSize, p)
  {
    hide FrameBlockSize, Budget;
    BlockSizes(p);
    if !p.autoFlush {
      var most := FrameBlockSize(p) - 1;
      assert BoundInternal(srcSize, p, 0xFFFF_FFFF_FFFF_FFFF) == BoundInternal(srcSize, p, most);
      BoundIsBudget(srcSize, p, buffered);
      BoundIsBudget(srcSize, p, most);
      BudgetMore(p, srcSize + buffered, srcSize + most, p.autoFlush || srcSize == 0);
    }
  }

  /** The bound for no input covers LZ4F_flush and LZ4F_compressEnd, whatever is buffered. */
  lemma EmptyBoundCoversEnd(p: Prefs, buffered: int)
    requires 0 <= buffered < FrameBlockSize(p) && !p.autoFlush
    ensures BlockCost(p, buffered) + FrameEndSize(p) <= UpdateBound(0, p)
    ensures buffered + BH_SIZE + BF_SIZE <= UpdateBound(0, p)
  {
    hide FrameBlockSize;
    BlockSizes(p);
    var b := FrameBlockSize(p);
    DivUnique(b - 1, b, 0, b - 1);
  }

  // ---------- LZ4F_optimalBSID ----------

  /** The loop: from 64 KB on, the first size that holds the source. */
  method ProposeBSID(requestedBSID: int, srcSize: int) returns (id: int)
    requires 0 <= srcSize
    ensures id == OptimalBSID(requestedBSID, srcSize)
  {
    var proposed, maxBlockSize := 4, 0x1_0000;
    OptimalFrom4(requestedBSID, srcSize);
    while requestedBSID > proposed
      invariant OptimalBSID(requestedBSID, srcSize) == OptimalFrom(requestedBSID, srcSize, proposed, maxBlockSize)
    {
      if srcSize <= maxBlockSize { return proposed; }
      proposed := proposed + 1;
      maxBlockSize := maxBlockSize * 4;
    }
    return requestedBSID;
  }

  function OptimalFrom(requestedBSID: int, srcSize: int, proposed: int, size: int): int
    decreases requestedBSID - proposed
  {
    if requestedBSID > proposed then
      if srcSize <= size then proposed else OptimalFrom(requestedBSID, srcSize, proposed + 1, size * 4)
    else requestedBSID
  }

  /** The smallest size that holds the source, if it is below the requested one. */
  function OptimalBSID(requestedBSID: int, srcSize: int): int
  {
    if requestedBSID <= 4 then requestedBSID
    else if srcSize <= BlockSize(4) then 4
    else if requestedBSID > 5 && srcSize <= BlockSize(5) then 5
    else if requestedBSID > 6 && srcSize <= BlockSize(6) then 6
    else if requestedBSID > 7 && srcSize <= BlockSize(7) then 7
    else if requestedBSID > 8 then OptimalFrom(requestedBSID, srcSize, 8, 0x100_0000)
    else requestedBSID
  }

  lemma OptimalFrom4(requestedBSID: int, srcSize: int)
    ensures OptimalBSID(requestedBSID, srcSize) == OptimalFrom(requestedBSID, srcSize, 4, 0x1_0000)
  {
    var s := [0x1_0000, 0x4_0000, 0x10_0000, 0x40_0000, 0x100_0000];
    assert OptimalFrom(requestedBSID, srcSize, 4, s[0]) ==
      if requestedBSID > 4 then if srcSize <= s[0] then 4 else OptimalFrom(requestedBSID, srcSize, 5, s[1])
        else requestedBSID;
    assert OptimalFrom(requestedBSID, srcSize, 5, s[1]) ==
      if requestedBSID > 5 then if srcSize <= s[1] then 5 else OptimalFrom(requestedBSID, srcSize, 6, s[2])
        else requestedBSID;
    assert OptimalFrom(requestedBSID, srcSize, 6, s[2]) ==
      if requestedBSID > 6 then if srcSize <= s[2] then 6 else OptimalFrom(requestedBSID, srcSize, 7, s[3])
        else requestedBSID;
    assert OptimalFrom(requestedBSID, srcSize, 7, s[3]) ==
      if requestedBSID > 7 then if srcSize <= s[3] then 7 else OptimalFrom(requestedBSID, srcSize, 8, s[4])
        else requestedBSID;
  }

  /** The block size is only made smaller when one block holds everything, so the bound computed by
      the caller from the preferences it asked for is the bound for those that are used. */
  lemma OptimalKeepsBound(p: Prefs, srcSize: int)
    requires PrefsOk(p) && Countable(srcSize)
    ensures var q := p.(blockSizeID := OptimalBSID(p.blockSizeID, srcSize));
      PrefsOk(q) && CompressFrameBound(srcSize, q) == CompressFrameBound(srcSize, p)
  {
    hide Budget, FrameBlockSize, OptimalBSID, BoundInternal, BlockCost;
    var q := p.(blockSizeID := OptimalBSID(p.blockSizeID, srcSize));
    var p1, q1 := p.(autoFlush := true), q.(autoFlush := true);
    SmallerHolds(p, srcSize);
    if q != p {
      SameBlockSize(p);
      SameBlockSize(q);
      FlushedBound(p1, srcSize);
      FlushedBound(q1, srcSize);
      SameCosts(p1, q1, srcSize);
    }
  }

  lemma SameBlockSize(p: Prefs)
    ensures FrameBlockSize(p.(autoFlush := true)) == FrameBlockSize(p)
  {
  }

  lemma FlushedBound(p: Prefs, srcSize: int)
    requires Countable(srcSize) && p.autoFlush && srcSize <= FrameBlockSize(p)
    ensures BoundInternal(srcSize, p, 0) == (if srcSize > 0 then BlockCost(p, srcSize) else 0) + FrameEndSize(p)
  {
    hide Budget, FrameBlockSize, BoundInternal, BlockCost;
    BlockSizes(p);
    BoundIsBudget(srcSize, p, 0);
    OneBlock(p, srcSize);
  }

  lemma SameCosts(p: Prefs, q: Prefs, n: int)
    requires q == p.(blockSizeID := q.blockSizeID)
    ensures BlockCost(p, n) == BlockCost(q, n) && FrameEndSize(p) == FrameEndSize(q)
  {
  }

  lemma SmallerHolds(p: Prefs, srcSize: int)
    requires PrefsOk(p)
    ensures var q := p.(blockSizeID := OptimalBSID(p.blockSizeID, srcSize));
      PrefsOk(q) && (q != p ==> srcSize <= FrameBlockSize(q) <= FrameBlockSize(p))
  {
  }

  lemma OneBlock(p: Prefs, srcSize: int)
    requires 0 <= srcSize <= FrameBlockSize(p) && 0 < FrameBlockSize(p)
    ensures Budget(p, srcSize, true) == if srcSize > 0 then BlockCost(p, srcSize) else 0
  {
    hide FrameBlockSize;
    if srcSize == FrameBlockSize(p) { assert Budget(p, 0, true) == 0; }
  }
}
