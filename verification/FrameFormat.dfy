/** The LZ4 frame format: header, blocks, suffix and skippable frames, and the content a frame
    stands for.  Frame encoder and decoder are proved against it. */
module FrameFormat {
  import opened Bytes
  import opened BlockFormat
  import opened BlockShape
  import Xxh32

  const MAGICNUMBER: int := 0x184D_2204
  const MAGIC_SKIPPABLE_START: int := 0x184D_2A50
  const MIN_FH_SIZE: nat := 7
  const MAX_FH_SIZE: nat := 19
  const BH_SIZE: nat := 4
  const BF_SIZE: nat := 4
  const UNCOMPRESSED_FLAG: int := 0x8000_0000

  function Le32(s: seq<byte>, i: int): int
  {
    if 0 <= i && i + 4 <= |s| then LE32(s[i], s[i + 1], s[i + 2], s[i + 3]) else 0
  }

  function Le64(s: seq<byte>, i: int): int { Le32(s, i) + 0x1_0000_0000 * Le32(s, i + 4) }

  function Bit(b: byte, weight: nat): bool
    requires 0 < weight
  {
    b / weight % 2 == 1
  }

  /** XXH32 with seed 0, as a number. */
  function Crc(s: seq<byte>): int { Xxh32.Hash(s, 0) as int }

  function HeaderChecksum(s: seq<byte>): int { Crc(s) / 256 % 256 }

  // ---------- frame descriptor ----------

  datatype Header = Header(linked: bool, blockChecksum: bool, contentChecksum: bool, contentSize: int, dictID: int,
                           blockSizeID: int, size: nat)

  function BlockSize(id: int): int
  {
    if id == 4 then 0x1_0000 else if id == 5 then 0x4_0000 else if id == 6 then 0x10_0000 else 0x40_0000
  }

  function HeaderSize(flg: byte): nat
  {
    MIN_FH_SIZE + (if Bit(flg, 8) then 8 else 0) + (if Bit(flg, 1) then 4 else 0)
  }

  predicate IsSkippable(magic: int) { MAGIC_SKIPPABLE_START <= magic < MAGIC_SKIPPABLE_START + 16 }

  /** FLG and BD are well formed. */
  predicate FlagsOk(flg: byte, bd: byte)
  {
    !Bit(flg, 2) && flg / 64 == 1 && bd % 16 == 0 && !Bit(bd, 128) && 4 <= bd / 16
  }

  function ParseHeader(s: seq<byte>): Option<Header>
  {
    if |s| < MIN_FH_SIZE || Le32(s, 0) != MAGICNUMBER || !FlagsOk(s[4], s[5]) || |s| < HeaderSize(s[4]) then None
    else
      var flg, n := s[4], HeaderSize(s[4]);
      if HeaderChecksum(s[4..n - 1]) != s[n - 1] then None
      else Some(Header(!Bit(flg, 32), Bit(flg, 16), Bit(flg, 4), if Bit(flg, 8) then Le64(s, 6) else 0,
                       if Bit(flg, 1) then Le32(s, n - 5) else 0, s[5] / 16 % 8, n))
  }

  // ---------- data blocks ----------

  function DataSize(h: int): int { h % UNCOMPRESSED_FLAG }

  predicate IsRaw(h: int) { UNCOMPRESSED_FLAG <= h }

  function CrcSize(flag: bool): nat { if flag then BF_SIZE else 0 }

  /** Behind the block that starts at i. */
  function NextBlock(s: seq<byte>, i: int,
      hd: Header): int { i + BH_SIZE + DataSize(Le32(s, i)) + CrcSize(hd.blockChecksum) }

  function BlockData(s: seq<byte>, i: int): seq<byte>
  {
    var n := DataSize(Le32(s, i));
    if 0 <= i && i + BH_SIZE + n <= |s| then s[i + BH_SIZE..i + BH_SIZE + n] else []
  }

  /** The history a block may refer to: everything before it in a linked frame. */
  function HistoryOf(hd: Header, dict: seq<byte>, out: seq<byte>): seq<byte>
  {
    if hd.linked then dict + out else dict
  }

  /** A block's bytes are in place, of acceptable size, and match their checksum. */
  ghost predicate BlockFramed(s: seq<byte>, i: int, hd: Header)
  {
    && 0 <= i && Le32(s, i) != 0 && NextBlock(s, i, hd) <= |s| && DataSize(Le32(s, i)) <= BlockSize(hd.blockSizeID)
    && (hd.blockChecksum ==> Le32(s, NextBlock(s, i, hd) - BF_SIZE) == Crc(BlockData(s, i)))
  }

  /** What a compressed block adds to the content. */
  ghost predicate BlockDecodes(data: seq<byte>, hist: seq<byte>, more: seq<byte>, max: int)
  {
    Decode(data, 0, hist) == Some(hist + more) && |more| <= max && EndsWell(data, 0, 0, |hist|, |more|)
  }

  function BlockContent(s: seq<byte>, i: int, hist: seq<byte>): seq<byte>
  {
    if IsRaw(Le32(s, i)) then BlockData(s, i)
    else match Decode(BlockData(s, i), 0, hist)
      case Some(f) => if |hist| <= |f| then f[|hist|..] else []
      case None => []
  }

  ghost predicate BlockOk(s: seq<byte>, i: int, hd: Header, dict: seq<byte>, out: seq<byte>)
  {
    var hist := HistoryOf(hd, dict, out);
    && BlockFramed(s, i, hd)
    && (IsRaw(Le32(s, i)) || BlockDecodes(BlockData(s, i), hist, BlockContent(s, i, hist), BlockSize(hd.blockSizeID)))
  }

  /** The content of the frame and the position behind the end mark, from the block at i on. */
  ghost function Blocks(s: seq<byte>, i: nat, hd: Header, dict: seq<byte>, out: seq<byte>): Option<(seq<byte>, nat)>
    decreases |s| - i
  {
    if i + BH_SIZE > |s| then None
    else if Le32(s, i) == 0 then Some((out, i + BH_SIZE))
    else if !BlockOk(s, i, hd, dict, out) then None
    else Blocks(s, NextBlock(s, i, hd), hd, dict, out + BlockContent(s, i, HistoryOf(hd, dict, out)))
  }

  // ---------- the frame ----------

  /** What the bytes at the start of s, taken as one frame, stand for and where that frame ends. */
  datatype Frame =
    | Skippable(end: nat)
    | Content(hd: Header, full: seq<byte>, bodyEnd: nat, end: nat)

  ghost function ParseFrame(s: seq<byte>, dict: seq<byte>): Option<Frame>
  {
    if |s| < MIN_FH_SIZE then None
    else if IsSkippable(Le32(s, 0)) then
      if |s| < 8 || |s| < 8 + Le32(s, 4) then None else Some(Skippable(8 + Le32(s, 4)))
    else match ParseHeader(s)
      case None => None
      case Some(hd) =>
        match Blocks(s, hd.size, hd, dict, [])
        case None => None
        case Some(b) =>
          var full, j := b.0, b.1;
          if hd.contentSize != 0 && hd.contentSize != |full| then None
          else if hd.contentChecksum && (j + 4 > |s| || Le32(s, j) != Crc(full)) then None
          else Some(Content(hd, full, j, j + CrcSize(hd.contentChecksum)))
  }

  // ---------- facts ----------

  lemma Le32Range(s: seq<byte>, i: int)
    ensures 0 <= Le32(s, i) < 0x1_0000_0000
  {
  }

  lemma CrcRange(s: seq<byte>)
    ensures 0 <= Crc(s) < 0x1_0000_0000
  {
    hide Xxh32.Hash;
  }

  /** Bytes read elsewhere give the same number. */
  lemma Le32Same(s: seq<byte>, i: int, t: seq<byte>, j: int)
    requires 0 <= i && i + 4 <= |s| && 0 <= j && j + 4 <= |t| && s[i..i + 4] == t[j..j + 4]
    ensures Le32(s, i) == Le32(t, j)
  {
    assert forall k {:trigger s[i..i + 4][k]} :: 0 <= k < 4 ==>
      s[i..i + 4][k] == s[i + k] && t[j..j + 4][k] == t[j + k];
    var a, b := s[i..i + 4], t[j..j + 4];
    assert a[0] == b[0] && a[1] == b[1] && a[2] == b[2] && a[3] == b[3];
  }

  lemma DataSizeRange(s: seq<byte>, i: int)
    ensures 0 <= DataSize(Le32(s, i)) < UNCOMPRESSED_FLAG
    ensures Le32(s, i) == DataSize(Le32(s, i)) + (if IsRaw(Le32(s, i)) then UNCOMPRESSED_FLAG else 0)
  {
  }

  /** Content only grows, block by block. */
  lemma {:induction false} BlocksGrow(s: seq<byte>, i: nat, hd: Header, dict: seq<byte>, out: seq<byte>)
    requires Blocks(s, i, hd, dict, out).Some?
    ensures var b := Blocks(s, i, hd, dict, out).value;
      |out| <= |b.0| && b.0[..|out|] == out && i + BH_SIZE <= b.1 <= |s|
    decreases |s| - i
  {
    hide BlockOk, BlockContent, HistoryOf;
    if Le32(s, i) != 0 {
      var more := BlockContent(s, i, HistoryOf(hd, dict, out));
      OkFramed(s, i, hd, dict, out);
      DataSizeRange(s, i);
      BlocksGrow(s, NextBlock(s, i, hd), hd, dict, out + more);
      var f := Blocks(s, i, hd, dict, out).value.0;
      assert f[..|out|] == f[..|out + more|][..|out|];
    }
  }

  lemma OkFramed(s: seq<byte>, i: int, hd: Header, dict: seq<byte>, out: seq<byte>)
    requires BlockOk(s, i, hd, dict, out)
    ensures BlockFramed(s, i, hd)
  {
  }
}
