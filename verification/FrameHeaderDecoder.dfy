/** LZ4F_decodeHeader: the frame descriptor, from the input or from the header buffer. */
module FrameHeaderDecoder {
  import opened Bytes
  import opened DecoderCopies
  import opened Memory
  import opened FrameFormat
  import opened FrameHistory
  import opened FrameState
  import Xxh32

  datatype Error =
    | NoError | FrameTypeUnknown | ReservedFlagSet | HeaderVersionWrong | MaxBlockSizeInvalid | HeaderChecksumInvalid
    | BlockChecksumInvalid | ContentChecksumInvalid | FrameSizeWrong | DecompressionFailed | GenericError

  // ---------- reading ----------

  lemma BufferedAt(m: seq<byte>, addr: int, k: int, s: seq<byte>, i: int, j: int)
    requires Buffered(m, addr, k, s, i) && 0 <= j < k
    ensures 0 <= addr + j < |m| && 0 <= i + j < |s| && m[addr + j] == s[i + j]
  {
    assert m[addr..addr + k][j] == s[i..i + k][j];
  }

  method ReadByte(mem: array<byte>, p: int, j: int, ghost k: int, ghost s: seq<byte>, ghost i: int) returns (b: byte)
    requires Buffered(mem[..], p, k, s, i) && 0 <= j < k
    ensures 0 <= i + j < |s| && b == s[i + j]
  {
    BufferedAt(mem[..], p, k, s, i, j);
    b := mem[p + j];
  }

  /** LZ4F_readLE32 */
  method ReadLE32(mem: array<byte>, p: int, j: int, ghost k: int, ghost s: seq<byte>, ghost i: int) returns (v: int)
    requires Buffered(mem[..], p, k, s, i) && 0 <= j && j + 4 <= k
    ensures v == Le32(s, i + j)
  {
    hide Buffered;
    BufferedIn(mem[..], p, k, s, i);
    BufferedAt(mem[..], p, k, s, i, j);
    BufferedAt(mem[..], p, k, s, i, j + 1);
    BufferedAt(mem[..], p, k, s, i, j + 2);
    BufferedAt(mem[..], p, k, s, i, j + 3);
    v := LE32(mem[p + j], mem[p + j + 1], mem[p + j + 2], mem[p + j + 3]);
  }

  lemma BufferedIn(m: seq<byte>, addr: int, k: int, s: seq<byte>, i: int)
    requires Buffered(m, addr, k, s, i)
    ensures 0 <= k && 0 <= addr && addr + k <= |m| && 0 <= i && i + k <= |s| && m[addr..addr + k] == s[i..i + k]
  {
  }

  /** XXH32 of bytes that are in memory. */
  method Checksum(mem: array<byte>, p: int, from: int, n: int, ghost k: int, ghost s: seq<byte>, ghost i: int)
      returns (v: int)
    requires Buffered(mem[..], p, k, s, i) && 0 <= from && 0 <= n && from + n <= k
    ensures v == Crc(s[i + from..i + from + n])
  {
    hide Buffered;
    BufferedPart(mem[..], p, k, s, i, from, n);
    BufferedIn(mem[..], p + from, n, s, i + from);
    var h := Xxh32.OneShot(mem[p + from..p + from + n], 0);
    v := h as int;
  }

  /** XXH32_digest of a state that has been fed x. */
  method Digest(x: seq<byte>) returns (v: int)
    ensures v == Crc(x)
  {
    var h := Xxh32.OneShot(x, 0);
    v := h as int;
  }

  // ---------- what a frame that parses looks like ----------

  lemma SkippableFacts(r: Run)
    requires RunOk(r) && r.frame.Skippable?
    ensures IsSkippable(Le32(r.s, 0)) && 8 <= |r.s| && r.frame.end == 8 + Le32(r.s, 4) <= |r.s|
  {
    hide Le32, ParseHeader, Blocks, Crc;
  }

  lemma ContentFacts(r: Run)
    requires RunOk(r) && r.frame.Content?
    ensures !IsSkippable(Le32(r.s, 0)) && ParseHeader(r.s) == Some(r.frame.hd) && Boundary(r, r.frame.hd.size, [])
    ensures r.frame.hd.contentSize == 0 || r.frame.hd.contentSize == |r.frame.full|
    ensures r.frame.end == r.frame.bodyEnd + CrcSize(r.frame.hd.contentChecksum)
    ensures r.frame.hd.contentChecksum ==> r.frame.end <= |r.s| && Le32(r.s, r.frame.bodyEnd) == Crc(r.frame.full)
  {
    hide Le32, ParseHeader, Blocks, Crc;
  }

  lemma HeaderFacts(s: seq<byte>, hd: Header)
    requires ParseHeader(s) == Some(hd)
    ensures MIN_FH_SIZE <= |s| && Le32(s, 0) == MAGICNUMBER
    ensures !Bit(s[4], 2) && s[4] / 64 == 1 && s[5] % 16 == 0 && !Bit(s[5], 128)
    ensures hd.size == HeaderSize(s[4]) <= |s| && HeaderChecksum(s[4..hd.size - 1]) == s[hd.size - 1]
    ensures hd.linked == !Bit(s[4], 32) && hd.blockChecksum == Bit(s[4], 16) && hd.contentChecksum == Bit(s[4], 4)
    ensures hd.contentSize == (if Bit(s[4], 8) then Le64(s, 6) else 0)
    ensures hd.dictID == (if Bit(s[4], 1) then Le32(s, hd.size - 5) else 0)
    ensures hd.blockSizeID == s[5] / 16 % 8 && 4 <= hd.blockSizeID <= 7 && MIN_FH_SIZE <= hd.size <= MAX_FH_SIZE
  {
    hide Le32, HeaderChecksum;
    BlockSizeIdRange(s[5]);
  }

  lemma BlockSizeIdRange(bd: byte)
    requires bd % 16 == 0 && !Bit(bd, 128) && 4 <= bd / 16
    ensures 4 <= bd / 16 % 8 <= 7
  {
  }

  /** What the first bytes say, as the decoder checks them. */
  lemma HeaderKind(r: Run)
    requires RunOk(r)
    ensures r.frame.Skippable? <==> IsSkippable(Le32(r.s, 0))
    ensures r.frame.Content? ==> (
      && Le32(r.s, 0) == MAGICNUMBER && 4 < |r.s| && !Bit(r.s[4], 2) && r.s[4] / 64 == 1
      && r.frame.hd.size == HeaderSize(r.s[4]))
  {
    hide Le32, ParseHeader, Crc, Boundary, Bit, HeaderSize, IsSkippable;
    if r.frame.Skippable? { SkippableFacts(r); } else { ContentFacts(r); HeaderFacts(r.s, r.frame.hd); }
  }

  const NO_INFO := FrameInfo(false, true, false, false, 0, 0, 0)

  /** LZ4F_decodeHeader, for srcSize bytes at p: in the header buffer, or enough input for any header. */
  method DecodeHeader(d: Dctx, mem: array<byte>, p: int, srcSize: int, ghost m: seq<byte>, ghost r: Run)
      returns (n: int, error: Error)
    requires mem[..] == m && RunOk(r) && Buffered(m, p, srcSize, r.s, 0) && MIN_FH_SIZE <= srcSize
    requires p != d.header ==> MAX_FH_SIZE <= srcSize
    modifies d
    ensures error == NoError
    ensures unchanged(d`dict, d`dictSize, d`maxBufferSize, d`tmpInCapacity, d`out, d`dec, d`pos)
    ensures r.frame.Skippable? ==> d.frameRemainingSize == old(d.frameRemainingSize)
    ensures r.frame.Skippable? && p == d.header ==>
      n == srcSize && d.dStage == StoreSFrameSize && d.tmpInSize == srcSize && d.tmpInTarget == 8
    ensures r.frame.Skippable? && p != d.header ==> n == 4 && d.dStage == GetSFrameSize
    ensures r.frame.Content? && srcSize < r.frame.hd.size ==> (
      && n == srcSize && d.dStage == StoreFrameHeader && d.tmpInSize == srcSize && d.tmpInTarget == r.frame.hd.size
      && d.frameRemainingSize == old(d.frameRemainingSize))
    ensures r.frame.Content? && r.frame.hd.size <= srcSize ==> (
      && n == r.frame.hd.size && d.dStage == Init && InfoIs(StateOf(d), r)
      && d.frameRemainingSize == if Bit(r.s[4], 8) then r.frame.hd.contentSize else old(d.frameRemainingSize))
  {
    hide Buffered, Le32, HeaderChecksum, ParseHeader, Crc, Boundary, Bit, HeaderSize, BlockSize, IsSkippable, InfoIs,
      RunOk;
    HeaderKind(r);
    BufferedIn(m, p, srcSize, r.s, 0);
    d.info := NO_INFO;
    var magic := ReadLE32(mem, p, 0, srcSize, r.s, 0);
    if IsSkippable(magic) {
      d.info := d.info.(skippable := true);
      if p == d.header {
        d.tmpInSize := srcSize;
        d.tmpInTarget := 8;
        d.dStage := StoreSFrameSize;
        return srcSize, NoError;
      }
      d.dStage := GetSFrameSize;
      return 4, NoError;
    }
    if magic != MAGICNUMBER { return 0, FrameTypeUnknown; }
    var flg := ReadByte(mem, p, 4, srcSize, r.s, 0);
    if Bit(flg, 2) { return 0, ReservedFlagSet; }
    if flg / 64 != 1 { return 0, HeaderVersionWrong; }
    var frameHeaderSize := HeaderSize(flg);
    if srcSize < frameHeaderSize {
      d.tmpInSize := srcSize;
      d.tmpInTarget := frameHeaderSize;
      d.dStage := StoreFrameHeader;
      return srcSize, NoError;
    }
    n, error := DecodeDescriptor(d, mem, p, srcSize, flg, frameHeaderSize, r);
  }

  lemma OptionalFields(flg: byte)
    ensures Bit(flg, 8) ==> 15 <= HeaderSize(flg)
    ensures Bit(flg, 1) ==> 11 <= HeaderSize(flg)
    ensures MIN_FH_SIZE <= HeaderSize(flg) <= MAX_FH_SIZE
  {
  }

  /** Content size and dictionary ID, where the flags announce them. */
  method ReadOptional(mem: array<byte>, p: int, ghost srcSize: int, flg: byte, frameHeaderSize: int, ghost s: seq<byte>)
    returns (contentSize: int, dictID: int)
    requires Buffered(mem[..], p, srcSize, s, 0) && frameHeaderSize == HeaderSize(flg) <= srcSize
    ensures contentSize == (if Bit(flg, 8) then Le64(s, 6) else 0)
    ensures dictID == (if Bit(flg, 1) then Le32(s, frameHeaderSize - 5) else 0)
  {
    hide Buffered, Le32, Bit, HeaderSize;
    OptionalFields(flg);
    contentSize, dictID := 0, 0;
    if Bit(flg, 8) {
      var lo := ReadLE32(mem, p, 6, srcSize, s, 0);
      var hi := ReadLE32(mem, p, 10, srcSize, s, 0);
      contentSize := lo + 0x1_0000_0000 * hi;
    }
    if Bit(flg, 1) { dictID := ReadLE32(mem, p, frameHeaderSize - 5, srcSize, s, 0); }
  }

  /** The part behind the flags. */
  method DecodeDescriptor(d: Dctx, mem: array<byte>, p: int, ghost srcSize: int, flg: byte, frameHeaderSize: int,
      ghost r: Run)
    returns (n: int, error: Error)
    requires RunOk(r) && Buffered(mem[..], p, srcSize, r.s, 0) && r.frame.Content?
    requires 4 < |r.s| && flg == r.s[4] && frameHeaderSize == HeaderSize(flg) <= srcSize
    modifies d`info, d`maxBlockSize, d`frameRemainingSize, d`dStage
    ensures error == NoError && n == r.frame.hd.size && d.dStage == Init && InfoIs(StateOf(d), r)
    ensures d.frameRemainingSize == if Bit(flg, 8) then r.frame.hd.contentSize else old(d.frameRemainingSize)
  {
    hide Buffered, Le32, ParseHeader, Crc, Boundary, Bit, HeaderSize, BlockSize, RunOk;
    ContentFacts(r);
    HeaderFacts(r.s, r.frame.hd);
    BufferedIn(mem[..], p, srcSize, r.s, 0);
    var bd := ReadByte(mem, p, 5, srcSize, r.s, 0);
    if Bit(bd, 128) { return 0, ReservedFlagSet; }
    if bd / 16 % 8 < 4 { return 0, MaxBlockSizeInvalid; }
    if bd % 16 != 0 { return 0, ReservedFlagSet; }
    var crc := Checksum(mem, p, 4, frameHeaderSize - 5, srcSize, r.s, 0);
    var hc := ReadByte(mem, p, frameHeaderSize - 1, srcSize, r.s, 0);
    if crc / 256 % 256 != hc { return 0, HeaderChecksumInvalid; }
    var contentSize, dictID := ReadOptional(mem, p, srcSize, flg, frameHeaderSize, r.s);
    d.info := FrameInfo(false, !Bit(flg, 32), Bit(flg, 16), Bit(flg, 4), contentSize, bd / 16 % 8, dictID);
    d.maxBlockSize := BlockSize(bd / 16 % 8);
    if Bit(flg, 8) { d.frameRemainingSize := contentSize; }
    d.dStage := Init;
    return frameHeaderSize, NoError;
  }
}
