/** The bytes of a frame as the frame compressor writes them, piece by piece, and what the frame
    format makes of them. */
module FrameEncoding {
  import opened Bytes
  import opened BlockFormat
  import opened BlockShape
  import opened BlockOutput
  import opened FrameFormat
  import DecoderApi

  /** LZ4F_preferences_t */
  datatype Prefs = Prefs(linked: bool, blockChecksum: bool, contentChecksum: bool, contentSize: int, dictID: int,
                         blockSizeID: int, level: int, autoFlush: bool, favorDecSpeed: bool)

  predicate PrefsOk(p: Prefs)
  {
    0 <= p.contentSize < 0x1_0000_0000_0000_0000 && 0 <= p.dictID < 0x1_0000_0000
      && (p.blockSizeID == 0 || 4 <= p.blockSizeID <= 7)
  }

  // ---------- little-endian fields ----------

  function Bytes32(v: int): (r: seq<byte>)
    requires 0 <= v < 0x1_0000_0000
    ensures |r| == 4
  {
    [v % 256, v / 256 % 256, v / 0x1_0000 % 256, v / 0x100_0000]
  }

  lemma Bytes32Means(v: int)
    requires 0 <= v < 0x1_0000_0000
    ensures Le32(Bytes32(v), 0) == v
  {
    Digits(v);
  }

  lemma Digits(v: int)
    requires 0 <= v < 0x1_0000_0000
    ensures v % 256 + 0x100 * (v / 256 % 256) + 0x1_0000 * (v / 0x1_0000 % 256) + 0x100_0000 * (v / 0x100_0000) == v
  {
    var a := v / 256;
    var b := a / 256;
    assert v / 0x1_0000 == b && v / 0x100_0000 == b / 256;
  }

  /** A field is read back wherever it stands. */
  lemma Field32(s: seq<byte>, i: int, v: int)
    requires 0 <= v < 0x1_0000_0000 && At(s, i, Bytes32(v))
    ensures Le32(s, i) == v
  {
    hide Bytes32;
    Bytes32Means(v);
    assert Bytes32(v)[0..4] == Bytes32(v);
    Le32Same(s, i, Bytes32(v), 0);
  }

  function Bytes64(v: int): (r: seq<byte>)
    requires 0 <= v < 0x1_0000_0000_0000_0000
    ensures |r| == 8
  {
    Bytes32(v % 0x1_0000_0000) + Bytes32(v / 0x1_0000_0000)
  }

  lemma Field64(s: seq<byte>, i: int, v: int)
    requires 0 <= v < 0x1_0000_0000_0000_0000 && At(s, i, Bytes64(v))
    ensures Le64(s, i) == v
  {
    hide Bytes32, Le32, At;
    AtParts(s, i, Bytes32(v % 0x1_0000_0000), Bytes32(v / 0x1_0000_0000));
    Field32(s, i, v % 0x1_0000_0000);
    Field32(s, i + 4, v / 0x1_0000_0000);
  }

  // ---------- the header ----------

  function Weight(b: bool, w: nat): nat { if b then w else 0 }

  /** FLG: version 01, then one bit for each choice. */
  function Flg(p: Prefs): byte
  {
    64 + Weight(!p.linked, 32) + Weight(p.blockChecksum, 16) + Weight(p.contentSize > 0, 8) + Weight(p.contentChecksum,
      4) + Weight(p.dictID > 0, 1)
  }

  lemma FlgBits(p: Prefs)
    ensures var f := Flg(p);
      && Bit(f, 32) == !p.linked && Bit(f, 16) == p.blockChecksum && Bit(f, 8) == (p.contentSize > 0)
      && Bit(f, 4) == p.contentChecksum && !Bit(f, 2) && Bit(f, 1) == (p.dictID > 0) && f / 64 == 1
  {
  }

  function SizeID(p: Prefs): int { if p.blockSizeID == 0 then 4 else p.blockSizeID }

  function Bd(p: Prefs): byte
    requires PrefsOk(p)
  {
    SizeID(p) * 16
  }

  lemma FlagsAreOk(p: Prefs)
    requires PrefsOk(p)
    ensures FlagsOk(Flg(p), Bd(p)) && Bd(p) / 16 % 8 == SizeID(p)
  {
    hide Flg;
    FlgBits(p);
  }

  /** What is covered by the header checksum. */
  function Descriptor(p: Prefs): (r: seq<byte>)
    requires PrefsOk(p)
    ensures |r| == 2 + Weight(p.contentSize > 0, 8) + Weight(p.dictID > 0, 4)
  {
    [Flg(p), Bd(p)] + (if p.contentSize > 0 then Bytes64(p.contentSize) else []) + (if p.dictID > 0
      then Bytes32(p.dictID) else [])
  }

  function ChecksumByte(s: seq<byte>): byte
  {
    CrcRange(s);
    HeaderChecksum(s)
  }

  function HeaderBytes(p: Prefs): (r: seq<byte>)
    requires PrefsOk(p)
    ensures MIN_FH_SIZE <= |r| <= MAX_FH_SIZE && |r| == 5 + |Descriptor(p)|
  {
    Bytes32(MAGICNUMBER) + Descriptor(p) + [ChecksumByte(Descriptor(p))]
  }

  function HeaderOf(p: Prefs): Header
    requires PrefsOk(p)
  {
    Header(p.linked, p.blockChecksum, p.contentChecksum, p.contentSize, p.dictID, SizeID(p), |HeaderBytes(p)|)
  }

  lemma DescriptorAt(s: seq<byte>, p: Prefs)
    requires PrefsOk(p) && At(s, 4, Descriptor(p))
    ensures |s| >= 6 && s[4] == Flg(p) && s[5] == Bd(p)
    ensures p.contentSize > 0 ==> Le64(s, 6) == p.contentSize
    ensures p.dictID > 0 ==> Le32(s, 6 + Weight(p.contentSize > 0, 8)) == p.dictID
  {
    hide At, Flg, Bd, Bytes32, Bytes64, Le32, Le64, Weight;
    var a := [Flg(p), Bd(p)];
    var b := if p.contentSize > 0 then Bytes64(p.contentSize) else [];
    var c := if p.dictID > 0 then Bytes32(p.dictID) else [];
    WeightIs(p.contentSize > 0, 8);
    AtParts(s, 4, a + b, c);
    AtParts(s, 4, a, b);
    AtIndex(s, 4, a, 0);
    AtIndex(s, 4, a, 1);
    if p.contentSize > 0 { Field64(s, 6, p.contentSize); }
    if p.dictID > 0 { Field32(s, 6 + |b|, p.dictID); }
  }

  lemma WeightIs(b: bool, w: nat)
    ensures Weight(b, w) == if b then w else 0
  {
  }

  /** The header is read back with every field, whatever follows it. */
  lemma HeaderParses(p: Prefs, tail: seq<byte>)
    requires PrefsOk(p)
    ensures ParseHeader(HeaderBytes(p) + tail) == Some(HeaderOf(p))
  {
    hide At, Flg, Bd, Bytes32, Bytes64, Le32, Le64, Bit, FlagsOk, HeaderChecksum, ChecksumByte;
    var s, d, n := HeaderBytes(p) + tail, Descriptor(p), |HeaderBytes(p)|;
    HeaderPieces(p, tail);
    Field32(s, 0, MAGICNUMBER);
    DescriptorAt(s, p);
    FlgBits(p);
    FlagsAreOk(p);
    ChecksumIs(d);
    assert HeaderSize(s[4]) == n;
  }

  lemma ChecksumIs(s: seq<byte>)
    ensures ChecksumByte(s) == HeaderChecksum(s)
  {
    hide Crc;
  }

  lemma HeaderPieces(p: Prefs, tail: seq<byte>)
    requires PrefsOk(p)
    ensures var s, d, n := HeaderBytes(p) + tail, Descriptor(p), |HeaderBytes(p)|;
      At(s, 0, Bytes32(MAGICNUMBER)) && At(s, 4, d) && s[4..n - 1] == d && s[n - 1] == ChecksumByte(d) && |s| >= n
  {
    hide Descriptor, ChecksumByte, Bytes32;
    var s, d, n := HeaderBytes(p) + tail, Descriptor(p), |HeaderBytes(p)|;
    assert s[0..4] == Bytes32(MAGICNUMBER);
    assert s[4..4 + |d|] == d;
  }

  // ---------- blocks ----------

  /** One data block: header, data, checksum. */
  function BlockBytes(hd: Header, data: seq<byte>, raw: bool): (r: seq<byte>)
    requires |data| < UNCOMPRESSED_FLAG
    ensures |r| == BH_SIZE + |data| + CrcSize(hd.blockChecksum)
  {
    CrcRange(data);
    Bytes32(if raw then UNCOMPRESSED_FLAG + |data| else |data|) + data + (if hd.blockChecksum then Bytes32(Crc(data))
      else [])
  }

  /** data stands for more, after hist, in a frame whose blocks hold at most max bytes. */
  ghost predicate Carries(data: seq<byte>, raw: bool, hist: seq<byte>, more: seq<byte>, max: int)
  {
    && 0 < |data| <= max && |more| <= max
    && if raw then data == more else BlockDecodes(data, hist, more, max)
  }

  lemma BlockPieces(s: seq<byte>, i: int, hd: Header, data: seq<byte>, raw: bool)
    requires |data| < UNCOMPRESSED_FLAG && At(s, i, BlockBytes(hd, data, raw))
    ensures Le32(s, i) == (if raw then UNCOMPRESSED_FLAG + |data| else |data|) && At(s, i + BH_SIZE, data)
    ensures hd.blockChecksum ==> Le32(s, i + BH_SIZE + |data|) == Crc(data)
  {
    hide At, Bytes32, Le32, Crc;
    CrcRange(data);
    var a := Bytes32(if raw then UNCOMPRESSED_FLAG + |data| else |data|);
    var c := if hd.blockChecksum then Bytes32(Crc(data)) else [];
    AtParts(s, i, a + data, c);
    AtParts(s, i, a, data);
    Field32(s, i, if raw then UNCOMPRESSED_FLAG + |data| else |data|);
    if hd.blockChecksum { Field32(s, i + BH_SIZE + |data|, Crc(data)); }
  }

  /** Written at position i, the block is well formed, ends where it should, and adds `more`. */
  lemma BlockIsOk(s: seq<byte>, i: nat, hd: Header, dict: seq<byte>, out: seq<byte>, data: seq<byte>, raw: bool,
      more: seq<byte>)
    requires |data| < UNCOMPRESSED_FLAG && At(s, i, BlockBytes(hd, data, raw))
    requires Carries(data, raw, HistoryOf(hd, dict, out), more, BlockSize(hd.blockSizeID))
    ensures BlockOk(s, i, hd, dict, out) && NextBlock(s, i, hd) == i + |BlockBytes(hd, data, raw)|
    ensures BlockContent(s, i, HistoryOf(hd, dict, out)) == more && Le32(s, i) != 0
  {
    hide Bytes32, Le32, Crc, BlockSize, HistoryOf, BlockBytes, EndsWell, Decode;
    BlockPieces(s, i, hd, data, raw);
    AtBounds(s, i, BlockBytes(hd, data, raw));
    assert BlockData(s, i) == data;
    var hist := HistoryOf(hd, dict, out);
    if !raw { assert (hist + more)[|hist|..] == more; }
  }

  lemma AtBounds<T>(s: seq<T>, i: int, e: seq<T>)
    requires At(s, i, e)
    ensures 0 <= i && i + |e| <= |s|
  {
  }

  // ---------- a frame under construction ----------

  /** What has been written stands for `done`, whatever comes next. */
  ghost predicate SoFar(written: seq<byte>, hd: Header, dict: seq<byte>, done: seq<byte>)
  {
    && hd.size <= |written|
    && (forall tail: seq<byte> :: ParseHeader(written + tail) == Some(hd))
    && forall tail: seq<byte> ::
       Blocks(written + tail, hd.size, hd, dict, []) == Blocks(written + tail, |written|, hd, dict, done)
  }

  lemma SoFarHeader(p: Prefs, dict: seq<byte>)
    requires PrefsOk(p)
    ensures SoFar(HeaderBytes(p), HeaderOf(p), dict, [])
  {
    hide HeaderBytes, ParseHeader, Blocks;
    forall tail: seq<byte> ensures ParseHeader(HeaderBytes(p) + tail) == Some(HeaderOf(p)) {
      HeaderParses(p, tail);
    }
  }

  /** One more block. */
  lemma SoFarBlock(written: seq<byte>, hd: Header, dict: seq<byte>, done: seq<byte>, data: seq<byte>, raw: bool,
      more: seq<byte>)
    requires SoFar(written, hd, dict, done) && |data| < UNCOMPRESSED_FLAG
    requires Carries(data, raw, HistoryOf(hd, dict, done), more, BlockSize(hd.blockSizeID))
    ensures SoFar(written + BlockBytes(hd, data, raw), hd, dict, done + more)
  {
    hide ParseHeader, Carries, BlockBytes, BlockSize, HistoryOf, Blocks;
    var b := BlockBytes(hd, data, raw);
    forall tail: seq<byte>
      ensures ParseHeader(written + b + tail) == Some(hd)
      ensures Blocks(written + b + tail, hd.size, hd, dict, []) == Blocks(written + b + tail, |written + b|, hd, dict,
        done + more)
    {
      Concat3(written, b, tail);
      BlockStep(written, hd, dict, done, data, raw, more, tail);
    }
  }

  lemma BlockStep(written: seq<byte>, hd: Header, dict: seq<byte>, done: seq<byte>, data: seq<byte>, raw: bool,
      more: seq<byte>, tail: seq<byte>)
    requires |data| < UNCOMPRESSED_FLAG
    requires Carries(data, raw, HistoryOf(hd, dict, done), more, BlockSize(hd.blockSizeID))
    ensures var b := BlockBytes(hd, data, raw); var s := written + (b + tail);
      Blocks(s, |written|, hd, dict, done) == Blocks(s, |written| + |b|, hd, dict, done + more)
  {
    hide Carries, BlockBytes, BlockSize, HistoryOf, BlockOk, BlockContent, NextBlock, Le32;
    var b := BlockBytes(hd, data, raw);
    var s := written + (b + tail);
    assert s[|written|..|written| + |b|] == b;
    BlockIsOk(s, |written|, hd, dict, done, data, raw, more);
  }

  /** End mark and content checksum. */
  function EndBytes(hd: Header, full: seq<byte>): (r: seq<byte>)
    ensures |r| == BH_SIZE + CrcSize(hd.contentChecksum)
  {
    CrcRange(full);
    Bytes32(0) + (if hd.contentChecksum then Bytes32(Crc(full)) else [])
  }

  /** The finished frame parses to exactly the content, and nothing is left over. */
  lemma FrameParses(written: seq<byte>, hd: Header, dict: seq<byte>, full: seq<byte>)
    requires SoFar(written, hd, dict, full) && MIN_FH_SIZE <= hd.size
      && (hd.contentSize == 0 || hd.contentSize == |full|)
    requires !IsSkippable(Le32(written + EndBytes(hd, full), 0))
    ensures var s := written + EndBytes(hd, full);
      ParseFrame(s, dict) == Some(Content(hd, full, |written| + BH_SIZE, |s|))
  {
    hide ParseHeader, Blocks, IsSkippable, EndBytes, Crc, Le32;
    var e := EndBytes(hd, full);
    var s := written + e;
    assert ParseHeader(s) == Some(hd);
    EndPieces(written, hd, full);
    EndStops(s, |written|, hd, dict, full);
  }

  lemma EndPieces(written: seq<byte>, hd: Header, full: seq<byte>)
    ensures var s := written + EndBytes(hd, full);
      Le32(s, |written|) == 0 && (hd.contentChecksum ==> Le32(s, |written| + BH_SIZE) == Crc(full))
  {
    hide Crc, Le32, Bytes32, At;
    CrcRange(full);
    var s := written + EndBytes(hd, full);
    var c := if hd.contentChecksum then Bytes32(Crc(full)) else [];
    WholeAt(written, EndBytes(hd, full));
    AtParts(s, |written|, Bytes32(0), c);
    Field32(s, |written|, 0);
    if hd.contentChecksum { Field32(s, |written| + BH_SIZE, Crc(full)); }
  }

  lemma WholeAt<T>(a: seq<T>, b: seq<T>)
    ensures At(a + b, |a|, b)
  {
  }

  lemma EndStops(s: seq<byte>, i: nat, hd: Header, dict: seq<byte>, out: seq<byte>)
    requires i + BH_SIZE <= |s| && Le32(s, i) == 0
    ensures Blocks(s, i, hd, dict, out) == Some((out, i + BH_SIZE))
  {
  }

  /** What the compressor emits is what the frame format accepts as a compressed block. */
  lemma EncodedCarries(data: seq<byte>, hist: seq<byte>, src: seq<byte>, max: int)
    requires EncodesAfter(data, hist, src) && |src| <= MAX_INPUT_SIZE && 0 < |data| <= max && |src| <= max
    ensures Carries(data, false, hist, src, max)
  {
    hide EncodesAfter, Decode, EndsWell;
    EncodesAfterMeans(data, hist, src);
    DecoderApi.EncodedEndsWell(data, hist, src);
  }
}
