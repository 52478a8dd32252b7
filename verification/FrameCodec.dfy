/** What the frame compressor does with a block stream, fast or HC by compression level: context
    management, LZ4F_initStream, the four block compressors, digested dictionaries and LZ4F_makeBlock. */
module FrameCodec {
  import opened Bytes
  import opened BlockFormat
  import opened BlockWriter
  import opened BlockOutput
  import opened Memory
  import opened FrameFormat
  import opened FrameEncoding
  import F = FastStream
  import FT = FastTable
  import FA = FastApi
  import FH = FastHistory
  import FC = FastContinue
  import H = HcStream
  import HT = HcTables
  import HH = HcHistory
  import HA = HcApi
  import HC = HcContinue
  import Xxh32

  // ---------- digested dictionaries ----------

  /** LZ4F_CDict: a private copy of the last 64 KB of a dictionary, and the streams loaded with it. */
  datatype CDict = CDict(start: int, size: int, fastCtx: F.Stream, hcCtx: H.Stream)

  ghost predicate FastDictOk(d: F.Stream, start: int, size: int)
    reads d, d.hashTable
  {
    d.dictSize != 0 ==> FH.Loaded(d) && d.dictionary == start && d.dictSize == size
  }

  ghost predicate HcDictOk(d: H.Stream, start: int, size: int)
    reads d, d.table, d.table.hashTable, d.table.chainTable
  {
    H.Loaded(d) && d.W() == H.DictWindow(start, size)
  }

  /** The copy holds dict. */
  ghost predicate CopyOk(cd: CDict, mem: seq<byte>, dict: seq<byte>)
  {
    0 < cd.start && 0 <= cd.size <= KB64 && cd.start + cd.size + 3 <= |mem| && mem[cd.start..cd.start + cd.size] == dict
  }

  /** LZ4F_createCDict, its allocation at address `to`. */
  method CreateCDict(mem: array<byte>, dictBuffer: int, dictSize: int, to: int, wide: bool) returns (cd: CDict)
    requires 0 <= dictBuffer && 0 <= dictSize && dictBuffer + dictSize <= mem.Length
    requires 0 < to && to + Min(dictSize, KB64) + 3 <= mem.Length
    modifies mem
    ensures fresh(DictObjects(Some(cd))) && cd.start == to && cd.size == Min(dictSize, KB64)
    ensures Agree(old(mem[..]), mem[..], to, to + cd.size)
    ensures CopyOk(cd, mem[..], old(mem[dictBuffer + dictSize - Min(dictSize, KB64)..dictBuffer + dictSize]))
    ensures FastDictOk(cd.fastCtx, cd.start, cd.size) && HcDictOk(cd.hcCtx, cd.start, cd.size)
  {
    hide FH.Loaded, FH.Live, FH.InPlace, H.Loaded, HH.InPlace;
    var size := Min(dictSize, KB64);
    MemMove(mem, to, dictBuffer + dictSize - size, size, mem[..]);
    ghost var dict := mem[to..to + size];
    var ctx := new F.Stream();
    var r := FH.LoadDict(ctx, mem[..], to, size, wide);
    var hcCtx := new H.Stream();
    HcSized(hcCtx);
    H.SetCompressionLevel(hcCtx, H.CLEVEL_DEFAULT);
    r := H.LoadDictHC(hcCtx, mem[..], to, size);
    cd := CDict(to, size, ctx, hcCtx);
    assert mem[..][to..to + size] == dict;
  }

  lemma HcSized(c: H.Stream)
    requires c.Blank()
    ensures c.table.Sized()
  {
    hide HT.Ranged;
  }

  /** The streams of a dictionary, or NULL. */
  function FastContext(cd: Option<CDict>): F.Stream?
  {
    match cd case None => null case Some(d) => d.fastCtx
  }

  function HcContext(cd: Option<CDict>): H.Stream?
  {
    match cd case None => null case Some(d) => d.hcCtx
  }

  ghost function DictObjects(cd: Option<CDict>): set<object>
  {
    match cd
    case None => {}
    case Some(d) => {d.fastCtx, d.fastCtx.hashTable, d.hcCtx, d.hcCtx.table, d.hcCtx.table.hashTable,
      d.hcCtx.table.chainTable}
  }

  // ---------- results ----------

  /** The result of a block compression: the block, or nothing when it would not be smaller than the source. */
  ghost predicate Packed(block: seq<byte>, hist: seq<byte>, src: seq<byte>)
  {
    |block| < |src| && (block != [] ==> EncodesAfter(block, hist, src))
  }

  lemma ContinuedPacked(dst: seq<byte>, hist: seq<byte>, src: seq<byte>, cap: int, result: int)
    requires Continued(dst, hist, src, cap, result) && cap == |src| - 1
    ensures 0 <= result <= |dst| && Packed(dst[..result], hist, src)
  {
    hide EncodesAfter, CompressBound;
  }

  lemma OneShotPacked(dst: seq<byte>, hist: seq<byte>, src: seq<byte>, cap: int, result: int)
    requires OneShot(dst, src, cap, result) && cap == |src| - 1 && 0 <= cap
    ensures 0 <= result <= |dst| && Packed(dst[..result], hist, src)
  {
    hide Encodes, Decode, CompressBound;
    assert Suffix(hist, 0) + src == src;
    if result > 0 { assert Encodes(dst[..result], Suffix(hist, 0) + src, 0, 0 + |src|); }
  }

  function AccelerationOf(level: int): int { if level < 0 then -level + 1 else 1 }

  // ---------- below the HC levels ----------

  /** What a fast stream must be like when a frame, or an independent block, begins. */
  ghost predicate FastFit(c: F.Stream)
    reads c, c.hashTable
  {
    FA.Consistent(c) && (c.tableType.Cleared? ==> c.currentOffset <= FA.OFFSET_MAX - KB64)
  }

  /** The attached context is the frame's dictionary, apart from the stream. */
  ghost predicate FastDictFor(c: F.Stream, cd: Option<CDict>, ctx: F.Stream?)
    reads ctx, if ctx == null then {} else {ctx.hashTable}
  {
    ctx == FastContext(cd)
      && (ctx != null ==> ctx != c && ctx.hashTable != c.hashTable && FastDictOk(ctx, cd.value.start, cd.value.size))
  }

  /** A table that no block has been entered in starts from index 0. */
  ghost predicate FreshTable(c: F.Stream)
    reads c
  {
    c.tableType.Cleared? ==> c.currentOffset == 0
  }

  /** The stream is ready for the next block: in a linked frame it knows the end of everything before
      it, else it is fit for a block of its own. */
  ghost predicate FastReady(c: F.Stream, linked: bool, cd: Option<CDict>, mem: seq<byte>, dict: seq<byte>,
      done: seq<byte>)
    reads c, c.hashTable, c.dictCtx, if c.dictCtx == null then {} else {c.dictCtx.hashTable}
  {
    && (cd.None? || done != [] ==> FreshTable(c))
    && if linked then
         && FH.Live(c) && FH.Tracks(c, mem, dict + done)
         && (c.dictCtx != null ==> c.dictCtx == FastContext(cd) && FH.Of(c).dict == FH.Dict(0, 0))
       else FastFit(c)
  }

  /** After a frame the stream can be used for another. */
  lemma ReadyIsReusable(c: F.Stream, linked: bool, cd: Option<CDict>, mem: seq<byte>, dict: seq<byte>, done: seq<byte>)
    requires FastReady(c, linked, cd, mem, dict, done) && (cd.None? || done != [])
    ensures FA.Reusable(c)
  {
    hide FA.Consistent, FH.Tracks;
    if linked { FH.OwnIsConsistent(c); }
  }

  /** LZ4F_initStream with a dictionary or for a linked frame. */
  method InitFast(c: F.Stream, cd: Option<CDict>, ctx: F.Stream?, ghost mem: seq<byte>, ghost dict: seq<byte>)
    requires FastFit(c) && FastDictFor(c, cd, ctx) && (cd.Some? ==> CopyOk(cd.value, mem, dict))
      && (cd.None? ==> dict == [])
    modifies c, c.hashTable
    ensures FH.Live(c) && FH.Tracks(c, mem, dict) && c.dictionary == 0 && c.dictSize == 0
    ensures c.dictCtx == (if ctx == null || ctx.dictSize == 0 then null else ctx)
    ensures ctx == null && old(FreshTable(c)) ==> FreshTable(c)
  {
    hide FH.Loaded, FA.Consistent, FH.InPlace;
    FH.ResetStreamFast(c, mem);
    if ctx != null && ctx.dictSize != 0 { DictInPlace(mem, cd.value, dict); }
    FH.AttachDictionary(c, ctx, mem, dict);
  }

  lemma DictInPlace(mem: seq<byte>, cd: CDict, dict: seq<byte>)
    requires CopyOk(cd, mem, dict)
    ensures FH.InPlace(mem, FH.Dict(cd.start, cd.size), dict)
  {
    assert dict[|dict| - cd.size..] == dict;
  }

  /** The call both block modes share. */
  method PackFast(c: F.Stream, mem: seq<byte>, source: int, n: int, level: int, wide: bool, ghost hist: seq<byte>)
    returns (block: seq<byte>)
    requires FH.Live(c) && 0 < source && 0 < n <= MAX_INPUT_SIZE && source + n <= |mem|
    requires FC.CallOk(c, source, n) && FC.HistoryReady(c, mem, source, n, hist)
    requires c.dictCtx != null ==> FH.InUse(FH.Of(c), source, n).dict.End() != source
    modifies c, c.hashTable
    ensures FH.Live(c) && FH.Tracks(c, mem, hist + mem[source..source + n]) && c.dictCtx == null && c.tableType.ByU32?
    ensures Packed(block, hist, mem[source..source + n])
    ensures if old(c.dictCtx) == null then FH.Of(c) == FH.Next(old(FH.Of(c)), source, n)
      else FH.Of(c).dict == FH.Dict(source, n)
  {
    hide FH.Live, FH.InPlace, Continued, EncodesAfter, FC.CallOk, FC.HistoryReady, FH.Next;
    var dst := new byte[n - 1];
    var result := FC.CompressFastContinue(c, mem, source, dst, n, n - 1, AccelerationOf(level), wide, hist);
    ContinuedPacked(dst[..], hist, mem[source..source + n], n - 1, result);
    block := dst[..result];
    assert block == dst[..][..result];
  }

  lemma LiveIsFit(c: F.Stream)
    requires FH.Live(c) && c.tableType.ByU32?
    ensures FastFit(c)
  {
    hide FA.Consistent;
    FH.OwnIsConsistent(c);
  }

  /** LZ4F_compressBlock with a dictionary. */
  method PackFastAfter(c: F.Stream, cd: Option<CDict>, ctx: F.Stream?, mem: seq<byte>, source: int, n: int, level: int,
      wide: bool, ghost dict: seq<byte>)
    returns (block: seq<byte>)
    requires FastFit(c) && FastDictFor(c, cd, ctx) && cd.Some? && CopyOk(cd.value, mem, dict)
    requires 0 < source && 0 < n <= MAX_INPUT_SIZE && source + n <= |mem| && cd.value.start != source
    modifies c, c.hashTable
    ensures FastFit(c) && FreshTable(c) && Packed(block, dict, mem[source..source + n])
  {
    hide FastFit, CopyOk, FH.Live, FH.InPlace, Continued, FC.CallOk, FC.HistoryReady, EncodesAfter, FH.Loaded;
    InitFast(c, cd, ctx, mem, dict);
    FreshCallOk(c, cd, ctx, mem, dict, source, n);
    block := PackFast(c, mem, source, n, level, wide, dict);
    LiveIsFit(c);
  }

  /** After LZ4F_initStream any source that does not start where the dictionary does may come. */
  lemma FreshCallOk(c: F.Stream, cd: Option<CDict>, ctx: F.Stream?, mem: seq<byte>, dict: seq<byte>, source: int,
      n: int)
    requires FH.Live(c) && FH.Tracks(c, mem, dict) && c.dictionary == 0 && c.dictSize == 0 && FastDictFor(c, cd, ctx)
    requires c.dictCtx == (if ctx == null || ctx.dictSize == 0 then null else ctx)
    requires 0 < source <= |mem| && 0 < n <= FH.INT_MAX && (cd.Some? ==> cd.value.start != source)
    ensures FC.CallOk(c, source, n) && FC.HistoryReady(c, mem, source, n, dict)
    ensures c.dictCtx != null ==> FH.InUse(FH.Of(c), source, n).dict.End() != source
  {
    hide FH.Loaded, FH.InPlace, FH.OwnOk;
    FC.TracksReady(c, mem, source, n, dict);
  }

  /** LZ4F_compressBlock without a dictionary. */
  method PackFastAlone(c: F.Stream, mem: seq<byte>, source: int, n: int, level: int, wide: bool, ghost hist: seq<byte>)
    returns (block: seq<byte>)
    requires FA.Reusable(c) && 0 < source && 0 < n <= MAX_INPUT_SIZE && source + n <= |mem|
    modifies c, c.hashTable
    ensures FastFit(c) && FA.Reusable(c) && Packed(block, hist, mem[source..source + n])
  {
    hide FA.Consistent, OneShot, EncodesAfter;
    c.dictCtx := null;
    StillReusable(c);
    var dst := new byte[n - 1];
    var result := FA.CompressFastReset(c, mem, source, dst, n, n - 1, AccelerationOf(level), !wide);
    OneShotPacked(dst[..], hist, mem[source..source + n], n - 1, result);
    block := dst[..result];
    assert block == dst[..][..result];
  }

  /** LZ4_attach_dictionary(ctx, NULL) changes nothing that matters here. */
  twostate lemma StillReusable(c: F.Stream)
    requires old(FA.Reusable(c)) && c.currentOffset == old(c.currentOffset) && c.tableType == old(c.tableType)
    requires c.hashTable[..] == old(c.hashTable[..])
    ensures FA.Reusable(c)
  {
    hide FA.Zero;
  }

  // ---------- the HC levels ----------

  ghost predicate HcDictFor(c: H.Stream, cd: Option<CDict>, ctx: H.Stream?)
    reads ctx, if ctx == null then {} else {ctx.table}, if ctx == null then {} else {ctx.table.hashTable},
          if ctx == null then {} else {ctx.table.chainTable}
  {
    && ctx == HcContext(cd)
    && (ctx != null ==>
       ctx != c && ctx.table != c.table
       && {ctx.table.hashTable, ctx.table.chainTable} !! {c.table.hashTable, c.table.chainTable}
                        && HcDictOk(ctx, cd.value.start, cd.value.size))
  }

  ghost predicate HcReady(c: H.Stream, linked: bool, cd: Option<CDict>, mem: seq<byte>, dict: seq<byte>,
      done: seq<byte>)
    reads c, c.table, c.table.hashTable, c.table.chainTable, c.dictCtx, if c.dictCtx == null then {}
      else {c.dictCtx.table}, if c.dictCtx == null then {} else {c.dictCtx.table.hashTable}, if c.dictCtx == null
      then {} else {c.dictCtx.table.chainTable}
  {
    if linked then
      && H.Live(c) && H.Tracks(c, mem, dict + done)
      && (c.dictCtx != null ==> c.dictCtx == HcContext(cd))
    else c.OwnOk()
  }

  /** LZ4F_initStream. */
  method InitHc(c: H.Stream, cd: Option<CDict>, ctx: H.Stream?, level: int, ghost mem: seq<byte>, ghost dict: seq<byte>)
    requires c.OwnOk() && HcDictFor(c, cd, ctx) && (cd.Some? ==> CopyOk(cd.value, mem, dict))
      && (cd.None? ==> dict == [])
    modifies c, c.table, c.table.hashTable, c.table.chainTable
    ensures H.Live(c) && H.Tracks(c, mem, dict) && c.dictCtx == ctx && c.lowLimit == 0
  {
    hide H.Loaded, HT.Ranged, HT.TablesOk, HH.InPlace;
    H.ResetStreamHCFast(c, level, mem);
    if ctx != null { HcDictInPlace(mem, cd.value, dict); }
    H.AttachHCDictionary(c, ctx, mem, dict);
  }

  lemma HcDictInPlace(mem: seq<byte>, cd: CDict, dict: seq<byte>)
    requires CopyOk(cd, mem, dict)
    ensures HH.InPlace(mem, H.DictWindow(cd.start, cd.size), dict)
  {
    assert dict[|dict| - cd.size..] == dict;
    H.DictInPlace(mem, cd.start, cd.size, dict);
  }

  /** The call both block modes share; dst is the room for a block smaller than the source. */
  method ContinueHc(c: H.Stream, mem: seq<byte>, source: int, n: int, dst: array<byte>, ghost hist: seq<byte>)
      returns (result: int)
    requires H.Live(c) && H.Tracks(c, mem, hist) && HA.Slack(c, |mem|) && dst.Length == n - 1
    requires 0 < source && 0 < n <= MAX_INPUT_SIZE && source + n <= |mem|
    modifies c, c.table, c.table.hashTable, c.table.chainTable, dst
    ensures H.Live(c) && H.Tracks(c, mem, hist + mem[source..source + n])
      && (c.dictCtx == null || c.dictCtx == old(c.dictCtx))
    ensures c.lowLimit != 0 && HH.EndAddr(c.W()) == source + n
    ensures Continued(dst[..], hist, mem[source..source + n], n - 1, result)
    ensures c.W() == HH.Next(old(c.W()), source, n)
         || (old(c.dictCtx) != null && c.W() == HH.Grow(HH.ExternDict(old(c.dictCtx.W()), source), n))
  {
    hide H.Live, H.Tracks, Continued, HA.HistoryReady, HH.InUse, HA.Slack, H.Stream.Ready, CompressBound;
    HA.TracksReady(c, mem, source, n, hist);
    result := HA.CompressHCContinue(c, mem, source, n, dst, n - 1, hist);
    H.ReadyBase(c);
  }

  method PackHc(c: H.Stream, mem: seq<byte>, source: int, n: int, dst: array<byte>, ghost hist: seq<byte>)
      returns (block: seq<byte>)
    requires H.Live(c) && H.Tracks(c, mem, hist) && HA.Slack(c, |mem|) && dst.Length == n - 1
    requires 0 < source && 0 < n <= MAX_INPUT_SIZE && source + n <= |mem|
    modifies c, c.table, c.table.hashTable, c.table.chainTable, dst
    ensures H.Live(c) && H.Tracks(c, mem, hist + mem[source..source + n])
      && (c.dictCtx == null || c.dictCtx == old(c.dictCtx))
    ensures c.lowLimit != 0 && HH.EndAddr(c.W()) == source + n
    ensures Packed(block, hist, mem[source..source + n])
    ensures c.W() == HH.Next(old(c.W()), source, n)
         || (old(c.dictCtx) != null && c.W() == HH.Grow(HH.ExternDict(old(c.dictCtx.W()), source), n))
  {
    hide H.Live, H.Tracks, Continued, HH.Next, HA.Slack, CompressBound, EncodesAfter;
    var result := ContinueHc(c, mem, source, n, dst, hist);
    ContinuedPacked(dst[..], hist, mem[source..source + n], n - 1, result);
    block := dst[..result];
    assert block == dst[..][..result];
  }

  /** LZ4F_compressBlockHC with a dictionary. */
  method PackHcAfter(c: H.Stream, cd: Option<CDict>, ctx: H.Stream?, mem: seq<byte>, source: int, n: int, level: int,
      dst: array<byte>, ghost dict: seq<byte>)
    returns (block: seq<byte>)
    requires c.OwnOk() && HcDictFor(c, cd, ctx) && cd.Some? && CopyOk(cd.value, mem, dict)
    requires 0 < source && 0 < n <= MAX_INPUT_SIZE && source + n <= |mem| && dst.Length == n - 1
    modifies c, c.table, c.table.hashTable, c.table.chainTable, dst
    ensures c.OwnOk() && Packed(block, dict, mem[source..source + n])
  {
    hide H.Tracks, H.Live, H.Stream.OwnOk, HA.Slack, H.Loaded, CopyOk, EncodesAfter;
    InitHc(c, cd, ctx, level, mem, dict);
    FreshSlack(c, cd, ctx, mem, dict);
    block := PackHc(c, mem, source, n, dst, dict);
    H.LiveOwn(c);
  }

  /** Three bytes behind a dictionary's copy can be read. */
  lemma FreshSlack(c: H.Stream, cd: Option<CDict>, ctx: H.Stream?, mem: seq<byte>, dict: seq<byte>)
    requires c.dictCtx == ctx && c.lowLimit == 0 && HcDictFor(c, cd, ctx) && (cd.Some? ==> CopyOk(cd.value, mem, dict))
    ensures HA.Slack(c, |mem|)
  {
    hide H.Loaded;
  }

  /** LZ4F_initStream, which LZ4_compress_HC_extStateHC_fastReset does again. */
  method ResetAndCompress(c: H.Stream, mem: seq<byte>, source: int, n: int, level: int, dst: array<byte>)
      returns (result: int)
    requires c.OwnOk() && 0 < source && 0 < n <= MAX_INPUT_SIZE && source + n <= |mem| && dst.Length == n - 1
    modifies c, c.table, c.table.hashTable, c.table.chainTable, dst
    ensures c.OwnOk() && OneShot(dst[..], mem[source..source + n], n - 1, result)
  {
    hide OneShot, H.Stream.OwnOk, H.Live, H.Tracks, CompressBound;
    H.ResetStreamHCFast(c, level, mem);
    H.LiveOwn(c);
    result := HA.CompressHCFastReset(c, mem, source, n, dst, n - 1, level);
  }

  /** LZ4F_compressBlockHC without one. */
  method PackHcAlone(c: H.Stream, mem: seq<byte>, source: int, n: int, level: int, dst: array<byte>,
      ghost hist: seq<byte>)
    returns (block: seq<byte>)
    requires c.OwnOk() && 0 < source && 0 < n <= MAX_INPUT_SIZE && source + n <= |mem| && dst.Length == n - 1
    modifies c, c.table, c.table.hashTable, c.table.chainTable, dst
    ensures c.OwnOk() && Packed(block, hist, mem[source..source + n])
  {
    hide OneShot, EncodesAfter, H.Stream.OwnOk, CompressBound;
    var result := ResetAndCompress(c, mem, source, n, level, dst);
    OneShotPacked(dst[..], hist, mem[source..source + n], n - 1, result);
    block := dst[..result];
    assert block == dst[..][..result];
  }

  // ---------- LZ4F_makeBlock ----------

  /** LZ4F_writeLE32 */
  method WriteLE32(dst: array<byte>, op: int, v: int, ghost out: seq<byte>) returns (op1: int)
    requires Holds(dst, op, out) && op + 4 <= dst.Length && 0 <= v < 0x1_0000_0000
    modifies dst
    ensures op1 == op + 4 && Holds(dst, op1, out + Bytes32(v))
  {
    dst[op] := v % 256;
    dst[op + 1] := v / 256 % 256;
    dst[op + 2] := v / 0x1_0000 % 256;
    dst[op + 3] := v / 0x100_0000;
    op1 := op + 4;
  }

  /** What goes into the frame for a packed block: the block, or the source itself. */
  function Stored(block: seq<byte>, src: seq<byte>): seq<byte> { if block == [] then src else block }

  lemma BlockJoin(out: seq<byte>, a: seq<byte>, b: seq<byte>, c: seq<byte>)
    ensures out + a + b + c == out + (a + b + c)
  {
  }

  /** Header, data and checksum of a block: raw when it could not be made smaller. */
  method WriteBlock(dst: array<byte>, op: int, block: seq<byte>, src: seq<byte>, ghost hd: Header, crcFlag: bool,
      ghost out: seq<byte>)
    returns (op1: int)
    requires Holds(dst, op, out) && |block| < |src| < UNCOMPRESSED_FLAG && hd.blockChecksum == crcFlag
    requires op + BH_SIZE + |src| + CrcSize(crcFlag) <= dst.Length
    modifies dst
    ensures Holds(dst, op1, out + BlockBytes(hd, Stored(block, src), block == []))
    ensures op1 <= op + BH_SIZE + |src| + CrcSize(crcFlag)
  {
    hide Holds, Bytes32, Crc;
    var raw := block == [];
    var data := Stored(block, src);
    ghost var head := Bytes32(if raw then UNCOMPRESSED_FLAG + |data| else |data|);
    HoldsSize(dst, op, out);
    op1 := WriteLE32(dst, op, if raw then UNCOMPRESSED_FLAG + |data| else |data|, out);
    CopyExact(dst, op1, data, 0, |data|, out + head);
    assert data[0..0 + |data|] == data;
    op1 := op1 + |data|;
    var crc := Xxh32.OneShot(data, 0);
    CrcRange(data);
    if crcFlag {
      CrcIs(data, crc);
      op1 := WriteLE32(dst, op1, crc as int, out + head + data);
      BlockJoin(out, head, data, Bytes32(Crc(data)));
    } else {
      BlockJoin(out, head, data, []);
      assert out + head + data + [] == out + head + data;
    }
  }

  lemma CrcIs(s: seq<byte>, crc: bv32)
    requires crc == Xxh32.Hash(s, 0)
    ensures crc as int == Crc(s)
  {
    hide Xxh32.Hash;
  }
}
