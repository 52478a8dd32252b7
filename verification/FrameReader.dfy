/** Whole frames: every way of cutting input and output gives the same content, with buffers that are
    reused, with or without a dictionary, and the context is ready for the next frame. */
module FrameReader {
  import opened Bytes
  import opened DecoderCopies
  import opened Memory
  import opened DecoderApi
  import opened DecoderStream
  import opened FrameFormat
  import opened FrameHistory
  import opened FrameState
  import opened FrameHeaderDecoder
  import opened FrameDecoder
  import opened FrameBlockDecoder
  import opened FrameDataDecoder
  import opened FrameDecompress
  import opened FrameCalls

  // ---------- the dictionary ----------

  /** The caller's dictionary is where the run says. */
  ghost predicate DictAt(m: seq<byte>, r: Run)
  {
    r.dict != [] ==> 0 <= r.dictAt && r.dictAt + |r.dict| <= |m| && m[r.dictAt..r.dictAt + |r.dict|] == r.dict
  }

  predicate Early(stage: Stage) { stage == GetFrameHeader || stage == StoreFrameHeader || stage == Init }

  /** Up to the first block the dictionary of the call counts. */
  ghost function WithDict(st: St, r: Run): St
  {
    if r.dict != [] && Early(st.stage) then st.(dict := r.dictAt, dictSize := |r.dict|) else st
  }

  lemma DictGiven(base: int, st: St, m: seq<byte>, r: Run)
    requires DictIs(base, st, m, r) && r.dict != []
    ensures st.dict == r.dictAt && st.dictSize == |r.dict|
  {
  }

  /** Giving the same dictionary again changes nothing. */
  lemma GivenAgain(base: int, st: St, m: seq<byte>, r: Run)
    requires Inv(base, st, m, r) && !Done(st, r)
    ensures WithDict(st, r) == st
  {
    hide DictIs, Done, RunOk, SizesOk, InfoIs, Boundary, Buffered;
    if r.dict != [] && Early(st.stage) { DictGiven(base, st, m, r); }
  }

  /** LZ4F_decompress_usingDict */
  method DecompressUsingDict(d: Dctx, mem: array<byte>, dst: int, dstCapacity: int, hasDst: bool, src: int,
      srcSize: int, dict: int, dictSize: int, stableDst: bool, ghost c: Ctx, ghost m: seq<byte>)
    returns (hint: int, produced: int, consumed: int, error: Error)
    requires c.r.dict != [] && dict == c.r.dictAt && dictSize == |c.r.dict|
    requires mem[..] == m && Home(d, c.base) && c == CallOf(StateOf(d), c.base, src, srcSize, dst, dstCapacity, c.r)
    requires During(c, WithDict(StateOf(d), c.r), m, src, dst) && !Done(WithDict(StateOf(d), c.r), c.r)
      && (!hasDst ==> dstCapacity == 0)
    modifies d, mem
    ensures error == NoError && 0 <= consumed <= srcSize && 0 <= produced <= dstCapacity
    ensures During(c, StateOf(d), mem[..], src + consumed, dst + produced) && Touched(c, m, mem[..])
    ensures 0 <= hint && (hint == 0 <==> Done(StateOf(d), c.r))
    ensures hint != 0 ==> consumed == srcSize || produced == dstCapacity
    ensures hint != 0 ==> Resumable(StateOf(d))
    ensures !stableDst ==> Preserved(c.base, StateOf(d))
  {
    hide During, Done, Touched, Preserved;
    ghost var st := WithDict(StateOf(d), c.r);
    if Early(d.dStage) {
      d.dict := dict;
      d.dictSize := dictSize;
    }
    assert StateOf(d) == st;
    hint, produced, consumed, error := Decompress(d, mem, dst, dstCapacity, hasDst, src, srcSize, stableDst, c, m);
  }

  // ---------- between frames ----------

  /** A new context, or one that has finished a frame. */
  ghost predicate Between(d: Dctx)
    reads d
  {
    && d.dStage == GetFrameHeader && d.frameRemainingSize == 0 && d.dict == NULL && d.dictSize == 0
    && SizesOk(d.maxBufferSize, d.tmpInCapacity)
  }

  /** LZ4F_createDecompressionContext */
  method CreateContext(base: int) returns (d: Dctx)
    ensures fresh(d) && Home(d, base) && Between(d)
  {
    d := new Dctx(base);
  }

  /** LZ4F_resetDecompressionContext leaves frameRemainingSize as it is: in the middle of a frame the
      context is ready for another one exactly if nothing of an announced content size was missing. */
  method ResetDecompressionContext(d: Dctx)
    requires SizesOk(d.maxBufferSize, d.tmpInCapacity)
    modifies d
    ensures d.dStage == GetFrameHeader && d.dict == NULL && d.dictSize == 0
      && d.frameRemainingSize == old(d.frameRemainingSize)
    ensures Between(d) <==> old(d.frameRemainingSize) == 0
  {
    hide SizesOk;
    d.dStage, d.dict, d.dictSize := GetFrameHeader, NULL, 0;
  }

  lemma FrameNotEmpty(r: Run)
    requires RunOk(r)
    ensures 0 < r.frame.end <= |r.s|
  {
    hide RunOk, Boundary, Le32, Crc;
    FrameInStream(r);
    if r.frame.Content? {
      ContentFacts(r);
      DecodedWithin(r, r.frame.hd.size, []);
    } else {
      SkippableFacts(r);
      Le32Range(r.s, 4);
    }
  }

  /** The caller's three buffers, input, output and dictionary, and the private memory are apart. */
  ghost predicate Client(base: int, input: int, n: int, output: int, capacity: int, r: Run, size: int)
  {
    && 0 <= base && base + PRIVATE <= size && 0 <= input && 0 <= n && input + n <= size && 0 <= output && 0 <= capacity
       && output + capacity <= size
    && Apart(input, n, output, capacity) && Apart(input, n, base, PRIVATE)
    && (output + capacity < base || base + PRIVATE < output)
    && (r.dict != [] ==>
         && r.dictAt != base && Apart(r.dictAt, |r.dict|, base, PRIVATE) && Apart(r.dictAt, |r.dict|, input, n)
         && Apart(r.dictAt, |r.dict|, output, capacity))
  }

  /** The context has not seen any of the frame. */
  lemma BetweenStarts(base: int, st: St, m: seq<byte>, r: Run)
    requires 0 <= base && base + PRIVATE <= |m| && RunOk(r) && SizesOk(st.maxBufferSize, st.tmpInCapacity)
      && DictAt(m, r)
    requires st.stage == GetFrameHeader && st.remaining == 0 && st.dict == NULL && st.dictSize == 0 && st.pos == 0
      && st.out == st.dec == []
    requires r.dict != [] ==> r.dictAt != base && Apart(r.dictAt, |r.dict|, base, PRIVATE)
    ensures Inv(base, WithDict(st, r), m, r) && !Done(WithDict(st, r), r)
  {
    hide RunOk, SizesOk;
    FrameNotEmpty(r);
  }

  /** Where the history may be between calls: private, or the caller's dictionary, or not there. */
  predicate OwnHistory(base: int, st: St, r: Run)
  {
    || Over(st.stage) || st.dictSize == 0 || (st.dict == base && 0 <= st.dictSize <= PRIVATE)
    || (st.dict == r.dictAt && st.dictSize == |r.dict|)
  }

  lemma HistoryIsOwn(base: int, st: St, m: seq<byte>, r: Run)
    requires Inv(base, st, m, r) && !Done(st, r) && Preserved(base, st)
    ensures OwnHistory(base, st, r)
  {
    hide Stands, Done, Body, RunOk, SizesOk, OwnHistory;
    if Over(st.stage) {
      OverIsOwn(base, st, r);
    } else {
      match st.stage
      case GetFrameHeader => AtStartFacts(base, st, m, r); DictIsOwn(base, st, m, r);
      case StoreFrameHeader => InHeaderFacts(base, st, m, r); DictIsOwn(base, st, m, r);
      case Init => AtInitFacts(base, st, m, r); InitIsOwn(base, st, m, r);
      case GetSFrameSize | StoreSFrameSize | SkipSkippable => SkipFacts(base, st, m, r); SkipIsOwn(base, st, r);
      case _ =>
        BodyOf(base, st, m, r);
        BodyFacts(base, st, m, r);
        BodyIsOwn(base, st, m, r);
    }
  }

  lemma OverIsOwn(base: int, st: St, r: Run)
    requires Over(st.stage)
    ensures OwnHistory(base, st, r)
  {
  }

  lemma DictIsOwn(base: int, st: St, m: seq<byte>, r: Run)
    requires DictIs(base, st, m, r)
    ensures OwnHistory(base, st, r)
  {
  }

  lemma InitIsOwn(base: int, st: St, m: seq<byte>, r: Run)
    requires AtInit(base, st, m, r)
    ensures OwnHistory(base, st, r)
  {
    hide Boundary, InfoIs;
  }

  lemma SkipIsOwn(base: int, st: St, r: Run)
    requires InSkippable(st, r)
    ensures OwnHistory(base, st, r)
  {
  }

  lemma BodyIsOwn(base: int, st: St, m: seq<byte>, r: Run)
    requires HistoryIn(base, st, m, r) && BufferReady(st)
    requires st.info.linked ==> st.dict == base || st.dict == NULL
    ensures OwnHistory(base, st, r)
  {
    hide SameTail, Need;
  }

  /** New input may be put in place. */
  lemma InputUntouched(base: int, st: St, m: seq<byte>, m1: seq<byte>, input: int, n: int, part: int, output: int,
      capacity: int, r: Run)
    requires OwnHistory(base, st, r) && Client(base, input, n, output, capacity, r, |m|) && 0 <= part <= n
    requires Agree(m, m1, input, input + part)
    ensures Untouched(base, st, m, m1)
  {
    hide Agree;
    AgreeSize(m, m1, input, input + part);
    AgreeSlice(m, m1, input, input + part, base, PRIVATE);
    if !Over(st.stage) && st.dict != base && DictIn(m, st.dict, st.dictSize) && st.dictSize > 0 {
      AgreeSlice(m, m1, input, input + part, st.dict, st.dictSize);
    }
  }

  /** The next call may go on where the last one stopped. */
  lemma NextCall(base: int, st: St, m: seq<byte>, input: int, n: int, output: int, capacity: int, part: int, room: int,
      r: Run)
    requires Inv(base, st, m, r) && Client(base, input, n, output, capacity, r, |m|) && OwnHistory(base, st, r)
    requires 0 <= st.pos && 0 <= part <= n && st.pos + part <= |r.s| && 0 <= room <= capacity
      && m[input..input + part] == r.s[st.pos..st.pos + part]
    ensures During(CallOf(st, base, input, part, output, room, r), st, m, input, output)
  {
    hide Inv;
    assert st.out == st.out + m[output..output];
  }

  /** Input may be put in place, and the call made. */
  lemma CallReady(base: int, st: St, m: seq<byte>, m1: seq<byte>, input: int, n: int, output: int, capacity: int,
      part: int, room: int, r: Run)
    requires Inv(base, st, m, r) && !Done(st, r) && Preserved(base, st)
      && Client(base, input, n, output, capacity, r, |m|)
    requires Agree(m, m1, input, input + part)
    requires 0 <= st.pos && 0 <= part <= n && st.pos + part <= |r.s| && 0 <= room <= capacity
      && m1[input..input + part] == r.s[st.pos..st.pos + part]
    ensures During(CallOf(st, base, input, part, output, room, r), st, m1, input, output)
  {
    hide Inv, Client, Done, Preserved, Untouched, OwnHistory, Agree;
    HistoryIsOwn(base, st, m, r);
    InputUntouched(base, st, m, m1, input, n, part, output, capacity, r);
    InvStays(base, st, m, m1, r);
    AgreeSize(m, m1, input, input + part);
    NextCall(base, st, m1, input, n, output, capacity, part, room, r);
  }

  lemma AfterCall(c: Ctx, st: St, m1: seq<byte>, srcPtr: int, dstPtr: int, output: int)
    requires During(c, st, m1, srcPtr, dstPtr) && c.dst == output
    ensures Inv(c.base, st, m1, c.r) && st.pos == c.pos0 + (srcPtr - c.src) && 0 <= output <= dstPtr <= |m1|
      && st.out == c.out0 + m1[output..dstPtr]
  {
    hide Inv, SizesOk, RunOk;
  }

  /** Between two calls of one frame. */
  ghost predicate Midway(d: Dctx, base: int, m: seq<byte>, r: Run)
    reads d
  {
    var st := WithDict(StateOf(d), r);
    Inv(base, st, m, r) && !Done(st, r) && Resumable(st) && Preserved(base, st) && 0 <= d.pos
  }

  lemma MidwayWithin(d: Dctx, base: int, m: seq<byte>, r: Run)
    requires Midway(d, base, m, r)
    ensures 0 <= d.pos < r.frame.end <= |r.s| && |d.out| <= |FullOf(r)| && FullOf(r)[..|d.out|] == d.out
  {
    hide Inv, Done, Resumable, Preserved, FullOf;
    StillWithin(base, WithDict(StateOf(d), r), m, r);
  }

  lemma StillMidway(d: Dctx, base: int, m: seq<byte>, r: Run)
    requires Inv(base, StateOf(d), m, r) && !Done(StateOf(d), r) && Resumable(StateOf(d)) && Preserved(base, StateOf(d))
      && 0 <= d.pos
    ensures Midway(d, base, m, r)
  {
    hide Inv, Done, Resumable, Preserved, WithDict;
    GivenAgain(base, StateOf(d), m, r);
  }

  lemma SameCall(st: St, base: int, src: int, srcSize: int, dst: int, dstCapacity: int, r: Run)
    ensures CallOf(WithDict(st, r), base, src, srcSize, dst, dstCapacity, r) == CallOf(st, base, src, srcSize, dst,
      dstCapacity, r)
    ensures r.dict == [] ==> WithDict(st, r) == st
  {
  }

  /** One call, with the dictionary if there is one. */
  method CallOnce(d: Dctx, mem: array<byte>, input: int, part: int, output: int, room: int, dict: int, dictSize: int,
      ghost c: Ctx, ghost m: seq<byte>)
    returns (hint: int, produced: int, consumed: int)
    requires mem[..] == m && Home(d, c.base) && c == CallOf(StateOf(d), c.base, input, part, output, room, c.r)
    requires During(c, WithDict(StateOf(d), c.r), m, input, output) && !Done(WithDict(StateOf(d), c.r), c.r)
    requires dictSize == |c.r.dict| && (c.r.dict != [] ==> dict == c.r.dictAt)
    modifies d, mem
    ensures 0 <= consumed <= part && 0 <= produced <= room
    ensures During(c, StateOf(d), mem[..], input + consumed, output + produced) && Touched(c, m, mem[..])
    ensures (hint == 0 <==> Done(StateOf(d), c.r)) && Preserved(c.base, StateOf(d))
    ensures hint != 0 ==> (consumed == part || produced == room) && Resumable(StateOf(d))
  {
    hide Inv, During, Done, Touched, Preserved, Resumable, WithDict;
    SameCall(StateOf(d), c.base, input, part, output, room, c.r);
    var error;
    if dictSize > 0 {
      hint, produced, consumed, error :=
        DecompressUsingDict(d, mem, output, room, true, input, part, dict, dictSize, false, c, m);
    } else {
      hint, produced, consumed, error := Decompress(d, mem, output, room, true, input, part, false, c, m);
    }
  }

  /** Only private memory, input and output buffer differ. */
  ghost predicate Quiet(base: int, input: int, n: int, output: int, capacity: int, m: seq<byte>, m1: seq<byte>)
  {
    && |m| == |m1|
    && forall k ::
         (0 <= k < |m| && !(base <= k < base + PRIVATE)
          && !(input <= k < input + n) && !(output <= k < output + capacity)) ==> m1[k] == m[k]
  }

  lemma QuietCall(c: Ctx, m: seq<byte>, m1: seq<byte>, m2: seq<byte>, input: int, n: int, part: int, output: int,
      capacity: int)
    requires Agree(m, m1, input, input + part) && Touched(c, m1, m2) && part <= n && c.dst == output
      && c.dstEnd <= output + capacity
    ensures Quiet(c.base, input, n, output, capacity, m, m2)
  {
  }

  lemma QuietDict(base: int, input: int, n: int, output: int, capacity: int, m: seq<byte>, m1: seq<byte>, r: Run)
    requires Quiet(base, input, n, output, capacity, m, m1) && Client(base, input, n, output, capacity, r, |m|)
      && DictAt(m, r)
    ensures DictAt(m1, r) && Client(base, input, n, output, capacity, r, |m1|)
  {
    if r.dict != [] { assert m1[r.dictAt..r.dictAt + |r.dict|] == m[r.dictAt..r.dictAt + |r.dict|]; }
  }

  /** Part of the input is put in place, and the output of a call joins what has come before. */
  method NextPart(d: Dctx, mem: array<byte>, s: seq<byte>, pos: int, input: int, n: int, part: int, output: int,
      capacity: int, room: int, dict: int, dictSize: int, ghost base: int, ghost r: Run)
    returns (hint: int, more: seq<byte>, consumed: int)
    requires Home(d, base) && Midway(d, base, mem[..], r) && r.s == s
      && Client(base, input, n, output, capacity, r, mem.Length)
    requires dictSize == |r.dict| && (r.dict != [] ==> dict == r.dictAt) && 1 <= room <= capacity
    requires 0 <= pos == d.pos && 1 <= part <= n && pos + part <= |s| && 0 <= input && input + n <= mem.Length
    modifies d, mem
    ensures hint == 0 ==> Done(StateOf(d), r) && Inv(base, StateOf(d), mem[..], r)
    ensures hint != 0 ==> Midway(d, base, mem[..], r)
    ensures d.out == old(d.out) + more && d.pos == pos + consumed && 0 <= consumed
      && (hint != 0 ==> 0 < consumed + |more|)
    ensures Quiet(base, input, n, output, capacity, old(mem[..]), mem[..])
  {
    hide Inv, Client, During, Done, Touched, Preserved, Resumable, Agree, WithDict, Quiet;
    ghost var st, m := WithDict(StateOf(d), r), mem[..];
    Put(mem, input, s[pos..pos + part]);
    SameCall(StateOf(d), base, input, part, output, room, r);
    CallReady(base, st, m, mem[..], input, n, output, capacity, part, room, r);
    ghost var m1, c := mem[..], CallOf(StateOf(d), base, input, part, output, room, r);
    var produced;
    hint, produced, consumed := CallOnce(d, mem, input, part, output, room, dict, dictSize, c, mem[..]);
    AfterCall(c, StateOf(d), mem[..], input + consumed, output + produced, output);
    QuietCall(c, m, m1, mem[..], input, n, part, output, capacity);
    more := mem[output..output + produced];
    if hint != 0 { StillMidway(d, base, mem[..], r); }
  }

  // ---------- every way of cutting ----------

  lemma BetweenMidway(d: Dctx, base: int, m: seq<byte>, r: Run)
    requires Between(d) && d.pos == 0 && d.out == d.dec == [] && RunOk(r) && DictAt(m, r) && 0 <= base
      && base + PRIVATE <= |m|
    requires r.dict != [] ==> r.dictAt != base && Apart(r.dictAt, |r.dict|, base, PRIVATE)
    ensures Midway(d, base, m, r)
  {
    hide Inv, RunOk, SizesOk, DictAt, Done;
    BetweenStarts(base, StateOf(d), m, r);
  }

  lemma DoneBetween(d: Dctx, base: int, m: seq<byte>, r: Run)
    requires Done(StateOf(d), r) && Inv(base, StateOf(d), m, r)
    ensures Between(d) && d.out == FullOf(r) && d.pos == r.frame.end
  {
    hide RunOk, SizesOk, Stands;
  }

  /** How call i is made: with cutIn(i) bytes of input (or what is left) at inAt(i), and room for cutOut(i)
      bytes at outAt(i). */
  datatype Cutting = Cutting(inAt: nat -> int, cutIn: nat -> nat, outAt: nat -> int, cutOut: nat -> nat)

  /** Every call stays within the n bytes at input and the capacity bytes at output, and can do something. */
  ghost predicate Within(cut: Cutting, input: int, n: int, output: int, capacity: int)
  {
    forall i ::
      && 1 <= cut.cutIn(i) && input <= cut.inAt(i) && cut.inAt(i) + cut.cutIn(i) <= input + n
      && 1 <= cut.cutOut(i) && output <= cut.outAt(i) && cut.outAt(i) + cut.cutOut(i) <= output + capacity
  }

  /** A part of each of the caller's areas is as good. */
  lemma ClientPart(base: int, input: int, n: int, output: int, capacity: int, a: int, k: int, b: int, room: int, r: Run,
      size: int)
    requires Client(base, input, n, output, capacity, r, size)
    requires input <= a && 0 <= k && a + k <= input + n && output <= b && 0 <= room && b + room <= output + capacity
    ensures Client(base, a, k, b, room, r, size)
  {
  }

  lemma QuietPart(base: int, input: int, n: int, output: int, capacity: int, a: int, k: int, b: int, room: int,
      m: seq<byte>, m1: seq<byte>)
    requires Quiet(base, a, k, b, room, m, m1)
    requires input <= a && a + k <= input + n && output <= b && b + room <= output + capacity
    ensures Quiet(base, input, n, output, capacity, m, m1)
  {
  }

  /** Decode one frame with calls of any sizes, with input and output anywhere in areas of the caller's that
      may be used again for the next call. */
  method DecodeFrame(d: Dctx, mem: array<byte>, s: seq<byte>, ghost input: int, ghost n: int, ghost output: int,
      ghost capacity: int, dict: int, dictSize: int, cut: Cutting, ghost base: int, ghost r: Run)
    returns (content: seq<byte>, consumed: int)
    requires Home(d, base) && Between(d) && RunOk(r) && r.s == s && DictAt(mem[..], r)
      && Client(base, input, n, output, capacity, r, mem.Length)
    requires dictSize == |r.dict| && (r.dict != [] ==> dict == r.dictAt)
    requires Within(cut, input, n, output, capacity)
    modifies d, mem
    ensures content == FullOf(r) && consumed == r.frame.end && Between(d)
    ensures DictAt(mem[..], r)
  {
    hide Inv, Client, Done, Midway, FullOf, DictAt, RunOk, SizesOk, Quiet;
    content, consumed := [], 0;
    d.pos, d.out, d.dec := 0, [], [];
    ClientBounds(base, input, n, output, capacity, r, mem.Length);
    BetweenMidway(d, base, mem[..], r);
    var calls, hint := 0, 1;
    while hint != 0
      invariant content == d.out && consumed == d.pos && 0 <= consumed
      invariant if hint != 0 then Midway(d, base, mem[..], r)
                else Done(StateOf(d), r) && Inv(base, StateOf(d), mem[..], r)
      invariant DictAt(mem[..], r)
      decreases hint != 0, if hint != 0 then r.frame.end - consumed + |FullOf(r)| - |content| else 0
    {
      MidwayWithin(d, base, mem[..], r);
      ghost var m := mem[..];
      var a, k, b, room := cut.inAt(calls), cut.cutIn(calls), cut.outAt(calls), cut.cutOut(calls);
      var more, read;
      ClientPart(base, input, n, output, capacity, a, k, b, room, r, |m|);
      ClientBounds(base, a, k, b, room, r, |m|);
      hint, more, read :=
        NextPart(d, mem, s, consumed, a, k, Min(k, |s| - consumed), b, room, room, dict, dictSize, base, r);
      QuietPart(base, input, n, output, capacity, a, k, b, room, m, mem[..]);
      QuietDict(base, input, n, output, capacity, m, mem[..], r);
      content := content + more;
      consumed := consumed + read;
      calls := calls + 1;
      if hint != 0 { MidwayWithin(d, base, mem[..], r); }
    }
    DoneBetween(d, base, mem[..], r);
  }

  lemma ClientBounds(base: int, input: int, n: int, output: int, capacity: int, r: Run, size: int)
    requires Client(base, input, n, output, capacity, r, size)
    ensures 0 <= input && input + n <= size && 0 <= base && base + PRIVATE <= size
    ensures r.dict != [] ==> r.dictAt != base && Apart(r.dictAt, |r.dict|, base, PRIVATE)
  {
  }

  // ---------- frame after frame ----------

  /** Frames that follow each other in s, all with the same dictionary. */
  ghost predicate Follow(runs: seq<Run>, s: seq<byte>)
    decreases |runs|
  {
    runs == [] || (
      && runs[0].s == s && RunOk(runs[0]) && runs[0].frame.end <= |s|
      && Follow(runs[1..], s[runs[0].frame.end..])
      && forall r :: r in runs[1..] ==> r.dict == runs[0].dict && r.dictAt == runs[0].dictAt)
  }

  ghost function Contents(runs: seq<Run>): seq<byte>
  {
    if runs == [] then [] else FullOf(runs[0]) + Contents(runs[1..])
  }

  /** One context decodes any number of frames, one after the other. */
  method DecodeFrames(d: Dctx, mem: array<byte>, s: seq<byte>, count: nat, ghost input: int, ghost n: int,
      ghost output: int, ghost capacity: int, dict: int, dictSize: int, cut: Cutting, ghost base: int,
      ghost runs: seq<Run>)
    returns (content: seq<byte>)
    requires Home(d, base) && Between(d) && |runs| == count && Follow(runs, s)
    requires count > 0 ==> DictAt(mem[..], runs[0]) && Client(base, input, n, output, capacity, runs[0], mem.Length)
    requires count > 0 ==> dictSize == |runs[0].dict| && (runs[0].dict != [] ==> dict == runs[0].dictAt)
    requires Within(cut, input, n, output, capacity)
    modifies d, mem
    ensures content == Contents(runs) && Between(d)
    decreases count
  {
    hide RunOk, SizesOk, FullOf, Within;
    if count == 0 { return []; }
    var first, end := DecodeFrame(d, mem, s, input, n, output, capacity, dict, dictSize, cut, base, runs[0]);
    ghost var rest := runs[1..];
    if count > 1 {
      assert rest[0] in rest;
    }
    content := DecodeFrames(d, mem, s[end..], count - 1, input, n, output, capacity, dict, dictSize, cut, base,
      rest);
    content := first + content;
  }
}
