/** read_variable_length and its two uses: lengths are summed in 32 bits and checked against the
    end of the input while they are read. */
module DecoderLengths {
  import opened Bytes
  import opened BlockFormat
  import opened Block32
  import opened DecoderState

  datatype LengthError = NoError | InitialError | LoopError

  /** What read_variable_length has read when it stops at j: a complete length, or (only after
      a loop error) a run of bytes 255 that goes on. */
  ghost predicate LengthRead(src: seq<byte>, i: int, length: int, j: int)
  {
    0 <= i && ReadRun(src, i).Some? && ReadRun(src, i).value.1 == j && length == U32(ReadRun(src, i).value.0)
  }

  ghost predicate LengthCut(src: seq<byte>, i: int, length: int, j: int)
  {
    i < j && Full(src, i, j) && length == U32(255 * (j - i))
  }

  lemma LengthByte(src: seq<byte>, i: int, length: int, j: int)
    requires Full(src, i, j) && j < |src| && length == U32(255 * (j - i))
    ensures var l := U32(length + src[j]);
      if src[j] == 255 then LengthCut(src, i, l, j + 1) else LengthRead(src, i, l, j + 1)
  {
    hide U32;
    FullRun(src, i, j);
    U32Add(255 * (j - i), src[j]);
  }

  /** read_variable_length, in 32-bit arithmetic. */
  method ReadVariableLength(mem: array<byte>, e: Env, ip0: int, lencheck: int, initialCheck: bool,
      ghost input: seq<byte>)
    returns (length: nat, ip: int, error: LengthError)
    requires Intact(e, input, mem[..], ip0) && lencheck <= e.iend && (initialCheck || ip0 < e.iend)
    ensures error == InitialError <==> initialCheck && lencheck <= ip0
    ensures ip0 <= ip
    ensures error == NoError ==> ip0 < ip < lencheck && LengthRead(input, ip0 - e.src, length, ip - e.src)
    ensures error == LoopError ==> (
      && ip0 < ip <= e.iend && lencheck <= ip
      && (LengthRead(input, ip0 - e.src, length, ip - e.src) || LengthCut(input, ip0 - e.src, length, ip - e.src)))
  {
    hide Intact, U32, LengthRead;
    IntactSizes(e, input, mem[..], ip0);
    length, ip, error := 0, ip0, NoError;
    if initialCheck && ip >= lencheck { return 0, ip, InitialError; }
    U32Zero();
    var s := 255;
    while s == 255
      invariant s == 255 ==>
        ip0 <= ip < e.iend && Full(input, ip0 - e.src, ip - e.src) && length == U32(255 * (ip - ip0))
      invariant s != 255 ==> ip0 < ip < lencheck && LengthRead(input, ip0 - e.src, length, ip - e.src)
      decreases if s == 255 then e.iend - ip else -1
    {
      InputByte(e, input, mem[..], ip0, ip);
      LengthByte(input, ip0 - e.src, length, ip - e.src);
      s := mem[ip];
      length := U32(length + s);
      ip := ip + 1;
      if ip >= lencheck { return length, ip, LoopError; }
    }
  }

  lemma U32Zero()
    ensures U32(0) == 0
  {
  }

  lemma IntactSizes(e: Env, input: seq<byte>, m: seq<byte>, ip: int)
    requires Intact(e, input, m, ip)
    ensures |input| == e.iend - e.src && 0 <= e.src <= ip <= e.iend <= |m|
  {
  }

  /** The literals announced at i run past the end of the input. */
  ghost predicate Overrun(src: seq<byte>, i: nat, nibble: nat)
  {
    match ReadLength32(src, i, nibble) case None => true case Some(r) => r.0 + r.1 > |src|
  }

  /** 255 is odd: no run of bytes 255 that an input can hold adds up to 0 in 32 bits. */
  lemma NoZeroRun(k: int)
    requires 0 < k <= 0x7FFF_FFFF
    ensures U32(255 * k) != 0
  {
  }

  lemma LengthSums(src: seq<byte>, i: nat, length: int, j: int)
    ensures LengthRead(src, i, length, j) ==> ReadLength32(src, i, 15) == Some((15 + length, j))
    ensures LengthCut(src, i, length, j) && ReadRun(src, i).Some? ==> j < ReadRun(src, i).value.1 <= |src|
  {
    if LengthCut(src, i, length, j) {
      FullRun(src, i, j);
      ReadRunBounds(src, j);
    }
  }

  lemma LongRun(src: seq<byte>, i: nat)
    requires |src| < i + 16
    ensures Overrun(src, i, 15)
  {
    ReadRunBounds(src, i);
  }

  /** The literal length.  When it cannot be read in full, it is long enough to be caught later. */
  method ReadLiteralLength(mem: array<byte>, e: Env, ip0: int, nibble: nat, ghost input: seq<byte>)
    returns (failed: bool, length: nat, ip: int)
    requires Intact(e, input, mem[..], ip0) && nibble <= 15 && |input| <= 0x7FFF_FFFF
    ensures e.src <= ip0 <= ip && (failed ==> Overrun(input, ip0 - e.src, nibble))
    ensures !failed ==> ip0 <= ip <= e.iend
    ensures !failed ==> (
      || ReadLength32(input, ip0 - e.src, nibble) == Some((length, ip - e.src))
      || (Overrun(input, ip0 - e.src, nibble) && e.iend < ip + length))
  {
    hide Intact, LengthRead, LengthCut, ReadRun;
    IntactSizes(e, input, mem[..], ip0);
    failed, length, ip := false, nibble, ip0;
    if nibble == 15 {
      var more, error;
      more, ip, error := ReadVariableLength(mem, e, ip, e.iend - RUN_MASK, true, input);
      if error == InitialError {
        LongRun(input, ip0 - e.src);
        return true, length, ip;
      }
      length := length + more;
      LengthSums(input, ip0 - e.src, more, ip - e.src);
      CutOverruns(input, ip0 - e.src, more, ip - e.src);
    }
  }

  lemma CutOverruns(src: seq<byte>, i: nat, length: int, j: int)
    requires |src| <= 0x7FFF_FFFF
    ensures LengthCut(src, i, length, j) && |src| <= j + 15 ==> Overrun(src, i, 15) && |src| < j + 15 + length
  {
    hide ReadRun;
    LengthSums(src, i, length, j);
    if i < j && j - i <= 0x7FFF_FFFF { NoZeroRun(j - i); }
  }

  /** The match length (without MINMATCH).  It fails only when the block would end too early. */
  method ReadMatchLength(mem: array<byte>, e: Env, ip0: int, nibble: nat, ghost input: seq<byte>)
    returns (failed: bool, length: nat, ip: int)
    requires Intact(e, input, mem[..], ip0) && ip0 < e.iend && nibble <= 15
    ensures e.src <= ip0 <= ip
    ensures failed ==>
      (match ReadLength32(input, ip0 - e.src, nibble) case None => true case Some(r) => |input| < r.1 + LASTLITERALS)
    ensures !failed ==> ip0 <= ip < e.iend && ReadLength32(input, ip0 - e.src, nibble) == Some((length, ip - e.src))
  {
    hide Intact, LengthRead, LengthCut, ReadRun;
    IntactSizes(e, input, mem[..], ip0);
    failed, length, ip := false, nibble, ip0;
    if nibble == 15 {
      var more, error;
      more, ip, error := ReadVariableLength(mem, e, ip, e.iend - LASTLITERALS + 1, false, input);
      LengthSums(input, ip0 - e.src, more, ip - e.src);
      length := length + more;
      failed := error != NoError;
    }
  }
}
