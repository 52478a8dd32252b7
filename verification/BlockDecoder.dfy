/** LZ4_decompress_generic: the safe decode loop, for full and partial decoding, with a prefix, an
    external dictionary or both, in place or not, against the byte-at-a-time decoder. */
module BlockDecoder {
  import opened Bytes
  import opened BlockFormat
  import opened BlockShape
  import opened Block32
  import opened MatchLength
  import opened DecoderCopies
  import opened Memory
  import opened DecoderState
  import opened DecoderMatches
  import opened DecoderLengths

  /** What one call is about: the block, the history it may refer to, and whether it is known to
      be well formed (decoding to d bytes). */
  datatype Call = Call(input: seq<byte>, hist: seq<byte>, good: bool, d: int)

  /** Whether the output is what the block says: a partial call promises that for well-formed blocks. */
  predicate Followed(e: Env, c: Call) { !e.partial || c.good }

  /** The smallest offset of a well-formed block: 0 is decoded too, except where a partial call ends. */
  function Least(e: Env): nat { if e.partial then 1 else 0 }

  /** Where the call stands in the block: token t, after op0 - dst bytes of output. */
  ghost predicate Path(e: Env, c: Call, t: int, op0: int, out0: seq<byte>)
  {
    && 0 <= t && |out0| == |c.hist| + (op0 - e.dst)
    && (Followed(e, c) ==> Decode32(c.input, t, out0) == Decode32(c.input, 0, c.hist))
    && (InputApart(e) || Margin32(c.input, t, e.src + t - op0))
    && (c.good ==>
       EndsWell32(c.input, t, op0 - e.dst, |c.hist|, c.d, Least(e)) && (!e.partial ==> c.d <= e.oend - e.dst))
  }

  /** What memory holds: the input from ip on, the output up to op, the history in reach. */
  ghost predicate Mem(e: Env, c: Call, m: seq<byte>, ip: int, op: int, out: seq<byte>)
  {
    && EnvOk(e, |m|) && (e.partial ==> !e.ext) && e.dst <= op <= e.oend
    && Intact(e, c.input, m, ip) && OutHolds(e, m, op, out) && DictHolds(e, m, op, out)
  }

  ghost predicate Ready(e: Env, c: Call, m: seq<byte>, ip: int, op: int, out: seq<byte>)
  {
    Mem(e, c, m, ip, op, out) && ip < e.iend && Path(e, c, ip - e.src, op, out)
  }

  /** The literals of token t are out; ip is behind its offset. */
  ghost predicate Mid(e: Env, c: Call, m: seq<byte>, t: int, ip: int, op: int, ll: int, out0: seq<byte>)
  {
    && 0 <= t < |c.input| && 0 <= ll && t < ip - e.src - 2 - ll
    && Mem(e, c, m, ip, op, WithLiterals(e, c, ip, ll, out0)) && ip < e.iend
    && Path(e, c, t, op - ll, out0) && (e.partial || op + MFLIMIT <= e.oend)
    && ReadLength32(c.input, t + 1, LitNibble(c.input[t])) == Some((ll as nat, (ip - e.src - 2 - ll) as nat))
  }

  ghost function WithLiterals(e: Env, c: Call, ip: int, ll: int, out0: seq<byte>): seq<byte>
  {
    if 0 <= ll && ll + 2 <= ip - e.src <= |c.input| then out0 + c.input[ip - e.src - 2 - ll..ip - e.src - 2] else out0
  }

  /** The block is decoded (as far as a partial call goes). */
  ghost predicate Finished(e: Env, c: Call, m: seq<byte>, op: int, out: seq<byte>)
  {
    && e.dst <= op <= e.oend && |out| == |c.hist| + (op - e.dst)
    && (!e.partial ==>
      && OutHolds(e, m, op, out) && DictHolds(e, m, op, out)
      && Decode32(c.input, 0, c.hist) == Some(out) && (c.good ==> op - e.dst == c.d))
    && (e.partial && c.good ==>
      && OutHolds(e, m, op, out) && op - e.dst == Min(c.d, e.oend - e.dst)
      && Decode32(c.input, 0, c.hist).Some? && Prefix(out, Decode32(c.input, 0, c.hist).value))
  }

  ghost predicate Prefix(a: seq<byte>, b: seq<byte>)
  {
    |a| <= |b| && b[..|a|] == a
  }

  datatype Verdict = Continue | Done | Error

  // ---------- memory steps ----------

  /** Writes up to OVERSHOOT bytes past the new output keep everything that is still needed. */
  lemma MemWrite(e: Env, c: Call, m: seq<byte>, m1: seq<byte>, ip: int, ip1: int, op: int, b: int, op1: int,
                 out: seq<byte>, out1: seq<byte>)
    requires Mem(e, c, m, ip, op, out) && Agree(m, m1, op, b) && OutHolds(e, m1, op1, out1)
    requires op <= op1 <= e.oend && ip <= ip1 <= e.iend && b <= e.oend && b <= op1 + OVERSHOOT
    requires InputApart(e) || b <= ip1
    requires Prefix(out, out1)
    ensures Mem(e, c, m1, ip1, op1, out1)
  {
    hide Intact, OutHolds, DictHolds, Agree, Reach, DictFar;
    AgreeSize(m, m1, op, b);
    IntactLater(e, c.input, m, ip, ip1);
    IntactFrame(e, c.input, m, m1, op, b, ip1);
    DictFrame(e, m, m1, op, b, op, op1, out, out1);
  }

  lemma MemRead(e: Env, c: Call, m: seq<byte>, ip: int, ip1: int, op: int, out: seq<byte>)
    requires Mem(e, c, m, ip, op, out) && ip <= ip1 <= e.iend
    ensures Mem(e, c, m, ip1, op, out)
  {
    hide OutHolds, DictHolds, EnvOk;
    IntactLater(e, c.input, m, ip, ip1);
  }

  lemma MemSizes(e: Env, c: Call, m: seq<byte>, ip: int, op: int, out: seq<byte>)
    requires Mem(e, c, m, ip, op, out)
    ensures 0 <= e.src <= ip <= e.iend <= |m| && |c.input| == e.iend - e.src <= 0x7FFF_FFFF
    ensures 0 <= e.low <= e.dst <= op <= e.oend <= |m| && 0 <= e.dictSize && |out| == e.dictSize + (op - e.low)
    ensures e.partial ==> !e.ext
    ensures Intact(e, c.input, m, ip) && OutHolds(e, m, op, out) && DictHolds(e, m, op, out)
  {
  }

  // ---------- path steps ----------

  /** From one token to the next. */
  lemma PathMatch(e: Env, c: Call, t: int, op0: int, out0: seq<byte>, out1: seq<byte>)
    requires Path(e, c, t, op0, out0) && t < |c.input| && StepAt32(c.input, t).Match?
    requires var s := StepAt32(c.input, t);
      && s.off <= |out0| + s.ll && |out1| == |out0| + s.ll + s.ml
      && (Followed(e, c) ==> out1 == CopyMatch32(out0 + c.input[s.lit..s.lit + s.ll], s.off, s.ml))
    ensures var s := StepAt32(c.input, t);
      && Path(e, c, s.next, op0 + s.ll + s.ml, out1)
      && (InputApart(e) || op0 + s.ll + s.ml + OVERSHOOT <= e.src + s.next)
  {
    hide StepAt32, CopyMatch32;
  }

  /** A well-formed block is not near its end, and has a valid offset, unless this is its last token. */
  lemma PathGood(e: Env, c: Call, t: int, op0: int, out0: seq<byte>)
    requires Path(e, c, t, op0, out0) && c.good
    ensures var s := StepAt32(c.input, t);
      && !s.Bad? && (s.Final? ==> op0 - e.dst + s.ll == c.d)
      && (s.Match? ==>
        && Least(e) <= s.off <= |out0| + s.ll && s.next + 1 + LASTLITERALS <= |c.input|
        && op0 - e.dst + s.ll + MFLIMIT <= c.d && op0 - e.dst + s.ll + s.ml + LASTLITERALS <= c.d)
    ensures !e.partial ==> c.d <= e.oend - e.dst
  {
    hide StepAt32, Decode32, Margin32;
  }

  lemma StepIs(src: seq<byte>, t: nat, ll: nat, p: nat)
    requires t < |src| && ReadLength32(src, t + 1, LitNibble(src[t])) == Some((ll, p))
    ensures var s := StepAt32(src, t);
      && (p + ll == |src| ==> s == Final(p, ll))
      && (p + ll > |src| ==> s == Bad)
      && (!s.Bad? ==> s.lit == p && s.ll == ll)
      && (s.Final? ==> p + ll == |src|)
  {
    hide ReadLength32;
  }

  lemma OverrunIsBad(src: seq<byte>, t: nat)
    requires t < |src| && Overrun(src, t + 1, LitNibble(src[t]))
    ensures StepAt32(src, t).Bad?
  {
    hide ReadLength32;
  }

  // ---------- the match ----------

  /** The output after n bytes of a match: what the offset says, except that a partial call leaves
      its last bytes as they are at offset 0. */
  ghost predicate Grown(e: Env, out: seq<byte>, off: int, n: int, grown: seq<byte>)
  {
    && 0 <= off <= |out| && 0 <= n && |grown| == |out| + n && Prefix(out, grown)
    && (!e.partial || 0 < off ==> grown == CopyMatch32(out, off, n))
  }

  lemma CopyGrown(e: Env, out: seq<byte>, off: nat, n: nat)
    requires off <= |out|
    ensures Grown(e, out, off, n, CopyMatch32(out, off, n))
  {
    hide CopyMatch32;
    Copy32Prefix(out, off, n);
  }

  /** LZ4_decompress_generic from safe_match_copy on: copy ml bytes from off back.  A partial call
      stops at the end of the output. */
  method CopyPhase(mem: array<byte>, e: Env, op: int, off: int, ml: int, ghost m: seq<byte>, ghost out: seq<byte>)
    returns (v: Verdict, op1: int, ghost grown: seq<byte>)
    requires mem[..] == m && EnvOk(e, |m|) && OutHolds(e, m, op, out) && DictHolds(e, m, op, out)
    requires (e.partial ==> !e.ext) && 0 <= off <= DISTANCE_MAX && off <= |out| && MINMATCH <= ml
    requires op <= e.oend && (e.partial || op + MFLIMIT <= e.oend)
    modifies mem
    ensures Agree(m, mem[..], op, e.oend)
    ensures v == Error ==> !e.partial && e.oend < op + ml + LASTLITERALS
    ensures v == Continue ==> (
      && op1 == op + ml <= e.oend && Agree(m, mem[..], op, Min(e.oend, op + ml + OVERSHOOT))
      && OutHolds(e, mem[..], op1, grown) && Grown(e, out, off, ml, grown))
    ensures v == Done ==> (
      && e.partial && op1 == e.oend <= op + ml
      && OutHolds(e, mem[..], op1, grown) && Grown(e, out, off, e.oend - op, grown))
  {
    hide OutHolds, DictHolds, Agree, CopyMatch32, CopyMatch, Same, DictFar, Cleared, Grown;
    OutSizes(e, m, op, out);
    if op - off < e.low {
      NeedsDict(e, m, op, off, out);
      if op + ml > e.oend - LASTLITERALS {
        AgreeSelf(m, op, e.oend);
        return Error, op, out;
      }
      CopyExternal(mem, e, op, off, ml, m, out);
      Copy32Is(out, off, ml);
      CopyGrown(e, out, off, ml);
      AgreeWider(m, mem[..], op, op + ml, op, e.oend);
      AgreeWider(m, mem[..], op, op + ml, op, Min(e.oend, op + ml + OVERSHOOT));
      return Continue, op + ml, CopyMatch32(out, off, ml);
    }
    if e.partial && op + ml > e.oend - 12 {
      v, op1, grown := CopyTail(mem, e, op, off, ml, m, out);
      return;
    }
    var ok := CopyWithin(mem, op, off, ml, e.oend, m);
    if !ok { return Error, op, out; }
    AgreeWider(m, mem[..], op, Min(e.oend, op + ml + 12), op, Min(e.oend, op + ml + OVERSHOOT));
    WithinIsCopy(e, m, mem[..], e.oend, op, out, off, ml);
    CopyGrown(e, out, off, ml);
    return Continue, op + ml, CopyMatch32(out, off, ml);
  }

  /** Near the end of a partial call: exactly the bytes that fit.  At offset 0 each byte is copied
      onto itself. */
  method CopyTail(mem: array<byte>, e: Env, op: int, off: int, ml: int, ghost m: seq<byte>, ghost out: seq<byte>)
    returns (v: Verdict, op1: int, ghost grown: seq<byte>)
    requires mem[..] == m && OutHolds(e, m, op, out) && e.partial && op <= e.oend <= |m|
    requires 0 <= off <= op - e.low && MINMATCH <= ml
    modifies mem
    ensures off <= |out| && Agree(m, mem[..], op, e.oend)
    ensures v != Error
    ensures v == Continue ==> (
      && op1 == op + ml <= e.oend && Agree(m, mem[..], op, Min(e.oend, op + ml + OVERSHOOT))
      && OutHolds(e, mem[..], op1, grown) && Grown(e, out, off, ml, grown))
    ensures v == Done ==> (
      && op1 == e.oend <= op + ml
      && OutHolds(e, mem[..], op1, grown) && Grown(e, out, off, e.oend - op, grown))
  {
    hide OutHolds, Agree, CopyMatch32, CopyMatch, Same;
    OutSizes(e, m, op, out);
    var mlen := Min(ml, e.oend - op);
    if off > 0 {
      EchoExact(mem, op, off, mlen, m);
      EchoIsCopyMatch(e, m, mem[..], op + mlen, op, out, off, mlen);
      Copy32Is(out, off, mlen);
      CopyGrown(e, out, off, mlen);
      grown := CopyMatch32(out, off, mlen);
    } else {
      AgreeSelf(m, op, op + mlen);
      OutGrows(e, m, m, op + mlen, op, out, mlen);
      grown := out + m[op..op + mlen];
    }
    AgreeWider(m, mem[..], op, op + mlen, op, e.oend);
    AgreeWider(m, mem[..], op, op + mlen, op, Min(e.oend, op + mlen + OVERSHOOT));
    op1 := op + mlen;
    v := if op1 == e.oend then Done else Continue;
  }

  lemma NeedsDict(e: Env, m: seq<byte>, op: int, off: int, out: seq<byte>)
    requires EnvOk(e, |m|) && OutHolds(e, m, op, out) && off <= |out| && off <= DISTANCE_MAX && op - off < e.low
    ensures e.ext && 0 < off - (op - e.low) <= Reach(e, op)
  {
  }

  lemma MatchStep(src: seq<byte>, t: int, ip: int, ll: int, length: int, next: int)
    requires 0 <= t < |src| && 0 <= ll && 0 <= ip - 2 - ll && ip <= |src| && 0 <= length && 0 <= next
    requires ReadLength32(src, t + 1, LitNibble(src[t])) == Some((ll as nat, (ip - 2 - ll) as nat))
    requires ReadLength32(src, ip, MatchNibble(src[t])) == Some((length as nat, next as nat))
    ensures StepAt32(src, t) == Match(ip - 2 - ll, ll, LE16(src[ip - 2], src[ip - 1]), length + MINMATCH, next)
  {
    hide ReadLength32;
  }

  lemma NoMatchStep(src: seq<byte>, t: int, ip: int, ll: int)
    requires 0 <= t < |src| && 0 <= ll && 0 <= ip - 2 - ll && ip <= |src|
    requires ReadLength32(src, t + 1, LitNibble(src[t])) == Some((ll as nat, (ip - 2 - ll) as nat))
    requires match ReadLength32(src, ip,
      MatchNibble(src[t])) case None => true case Some(r) => |src| < r.1 + LASTLITERALS
    ensures var s := StepAt32(src, t); s.Bad? || (s.Match? && |src| < s.next + LASTLITERALS)
  {
    hide ReadLength32;
  }

  /** What one stage of the loop leaves behind: the next token, the end, or an error that no
      well-formed block causes. */
  ghost predicate Left(e: Env, c: Call, m: seq<byte>, v: Verdict, ip: int, op: int, out: seq<byte>)
  {
    match v
    case Continue => Ready(e, c, m, ip, op, out)
    case Done => Finished(e, c, m, op, out)
    case Error => e.src <= ip && !c.good
  }

  lemma MidFacts(e: Env, c: Call, m: seq<byte>, t: int, ip: int, op: int, ll: int, out0: seq<byte>)
    requires Mid(e, c, m, t, ip, op, ll, out0)
    ensures 0 <= t < |c.input| && 0 <= ll && t < ip - e.src - 2 - ll && ip < e.iend && |c.input| == e.iend - e.src
    ensures Mem(e, c, m, ip, op, WithLiterals(e, c, ip, ll, out0)) && Path(e, c, t, op - ll, out0)
    ensures ReadLength32(c.input, t + 1, LitNibble(c.input[t])) == Some((ll as nat, (ip - e.src - 2 - ll) as nat))
    ensures e.partial || op + MFLIMIT <= e.oend
    ensures |WithLiterals(e, c, ip, ll, out0)| == |out0| + ll
    ensures LE16(c.input[ip - e.src - 2], c.input[ip - e.src - 1]) <= DISTANCE_MAX
    ensures EnvOk(e, |m|)
  {
    hide ReadLength32, Decode32, OutHolds, DictHolds, DictFar, EndsWell32, Margin32;
  }

  /** No well-formed block has a match that fails. */
  lemma MatchErrors(e: Env, c: Call, m: seq<byte>, t: int, ip: int, op: int, ll: int, out0: seq<byte>)
    requires Mid(e, c, m, t, ip, op, ll, out0) && c.good
    ensures StepAt32(c.input, t).Match? && StepAt32(c.input, t).next + LASTLITERALS < |c.input|
    ensures StepAt32(c.input, t).off <= |WithLiterals(e, c, ip, ll, out0)| && StepAt32(c.input, t).ll == ll
    ensures !e.partial ==> op + StepAt32(c.input, t).ml + LASTLITERALS <= e.oend
  {
    hide Mid, StepAt32, ReadLength32, Mem, Path, WithLiterals;
    MidFacts(e, c, m, t, ip, op, ll, out0);
    PathGood(e, c, t, op - ll, out0);
    StepIs(c.input, t, ll, ip - e.src - 2 - ll);
  }

  lemma GrownParts(e: Env, out: seq<byte>, off: int, n: int, grown: seq<byte>)
    requires Grown(e, out, off, n, grown)
    ensures 0 <= off <= |out| && 0 <= n && |grown| == |out| + n && Prefix(out, grown)
    ensures !e.partial || 0 < off ==> grown == CopyMatch32(out, off, n)
  {
  }

  /** After a whole match the loop is ready for the next token. */
  lemma AfterMatch(e: Env, c: Call, m: seq<byte>, m1: seq<byte>, t: int, ip: int, next: int, op: int, ll: int,
      out0: seq<byte>, grown: seq<byte>)
    requires Mid(e, c, m, t, ip, op, ll, out0) && 0 <= t && StepAt32(c.input, t).Match?
    requires var s := StepAt32(c.input, t); var out := WithLiterals(e, c, ip, ll, out0);
      && s.lit == ip - e.src - 2 - ll && s.ll == ll && s.next == next - e.src && ip <= next < e.iend
      && op + s.ml <= e.oend && Agree(m, m1, op, Min(e.oend, op + s.ml + OVERSHOOT))
      && OutHolds(e, m1, op + s.ml, grown) && Grown(e, out, s.off, s.ml, grown)
    ensures Ready(e, c, m1, next, op + StepAt32(c.input, t).ml, grown)
  {
    hide Mid, StepAt32, Mem, Path, CopyMatch32, OutHolds, Agree, Grown;
    var s, out := StepAt32(c.input, t), WithLiterals(e, c, ip, ll, out0);
    MidFacts(e, c, m, t, ip, op, ll, out0);
    if c.good { PathGood(e, c, t, op - ll, out0); }
    GrownParts(e, out, s.off, s.ml, grown);
    PathMatch(e, c, t, op - ll, out0, grown);
    MemWrite(e, c, m, m1, ip, next, op, Min(e.oend, op + s.ml + OVERSHOOT), op + s.ml, out, grown);
  }

  lemma CopyMatchPrefix(out: seq<byte>, off: nat, n: nat, k: nat)
    requires 1 <= off <= |out| && n <= k
    ensures Prefix(CopyMatch32(out, off, n), CopyMatch32(out, off, k))
  {
    hide CopyMatch;
    CopyMatchSplit(out, off, n, k - n);
    CopySize(CopyMatch(out, off, n), off, k - n);
  }

  lemma PrefixTrans(a: seq<byte>, b: seq<byte>, c: seq<byte>)
    requires Prefix(a, b) && Prefix(b, c)
    ensures Prefix(a, c)
  {
    assert c[..|a|] == c[..|b|][..|a|];
  }

  /** From any token of a well-formed block, what is decoded extends what was there. */
  lemma PathDecodes(e: Env, c: Call, t: int, op0: int, out0: seq<byte>)
    requires Path(e, c, t, op0, out0) && c.good && e.dst <= op0
    ensures Decode32(c.input, 0, c.hist).Some? && Prefix(out0, Decode32(c.input, 0, c.hist).value)
    ensures op0 - e.dst <= c.d && |Decode32(c.input, 0, c.hist).value| == |c.hist| + c.d
  {
    hide StepAt32, Decode32, EndsWell32, Margin32;
    EndsWell32Decodes(c.input, t, out0, |c.hist|, c.d, Least(e));
  }

  /** A match cut at the end of a partial call completes it. */
  lemma AfterCut(e: Env, c: Call, m: seq<byte>, m1: seq<byte>, t: int, ip: int, op: int, ll: int, out0: seq<byte>,
      grown: seq<byte>)
    requires Mid(e, c, m, t, ip, op, ll, out0) && 0 <= t && StepAt32(c.input, t).Match? && e.partial
    requires var s := StepAt32(c.input, t); var out := WithLiterals(e, c, ip, ll, out0);
      && s.lit == ip - e.src - 2 - ll && s.ll == ll && op <= e.oend <= op + s.ml
      && OutHolds(e, m1, e.oend, grown) && Grown(e, out, s.off, e.oend - op, grown) && e.dst <= op
    ensures Finished(e, c, m1, e.oend, grown)
  {
    hide Mid, StepAt32, Mem, Path, CopyMatch32, OutHolds, Decode32, Grown;
    var s, out := StepAt32(c.input, t), WithLiterals(e, c, ip, ll, out0);
    MidFacts(e, c, m, t, ip, op, ll, out0);
    MemSizes(e, c, m, ip, op, out);
    PathSize(e, c, t, op - ll, out0);
    GrownParts(e, out, s.off, e.oend - op, grown);
    if c.good {
      PathGood(e, c, t, op - ll, out0);
      PathMatch(e, c, t, op - ll, out0, CopyMatch32(out, s.off, s.ml));
      PathDecodes(e, c, s.next, op + s.ml, CopyMatch32(out, s.off, s.ml));
      CopyMatchPrefix(out, s.off, e.oend - op, s.ml);
      PrefixTrans(grown, CopyMatch32(out, s.off, s.ml), Decode32(c.input, 0, c.hist).value);
    }
  }

  lemma PathSize(e: Env, c: Call, t: int, op0: int, out0: seq<byte>)
    requires Path(e, c, t, op0, out0)
    ensures |out0| == |c.hist| + (op0 - e.dst)
  {
  }

  /** The match of token t: its length, the checks, the copy. */
  method MatchStage(mem: array<byte>, e: Env, ip0: int, op0: int, off: int, nibble: nat,
                    ghost c: Call, ghost t: int, ghost ll: int, ghost out0: seq<byte>, ghost m: seq<byte>)
    returns (v: Verdict, ip: int, op: int, ghost out: seq<byte>)
    requires mem[..] == m && Mid(e, c, m, t, ip0, op0, ll, out0)
    requires t < |c.input| && e.src + 2 <= ip0 <= e.src + |c.input|
    requires 0 <= t && nibble == MatchNibble(c.input[t])
      && off == LE16(c.input[ip0 - e.src - 2], c.input[ip0 - e.src - 1])
    modifies mem
    ensures Left(e, c, mem[..], v, ip, op, out) && Agree(m, mem[..], op0, e.oend)
    ensures v == Continue ==> ip0 <= ip
  {
    hide Mid, StepAt32, Mem, WithLiterals, CopyMatch32, OutHolds, DictHolds, Agree, ReadLength32, Intact, Ready,
      Finished, EnvOk, Path, Grown;
    ghost var o := WithLiterals(e, c, ip0, ll, out0);
    MidFacts(e, c, m, t, ip0, op0, ll, out0);
    MemSizes(e, c, m, ip0, op0, o);
    AgreeSelf(m, op0, e.oend);
    ip, op, out := ip0, op0, o;
    if c.good { MatchErrors(e, c, m, t, ip0, op0, ll, out0); }
    var failed, length;
    failed, length, ip := ReadMatchLength(mem, e, ip0, nibble, c.input);
    if failed {
      NoMatchStep(c.input, t, ip0 - e.src, ll);
      return Error, ip, op, out;
    }
    MatchStep(c.input, t, ip0 - e.src, ll, length, ip - e.src);
    if e.dictSize < KB64 && op0 - off + e.dictSize < e.low { return Error, ip, op, out; }
    v, op, out := CopyPhase(mem, e, op0, off, length + MINMATCH, m, o);
    if v == Continue {
      AfterMatch(e, c, m, mem[..], t, ip0, ip, op0, ll, out0, out);
    } else if v == Done {
      AfterCut(e, c, m, mem[..], t, ip0, op0, ll, out0, out);
    }
  }

  // ---------- the literals ----------

  ghost predicate LengthKnown(e: Env, c: Call, t: int, ip: int, length: int)
  {
    0 <= t < |c.input| && 0 <= length && t < ip - e.src &&
    (|| ReadLength32(c.input, t + 1, LitNibble(c.input[t])) == Some((length as nat, (ip - e.src) as nat))
     || (Overrun(c.input, t + 1, LitNibble(c.input[t])) && e.iend < ip + length))
  }

  /** Copied literals become output, and the input behind them is still there. */
  lemma LiteralsGrow(e: Env, c: Call, m: seq<byte>, m1: seq<byte>, ip: int, op: int, out: seq<byte>, n: int, b: int)
    requires Mem(e, c, m, ip, op, out) && Agree(m, m1, op, b) && 0 <= n
    requires ip + n <= e.iend && op + n <= e.oend && b <= e.oend && b <= op + n + OVERSHOOT
    requires InputApart(e) || b <= ip + n
    requires op + n <= |m1| && ip + n <= |m| && 0 <= op && 0 <= ip && m1[op..op + n] == m[ip..ip + n]
    ensures 0 <= ip - e.src && ip - e.src + n <= |c.input|
    ensures Mem(e, c, m1, ip + n, op + n, out + c.input[ip - e.src..ip - e.src + n])
  {
    hide Mem, Agree, OutHolds, Intact, DictHolds;
    MemSizes(e, c, m, ip, op, out);
    InputSlice(e, c.input, m, ip, n);
    OutGrows(e, m, m1, b, op, out, n);
    MemWrite(e, c, m, m1, ip, ip + n, op, b, op + n, out, out + c.input[ip - e.src..ip - e.src + n]);
  }

  /** Where the literals of a well-formed block lie, and that the decoded data starts with them. */
  lemma LiteralsDecode(e: Env, c: Call, t: int, op0: int, out0: seq<byte>, ip: int, length: int)
    requires Path(e, c, t, op0, out0) && LengthKnown(e, c, t, ip, length) && c.good && e.dst <= op0
    requires |c.input| == e.iend - e.src
    ensures ip + length <= e.iend && op0 - e.dst + length <= c.d
    ensures e.iend - 8 < ip + length || e.oend - 12 < op0 + length ==>
      (StepAt32(c.input, t).Final? && op0 - e.dst + length == c.d) || e.partial
    ensures e.iend - 2 <= ip + length ==> op0 - e.dst + length == c.d
    ensures 0 <= ip - e.src && Decode32(c.input, 0, c.hist).Some?
    ensures Prefix(out0 + c.input[ip - e.src..ip - e.src + length], Decode32(c.input, 0, c.hist).value)
    ensures |Decode32(c.input, 0, c.hist).value| == |c.hist| + c.d
    ensures !e.partial ==> c.d <= e.oend - e.dst
  {
    hide Path, StepAt32, ReadLength32, Overrun, Decode32, CopyMatch32;
    PathGood(e, c, t, op0, out0);
    if Overrun(c.input, t + 1, LitNibble(c.input[t])) { OverrunIsBad(c.input, t); }
    var s := StepAt32(c.input, t);
    StepIs(c.input, t, length, ip - e.src);
    var o := out0 + c.input[s.lit..s.lit + s.ll];
    PathDecodes(e, c, t, op0, out0);
    if s.Match? {
      PathMatch(e, c, t, op0, out0, CopyMatch32(o, s.off, s.ml));
      PathDecodes(e, c, s.next, op0 + s.ll + s.ml, CopyMatch32(o, s.off, s.ml));
      Copy32Prefix(o, s.off, s.ml);
      PrefixTrans(o, CopyMatch32(o, s.off, s.ml), Decode32(c.input, 0, c.hist).value);
    } else {
      FinalDecode(e, c, t, op0, out0);
    }
  }

  lemma FinalDecode(e: Env, c: Call, t: int, op0: int, out0: seq<byte>)
    requires Path(e, c, t, op0, out0) && StepAt32(c.input, t).Final? && Followed(e, c)
    ensures var s := StepAt32(c.input, t); Decode32(c.input, 0, c.hist) == Some(out0 + c.input[s.lit..s.lit + s.ll])
  {
    hide StepAt32, Margin32, EndsWell32;
  }

  /** The last literals of a full call end the block. */
  lemma LastOfFull(e: Env, c: Call, m: seq<byte>, t: int, op0: int, out0: seq<byte>, ip: int, length: int)
    requires Path(e, c, t, op0, out0) && LengthKnown(e, c, t, ip, length) && !e.partial && e.dst <= op0
    requires |c.input| == e.iend - e.src && ip + length == e.iend && op0 + length <= e.oend
    requires OutHolds(e, m, op0 + length, out0 + c.input[ip - e.src..ip - e.src + length])
    requires DictHolds(e, m, op0 + length, out0 + c.input[ip - e.src..ip - e.src + length])
    ensures Finished(e, c, m, op0 + length, out0 + c.input[ip - e.src..ip - e.src + length])
  {
    hide Path, StepAt32, ReadLength32, Overrun, Decode32, OutHolds, DictHolds;
    PathSize(e, c, t, op0, out0);
    StepIs(c.input, t, length, ip - e.src);
    FinalDecode(e, c, t, op0, out0);
    if c.good { LiteralsDecode(e, c, t, op0, out0, ip, length); }
  }

  lemma PrefixCut(a: seq<byte>, b: seq<byte>, f: seq<byte>, n: int)
    requires 0 <= n <= |b| && Prefix(a + b, f)
    ensures Prefix(a + b[..n], f)
  {
    assert a + b[..n] == (a + b)[..|a| + n];
  }

  /** A partial call that stops in or behind literals has what it was asked for. */
  lemma LastOfPartial(e: Env, c: Call, m: seq<byte>, t: int, op0: int, out0: seq<byte>, ip: int, length: int, n: int)
    requires Path(e, c, t, op0, out0) && LengthKnown(e, c, t, ip, length) && e.partial && e.dst <= op0
    requires |c.input| == e.iend - e.src && 0 <= n <= length && ip + n <= e.iend && op0 + n <= e.oend
    requires n < length ==> op0 + n == e.oend || e.iend < ip + length
    requires op0 + n == e.oend || e.iend - 2 <= ip + n
    requires OutHolds(e, m, op0 + n, out0 + c.input[ip - e.src..ip - e.src + n])
    ensures Finished(e, c, m, op0 + n, out0 + c.input[ip - e.src..ip - e.src + n])
  {
    hide Path, StepAt32, ReadLength32, Overrun, Decode32, OutHolds;
    PathSize(e, c, t, op0, out0);
    if c.good {
      LiteralsDecode(e, c, t, op0, out0, ip, length);
      var i := ip - e.src;
      PrefixCut(out0, c.input[i..i + length], Decode32(c.input, 0, c.hist).value, n);
      assert c.input[i..i + length][..n] == c.input[i..i + n];
    }
  }

  lemma MidHolds(e: Env, c: Call, m: seq<byte>, t: int, ip: int, op: int, ll: int, out0: seq<byte>)
    requires LengthKnown(e, c, t, ip - ll, ll) && ip <= e.iend - 2 && |c.input| == e.iend - e.src
      && 0 <= ip - ll - e.src
    requires ip + 2 < e.iend
    requires Mem(e, c, m, ip, op, out0 + c.input[ip - ll - e.src..ip - e.src]) && Path(e, c, t, op - ll, out0)
    requires e.partial || op + MFLIMIT <= e.oend
    ensures Mid(e, c, m, t, ip + 2, op, ll, out0)
  {
    hide Mem, Path, ReadLength32, Overrun;
    MemRead(e, c, m, ip, ip + 2, op, out0 + c.input[ip - ll - e.src..ip - e.src]);
  }

  /** LZ4_readLE16(ip) of the input. */
  method ReadOffset(mem: array<byte>, e: Env, ip: int, ghost c: Call, ghost op: int, ghost out: seq<byte>)
      returns (off: int)
    requires Mem(e, c, mem[..], ip, op, out) && ip + 2 <= e.iend
    ensures 0 <= ip - e.src && ip - e.src + 2 <= |c.input| && off == LE16(c.input[ip - e.src], c.input[ip - e.src + 1])
  {
    hide Mem, Intact;
    MemSizes(e, c, mem[..], ip, op, out);
    InputByte(e, c.input, mem[..], ip, ip);
    InputByte(e, c.input, mem[..], ip, ip + 1);
    off := LE16(mem[ip], mem[ip + 1]);
  }

  lemma PathAhead(e: Env, c: Call, t: int, op0: int, out0: seq<byte>)
    requires Path(e, c, t, op0, out0)
    ensures InputApart(e) || op0 + OVERSHOOT <= e.src + t
  {
  }

  /** Literals away from both ends: a wild copy that may overshoot by 8. */
  method WildLiterals(mem: array<byte>, e: Env, ip: int, op: int, length: int,
                      ghost c: Call, ghost t: int, ghost out0: seq<byte>, ghost m: seq<byte>)
    requires mem[..] == m && Mem(e, c, m, ip, op, out0) && Path(e, c, t, op, out0) && e.src + t < ip
    requires 0 <= length && op + length <= e.oend - MFLIMIT && ip + length <= e.iend - 8
    modifies mem
    ensures Agree(m, mem[..], op, e.oend)
    ensures 0 <= ip - e.src && ip - e.src + length <= |c.input|
    ensures Mem(e, c, mem[..], ip + length, op + length, out0 + c.input[ip - e.src..ip - e.src + length])
  {
    hide Mem, Path, Agree, Intact, OutHolds, DictHolds;
    MemSizes(e, c, m, ip, op, out0);
    PathAhead(e, c, t, op, out0);
    var n := RoundUp8(length);
    WildCopy(mem, op, ip, length, m);
    AgreeSize(m, mem[..], op, op + n);
    LiteralsGrow(e, c, m, mem[..], ip, op, out0, length, op + n);
    AgreeWider(m, mem[..], op, op + n, op, e.oend);
  }

  /** memmove of literals, exactly. */
  method ExactLiterals(mem: array<byte>, e: Env, ip: int, op: int, n: int,
                       ghost c: Call, ghost t: int, ghost out0: seq<byte>, ghost m: seq<byte>)
    requires mem[..] == m && Mem(e, c, m, ip, op, out0) && Path(e, c, t, op, out0) && e.src + t < ip
    requires 0 <= n && op + n <= e.oend && ip + n <= e.iend
    modifies mem
    ensures Agree(m, mem[..], op, e.oend)
    ensures 0 <= ip - e.src && ip - e.src + n <= |c.input|
    ensures Mem(e, c, mem[..], ip + n, op + n, out0 + c.input[ip - e.src..ip - e.src + n])
  {
    hide Mem, Path, Agree, Intact, OutHolds, DictHolds;
    MemSizes(e, c, m, ip, op, out0);
    PathAhead(e, c, t, op, out0);
    MemMove(mem, op, ip, n, m);
    AgreeSize(m, mem[..], op, op + n);
    LiteralsGrow(e, c, m, mem[..], ip, op, out0, n, op + n);
    AgreeWider(m, mem[..], op, op + n, op, e.oend);
  }

  /** Literals near the end of the input or the output. */
  method LastLiterals(mem: array<byte>, e: Env, ip0: int, op0: int, length: int,
                      ghost c: Call, ghost t: int, ghost out0: seq<byte>, ghost m: seq<byte>)
    returns (v: Verdict, ip: int, op: int, ghost out: seq<byte>)
    requires mem[..] == m && Mem(e, c, m, ip0, op0, out0) && Path(e, c, t, op0, out0)
      && LengthKnown(e, c, t, ip0, length)
    requires e.oend - MFLIMIT < op0 + length || e.iend - 8 < ip0 + length
    modifies mem
    ensures Agree(m, mem[..], op0, e.oend)
    ensures v == Error ==> e.src <= ip && !c.good
    ensures v == Done ==> Finished(e, c, mem[..], op, out)
    ensures v == Continue ==> (
      && e.partial && ip == ip0 + length < e.iend - 2 && op == op0 + length
      && |c.input| == e.iend - e.src && 0 <= ip0 - e.src
      && Mem(e, c, mem[..], ip, op, out0 + c.input[ip0 - e.src..ip - e.src]))
  {
    hide Mem, Path, Agree, Intact, OutHolds, DictHolds, ReadLength32, Overrun, Finished, StepAt32, Decode32;
    MemSizes(e, c, m, ip0, op0, out0);
    AgreeSelf(m, op0, e.oend);
    ip, op, out := ip0, op0, out0;
    var n := length;
    if e.partial {
      if ip0 + n > e.iend { n := e.iend - ip0; }
      if op0 + n > e.oend { n := e.oend - op0; }
    } else if ip0 + n != e.iend || op0 + n > e.oend {
      if c.good { LiteralsDecode(e, c, t, op0, out0, ip0, length); FinalEnds(c.input, t, length, ip0 - e.src); }
      return Error, ip0, op0, out0;
    }
    ExactLiterals(mem, e, ip0, op0, n, c, t, out0, m);
    ip, op, out := ip0 + n, op0 + n, out0 + c.input[ip0 - e.src..ip0 - e.src + n];
    MemSizes(e, c, mem[..], ip, op, out);
    v := Continue;
    if !e.partial {
      LastOfFull(e, c, mem[..], t, op0, out0, ip0, length);
      v := Done;
    } else if op == e.oend || ip >= e.iend - 2 {
      LastOfPartial(e, c, mem[..], t, op0, out0, ip0, length, n);
      v := Done;
    }
  }

  lemma FinalEnds(src: seq<byte>, t: nat, ll: nat, p: nat)
    requires t < |src|
    ensures ReadLength32(src, t + 1, LitNibble(src[t])) == Some((ll, p)) && StepAt32(src, t).Final? ==> p + ll == |src|
    ensures Overrun(src, t + 1, LitNibble(src[t])) ==> StepAt32(src, t).Bad?
  {
    hide ReadLength32;
  }

  /** The literals of token t and the offset behind them. */
  method LiteralStage(mem: array<byte>, e: Env, ip0: int, op0: int, length: int,
                      ghost c: Call, ghost t: int, ghost out0: seq<byte>, ghost m: seq<byte>)
    returns (v: Verdict, ip: int, op: int, off: int, ghost out: seq<byte>)
    requires mem[..] == m && Mem(e, c, m, ip0, op0, out0) && Path(e, c, t, op0, out0)
      && LengthKnown(e, c, t, ip0, length)
    modifies mem
    ensures Agree(m, mem[..], op0, e.oend)
    ensures v == Error ==> e.src <= ip && !c.good
    ensures v == Done ==> Finished(e, c, mem[..], op, out)
    ensures v == Continue ==> (
      && op == op0 + length && ip0 < ip && Mid(e, c, mem[..], t, ip, op, length, out0)
      && e.src + 2 <= ip <= e.src + |c.input| && off == LE16(c.input[ip - e.src - 2], c.input[ip - e.src - 1]))
  {
    hide Mem, Path, Agree, Finished, Mid, LengthKnown;
    MemSizes(e, c, m, ip0, op0, out0);
    LengthPositive(e, c, t, ip0, length);
    ip, op, off, out := ip0 + length, op0 + length, 0, out0;
    if op0 + length > e.oend - MFLIMIT || ip0 + length > e.iend - 8 {
      v, ip, op, out := LastLiterals(mem, e, ip0, op0, length, c, t, out0, m);
      if v != Continue { return; }
    } else {
      WildLiterals(mem, e, ip0, op0, length, c, t, out0, m);
      v := Continue;
    }
    ghost var o := out0 + c.input[ip0 - e.src..ip - e.src];
    off := ReadOffset(mem, e, ip, c, op, o);
    MidHolds(e, c, mem[..], t, ip, op, length, out0);
    ip := ip + 2;
  }

  lemma LengthPositive(e: Env, c: Call, t: int, ip: int, length: int)
    requires LengthKnown(e, c, t, ip, length)
    ensures 0 <= length && 0 <= t < |c.input| && t < ip - e.src
  {
  }

  // ---------- the shortcut ----------

  /** memcpy of 8, 8 and 2 bytes. */
  method Copy18(mem: array<byte>, d: int, dist: int, ghost m: seq<byte>)
    requires mem[..] == m && 8 <= dist <= d && d + 18 <= |m|
    modifies mem
    ensures Agree(m, mem[..], d, d + 18) && Same(mem[..], d, d - dist, 18)
  {
    hide Echoed, Agree, Same;
    EchoedNothing(m, d, dist);
    EchoStep(mem, d, dist, 0, 8, m);
    EchoStep(mem, d, dist, 8, 8, m);
    EchoStep(mem, d, dist, 16, 2, m);
    EchoedParts(m, mem[..], d, dist, 18);
  }

  lemma KnownLength(e: Env, c: Call, t: int, ip: int, length: int)
    requires 0 <= t < |c.input| && ip - e.src == t + 1 && length == LitNibble(c.input[t]) < 15
    ensures LengthKnown(e, c, t, ip, length)
  {
  }

  /** Up to 14 literals copied as 16 bytes. */
  method ShortLiterals(mem: array<byte>, e: Env, ip: int, op: int, length: int,
                       ghost c: Call, ghost t: int, ghost out0: seq<byte>, ghost m: seq<byte>) returns (off: int)
    requires mem[..] == m && Mem(e, c, m, ip, op, out0) && Path(e, c, t, op, out0) && e.src + t + 1 == ip
    requires 0 <= t < |c.input| && length == LitNibble(c.input[t]) < 15
    requires ip < e.iend - 16 && op <= e.oend - 32
    modifies mem
    ensures Agree(m, mem[..], op, e.oend) && Mid(e, c, mem[..], t, ip + length + 2, op + length, length, out0)
    ensures e.src <= ip && ip + length + 2 <= e.src + |c.input|
    ensures off == LE16(c.input[ip + length - e.src], c.input[ip + length - e.src + 1])
  {
    hide Mem, Path, Agree, Mid, LengthKnown, Intact, OutHolds, DictHolds;
    MemSizes(e, c, m, ip, op, out0);
    PathAhead(e, c, t, op, out0);
    MemMove(mem, op, ip, 16, m);
    AgreeSize(m, mem[..], op, op + 16);
    ShortLiteralsGrow(e, c, m, mem[..], t, ip, op, length, out0);
    AgreeWider(m, mem[..], op, op + 16, op, e.oend);
    KnownLength(e, c, t, ip, length);
    ghost var o := out0 + c.input[ip - e.src..ip + length - e.src];
    off := ReadOffset(mem, e, ip + length, c, op + length, o);
    MidHolds(e, c, mem[..], t, ip + length, op + length, length, out0);
  }

  lemma ShortLiteralsGrow(e: Env, c: Call, m: seq<byte>, m1: seq<byte>, t: int, ip: int, op: int, n: int,
      out: seq<byte>)
    requires Mem(e, c, m, ip, op, out) && Agree(m, m1, op, op + 16) && 0 <= n < 15 && ip < e.iend - 16
      && op <= e.oend - 32
    requires InputApart(e) || op + OVERSHOOT < ip
    requires op + 16 <= |m1| && ip + 16 <= |m| && 0 <= op && 0 <= ip && m1[op..op + 16] == m[ip..ip + 16]
    ensures 0 <= ip - e.src && ip - e.src + n <= |c.input|
    ensures Mem(e, c, m1, ip + n, op + n, out + c.input[ip - e.src..ip - e.src + n])
  {
    hide Mem, Agree;
    SliceOfSlice(m1, op, op + 16, 0, n);
    SliceOfSlice(m, ip, ip + 16, 0, n);
    LiteralsGrow(e, c, m, m1, ip, op, out, n, op + 16);
  }

  /** A match of at most 18 bytes with an offset of at least 8 copied as 18 bytes. */
  method ShortMatch(mem: array<byte>, e: Env, ip: int, op: int, off: int, nibble: int,
                    ghost c: Call, ghost t: int, ghost ll: int, ghost out0: seq<byte>, ghost m: seq<byte>)
                    returns (ghost out: seq<byte>)
    requires mem[..] == m && Mid(e, c, m, t, ip, op, ll, out0) && 0 <= t < |c.input|
      && e.src + 2 <= ip <= e.src + |c.input|
    requires nibble == MatchNibble(c.input[t]) < 15 && off == LE16(c.input[ip - e.src - 2], c.input[ip - e.src - 1])
    requires op <= e.oend - 18 && 8 <= off && e.low <= op - off
    modifies mem
    ensures Ready(e, c, mem[..], ip, op + nibble + MINMATCH, out) && Agree(m, mem[..], op, e.oend)
  {
    hide Mid, StepAt32, Mem, WithLiterals, CopyMatch32, CopyMatch, OutHolds, DictHolds, Agree, Intact, Ready, EnvOk,
      Path, Same, Grown;
    ghost var o := WithLiterals(e, c, ip, ll, out0);
    MidFacts(e, c, m, t, ip, op, ll, out0);
    MemSizes(e, c, m, ip, op, o);
    MatchStep(c.input, t, ip - e.src, ll, nibble, ip - e.src);
    var ml := nibble + MINMATCH;
    Copy18(mem, op, off, m);
    SameSub(mem[..], op, op - off, 18, 0, ml);
    AgreeWider(m, mem[..], op, op + 18, op, e.oend);
    AgreeWider(m, mem[..], op, op + 18, op, Min(e.oend, op + ml + OVERSHOOT));
    EchoIsCopyMatch(e, m, mem[..], e.oend, op, o, off, ml);
    Copy32Is(o, off, ml);
    CopyGrown(e, o, off, ml);
    out := CopyMatch32(o, off, ml);
    AfterMatch(e, c, m, mem[..], t, ip, ip, op, ll, out0, out);
  }

  // ---------- one sequence ----------

  lemma ReadyFacts(e: Env, c: Call, m: seq<byte>, ip: int, op: int, out: seq<byte>)
    requires Ready(e, c, m, ip, op, out)
    ensures Mem(e, c, m, ip, op, out) && Path(e, c, ip - e.src, op, out) && ip < e.iend
    ensures Mem(e, c, m, ip + 1, op, out) && Intact(e, c.input, m, ip + 1)
    ensures 0 <= e.src <= ip < |m| && 0 <= ip - e.src < |c.input| && m[ip] == c.input[ip - e.src]
    ensures |m| >= e.oend && e.low <= e.dst <= op <= e.oend
  {
    hide OutHolds, DictHolds, Decode32, EndsWell32, Margin32;
    MemRead(e, c, m, ip, ip + 1, op, out);
    InputByte(e, c.input, m, ip, ip);
  }

  /** The whole of one loop iteration. */
  method DecodeSequence(mem: array<byte>, e: Env, ip0: int, op0: int, ghost c: Call, ghost out0: seq<byte>,
      ghost m: seq<byte>)
    returns (v: Verdict, ip: int, op: int, ghost out: seq<byte>)
    requires mem[..] == m && Ready(e, c, m, ip0, op0, out0)
    modifies mem
    ensures Left(e, c, mem[..], v, ip, op, out) && Agree(m, mem[..], e.dst, e.oend)
    ensures v == Continue ==> ip0 < ip
  {
    hide Mid, Mem, Path, Agree, Ready, Left, Intact, LengthKnown, ReadLength32, Overrun, LitNibble, MatchNibble;
    ReadyFacts(e, c, m, ip0, op0, out0);
    ghost var t := ip0 - e.src;
    var token := mem[ip0];
    var length := LitNibble(token);
    Nibbles(token);
    ip, op, out := ip0 + 1, op0, out0;
    var off;
    if length != RUN_MASK && ip < e.iend - 16 && op <= e.oend - 32 {
      off := ShortLiterals(mem, e, ip, op, length, c, t, out0, m);
      ghost var m1 := mem[..];
      ip, op := ip + length + 2, op + length;
      var nibble := MatchNibble(token);
      if nibble != ML_MASK && off >= 8 && op - off >= e.low {
        out := ShortMatch(mem, e, ip, op, off, nibble, c, t, length, out0, m1);
        LeftContinue(e, c, mem[..], ip, op + nibble + MINMATCH, out);
        AgreeTrans(m, m1, mem[..], op0, e.oend, op, e.oend, e.dst, e.oend);
        return Continue, ip, op + nibble + MINMATCH, out;
      }
      v, ip, op, out := MatchStage(mem, e, ip, op, off, nibble, c, t, length, out0, m1);
      AgreeTrans(m, m1, mem[..], op0, e.oend, op0 + length, e.oend, e.dst, e.oend);
      return;
    }
    v, ip, op, out := LongSequence(mem, e, ip, op, token, c, t, out0, m);
    AgreeWider(m, mem[..], op0, e.oend, e.dst, e.oend);
  }

  lemma LeftContinue(e: Env, c: Call, m: seq<byte>, ip: int, op: int, out: seq<byte>)
    requires Ready(e, c, m, ip, op, out)
    ensures Left(e, c, m, Continue, ip, op, out)
  {
  }

  lemma LeftLast(e: Env, c: Call, m: seq<byte>, v: Verdict, ip: int, op: int, out: seq<byte>)
    requires v != Continue && (v == Error ==> e.src <= ip && !c.good) && (v == Done ==> Finished(e, c, m, op, out))
    ensures Left(e, c, m, v, ip, op, out)
  {
  }

  lemma LengthIsKnown(e: Env, c: Call, t: int, ip: int, length: int)
    requires 0 <= t < |c.input| && 0 <= length && t < ip - e.src
    requires
      || ReadLength32(c.input, t + 1, LitNibble(c.input[t])) == Some((length as nat, (ip - e.src) as nat))
      || (Overrun(c.input, t + 1, LitNibble(c.input[t])) && e.iend < ip + length)
    ensures LengthKnown(e, c, t, ip, length)
  {
  }

  lemma OverrunNotGood(e: Env, c: Call, t: int, op0: int, out0: seq<byte>)
    requires Path(e, c, t, op0, out0) && 0 <= t < |c.input| && Overrun(c.input, t + 1, LitNibble(c.input[t]))
    ensures !c.good
  {
    hide Path, Overrun, StepAt32;
    if c.good { PathGood(e, c, t, op0, out0); OverrunIsBad(c.input, t); }
  }

  /** The sequence behind the token when the shortcut does not apply. */
  method LongSequence(mem: array<byte>, e: Env, ip0: int, op0: int, token: byte,
                      ghost c: Call, ghost t: int, ghost out0: seq<byte>, ghost m: seq<byte>)
    returns (v: Verdict, ip: int, op: int, ghost out: seq<byte>)
    requires mem[..] == m && Mem(e, c, m, ip0, op0, out0) && Path(e, c, t, op0, out0)
    requires Intact(e, c.input, m, ip0) && ip0 == e.src + t + 1 && 0 <= t < |c.input| && token == c.input[t]
    modifies mem
    ensures Left(e, c, mem[..], v, ip, op, out) && Agree(m, mem[..], op0, e.oend)
    ensures v == Continue ==> ip0 <= ip
  {
    hide Mid, Mem, Path, Agree, Ready, Finished, Left, Intact, LengthKnown, ReadLength32, Overrun, LitNibble,
      MatchNibble;
    Nibbles(token);
    MemSizes(e, c, m, ip0, op0, out0);
    var failed, length, off;
    op, out := op0, out0;
    failed, length, ip := ReadLiteralLength(mem, e, ip0, LitNibble(token), c.input);
    if failed {
      OverrunNotGood(e, c, t, op0, out0);
      LeftLast(e, c, m, Error, ip, op, out);
      AgreeSelf(m, op0, e.oend);
      return Error, ip, op, out;
    }
    LengthIsKnown(e, c, t, ip, length);
    MemRead(e, c, m, ip0, ip, op0, out0);
    v, ip, op, off, out := LiteralStage(mem, e, ip, op0, length, c, t, out0, m);
    if v != Continue {
      LeftLast(e, c, mem[..], v, ip, op, out);
      return;
    }
    ghost var m1 := mem[..];
    v, ip, op, out := MatchStage(mem, e, ip, op, off, MatchNibble(token), c, t, length, out0, m1);
    AgreeTrans(m, m1, mem[..], op0, e.oend, op0 + length, e.oend, op0, e.oend);
  }

  // ---------- the whole block ----------

  /** What a caller must provide: the block, its history in place, room where the modes need it. */
  ghost predicate Callable(e: Env, c: Call, m: seq<byte>)
  {
    && EnvOk(e, |m|) && (e.partial ==> !e.ext)
    && Intact(e, c.input, m, e.src) && OutHolds(e, m, e.dst, c.hist) && DictHolds(e, m, e.dst, c.hist)
    && (InputApart(e) || Margin32(c.input, 0, e.src - e.dst))
    && (c.good ==> EndsWell32(c.input, 0, 0, |c.hist|, c.d, Least(e)) && (!e.partial ==> c.d <= e.oend - e.dst))
  }

  /** What the caller gets.  A full call that succeeds has decoded the block, and succeeds on every
      well-formed one that fits; a partial call has the first bytes of a well-formed one. */
  ghost predicate Decompressed(e: Env, c: Call, m: seq<byte>, result: int)
  {
    && (!e.partial && 0 <= result ==>
      && e.dst + result <= e.oend && Decode32(c.input, 0, c.hist).Some?
      && |Decode32(c.input, 0, c.hist).value| == |c.hist| + result
      && At(m, e.dst, Decode32(c.input, 0, c.hist).value[|c.hist|..])
      && OutHolds(e, m, e.dst + result, Decode32(c.input, 0, c.hist).value)
      && DictHolds(e, m, e.dst + result, Decode32(c.input, 0, c.hist).value))
    && (!e.partial && c.good ==> result == c.d)
    && (e.partial && c.good ==>
      && result == Min(c.d, e.oend - e.dst) && 0 <= result && Decode32(c.input, 0, c.hist).Some?
      && |Decode32(c.input, 0, c.hist).value| == |c.hist| + c.d
      && At(m, e.dst, Decode32(c.input, 0, c.hist).value[|c.hist|..|c.hist| + result]))
  }

  lemma StartReady(e: Env, c: Call, m: seq<byte>)
    requires Callable(e, c, m) && e.src < e.iend
    ensures Ready(e, c, m, e.src, e.dst, c.hist)
  {
    hide Decode32, EndsWell32, Margin32, DictFar;
    OutSizes(e, m, e.dst, c.hist);
  }

  lemma OutputAt(e: Env, m: seq<byte>, h: int, op: int, out: seq<byte>)
    requires OutHolds(e, m, op, out) && e.low <= e.dst <= op && h == e.dictSize + (e.dst - e.low)
    ensures 0 <= h <= |out| && At(m, e.dst, out[h..])
  {
    var p := e.dst - e.low;
    SliceOfSlice(m, e.low, op, p, op - e.low);
    SliceOfSlice(out, e.dictSize, |out|, p, op - e.low);
    assert out[h..] == out[h..|out|] && out[e.dictSize..] == out[e.dictSize..|out|];
  }

  lemma FinishedIsDecompressed(e: Env, c: Call, m: seq<byte>, op: int, out: seq<byte>)
    requires Finished(e, c, m, op, out) && EnvOk(e, |m|) && |c.hist| == e.dictSize + (e.dst - e.low)
    requires c.good ==> EndsWell32(c.input, 0, 0, |c.hist|, c.d, Least(e))
    ensures Decompressed(e, c, m, op - e.dst)
  {
    hide Decode32, EndsWell32, OutHolds, DictHolds, At, DictFar;
    if c.good { EndsWell32Decodes(c.input, 0, c.hist, |c.hist|, c.d, Least(e)); }
    if !e.partial || c.good {
      OutputAt(e, m, |c.hist|, op, out);
    }
    if e.partial && c.good {
      PrefixTail(out, Decode32(c.input, 0, c.hist).value, |c.hist|);
    }
  }

  lemma PrefixTail(a: seq<byte>, b: seq<byte>, h: int)
    requires Prefix(a, b) && 0 <= h <= |a|
    ensures a[h..] == b[h..|a|]
  {
  }

  /** An empty output: only the one-byte empty block is accepted. */
  lemma EmptyOutput(e: Env, c: Call, m: seq<byte>)
    requires Callable(e, c, m) && e.dst == e.oend
    ensures Decompressed(e, c, m, if e.partial || c.input == [0] then 0 else -1)
  {
    hide CopyMatch32, Margin32, DictFar, Decode32, EndsWell32, StepAt32, OutHolds, DictHolds;
    if c.good { EndsWell32Decodes(c.input, 0, c.hist, |c.hist|, c.d, Least(e));
      EmptyBlock(c.input, |c.hist|, c.d, Least(e)); }
    if c.input == [0] { EmptyDecodes(c.hist); }
  }

  lemma EmptyBlock(src: seq<byte>, h: int, d: int, least: nat)
    requires EndsWell32(src, 0, 0, h, d, least)
    ensures 0 <= d && (d == 0 ==> src == [0])
  {
    hide EndsWell32, StepAt32;
    EndsWell32Grows(src, 0, 0, h, d, least);
    if d == 0 {
      EmptyStep(src, h, least);
      StepLengths32(src, 0);
      Nibbles(src[0]);
    }
  }

  lemma EmptyStep(src: seq<byte>, h: int, least: nat)
    requires EndsWell32(src, 0, 0, h, 0, least)
    ensures src != [] && StepAt32(src, 0).Final? && StepAt32(src, 0).ll == 0 && MatchNibble(src[0]) == 0
  {
    hide ReadLength32;
  }

  lemma EmptyDecodes(hist: seq<byte>)
    ensures Decode32([0], 0, hist) == Some(hist)
  {
    assert StepAt32([0], 0) == Final(1, 0);
    assert hist + [0 as byte][1..1] == hist;
  }

  /** LZ4_decompress_generic (endOnInputSize).  Nothing outside [dst, oend) is written. */
  method DecompressGeneric(mem: array<byte>, e: Env, ghost c: Call, ghost m: seq<byte>) returns (result: int)
    requires mem[..] == m && Callable(e, c, m)
    modifies mem
    ensures Decompressed(e, c, mem[..], result) && Agree(m, mem[..], e.dst, e.oend)
  {
    hide Callable, Decompressed, Agree, Ready, Finished, Left, DictFar, EndsWell32, Margin32, Intact, OutHolds,
      DictHolds, Decode32;
    CallableSizes(e, c, m);
    AgreeSelf(m, e.dst, e.oend);
    if e.dst == e.oend {
      EmptyOutput(e, c, m);
      if e.partial { return 0; }
      if e.iend - e.src == 1 { EmptyTest(e, c, m); }
      if e.iend - e.src == 1 && mem[e.src] == 0 { return 0; }
      return -1;
    }
    if e.src == e.iend {
      NoInput(e, c, m);
      return -1;
    }
    StartReady(e, c, m);
    var v, ip, op := Continue, e.src, e.dst;
    ghost var out := c.hist;
    LeftContinue(e, c, m, ip, op, out);
    while v == Continue
      invariant Left(e, c, mem[..], v, ip, op, out) && Agree(m, mem[..], e.dst, e.oend)
      decreases if v == Continue then e.iend - ip else -1
    {
      ghost var m1 := mem[..];
      LeftReady(e, c, m1, ip, op, out);
      ghost var ip0 := ip;
      v, ip, op, out := DecodeSequence(mem, e, ip, op, c, out, m1);
      AgreeTrans(m, m1, mem[..], e.dst, e.oend, e.dst, e.oend, e.dst, e.oend);
    }
    AgreeSize(m, mem[..], e.dst, e.oend);
    LeftEnd(e, c, mem[..], v, ip, op, out);
    return if v == Done then op - e.dst else -(ip - e.src) - 1;
  }

  lemma CallableSizes(e: Env, c: Call, m: seq<byte>)
    requires Callable(e, c, m)
    ensures EnvOk(e, |m|) && |c.hist| == e.dictSize + (e.dst - e.low) && |c.input| == e.iend - e.src
    ensures c.good ==> EndsWell32(c.input, 0, 0, |c.hist|, c.d, Least(e))
  {
  }

  lemma EmptyTest(e: Env, c: Call, m: seq<byte>)
    requires Callable(e, c, m) && e.iend - e.src == 1
    ensures c.input == [0] <==> m[e.src] == 0
  {
    hide EndsWell32, Margin32, DictFar, OutHolds, DictHolds;
    InputByte(e, c.input, m, e.src, e.src);
  }

  lemma NoInput(e: Env, c: Call, m: seq<byte>)
    requires Callable(e, c, m) && e.src == e.iend
    ensures Decompressed(e, c, m, -1)
  {
    hide Margin32, DictFar, OutHolds, DictHolds;
    assert StepAt32(c.input, 0) == Bad;
  }

  lemma LeftReady(e: Env, c: Call, m: seq<byte>, ip: int, op: int, out: seq<byte>)
    requires Left(e, c, m, Continue, ip, op, out)
    ensures Ready(e, c, m, ip, op, out) && ip < e.iend
  {
  }

  lemma LeftEnd(e: Env, c: Call, m: seq<byte>, v: Verdict, ip: int, op: int, out: seq<byte>)
    requires Left(e, c, m, v, ip, op, out) && v != Continue && EnvOk(e, |m|) && |c.hist| == e.dictSize + (e.dst - e.low)
    requires c.good ==> EndsWell32(c.input, 0, 0, |c.hist|, c.d, Least(e))
    ensures Decompressed(e, c, m, if v == Done then op - e.dst else -(ip - e.src) - 1)
  {
    hide Decode32, EndsWell32, Finished;
    if v == Done { FinishedIsDecompressed(e, c, m, op, out); }
  }
}
