/** Emission of one sequence by the fast compressor: its checks in the three output modes, the
    stores of four bytes at a time, and the match cut short to fill the output. */
module FastEncoder {
  import opened Bytes
  import opened BlockFormat
  import opened BlockWriter
  import opened HcEncoder
  import opened BlockOutput

  // ---------- length bytes, four at a time ----------

  function Ones(n: nat): (r: seq<byte>)
    ensures |r| == n
  {
    seq(n, _ => 255)
  }

  lemma OnesJoin(a: nat, b: nat)
    ensures Ones(a) + Ones(b) == Ones(a + b)
  {
  }

  lemma {:induction false} RunIsOnes(n: nat)
    ensures Run(n) == Ones(n / 255) + [n % 255]
    decreases n
  {
    if n >= 255 {
      RunIsOnes(n - 255);
      OnesJoin(1, n / 255 - 1);
      assert Ones(1) == [255];
    }
  }

  /** dst holds out up to op and four bytes of 255 beyond. */
  predicate HoldsOnes(dst: array<byte>, op: int, out: seq<byte>)
    reads dst
  {
    Holds(dst, op, out) && op + 4 <= dst.Length && dst[op] == dst[op + 1] == dst[op + 2] == dst[op + 3] == 255
  }

  /** LZ4_write32(op, 0xFFFFFFFF) */
  method Store4(dst: array<byte>, op: int, ghost out: seq<byte>)
    requires Holds(dst, op, out) && op + 4 <= dst.Length
    modifies dst
    ensures HoldsOnes(dst, op, out)
  {
    dst[op], dst[op + 1], dst[op + 2], dst[op + 3] := 255, 255, 255, 255;
  }

  lemma KeepOnes(dst: array<byte>, op: int, out: seq<byte>, k: nat)
    requires HoldsOnes(dst, op, out) && k <= 4
    ensures Holds(dst, op + k, out + Ones(k))
  {
  }

  /** The length bytes of a match: words of 255s, up to three of their bytes beyond the end. */
  method WriteRunByFours(dst: array<byte>, op: int, n: nat, ghost out: seq<byte>) returns (op1: int)
    requires Holds(dst, op, out) && op + n / 255 + 4 <= dst.Length
    modifies dst
    ensures op1 == op + n / 255 + 1 && Holds(dst, op1, out + Run(n))
  {
    hide HoldsOnes, Holds, Ones;
    var code := n;
    op1 := op;
    Concat3(out, [], []);
    Store4(dst, op1, out);
    ghost var k: nat := 0;
    assert out + Ones(0) == out;
    while code >= 4 * 255
      invariant 0 <= code && code + 255 * k == n && op1 == op + k
      invariant HoldsOnes(dst, op1, out + Ones(k))
    {
      KeepOnes(dst, op1, out + Ones(k), 4);
      OnesJoin(k, 4);
      Concat3(out, Ones(k), Ones(4));
      op1 := op1 + 4;
      Store4(dst, op1, out + Ones(k + 4));
      code := code - 4 * 255;
      k := k + 4;
    }
    KeepOnes(dst, op1, out + Ones(k), code / 255);
    OnesJoin(k, code / 255);
    RunIsOnes(n);
    Concat3(out, Ones(k), Ones(code / 255));
    op1 := op1 + code / 255;
    op1 := WriteByte(dst, op1, code % 255, out + Ones(n / 255));
    Concat3(out, Ones(n / 255), [n % 255]);
  }

  /** *token += ML_MASK and length bytes, or the whole code in the token. */
  method WriteCode(dst: array<byte>, token: int, op: int, mcode: nat,
                   ghost out: seq<byte>, ghost tok: byte, ghost rest: seq<byte>)
    returns (op1: int)
    requires token == |out| && Holds(dst, op, out + [tok] + rest) && op + TailSize(mcode) + 3 <= dst.Length
    requires MatchNibble(tok) == 0
    modifies dst
    ensures op1 == op + TailSize(mcode)
    ensures Holds(dst, op1, out + [tok + Nibble(mcode)] + rest + LengthTail(mcode))
  {
    hide Holds, Nibble, MatchNibble;
    AddToToken(dst, token, op, mcode, out, tok, rest);
    if mcode >= ML_MASK {
      op1 := WriteRunByFours(dst, op, mcode - ML_MASK, out + [tok + Nibble(mcode)] + rest);
    } else {
      op1 := op;
      assert out + [tok + Nibble(mcode)] + rest + [] == out + [tok + Nibble(mcode)] + rest;
    }
  }

  // ---------- the checks ----------

  /** Fill mode, before the literals and before the offset: no room for a last match and the
      literals that must follow it.  op is where the offset would go. */
  predicate TooClose(op: int, olimit: int)
  {
    op + 2 + 1 + MFLIMIT - MINMATCH > olimit
  }

  /** Before the match length: no room for it, a token and the last literals. */
  predicate CodeOverflows(op: int, mcode: int, olimit: int)
  {
    op + (1 + LASTLITERALS) + TailSize(mcode) > olimit
  }

  /** newMatchCode: the code whose length bytes end just before the last literals. */
  function CutCode(op: int, olimit: int): int
  {
    15 - 1 + (olimit - op - 1 - LASTLITERALS) * 255
  }

  lemma CutCodeFills(op: int, mcode: int, olimit: int)
    requires !TooClose(op - 2, olimit) && CodeOverflows(op, mcode, olimit)
    ensures ML_MASK <= CutCode(op, olimit) < mcode
    ensures op + TailSize(CutCode(op, olimit)) + (1 + LASTLITERALS) == olimit
  {
  }

  /** Where the literals of a sequence end and its offset goes. */
  function OffsetPos(op: int, ll: int): int { op + 1 + TailSize(ll) + ll }

  datatype Outcome = Emitted(ml: int) | Refused | Rewound

  /** What happens to a sequence of ll literals and a match of ml bytes, token at op.  A match right
      after another one (`next`) has no literals and skips the check on them. */
  function Decision(op: int, ll: int, ml: int, next: bool, limit: Limit, olimit: int): Outcome
  {
    var p := OffsetPos(op, ll);
    match limit
    case NotLimited => Emitted(ml)
    case LimitedOutput =>
      if (!next && LiteralsOverflow(op, ll, olimit)) || CodeOverflows(p + 2, ml - MINMATCH, olimit) then Refused
      else Emitted(ml)
    case FillOutput =>
      if TooClose(p, olimit) then Rewound
      else if CodeOverflows(p + 2, ml - MINMATCH, olimit) then Emitted(CutCode(p + 2, olimit) + MINMATCH)
      else Emitted(ml)
  }

  /** The stores of a sequence fit, its stores of eight and four bytes included. */
  predicate StoresFit(op: int, ll: int, mcode: int, capacity: int)
  {
    Fits(op, ll, mcode, capacity) && op + 3 + TailSize(ll) + ll + TailSize(mcode) + 3 <= capacity
  }

  /** In every mode the checks made before the literals leave room to store them and the offset. */
  lemma HeadFits(op: int, ll: nat, ml: nat, next: bool, limit: Limit, olimit: int, capacity: int)
    requires MINMATCH <= ml && (next ==> ll == 0)
    requires if limit.NotLimited? then StoresFit(op, ll, ml - MINMATCH, capacity)
             else olimit <= capacity && (next && limit.LimitedOutput? ==> op + 1 + LASTLITERALS <= olimit)
    requires limit.LimitedOutput? && !next ==> !LiteralsOverflow(op, ll, olimit)
    requires limit.FillOutput? ==> !TooClose(OffsetPos(op, ll), olimit)
    ensures OffsetPos(op, ll) + 2 <= capacity && (!next ==> op + 1 + TailSize(ll) + WildLength(ll) <= capacity)
  {
    if limit.LimitedOutput? && !next { LiteralsFit(op, ll, olimit); }
  }

  lemma DecisionBounds(op: int, ll: nat, ml: nat, next: bool, limit: Limit, olimit: int)
    requires MINMATCH <= ml && Decision(op, ll, ml, next, limit, olimit).Emitted?
    ensures var r := Decision(op, ll, ml, next, limit, olimit).ml; var op1 :=
      OffsetPos(op, ll) + 2 + TailSize(r - MINMATCH);
      && MINMATCH <= r <= ml
      && (limit != NotLimited ==> op1 + 1 + LASTLITERALS <= olimit)
      && (limit == FillOutput ==> op1 + MFLIMIT + 1 <= olimit + r)
      && (r < ml ==> limit == FillOutput && op1 + 1 + LASTLITERALS == olimit)
  {
    hide LiteralsOverflow;
    if limit.FillOutput? && CodeOverflows(OffsetPos(op, ll) + 2, ml - MINMATCH, olimit) {
      CutCodeFills(OffsetPos(op, ll) + 2, ml - MINMATCH, olimit);
    }
  }

  // ---------- the sequence ----------

  /** Token with literals and offset; for a match right after another one, token 0 and offset. */
  method WriteHead(dst: array<byte>, op: int, x: seq<byte>, anchor: int, ll: nat, off: nat, next: bool,
      ghost s: Sequence, ghost out: seq<byte>)
    returns (op1: int)
    requires Holds(dst, op, out) && Encodable(s) && s.off == off && At(x, anchor, s.lits) && |s.lits| == ll
    requires anchor + WildLength(ll) <= |x| && (next ==> ll == 0)
    requires OffsetPos(op, ll) + 2 <= dst.Length && (!next ==> op + 1 + TailSize(ll) + WildLength(ll) <= dst.Length)
    modifies dst
    ensures op1 == OffsetPos(op, ll) + 2 && Holds(dst, op1, out + [Token(ll, 0)] + Middle(s))
  {
    hide Holds, TailSize, Token, WildLength, Middle, EncodeLiterals;
    if next {
      TokenOnly(s);
      op1 := WriteByte(dst, op, 0, out);
      op1 := WriteOffset(dst, op1, off, out + [Token(ll, 0)]);
    } else {
      op1 := EmitHead(dst, op, x, anchor, ll, s, off, out);
    }
  }

  lemma TokenOnly(s: Sequence)
    requires Encodable(s) && s.lits == []
    ensures Token(0, 0) == 0 && TailSize(0) == 0 && Middle(s) == OffsetBytes(s.off)
  {
    hide OffsetBytes, TailSize, Token;
    ZeroToken();
    var e: seq<byte>, o := [], OffsetBytes(s.off);
    assert LengthTail(0) == e;
    Concat3(e, e, o);
    assert e + o == o;
  }

  lemma ZeroToken()
    ensures Token(0, 0) == 0 && TailSize(0) == 0
  {
  }

  method WriteSequence(dst: array<byte>, op: int, x: seq<byte>, anchor: int, ip: int, ml: nat, off: nat, next: bool,
      ghost out: seq<byte>)
    returns (op1: int)
    requires Holds(dst, op, out) && 0 <= anchor <= ip && ip + 8 <= |x| && 1 <= off <= DISTANCE_MAX && MINMATCH <= ml
    requires (next ==> ip == anchor)
    requires OffsetPos(op, ip - anchor) + 2 <= dst.Length
    requires !next ==> op + 1 + TailSize(ip - anchor) + WildLength(ip - anchor) <= dst.Length
    requires OffsetPos(op, ip - anchor) + 2 + TailSize(ml - MINMATCH) + 3 <= dst.Length
    modifies dst
    ensures op1 == OffsetPos(op, ip - anchor) + 2 + TailSize(ml - MINMATCH)
    ensures Holds(dst, op1, out + EncodeSequence(Sequence(x[anchor..ip], off, ml)))
  {
    hide Holds, TailSize, Token, WildLength, EncodeSequence, Middle, Nibble, MatchNibble;
    ghost var s := Sequence(x[anchor..ip], off, ml);
    WildBounds(ip - anchor);
    HoldsSize(dst, op, out);
    SequenceAfter(out, s);
    SequenceTokens(ip - anchor, ml - MINMATCH);
    op1 := WriteHead(dst, op, x, anchor, ip - anchor, off, next, s, out);
    op1 := WriteCode(dst, op, op1, ml - MINMATCH, out, Token(ip - anchor, 0), Middle(s));
  }

  /** A sequence on the state it updates: ip and anchor move past the match as it was emitted. */
  method Emit(o: Output, x: seq<byte>, ghost s0: int, ip: int, ml: nat, off: nat, next: bool, limit: Limit, olimit: int)
    returns (r: Outcome)
    requires o.Valid(x, s0) && o.anchor <= ip && ip + 8 <= |x| && (next ==> ip == o.anchor)
    requires Genuine(x, ip, off, ml) && off <= DISTANCE_MAX && MINMATCH <= ml
    requires if limit.NotLimited? then StoresFit(o.op, ip - o.anchor, ml - MINMATCH, o.dst.Length)
             else olimit <= o.dst.Length && (next && limit.LimitedOutput? ==> o.op + 1 + LASTLITERALS <= olimit)
    modifies o, o.dst
    ensures o.Valid(x, s0)
    ensures r == Decision(old(o.op), ip - old(o.anchor), ml, next, limit, olimit)
    ensures !r.Emitted? ==> o.op == old(o.op) && o.anchor == old(o.anchor) && o.seqs == old(o.seqs)
    ensures r.Emitted? ==> (MINMATCH <= r.ml <= ml && o.anchor == ip + r.ml
      && o.seqs == old(o.seqs) + [Sequence(x[old(o.anchor)..ip], off, r.ml)]
      && o.op == OffsetPos(old(o.op), ip - old(o.anchor)) + 2 + TailSize(r.ml - MINMATCH))
  {
    hide Parsed, Holds, EncodeAll, Genuine, EncodeSequence, TailSize, AllEncodable, OffsetPos, WildLength;
    hide LiteralsOverflow, CodeOverflows, TooClose, StoresFit;
    ParsedBounds(x, s0, o.seqs, o.anchor);
    r := Decision(o.op, ip - o.anchor, ml, next, limit, olimit);
    if r.Emitted? {
      Ready(o.op, ip - o.anchor, ml, next, limit, olimit, o.dst.Length);
      GenuineSub(x, ip, off, ml, ip, r.ml);
      ParsedSnoc(x, s0, o.seqs, o.anchor, ip, off, r.ml);
      ghost var s := Sequence(x[o.anchor..ip], off, r.ml);
      var op1 := WriteSequence(o.dst, o.op, x, o.anchor, ip, r.ml, off, next, EncodeAll(o.seqs));
      HoldsSize(o.dst, op1, EncodeAll(o.seqs) + EncodeSequence(s));
      o.op, o.anchor, o.seqs := op1, ip + r.ml, o.seqs + [s];
    }
  }

  lemma Ready(op: int, ll: nat, ml: nat, next: bool, limit: Limit, olimit: int, capacity: int)
    requires MINMATCH <= ml && (next ==> ll == 0) && Decision(op, ll, ml, next, limit, olimit).Emitted?
    requires if limit.NotLimited? then StoresFit(op, ll, ml - MINMATCH, capacity)
             else olimit <= capacity && (next && limit.LimitedOutput? ==> op + 1 + LASTLITERALS <= olimit)
    ensures var r := Decision(op, ll, ml, next, limit, olimit).ml;
      && MINMATCH <= r <= ml && OffsetPos(op, ll) + 2 <= capacity
      && (!next ==> op + 1 + TailSize(ll) + WildLength(ll) <= capacity)
      && OffsetPos(op, ll) + 2 + TailSize(r - MINMATCH) + 3 <= capacity
  {
    hide TailSize, WildLength, LiteralsOverflow, CodeOverflows, TooClose;
    DecisionBounds(op, ll, ml, next, limit, olimit);
    HeadFits(op, ll, ml, next, limit, olimit, capacity);
  }

  /** Without an output limit the worst-case bound leaves room for any sequence, with its stores. */
  lemma StoresAlwaysFit(o: Output, x: seq<byte>, s0: int, ip: int, ml: nat)
    requires o.Valid(x, s0) && o.anchor <= ip && MINMATCH <= ml && ip + ml + LASTLITERALS <= |x|
    requires |x| - s0 <= MAX_INPUT_SIZE && CompressBound(|x| - s0) <= o.dst.Length
    ensures StoresFit(o.op, ip - o.anchor, ml - MINMATCH, o.dst.Length)
  {
    hide Parsed, EncodeAll, AllEncodable, StoresFit;
    AlwaysFits(o, x, s0, ip, ml);
    ParsedBounds(x, s0, o.seqs, o.anchor);
    EncodeAllBound(x, s0, o.seqs, o.anchor);
    StoresArithmetic(o.op, o.anchor - s0, ip - o.anchor, ml - MINMATCH, |x| - s0, o.dst.Length);
  }

  lemma StoresArithmetic(op: int, d: nat, ll: nat, mcode: nat, n: nat, capacity: int)
    requires 0 <= op <= d + d / 255 && d + ll + mcode + MINMATCH + LASTLITERALS <= n
    requires n + n / 255 + 16 <= capacity && Fits(op, ll, mcode, capacity)
    ensures StoresFit(op, ll, mcode, capacity)
  {
    hide Fits;
  }
}
