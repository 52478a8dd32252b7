/** Emission of one sequence by the HC compressor, with its output limit checks. */
module HcEncoder {
  import opened Bytes
  import opened BlockFormat
  import opened BlockWriter

  /** The two checks of an output-limited call: before the literals and before the match length. */
  predicate LiteralsOverflow(op: int, ll: int, oend: int)
  {
    op + 1 + ll / 255 + ll + (2 + 1 + LASTLITERALS) > oend
  }

  predicate MatchOverflows(op: int, mcode: int, oend: int)
  {
    op + mcode / 255 + (1 + LASTLITERALS) > oend
  }

  predicate NoRoom(op: int, ll: int, mcode: int, oend: int)
  {
    LiteralsOverflow(op, ll, oend) || MatchOverflows(op + 3 + TailSize(ll) + ll, mcode, oend)
  }

  /** The stores of a sequence, wild literal copy included, fit in the buffer. */
  predicate Fits(op: int, ll: int, mcode: int, capacity: int)
  {
    && op + 1 + TailSize(ll) + WildLength(ll) <= capacity
    && op + 3 + TailSize(ll) + ll <= capacity
    && op + 3 + TailSize(ll) + ll + TailSize(mcode) <= capacity
  }

  lemma LiteralsFit(op: int, ll: nat, oend: int)
    requires !LiteralsOverflow(op, ll, oend)
    ensures op + 1 + TailSize(ll) + WildLength(ll) <= oend && op + 3 + TailSize(ll) + ll <= oend
  {
  }

  lemma MatchFits(op: int, mcode: nat, oend: int)
    requires !MatchOverflows(op, mcode, oend)
    ensures op + TailSize(mcode) + LASTLITERALS <= oend
  {
  }

  /** length -= 510 at a time, two stores each, then the rest. */
  method WriteRunByPairs(dst: array<byte>, op: int, n: nat, ghost out: seq<byte>) returns (op1: int)
    requires Holds(dst, op, out) && op + n / 255 + 1 <= dst.Length
    modifies dst
    ensures op1 == op + n / 255 + 1 && Holds(dst, op1, out + Run(n))
  {
    var len := n;
    op1 := op;
    ghost var done := [];
    while len >= 510
      invariant 0 <= len && op1 + len / 255 == op + n / 255
      invariant done + Run(len) == Run(n)
      invariant Holds(dst, op1, out + done)
    {
      op1 := WriteByte(dst, op1, 255, out + done);
      op1 := WriteByte(dst, op1, 255, out + done + [255]);
      len := len - 510;
      RunStep(out, done, len + 510);
      RunStep(out, done + [255], len + 255);
      done := done + [255] + [255];
    }
    if len >= 255 {
      op1 := WriteByte(dst, op1, 255, out + done);
      len := len - 255;
      RunStep(out, done, len + 255);
      done := done + [255];
    }
    op1 := WriteByte(dst, op1, len, out + done);
    Concat3(out, done, [len]);
  }

  lemma RunStep(out: seq<byte>, done: seq<byte>, len: nat)
    requires len >= 255
    ensures done + Run(len) == done + [255] + Run(len - 255)
    ensures out + done + [255] == out + (done + [255])
  {
    Concat3(done, [255], Run(len - 255));
    Concat3(out, done, [255]);
  }

  /** *token += the low nibble, when `rest` already follows the token. */
  method AddToToken(dst: array<byte>, token: int, op: int, mcode: nat,
                    ghost out: seq<byte>, ghost tok: byte, ghost rest: seq<byte>)
    requires token == |out| && Holds(dst, op, out + [tok] + rest) && MatchNibble(tok) == 0
    modifies dst
    ensures Holds(dst, op, out + [tok + Nibble(mcode)] + rest)
  {
    assert dst[token] == dst[..op][token] == tok;
    dst[token] := dst[token] + Nibble(mcode);
    assert dst[..op] == out + [tok + Nibble(mcode)] + rest;
  }

  /** Low nibble of the token at position |out|, then the match length bytes after `rest`. */
  method WriteMatchLength(dst: array<byte>, token: int, op: int, mcode: nat,
                          ghost out: seq<byte>, ghost tok: byte, ghost rest: seq<byte>)
    returns (op1: int)
    requires token == |out| && Holds(dst, op, out + [tok] + rest) && op + TailSize(mcode) <= dst.Length
    requires MatchNibble(tok) == 0
    modifies dst
    ensures op1 == op + TailSize(mcode)
    ensures Holds(dst, op1, out + [tok + Nibble(mcode)] + rest + LengthTail(mcode))
  {
    hide Holds, Nibble, MatchNibble;
    AddToToken(dst, token, op, mcode, out, tok, rest);
    if mcode >= ML_MASK {
      op1 := WriteRunByPairs(dst, op, mcode - ML_MASK, out + [tok + Nibble(mcode)] + rest);
    } else {
      op1 := op;
      assert out + [tok + Nibble(mcode)] + rest + [] == out + [tok + Nibble(mcode)] + rest;
    }
  }

  lemma SequenceTokens(ll: nat, mcode: nat)
    ensures MatchNibble(Token(ll, 0)) == 0 && Token(ll, 0) + Nibble(mcode) == Token(ll, mcode)
  {
  }

  /** What stands between the token and the match length bytes. */
  function Middle(s: Sequence): seq<byte>
    requires Encodable(s)
  {
    LengthTail(|s.lits|) + s.lits + OffsetBytes(s.off)
  }

  lemma SequenceBefore(out: seq<byte>, s: Sequence)
    requires Encodable(s)
    ensures out + EncodeLiterals(s.lits, 0) + OffsetBytes(s.off) == out + [Token(|s.lits|, 0)] + Middle(s)
  {
    var t, l, o := [Token(|s.lits|, 0)], LengthTail(|s.lits|), OffsetBytes(s.off);
    assert EncodeLiterals(s.lits, 0) == t + l + s.lits;
    hide Token, LengthTail, OffsetBytes, EncodeLiterals;
  }

  lemma SequenceAfter(out: seq<byte>, s: Sequence)
    requires Encodable(s)
    ensures out + [Token(|s.lits|,
      s.mlen - MINMATCH)] + Middle(s) + LengthTail(s.mlen - MINMATCH) == out + EncodeSequence(s)
  {
    var mcode := s.mlen - MINMATCH;
    var t, l, o, m := [Token(|s.lits|, mcode)], LengthTail(|s.lits|), OffsetBytes(s.off), LengthTail(mcode);
    assert EncodeSequence(s) == (t + l + s.lits) + (o + m);
    hide Token, LengthTail, OffsetBytes, EncodeSequence;
  }

  /** The sequence up to its match length. */
  method EmitHead(dst: array<byte>, op: int, x: seq<byte>, anchor: int, ll: nat, ghost s: Sequence, off: nat,
      ghost out: seq<byte>)
    returns (op1: int)
    requires Holds(dst, op, out) && Encodable(s) && s.off == off && At(x, anchor, s.lits) && |s.lits| == ll
    requires anchor + WildLength(ll) <= |x|
    requires op + 1 + TailSize(ll) + WildLength(ll) <= dst.Length && op + 3 + TailSize(ll) + ll <= dst.Length
    modifies dst
    ensures op1 == op + 3 + TailSize(ll) + ll && Holds(dst, op1, out + [Token(ll, 0)] + Middle(s))
  {
    hide Holds, TailSize, Token, WildLength, Middle, EncodeLiterals;
    SequenceBefore(out, s);
    op1 := WriteLiterals(dst, op, x, anchor, ll, out);
    op1 := WriteOffset(dst, op1, off, out + EncodeLiterals(s.lits, 0));
  }

  /** LZ4HC_encodeSequence.  Either nothing below op changes and the call reports an overflow,
      exactly when a limited output has no room, or the block grows by the sequence. */
  method EmitSequence(dst: array<byte>, op: int, x: seq<byte>, anchor: int, ip: int, ml: nat, off: nat,
                      limited: bool, oend: int, ghost out: seq<byte>)
    returns (overflow: bool, op1: int)
    requires Holds(dst, op, out)
    requires 0 <= anchor <= ip && ip + 8 <= |x| && MINMATCH <= ml && 1 <= off <= DISTANCE_MAX
    requires if limited then oend <= dst.Length else Fits(op, ip - anchor, ml - MINMATCH, dst.Length)
    modifies dst
    ensures overflow == (limited && NoRoom(op, ip - anchor, ml - MINMATCH, oend))
    ensures overflow ==> Holds(dst, op, out)
    ensures !overflow ==> Holds(dst, op1, out + EncodeSequence(Sequence(x[anchor..ip], off, ml)))
    ensures !overflow && limited ==> op1 + LASTLITERALS <= oend
  {
    hide Holds, TailSize, Token, WildLength, LiteralsOverflow, MatchOverflows, EncodeSequence, Middle, Nibble,
      MatchNibble;
    ghost var s := Sequence(x[anchor..ip], off, ml);
    var ll, mcode := ip - anchor, ml - MINMATCH;
    HoldsSize(dst, op, out);
    WildBounds(ll);
    SequenceAfter(out, s);
    SequenceTokens(ll, mcode);
    if limited {
      if LiteralsOverflow(op, ll, oend) { return true, op; }
      LiteralsFit(op, ll, oend);
    }
    op1 := EmitHead(dst, op, x, anchor, ll, s, off, out);
    if limited {
      if MatchOverflows(op1, mcode, oend) {
        Concat3(out, [Token(ll, 0)], Middle(s));
        HoldsPrefix(dst, op1, out, [Token(ll, 0)] + Middle(s));
        return true, op;
      }
      MatchFits(op1, mcode, oend);
    }
    op1 := WriteMatchLength(dst, op, op1, mcode, out, Token(ll, 0), Middle(s));
    return false, op1;
  }
}
