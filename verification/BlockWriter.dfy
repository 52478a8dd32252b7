/** The stores that both compressors use to emit a block: length bytes, literals copied in
    strides of eight, last literals.  `out` is the block written so far; each method
    appends the bytes of the format to it. */
module BlockWriter {
  import opened Bytes
  import opened BlockFormat

  /** The first |out| bytes of dst are out. */
  predicate Holds(dst: array<byte>, op: int, out: seq<byte>)
    reads dst
  {
    op == |out| <= dst.Length && dst[..op] == out
  }

  method WriteByte(dst: array<byte>, op: int, b: byte, ghost out: seq<byte>) returns (op1: int)
    requires Holds(dst, op, out) && op < dst.Length
    modifies dst
    ensures op1 == op + 1 && Holds(dst, op1, out + [b])
  {
    dst[op] := b;
    op1 := op + 1;
  }

  /** for (; n >= 255; n -= 255) *op++ = 255; *op++ = n */
  method WriteRun(dst: array<byte>, op: int, n: nat, ghost out: seq<byte>) returns (op1: int)
    requires Holds(dst, op, out) && op + n / 255 + 1 <= dst.Length
    modifies dst
    ensures op1 == op + n / 255 + 1 && Holds(dst, op1, out + Run(n))
  {
    var len := n;
    op1 := op;
    ghost var done := [];
    while len >= 255
      invariant 0 <= len && op1 + len / 255 == op + n / 255
      invariant done + Run(len) == Run(n)
      invariant Holds(dst, op1, out + done)
    {
      op1 := WriteByte(dst, op1, 255, out + done);
      len := len - 255;
      Concat3(done, [255], Run(len));
      Concat3(out, done, [255]);
      done := done + [255];
    }
    op1 := WriteByte(dst, op1, len, out + done);
    Concat3(out, done, [len]);
  }

  method WriteLengthTail(dst: array<byte>, op: int, n: nat, ghost out: seq<byte>) returns (op1: int)
    requires Holds(dst, op, out) && op + TailSize(n) <= dst.Length
    modifies dst
    ensures op1 == op + TailSize(n) && Holds(dst, op1, out + LengthTail(n))
  {
    if n >= RUN_MASK {
      op1 := WriteRun(dst, op, n - RUN_MASK, out);
    } else {
      op1 := op;
    }
  }

  method Copy8(dst: array<byte>, op: int, x: seq<byte>, from: int, ghost out: seq<byte>)
    requires Holds(dst, op, out) && op + 8 <= dst.Length && 0 <= from && from + 8 <= |x|
    modifies dst
    ensures Holds(dst, op + 8, out + x[from..from + 8])
  {
    forall k | op <= k < op + 8 { dst[k] := x[from + k - op]; }
  }

  lemma HoldsSize(dst: array<byte>, op: int, out: seq<byte>)
    requires Holds(dst, op, out)
    ensures op == |out| <= dst.Length
  {
  }

  lemma HoldsPrefix(dst: array<byte>, op: int, out: seq<byte>, e: seq<byte>)
    requires Holds(dst, op, out + e)
    ensures Holds(dst, |out|, out)
  {
    assert dst[..op][..|out|] == dst[..|out|] && (out + e)[..|out|] == out;
  }

  /** What a wild copy of n bytes touches: whole strides of 8, one at least. */
  function WildLength(n: int): int { Max(n + 7, 8) }

  lemma WildBounds(n: nat)
    ensures n + 7 <= WildLength(n) <= n + 8
  {
  }

  /** LZ4_wildCopy8 from the source into the block: up to 7 bytes are read and written
      beyond the n that count. */
  method WildCopyLiterals(dst: array<byte>, op: int, x: seq<byte>, from: int, n: nat, ghost out: seq<byte>)
    requires Holds(dst, op, out) && op + WildLength(n) <= dst.Length
    requires 0 <= from && from + WildLength(n) <= |x|
    modifies dst
    ensures Holds(dst, op + n, out + x[from..from + n])
  {
    var d := 8;
    Copy8(dst, op, x, from, out);
    while d < n
      invariant 8 <= d <= WildLength(n)
      invariant Holds(dst, op + d, out + x[from..from + d])
    {
      Copy8(dst, op + d, x, from + d, out + x[from..from + d]);
      Concat3(out, x[from..from + d], x[from + d..from + d + 8]);
      SliceJoin(x, from, from + d, from + d + 8);
      d := d + 8;
    }
    SliceJoin(x, from, from + n, from + d);
    Concat3(out, x[from..from + n], x[from + n..from + d]);
    HoldsPrefix(dst, op + d, out + x[from..from + n], x[from + n..from + d]);
  }

  method CopyExact(dst: array<byte>, op: int, x: seq<byte>, from: int, n: nat, ghost out: seq<byte>)
    requires Holds(dst, op, out) && op + n <= dst.Length && 0 <= from && from + n <= |x|
    modifies dst
    ensures Holds(dst, op + n, out + x[from..from + n])
  {
    forall k | op <= k < op + n { dst[k] := x[from + k - op]; }
  }

  lemma EncodeLiteralsJoin(out: seq<byte>, lits: seq<byte>)
    ensures out + [Token(|lits|, 0)] + LengthTail(|lits|) + lits == out + EncodeLiterals(lits, 0)
  {
    Concat3(out, [Token(|lits|, 0)], LengthTail(|lits|));
    Concat3(out, [Token(|lits|, 0)] + LengthTail(|lits|), lits);
  }

  /** The final literal run of a block: token, length bytes, an exact copy. */
  method WriteLastLiterals(dst: array<byte>, op: int, x: seq<byte>, from: int, n: nat, ghost out: seq<byte>)
    returns (op1: int)
    requires Holds(dst, op, out) && op + 1 + TailSize(n) + n <= dst.Length && 0 <= from && from + n <= |x|
    modifies dst
    ensures op1 == op + 1 + TailSize(n) + n
    ensures Holds(dst, op1, out + EncodeLiterals(x[from..from + n], 0))
  {
    hide Holds, TailSize, Token;
    op1 := WriteByte(dst, op, Token(n, 0), out);
    op1 := WriteLengthTail(dst, op1, n, out + [Token(n, 0)]);
    CopyExact(dst, op1, x, from, n, out + [Token(n, 0)] + LengthTail(n));
    op1 := op1 + n;
    EncodeLiteralsJoin(out, x[from..from + n]);
  }

  /** Token with the literal nibble, literal length bytes, literals in strides of 8. */
  method WriteLiterals(dst: array<byte>, op: int, x: seq<byte>, from: int, n: nat, ghost out: seq<byte>)
    returns (op1: int)
    requires Holds(dst, op, out) && op + 1 + TailSize(n) + WildLength(n) <= dst.Length
    requires 0 <= from && from + WildLength(n) <= |x|
    modifies dst
    ensures op1 == op + 1 + TailSize(n) + n
    ensures Holds(dst, op1, out + EncodeLiterals(x[from..from + n], 0))
  {
    hide Holds, TailSize, Token, WildLength;
    WildBounds(n);
    op1 := WriteByte(dst, op, Token(n, 0), out);
    op1 := WriteLengthTail(dst, op1, n, out + [Token(n, 0)]);
    WildCopyLiterals(dst, op1, x, from, n, out + [Token(n, 0)] + LengthTail(n));
    op1 := op1 + n;
    EncodeLiteralsJoin(out, x[from..from + n]);
  }

  method WriteOffset(dst: array<byte>, op: int, off: nat, ghost out: seq<byte>) returns (op1: int)
    requires Holds(dst, op, out) && op + 2 <= dst.Length && off <= DISTANCE_MAX
    modifies dst
    ensures op1 == op + 2 && Holds(dst, op1, out + OffsetBytes(off))
  {
    dst[op] := off % 256;
    dst[op + 1] := off / 256;
    op1 := op + 2;
  }
}
