/** What the fast decoder needs to know about a block before it runs: that its lengths fit 32 bits,
    that it respects the end-of-block rules, and how far its input stays ahead of its output. */
module BlockShape {
  import opened Bytes
  import opened BlockFormat

  // ---------- lengths in 32 bits ----------

  /** The decoder sums length bytes in 32 bits: the sum at i does not overflow. */
  predicate Fits32(src: seq<byte>, i: nat)
  {
    ReadRun(src, i).Some? ==> ReadRun(src, i).value.0 < 0x1_0000_0000
  }

  /** On the path of the parse from i: no length that is read overflows 32 bits, no offset is 0. */
  ghost predicate Regular(src: seq<byte>, i: nat)
    decreases |src| - i
  {
    i < |src| ==>
      && (LitNibble(src[i]) == 15 ==> Fits32(src, i + 1))
      && match ReadLength(src, i + 1, LitNibble(src[i]))
         case None => true
         case Some(r) =>
           var j := r.1 + r.0;
           j + 2 <= |src| ==>
             && (MatchNibble(src[i]) == 15 ==> Fits32(src, j + 2))
             && (StepAt(src, i).Match? ==> 1 <= StepAt(src, i).off && Regular(src, StepAt(src, i).next))
  }

  // ---------- end-of-block rules ----------

  /** The block from token i on, after o decoded bytes with h bytes of history, decodes to d bytes
      in all and respects the parsing restrictions of the format. */
  ghost predicate EndsWell(src: seq<byte>, i: nat, o: int, h: int, d: int)
    decreases |src| - i
  {
    match StepAt(src, i)
    case Bad => false
    case Final(p, ll) => o + ll == d && MatchNibble(src[i]) == 0
    case Match(p, ll, off, ml, next) =>
      && 1 <= off <= h + o + ll
      && next + 1 + LASTLITERALS <= |src|
      && o + ll + MFLIMIT <= d && o + ll + ml + LASTLITERALS <= d
      && EndsWell(src, next, o + ll + ml, h, d)
  }

  lemma {:induction false} EndsWellGrows(src: seq<byte>, i: nat, o: int, h: int, d: int)
    requires EndsWell(src, i, o, h, d)
    ensures o <= d
    decreases |src| - i
  {
    hide ReadLength;
    if StepAt(src, i).Match? {
      var s := StepAt(src, i);
      EndsWellGrows(src, s.next, o + s.ll + s.ml, h, d);
    }
  }

  lemma StepLengths(src: seq<byte>, i: nat)
    requires i < |src| && !StepAt(src, i).Bad?
    ensures ReadLength(src, i + 1, LitNibble(src[i])) == Some((StepAt(src, i).ll, StepAt(src, i).lit))
    ensures StepAt(src, i).Match? ==>
      var s := StepAt(src, i); var j := s.lit + s.ll;
      j + 2 <= |src| && s.off == LE16(src[j], src[j + 1]) && s.ml >= MINMATCH
      && ReadLength(src, j + 2, MatchNibble(src[i])) == Some((s.ml - MINMATCH, s.next))
  {
    hide ReadLength;
  }

  lemma ShortRun(src: seq<byte>, i: nat, nibble: nat)
    requires ReadLength(src, i, nibble).Some? && ReadLength(src, i, nibble).value.0 < 0x1_0000_0000
    ensures nibble == 15 ==> Fits32(src, i)
  {
  }

  /** A block that decodes to less than 4 GB has no 32-bit overflow on its path. */
  lemma {:induction false} EndsWellIsRegular(src: seq<byte>, i: nat, o: int, h: int, d: int)
    requires EndsWell(src, i, o, h, d) && 0 <= o && d < 0x1_0000_0000
    ensures Regular(src, i)
    decreases |src| - i
  {
    hide ReadLength, Fits32;
    if i < |src| {
      StepLengths(src, i);
      EndsWellGrows(src, i, o, h, d);
      ShortRun(src, i + 1, LitNibble(src[i]));
      var s := StepAt(src, i);
      if s.Match? {
        EndsWellGrows(src, s.next, o + s.ll + s.ml, h, d);
        ShortRun(src, s.lit + s.ll + 2, MatchNibble(src[i]));
        EndsWellIsRegular(src, s.next, o + s.ll + s.ml, h, d);
      }
    }
  }

  /** Such a block decodes, to d bytes that extend what was there. */
  lemma {:induction false} EndsWellDecodes(src: seq<byte>, i: nat, out: seq<byte>, h: int, d: int)
    requires 0 <= h <= |out| && EndsWell(src, i, |out| - h, h, d)
    ensures Decode(src, i, out).Some?
    ensures var f := Decode(src, i, out).value; |f| == h + d && |out| <= |f| && f[..|out|] == out
    decreases |src| - i
  {
    hide StepAt, CopyMatch;
    var s := StepAt(src, i);
    if s.Match? {
      var o := out + src[s.lit..s.lit + s.ll];
      var c := CopyMatch(o, s.off, s.ml);
      CopyMatchIsGenuine(o, s.off, s.ml);
      EndsWellDecodes(src, s.next, c, h, d);
      var f := Decode(src, i, out).value;
      assert f[..|out|] == f[..|c|][..|o|][..|out|];
    }
  }

  // ---------- blocks that compressors emit ----------

  /** From the end of a parse back to its start: every sequence keeps the rules because the last
      one does. */
  lemma {:induction false} ParsedEndsWell(block: seq<byte>, x: seq<byte>, a: nat, seqs: seq<Sequence>, b: nat, d: int)
    requires Parsed(x, a, seqs, b) && AllEncodable(seqs) && At(block, 0, EncodeAll(seqs))
    requires EndsWell(block, |EncodeAll(seqs)|, b - a, a, d) && EndRestrictions(seqs, b, a + d)
    requires seqs != [] ==> |EncodeAll(seqs)| + 1 + LASTLITERALS <= |block|
    ensures EndsWell(block, 0, 0, a, d)
    decreases |seqs|
  {
    hide StepAt, EncodeSequence, SequenceSize, Genuine, At;
    if seqs != [] {
      var front, s := seqs[..|seqs| - 1], seqs[|seqs| - 1];
      var c := b - s.mlen - |s.lits|;
      AtParts(block, 0, EncodeAll(front), EncodeSequence(s));
      StepOfSequence(block, |EncodeAll(front)|, s);
      GenuineOffset(x, b - s.mlen, s.off, s.mlen);
      if front != [] { LastIsEncodable(front); }
      ParsedEndsWell(block, x, a, front, c, d);
    }
  }

  lemma GenuineOffset(x: seq<byte>, p: int, off: int, n: int)
    requires Genuine(x, p, off, n)
    ensures 1 <= off <= p
  {
  }

  lemma LastIsEncodable(seqs: seq<Sequence>)
    requires AllEncodable(seqs) && seqs != []
    ensures Encodable(seqs[|seqs| - 1])
  {
  }

  /** Whatever a compressor emits meets what the decoder expects. */
  lemma BlockEndsWell(block: seq<byte>, x: seq<byte>, a: nat, seqs: seq<Sequence>, anchor: nat, end: nat)
    requires IsBlock(block, x, a, seqs, anchor, end)
    ensures a <= end && EndsWell(block, 0, 0, a, end - a)
  {
    hide Parsed, EncodeAll, EncodeLiterals, StepAt, EndsWell, At;
    var lits := x[anchor..end];
    ParsedBounds(x, a, seqs, anchor);
    AtConcat(EncodeAll(seqs), EncodeLiterals(lits, 0));
    StepOfLast(block, |EncodeAll(seqs)|, lits);
    LiteralsAt(block, |EncodeAll(seqs)|, lits, 0);
    FinalEndsWell(block, |EncodeAll(seqs)|, |lits|, anchor - a, a, end - a);
    ParsedEndsWell(block, x, a, seqs, anchor, end - a);
  }

  lemma AtConcat(a: seq<byte>, b: seq<byte>)
    ensures At(a + b, 0, a) && At(a + b, |a|, b)
  {
  }

  lemma FinalEndsWell(block: seq<byte>, i: nat, ll: nat, o: int, h: int, d: int)
    requires i < |block| && StepAt(block, i).Final? && StepAt(block, i).ll == ll && MatchNibble(block[i]) == Nibble(0)
    requires o + ll == d
    ensures EndsWell(block, i, o, h, d)
  {
    hide StepAt;
  }

  // ---------- in-place decompression ----------

  lemma {:induction false} ReadRunSize(src: seq<byte>, i: nat)
    ensures ReadRun(src, i).Some? ==> ReadRun(src, i).value.1 == i + ReadRun(src, i).value.0 / 255 + 1
    decreases |src| - i
  {
    if i < |src| && src[i] == 255 { ReadRunSize(src, i + 1); }
  }

  /** A length takes the bytes the compressors reserve for it. */
  lemma ReadLengthSize(src: seq<byte>, i: nat, nibble: nat)
    requires ReadLength(src, i, nibble).Some?
    ensures ReadLength(src, i, nibble).value.1 == i + TailSize(ReadLength(src, i, nibble).value.0)
  {
    ReadRunSize(src, i);
  }

  lemma StepSize(src: seq<byte>, i: nat)
    requires i < |src|
    ensures var s := StepAt(src, i);
      && (s.Final? ==> |src| - i == 1 + TailSize(s.ll) + s.ll)
      && (s.Match? ==> s.next - i == 3 + TailSize(s.ll) + s.ll + TailSize(s.ml - MINMATCH))
  {
    hide ReadLength, TailSize, StepAt;
    var s := StepAt(src, i);
    if !s.Bad? {
      StepLengths(src, i);
      ReadLengthSize(src, i + 1, LitNibble(src[i]));
      if s.Match? { ReadLengthSize(src, s.lit + s.ll + 2, MatchNibble(src[i])); }
    }
  }

  lemma StepSizeBounds(ll: nat, ml: int)
    requires MINMATCH <= ml
    ensures 3 + TailSize(ll) + ll + TailSize(ml - MINMATCH) <= ll + ml + ll / 255
  {
  }

  lemma FinalSizeBound(ll: nat)
    ensures 1 + TailSize(ll) + ll <= ll + ll / 255 + 2
  {
  }

  /** The rest of a block is never much longer than what it decodes to. */
  lemma {:induction false} RestSize(src: seq<byte>, i: nat, o: int, h: int, d: int)
    requires EndsWell(src, i, o, h, d) && i < |src|
    ensures o <= d && |src| - i <= (d - o) + (d - o) / 255 + 2
    decreases |src| - i
  {
    hide StepAt, TailSize;
    StepSize(src, i);
    EndsWellGrows(src, i, o, h, d);
    var s := StepAt(src, i);
    if s.Match? {
      RestSize(src, s.next, o + s.ll + s.ml, h, d);
      StepSizeBounds(s.ll, s.ml);
      QuotientSum(0, d - o - s.ll - s.ml, s.ll + s.ml);
      QuotientSum(0, s.ll, s.ml);
    } else {
      FinalSizeBound(s.ll);
    }
  }

  /** How far input must stay ahead of output at each token: the longest overshoot of a copy. */
  const OVERSHOOT: int := 16

  /** The distance from output to input is `gap` at token i, and stays large enough. */
  ghost predicate Margin(src: seq<byte>, i: nat, gap: int)
    decreases |src| - i
  {
    OVERSHOOT <= gap
    && match StepAt(src, i)
       case Match(p, ll, off, ml, next) => Margin(src, next, gap + (next - i) - (ll + ml))
       case _ => true
  }

  function InplaceMargin(size: int): int { size / 256 + 32 }

  lemma GapArithmetic(d: nat, c: nat, i: nat, o: nat)
    requires c < d && i <= c && o <= d && c - i <= (d - o) + (d - o) / 255 + 2
    ensures OVERSHOOT <= d + InplaceMargin(d) - c + i - o
  {
    if o <= d / 256 + 16 {
    } else {
      assert (d - o) / 255 <= d / 256;
    }
  }

  /** LZ4_DECOMPRESS_INPLACE_BUFFER_SIZE is enough for every well-formed block that is smaller than
      what it decodes to. */
  lemma {:induction false} InplaceMarginHolds(src: seq<byte>, i: nat, o: nat, h: int, d: nat)
    requires EndsWell(src, i, o, h, d) && i < |src| < d
    ensures Margin(src, i, d + InplaceMargin(d) - |src| + i - o)
    decreases |src| - i
  {
    hide StepAt, InplaceMargin;
    RestSize(src, i, o, h, d);
    GapArithmetic(d, |src|, i, o);
    var s := StepAt(src, i);
    if s.Match? {
      InplaceMarginHolds(src, s.next, o + s.ll + s.ml, h, d);
    }
  }
}
