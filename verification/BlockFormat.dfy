/** The LZ4 block format: the bytes of a block, and the byte-at-a-time decoder that
    gives them their meaning.  Compressors and the fast decoder are proved against it. */
module BlockFormat {
  import opened Bytes

  const MINMATCH: nat := 4
  const LASTLITERALS: nat := 5
  const MFLIMIT: nat := 12
  const DISTANCE_MAX: nat := 65535
  const RUN_MASK: nat := 15
  const ML_MASK: nat := 15
  const MAX_INPUT_SIZE: nat := 0x7E00_0000

  // ---------- reading a block ----------

  /** The length bytes that follow a full nibble: 255 means "add and go on". */
  function ReadRun(src: seq<byte>, i: nat): Option<(nat, nat)>
    decreases |src| - i
  {
    if i >= |src| then None
    else if src[i] < 255 then Some((src[i], i + 1))
    else match ReadRun(src, i + 1)
      case None => None
      case Some(r) => Some((255 + r.0, r.1))
  }

  function ReadLength(src: seq<byte>, i: nat, nibble: nat): Option<(nat, nat)>
  {
    if nibble < 15 then Some((nibble, i))
    else match ReadRun(src, i)
      case None => None
      case Some(r) => Some((15 + r.0, r.1))
  }

  function LitNibble(token: byte): nat { token / 16 }

  function MatchNibble(token: byte): nat { token % 16 }

  /** What the decoder finds at a token: literals src[lit..lit+ll], then a match or the end. */
  datatype Step =
    | Bad
    | Final(lit: nat, ll: nat)
    | Match(lit: nat, ll: nat, off: nat, ml: nat, next: nat)

  lemma {:induction false} ReadRunBounds(src: seq<byte>, i: nat)
    ensures ReadRun(src, i).Some? ==> i < ReadRun(src, i).value.1 <= |src|
    decreases |src| - i
  {
    if i < |src| && src[i] == 255 { ReadRunBounds(src, i + 1); }
  }

  function StepAt(src: seq<byte>, i: nat): (s: Step)
    ensures s.Final? ==> i < s.lit && s.lit + s.ll == |src|
    ensures s.Match? ==> i < s.lit && s.lit + s.ll + 2 <= s.next <= |src| && s.off <= DISTANCE_MAX && s.ml >= MINMATCH
  {
    ReadRunBounds(src, i + 1);
    if i >= |src| then Bad
    else match ReadLength(src, i + 1, LitNibble(src[i]))
      case None => Bad
      case Some(r) =>
        var ll, p := r.0, r.1;
        ReadRunBounds(src, p + ll + 2);
        if p + ll == |src| then Final(p, ll)
        else if p + ll + 2 > |src| then Bad
        else match ReadLength(src, p + ll + 2, MatchNibble(src[i]))
          case None => Bad
          case Some(m) => Match(p, ll, LE16(src[p + ll], src[p + ll + 1]), m.0 + MINMATCH, m.1)
  }

  /** LZ77 copy, one byte at a time, so that a match may overlap its own output. */
  function CopyMatch(out: seq<byte>, off: nat, n: nat): (r: seq<byte>)
    requires 1 <= off <= |out|
    ensures |r| == |out| + n
    decreases n
  {
    if n == 0 then out else CopyMatch(out + [out[|out| - off]], off, n - 1)
  }

  /** The reference decoder: `out` is the history followed by what is decoded so far,
      `i` the position of the next token. */
  function Decode(src: seq<byte>, i: nat, out: seq<byte>): Option<seq<byte>>
    decreases |src| - i
  {
    match StepAt(src, i)
    case Bad => None
    case Final(p, ll) => Some(out + src[p..p + ll])
    case Match(p, ll, off, ml, next) =>
      var o := out + src[p..p + ll];
      if 1 <= off <= |o| then Decode(src, next, CopyMatch(o, off, ml)) else None
  }

  // ---------- genuine matches ----------

  /** The n bytes of x at p repeat the n bytes off positions earlier. */
  ghost predicate Genuine(x: seq<byte>, p: int, off: int, n: int)
  {
    1 <= off <= p && 0 <= n && p + n <= |x| && x[p..p + n] == x[p - off..p - off + n]
  }

  lemma GenuineAt(x: seq<byte>, p: int, off: int, n: int, k: int)
    requires Genuine(x, p, off, n) && p <= k < p + n
    ensures x[k] == x[k - off]
  {
    assert x[p..p + n][k - p] == x[p - off..p - off + n][k - p];
  }

  lemma GenuineSub(x: seq<byte>, p: int, off: int, n: int, q: int, m: int)
    requires Genuine(x, p, off, n) && p <= q && 0 <= m && q + m <= p + n
    ensures Genuine(x, q, off, m)
  {
    SliceOfSlice(x, p, p + n, q - p, q - p + m);
    SliceOfSlice(x, p - off, p - off + n, q - p, q - p + m);
  }

  lemma GenuineJoin(x: seq<byte>, p: int, off: int, n: int, m: int)
    requires Genuine(x, p, off, n) && Genuine(x, p + n, off, m)
    ensures Genuine(x, p, off, n + m)
  {
    assert x[p..p + n + m] == x[p..p + n] + x[p + n..p + n + m];
    assert x[p - off..p - off + n + m] == x[p - off..p - off + n] + x[p + n - off..p + n - off + m];
  }

  lemma {:induction false} CopyMatchIsGenuine(out: seq<byte>, off: nat, n: nat)
    requires 1 <= off <= |out|
    ensures var r := CopyMatch(out, off, n); r[..|out|] == out && Genuine(r, |out|, off, n)
    decreases n
  {
    if n > 0 {
      var o1 := out + [out[|out| - off]];
      CopyMatchIsGenuine(o1, off, n - 1);
      var r := CopyMatch(out, off, n);
      assert r[..|out|] == r[..|o1|][..|out|];
      assert r[|out|] == r[..|o1|][|out|] && r[|out| - off] == r[..|o1|][|out| - off];
      assert r[|out|..|out| + 1] == r[|out| - off..|out| - off + 1];
      GenuineJoin(r, |out|, off, 1, n - 1);
    }
  }

  /** A genuine match is exactly what the reference copy regenerates. */
  lemma {:induction false} CopyMatchRegenerates(x: seq<byte>, p: nat, off: nat, n: nat)
    requires Genuine(x, p, off, n)
    ensures CopyMatch(x[..p], off, n) == x[..p + n]
    decreases n
  {
    if n > 0 {
      GenuineAt(x, p, off, n, p);
      assert x[..p] + [x[..p][p - off]] == x[..p + 1];
      GenuineSub(x, p, off, n, p + 1, n - 1);
      CopyMatchRegenerates(x, p + 1, off, n - 1);
    }
  }

  // ---------- writing a block ----------

  datatype Sequence = Sequence(lits: seq<byte>, off: nat, mlen: nat)

  predicate Encodable(s: Sequence)
  {
    1 <= s.off <= DISTANCE_MAX && MINMATCH <= s.mlen
  }

  function Nibble(n: nat): nat { if n < 15 then n else 15 }

  function Token(ll: nat, mcode: nat): byte { 16 * Nibble(ll) + Nibble(mcode) }

  function Run(n: nat): (r: seq<byte>)
    ensures |r| == n / 255 + 1
  {
    if n < 255 then [n] else [255] + Run(n - 255)
  }

  /** The number of length bytes after the nibble, written as the compressors compute it. */
  function TailSize(n: int): (r: int)
    ensures n >= 0 ==> r >= 0
  {
    (n + 240) / 255
  }

  function LengthTail(n: nat): (r: seq<byte>)
    ensures |r| == TailSize(n)
  {
    if n < 15 then [] else Run(n - 15)
  }

  function EncodeLiterals(lits: seq<byte>, mcode: nat): (r: seq<byte>)
    ensures |r| == 1 + TailSize(|lits|) + |lits|
  {
    [Token(|lits|, mcode)] + LengthTail(|lits|) + lits
  }

  function OffsetBytes(off: nat): (r: seq<byte>)
    requires off <= DISTANCE_MAX
    ensures |r| == 2 && LE16(r[0], r[1]) == off
  {
    [off % 256, off / 256]
  }

  function EncodeMatch(off: nat, mcode: nat): (r: seq<byte>)
    requires off <= DISTANCE_MAX
    ensures |r| == 2 + TailSize(mcode)
  {
    OffsetBytes(off) + LengthTail(mcode)
  }

  function EncodeSequence(s: Sequence): (r: seq<byte>)
    requires Encodable(s)
    ensures |r| == SequenceSize(s)
  {
    EncodeLiterals(s.lits, s.mlen - MINMATCH) + EncodeMatch(s.off, s.mlen - MINMATCH)
  }

  function SequenceSize(s: Sequence): nat
    requires Encodable(s)
  {
    3 + TailSize(|s.lits|) + |s.lits| + TailSize(s.mlen - MINMATCH)
  }

  ghost predicate AllEncodable(seqs: seq<Sequence>)
  {
    forall k :: 0 <= k < |seqs| ==> Encodable(seqs[k])
  }

  function EncodeAll(seqs: seq<Sequence>): seq<byte>
    requires AllEncodable(seqs)
  {
    if seqs == [] then []
    else EncodeAll(seqs[..|seqs| - 1]) + EncodeSequence(seqs[|seqs| - 1])
  }

  // ---------- a parse of the data ----------

  /** `seqs`, replayed after x[..a], regenerate x[a..b]: each one's literals are the data and
      its match is genuine. */
  ghost predicate Parsed(x: seq<byte>, a: nat, seqs: seq<Sequence>, b: int)
    decreases |seqs|
  {
    a <= b <= |x| &&
    if seqs == [] then a == b
    else
      var s := seqs[|seqs| - 1];
      var m := b - s.mlen;
      var c := m - |s.lits|;
      && Encodable(s)
      && a <= c
      && s.lits == x[c..m]
      && Genuine(x, m, s.off, s.mlen)
      && Parsed(x, a, seqs[..|seqs| - 1], c)
  }

  lemma {:induction false} ParsedEncodable(x: seq<byte>, a: nat, seqs: seq<Sequence>, b: int)
    requires Parsed(x, a, seqs, b)
    ensures AllEncodable(seqs)
    decreases |seqs|
  {
    if seqs != [] {
      var s := seqs[|seqs| - 1];
      ParsedEncodable(x, a, seqs[..|seqs| - 1], b - s.mlen - |s.lits|);
      assert forall k :: 0 <= k < |seqs| - 1 ==> seqs[k] == seqs[..|seqs| - 1][k];
    }
  }

  /** One more sequence, from the end of the parse to the end of its match. */
  lemma ParsedSnoc(x: seq<byte>, a: nat, seqs: seq<Sequence>, anchor: nat, ip: int, off: nat, mlen: nat)
    requires Parsed(x, a, seqs, anchor)
    requires anchor <= ip && Genuine(x, ip, off, mlen) && off <= DISTANCE_MAX && MINMATCH <= mlen
    ensures var s := Sequence(x[anchor..ip], off, mlen);
            Parsed(x, a, seqs + [s], ip + mlen) && Encodable(s)
            && AllEncodable(seqs) && AllEncodable(seqs + [s])
            && EncodeAll(seqs + [s]) == EncodeAll(seqs) + EncodeSequence(s)
  {
    hide EncodeSequence, SequenceSize, Encodable;
    var s := Sequence(x[anchor..ip], off, mlen);
    var all := seqs + [s];
    assert all[..|all| - 1] == seqs;
    ParsedEncodable(x, a, seqs, anchor);
    ParsedEncodable(x, a, all, ip + mlen);
  }

  // ---------- decoding what was encoded ----------

  lemma {:induction false} ReadRunOfRun(src: seq<byte>, i: nat, n: nat)
    requires At(src, i, Run(n))
    ensures ReadRun(src, i) == Some((n, i + |Run(n)|))
    decreases n
  {
    AtIndex(src, i, Run(n), 0);
    if n >= 255 {
      AtParts(src, i, [255], Run(n - 255));
      ReadRunOfRun(src, i + 1, n - 255);
    }
  }

  lemma ReadLengthOfTail(src: seq<byte>, i: nat, n: nat)
    requires At(src, i, LengthTail(n))
    ensures ReadLength(src, i, Nibble(n)) == Some((n, i + TailSize(n)))
  {
    if n >= 15 { ReadRunOfRun(src, i, n - 15); }
  }

  lemma TokenNibbles(ll: nat, mcode: nat)
    ensures LitNibble(Token(ll, mcode)) == Nibble(ll) && MatchNibble(Token(ll, mcode)) == Nibble(mcode)
  {
  }

  /** Where the literals of an encoded literal part start. */
  function LitStart(i: int, ll: int): int { i + 1 + TailSize(ll) }

  /** The pieces of an encoded literal part, by position. */
  lemma LiteralsAt(src: seq<byte>, i: nat, lits: seq<byte>, mcode: nat)
    requires At(src, i, EncodeLiterals(lits, mcode))
    ensures i < |src| && MatchNibble(src[i]) == Nibble(mcode)
    ensures ReadLength(src, i + 1, LitNibble(src[i])) == Some((|lits|, LitStart(i, |lits|)))
    ensures At(src, LitStart(i, |lits|), lits)
  {
    hide At, Token, LitNibble, MatchNibble, ReadLength, TailSize, Nibble, LengthTail;
    var tok, t := [Token(|lits|, mcode)], LengthTail(|lits|);
    TokenNibbles(|lits|, mcode);
    AtParts(src, i, tok + t, lits);
    AtParts(src, i, tok, t);
    AtIndex(src, i, tok, 0);
    ReadLengthOfTail(src, i + 1, |lits|);
  }

  lemma MatchAt(src: seq<byte>, j: nat, off: nat, mcode: nat)
    requires off <= DISTANCE_MAX && At(src, j, EncodeMatch(off, mcode))
    ensures j + 2 <= |src| && LE16(src[j], src[j + 1]) == off
    ensures ReadLength(src, j + 2, Nibble(mcode)) == Some((mcode, j + 2 + TailSize(mcode)))
  {
    hide At, LE16, ReadLength, TailSize, Nibble, LengthTail, OffsetBytes;
    var o := OffsetBytes(off);
    AtParts(src, j, o, LengthTail(mcode));
    AtIndex(src, j, o, 0);
    AtIndex(src, j, o, 1);
    ReadLengthOfTail(src, j + 2, mcode);
  }

  lemma StepIsMatch(src: seq<byte>, i: nat, ll: nat, p: nat, off: nat, mcode: nat, q: nat)
    requires i < |src| && ReadLength(src, i + 1, LitNibble(src[i])) == Some((ll, p))
    requires p + ll + 2 <= |src| && LE16(src[p + ll], src[p + ll + 1]) == off
    requires ReadLength(src, p + ll + 2, MatchNibble(src[i])) == Some((mcode, q))
    ensures StepAt(src, i) == Match(p, ll, off, mcode + MINMATCH, q)
  {
    hide ReadLength;
  }

  lemma StepOfSequence(src: seq<byte>, i: nat, s: Sequence)
    requires Encodable(s) && At(src, i, EncodeSequence(s))
    ensures StepAt(src, i) == Match(LitStart(i, |s.lits|), |s.lits|, s.off, s.mlen, i + SequenceSize(s))
    ensures At(src, LitStart(i, |s.lits|), s.lits)
  {
    hide At, ReadLength, TailSize, Nibble, EncodeLiterals, EncodeMatch, StepAt, LE16;
    var mcode := s.mlen - MINMATCH;
    var e1, e2 := EncodeLiterals(s.lits, mcode), EncodeMatch(s.off, mcode);
    AtParts(src, i, e1, e2);
    LiteralsAt(src, i, s.lits, mcode);
    MatchAt(src, i + |e1|, s.off, mcode);
    StepIsMatch(src, i, |s.lits|, LitStart(i, |s.lits|), s.off, mcode, i + SequenceSize(s));
  }

  lemma StepOfLast(src: seq<byte>, i: nat, lits: seq<byte>)
    requires At(src, i, EncodeLiterals(lits, 0)) && i + |EncodeLiterals(lits, 0)| == |src|
    ensures StepAt(src, i) == Final(LitStart(i, |lits|), |lits|)
    ensures At(src, LitStart(i, |lits|), lits)
  {
    hide ReadLength, EncodeLiterals, At, TailSize;
    LiteralsAt(src, i, lits, 0);
  }

  lemma DecodeSequence(src: seq<byte>, i: nat, x: seq<byte>, c: nat, s: Sequence)
    requires Encodable(s) && At(src, i, EncodeSequence(s))
    requires At(x, c, s.lits) && Genuine(x, c + |s.lits|, s.off, s.mlen)
    ensures Decode(src, i, x[..c]) == Decode(src, i + SequenceSize(s), x[..c + |s.lits| + s.mlen])
  {
    hide StepAt, EncodeSequence, SequenceSize, TailSize, CopyMatch, LitStart;
    StepOfSequence(src, i, s);
    CopyMatchRegenerates(x, c + |s.lits|, s.off, s.mlen);
    SliceJoin(x, 0, c, c + |s.lits|);
  }

  /** Decoding an encoded parse walks through it and rebuilds the data. */
  lemma {:induction false} DecodeParsed(src: seq<byte>, x: seq<byte>, a: nat, seqs: seq<Sequence>, b: nat)
    requires Parsed(x, a, seqs, b) && AllEncodable(seqs) && At(src, 0, EncodeAll(seqs))
    ensures Decode(src, 0, x[..a]) == Decode(src, |EncodeAll(seqs)|, x[..b])
    decreases |seqs|
  {
    hide Decode, EncodeSequence, SequenceSize;
    if seqs != [] {
      var front, s := seqs[..|seqs| - 1], seqs[|seqs| - 1];
      AtParts(src, 0, EncodeAll(front), EncodeSequence(s));
      DecodeParsed(src, x, a, front, b - s.mlen - |s.lits|);
      DecodeSequence(src, |EncodeAll(front)|, x, b - s.mlen - |s.lits|, s);
    }
  }

  /** Round trip: a block made of an encoded parse and final literals decodes to the data. */
  lemma DecodeBlock(src: seq<byte>, x: seq<byte>, a: nat, seqs: seq<Sequence>, b: nat, end: nat)
    requires Parsed(x, a, seqs, b) && AllEncodable(seqs) && b <= end <= |x|
    requires src == EncodeAll(seqs) + EncodeLiterals(x[b..end], 0)
    ensures Decode(src, 0, x[..a]) == Some(x[..end])
  {
    hide EncodeLiterals, EncodeAll, Parsed, StepAt, LitStart;
    var i := |EncodeAll(seqs)|;
    assert At(src, 0, EncodeAll(seqs)) && At(src, i, EncodeLiterals(x[b..end], 0));
    DecodeParsed(src, x, a, seqs, b);
    StepOfLast(src, i, x[b..end]);
    SliceJoin(x, 0, b, end);
  }

  /** More history in front changes nothing for a block that decodes without it. */
  lemma {:induction false} CopyMatchSuffix(pre: seq<byte>, out: seq<byte>, off: nat, n: nat)
    requires 1 <= off <= |out|
    ensures CopyMatch(pre + out, off, n) == pre + CopyMatch(out, off, n)
    decreases n
  {
    if n > 0 {
      var b := out[|out| - off];
      assert (pre + out) + [b] == pre + (out + [b]);
      CopyMatchSuffix(pre, out + [b], off, n - 1);
    }
  }

  lemma {:induction false} DecodeSuffix(src: seq<byte>, i: nat, pre: seq<byte>, out: seq<byte>)
    requires Decode(src, i, out).Some?
    ensures Decode(src, i, pre + out) == Some(pre + Decode(src, i, out).value)
    decreases |src| - i
  {
    hide StepAt, CopyMatch;
    var s := StepAt(src, i);
    var lits := src[s.lit..s.lit + s.ll];
    assert (pre + out) + lits == pre + (out + lits);
    if s.Match? {
      CopyMatchSuffix(pre, out + lits, s.off, s.ml);
      DecodeSuffix(src, s.next, pre, CopyMatch(out + lits, s.off, s.ml));
    }
  }

  // ---------- size and end of block ----------

  lemma SequenceSizeBound(s: Sequence)
    requires Encodable(s)
    ensures SequenceSize(s) <= |s.lits| + s.mlen + |s.lits| / 255
  {
  }

  lemma QuotientSum(a: nat, b: nat, c: nat)
    requires a <= b + c
    ensures b / 255 + c / 255 <= (b + c) / 255
  {
  }

  /** Sequences never take more than one extra byte per 255 bytes of data they stand for. */
  lemma {:induction false} EncodeAllBound(x: seq<byte>, a: nat, seqs: seq<Sequence>, b: nat)
    requires Parsed(x, a, seqs, b) && AllEncodable(seqs)
    ensures |EncodeAll(seqs)| <= (b - a) + (b - a) / 255
    decreases |seqs|
  {
    hide Genuine, EncodeSequence, SequenceSize;
    if seqs != [] {
      var s := seqs[|seqs| - 1];
      var c := b - s.mlen - |s.lits|;
      EncodeAllBound(x, a, seqs[..|seqs| - 1], c);
      SequenceSizeBound(s);
      QuotientSum(0, c - a, |s.lits| + s.mlen);
      QuotientSum(0, |s.lits|, s.mlen);
    }
  }

  /** End-of-block restrictions: the last match starts at least MFLIMIT bytes before the end of
      the data and at least LASTLITERALS bytes after it are literals. */
  ghost predicate EndRestrictions(seqs: seq<Sequence>, anchor: int, end: int)
  {
    seqs != [] ==> anchor + LASTLITERALS <= end && anchor - seqs[|seqs| - 1].mlen + MFLIMIT <= end
  }

  /** A complete block for x[a..end]: what a compressor promises of its output. */
  ghost predicate IsBlock(block: seq<byte>, x: seq<byte>, a: nat, seqs: seq<Sequence>, anchor: nat, end: nat)
  {
    && Parsed(x, a, seqs, anchor) && AllEncodable(seqs) && anchor <= end <= |x|
    && EndRestrictions(seqs, anchor, end)
    && block == EncodeAll(seqs) + EncodeLiterals(x[anchor..end], 0)
  }

  /** LZ4_COMPRESSBOUND */
  function CompressBound(n: int): int
  {
    if 0 <= n <= MAX_INPUT_SIZE then n + n / 255 + 16 else 0
  }

  lemma TailSizeBound(n: nat)
    ensures TailSize(n) <= n / 255 + 1
  {
  }

  /** Every block fits the documented worst case, for every input. */
  lemma BlockWithinBound(block: seq<byte>, x: seq<byte>, a: nat, seqs: seq<Sequence>, anchor: nat, end: nat)
    requires IsBlock(block, x, a, seqs, anchor, end) && end - a <= MAX_INPUT_SIZE
    ensures |block| <= CompressBound(end - a)
  {
    hide Parsed, EncodeAll, EndRestrictions, TailSize;
    ParsedBounds(x, a, seqs, anchor);
    EncodeAllBound(x, a, seqs, anchor);
    TailSizeBound(end - anchor);
    QuotientSum(0, anchor - a, end - anchor);
  }

  lemma ParsedBounds(x: seq<byte>, a: nat, seqs: seq<Sequence>, b: int)
    requires Parsed(x, a, seqs, b)
    ensures a <= b <= |x|
  {
  }
}
