/** What the block decoder takes a block to mean, for any bytes at all: as the format says, except
    that lengths are summed in 32 bits and that an offset of 0 gives bytes 0.  Where that is the
    meaning the format gives the block. */
module Block32 {
  import opened Bytes
  import opened BlockFormat
  import opened BlockShape

  /** Reduction to an unsigned 32-bit integer. */
  function U32(n: nat): (r: nat)
    ensures r < 0x1_0000_0000
  {
    n % 0x1_0000_0000
  }

  lemma U32Add(a: nat, b: nat)
    ensures U32(U32(a) + b) == U32(a + b)
  {
  }

  function ReadLength32(src: seq<byte>, i: nat, nibble: nat): Option<(nat, nat)>
  {
    if nibble < 15 then Some((nibble, i))
    else match ReadRun(src, i)
      case None => None
      case Some(r) => Some((15 + U32(r.0), r.1))
  }

  function StepAt32(src: seq<byte>, i: nat): (s: Step)
    ensures s.Final? ==> i < s.lit && s.lit + s.ll == |src|
    ensures s.Match? ==> i < s.lit && s.lit + s.ll + 2 <= s.next <= |src| && s.off <= DISTANCE_MAX && s.ml >= MINMATCH
  {
    ReadRunBounds(src, i + 1);
    if i >= |src| then Bad
    else match ReadLength32(src, i + 1, LitNibble(src[i]))
      case None => Bad
      case Some(r) =>
        var ll, p := r.0, r.1;
        ReadRunBounds(src, p + ll + 2);
        if p + ll == |src| then Final(p, ll)
        else if p + ll + 2 > |src| then Bad
        else match ReadLength32(src, p + ll + 2, MatchNibble(src[i]))
          case None => Bad
          case Some(m) => Match(p, ll, LE16(src[p + ll], src[p + ll + 1]), m.0 + MINMATCH, m.1)
  }

  /** The match copy with its first four bytes cleared beforehand: at offset 0 nothing else comes. */
  function CopyMatch32(out: seq<byte>, off: nat, n: nat): (r: seq<byte>)
    requires off <= |out|
    ensures |r| == |out| + n
  {
    if off == 0 then out + Repeated(0, n) else CopyMatch(out, off, n)
  }

  /** Decoding as lz4.c does it. */
  function Decode32(src: seq<byte>, i: nat, out: seq<byte>): Option<seq<byte>>
    decreases |src| - i
  {
    match StepAt32(src, i)
    case Bad => None
    case Final(p, ll) => Some(out + src[p..p + ll])
    case Match(p, ll, off, ml, next) =>
      var o := out + src[p..p + ll];
      if off <= |o| then Decode32(src, next, CopyMatch32(o, off, ml)) else None
  }

  /** The end-of-block rules for that meaning, with offsets from `least` on. */
  ghost predicate EndsWell32(src: seq<byte>, i: nat, o: int, h: int, d: int, least: nat)
    decreases |src| - i
  {
    match StepAt32(src, i)
    case Bad => false
    case Final(p, ll) => o + ll == d && MatchNibble(src[i]) == 0
    case Match(p, ll, off, ml, next) =>
      && least <= off <= h + o + ll
      && next + 1 + LASTLITERALS <= |src|
      && o + ll + MFLIMIT <= d && o + ll + ml + LASTLITERALS <= d
      && EndsWell32(src, next, o + ll + ml, h, d, least)
  }

  /** How far the input stays ahead of the output on that path. */
  ghost predicate Margin32(src: seq<byte>, i: nat, gap: int)
    decreases |src| - i
  {
    OVERSHOOT <= gap
    && match StepAt32(src, i)
       case Match(p, ll, off, ml, next) => Margin32(src, next, gap + (next - i) - (ll + ml))
       case _ => true
  }

  // ---------- decoding appends, and looks back no further than the window ----------

  lemma StepLengths32(src: seq<byte>, i: nat)
    requires i < |src| && !StepAt32(src, i).Bad?
    ensures ReadLength32(src, i + 1, LitNibble(src[i])) == Some((StepAt32(src, i).ll, StepAt32(src, i).lit))
    ensures StepAt32(src, i).Match? ==>
      var s := StepAt32(src, i); var j := s.lit + s.ll;
      j + 2 <= |src| && s.off == LE16(src[j], src[j + 1]) && s.ml >= MINMATCH
      && ReadLength32(src, j + 2, MatchNibble(src[i])) == Some((s.ml - MINMATCH, s.next))
  {
    hide ReadLength32;
  }

  lemma Copy32Prefix(out: seq<byte>, off: nat, n: nat)
    requires off <= |out|
    ensures CopyMatch32(out, off, n)[..|out|] == out
  {
    if off > 0 { CopyMatchIsGenuine(out, off, n); }
  }

  lemma Copy32Suffix(pre: seq<byte>, out: seq<byte>, off: nat, n: nat)
    requires off <= |out|
    ensures CopyMatch32(pre + out, off, n) == pre + CopyMatch32(out, off, n)
  {
    if off > 0 { CopyMatchSuffix(pre, out, off, n); }
  }

  lemma {:induction false} EndsWell32Grows(src: seq<byte>, i: nat, o: int, h: int, d: int, least: nat)
    requires EndsWell32(src, i, o, h, d, least)
    ensures o <= d
    decreases |src| - i
  {
    hide ReadLength32;
    var s := StepAt32(src, i);
    if s.Match? { EndsWell32Grows(src, s.next, o + s.ll + s.ml, h, d, least); }
  }

  /** Such a block decodes, to d bytes that extend what was there. */
  lemma {:induction false} EndsWell32Decodes(src: seq<byte>, i: nat, out: seq<byte>, h: int, d: int, least: nat)
    requires 0 <= h <= |out| && EndsWell32(src, i, |out| - h, h, d, least)
    ensures Decode32(src, i, out).Some?
    ensures var f := Decode32(src, i, out).value; |f| == h + d && |out| <= |f| && f[..|out|] == out
    decreases |src| - i
  {
    hide StepAt32, CopyMatch32;
    var s := StepAt32(src, i);
    if s.Match? {
      var o := out + src[s.lit..s.lit + s.ll];
      var c := CopyMatch32(o, s.off, s.ml);
      Copy32Prefix(o, s.off, s.ml);
      EndsWell32Decodes(src, s.next, c, h, d, least);
      var f := Decode32(src, i, out).value;
      assert f[..|out|] == f[..|c|][..|o|][..|out|];
    }
  }

  /** Decoding only appends. */
  lemma {:induction false} PrefixOfDecode32(src: seq<byte>, i: nat, out: seq<byte>)
    requires Decode32(src, i, out).Some?
    ensures var f := Decode32(src, i, out).value; |out| <= |f| && f[..|out|] == out
    decreases |src| - i
  {
    hide StepAt32, CopyMatch32;
    var s := StepAt32(src, i);
    if s.Match? {
      var o := out + src[s.lit..s.lit + s.ll];
      var c := CopyMatch32(o, s.off, s.ml);
      Copy32Prefix(o, s.off, s.ml);
      PrefixOfDecode32(src, s.next, c);
      var f := Decode32(src, i, out).value;
      assert f[..|out|] == f[..|c|][..|o|][..|out|];
    }
  }

  /** Bytes in front of a history that is enough change nothing. */
  lemma {:induction false} DecodeSuffix32(src: seq<byte>, i: nat, pre: seq<byte>, out: seq<byte>)
    requires Decode32(src, i, out).Some?
    ensures Decode32(src, i, pre + out) == Some(pre + Decode32(src, i, out).value)
    decreases |src| - i
  {
    hide StepAt32, CopyMatch32;
    var s := StepAt32(src, i);
    var lits := src[s.lit..s.lit + s.ll];
    assert (pre + out) + lits == pre + (out + lits);
    if s.Match? {
      Copy32Suffix(pre, out + lits, s.off, s.ml);
      DecodeSuffix32(src, s.next, pre, CopyMatch32(out + lits, s.off, s.ml));
    }
  }

  /** A history of DISTANCE_MAX bytes is enough for any block. */
  lemma {:induction false} DecodeWindow32(src: seq<byte>, i: nat, pre: seq<byte>, out: seq<byte>)
    requires DISTANCE_MAX <= |out| && Decode32(src, i, pre + out).Some?
    ensures Decode32(src, i, out).Some?
    decreases |src| - i
  {
    hide StepAt32, CopyMatch32;
    var s := StepAt32(src, i);
    var lits := src[s.lit..s.lit + s.ll];
    assert (pre + out) + lits == pre + (out + lits);
    if s.Match? {
      Copy32Suffix(pre, out + lits, s.off, s.ml);
      DecodeWindow32(src, s.next, pre, CopyMatch32(out + lits, s.off, s.ml));
    }
  }

  lemma {:induction false} EndsWell32Window(src: seq<byte>, i: nat, o: int, h: int, h1: int, d: int, least: nat)
    requires EndsWell32(src, i, o, h, d, least) && Min(h, DISTANCE_MAX) <= h1 && 0 <= o
    ensures EndsWell32(src, i, o, h1, d, least)
    decreases |src| - i
  {
    hide ReadLength32;
    var s := StepAt32(src, i);
    if s.Match? { EndsWell32Window(src, s.next, o + s.ll + s.ml, h, h1, d, least); }
  }

  // ---------- where it is the meaning of the format ----------

  lemma Length32(src: seq<byte>, i: nat, nibble: nat)
    requires nibble <= 15 && (nibble == 15 ==> Fits32(src, i))
    ensures ReadLength32(src, i, nibble) == ReadLength(src, i, nibble)
  {
  }

  lemma Nibbles(token: byte)
    ensures LitNibble(token) <= 15 && MatchNibble(token) <= 15
  {
  }

  lemma RegularStep(src: seq<byte>, i: nat)
    requires Regular(src, i)
    ensures StepAt32(src, i) == StepAt(src, i)
    ensures StepAt(src, i).Match? ==> 1 <= StepAt(src, i).off && Regular(src, StepAt(src, i).next)
  {
    hide ReadLength, ReadLength32, Fits32, LitNibble, MatchNibble;
    if i < |src| {
      Nibbles(src[i]);
      Length32(src, i + 1, LitNibble(src[i]));
      var r := ReadLength(src, i + 1, LitNibble(src[i]));
      if r.Some? && r.value.1 + r.value.0 + 2 <= |src| {
        Length32(src, r.value.1 + r.value.0 + 2, MatchNibble(src[i]));
      }
    }
  }

  lemma {:induction false} RegularDecode(src: seq<byte>, i: nat, out: seq<byte>)
    requires Regular(src, i)
    ensures Decode32(src, i, out) == Decode(src, i, out)
    decreases |src| - i
  {
    hide StepAt, StepAt32, CopyMatch, Regular;
    RegularStep(src, i);
    var s := StepAt(src, i);
    if s.Match? {
      var o := out + src[s.lit..s.lit + s.ll];
      if s.off <= |o| { RegularDecode(src, s.next, CopyMatch(o, s.off, s.ml)); }
    }
  }

  /** What the format decodes to less than 4 GB has no length of 4 GB and no offset 0 on its path. */
  lemma {:induction false} DecodedIsRegular(src: seq<byte>, i: nat, out: seq<byte>)
    requires Decode(src, i, out).Some? && |Decode(src, i, out).value| < |out| + 0x1_0000_0000
    ensures Regular(src, i) && |out| <= |Decode(src, i, out).value|
    decreases |src| - i
  {
    hide ReadLength, Fits32, CopyMatch, StepAt;
    StepLengths(src, i);
    var s := StepAt(src, i);
    if s.Final? { ShortRun(src, i + 1, LitNibble(src[i])); }
    if s.Match? {
      var o := out + src[s.lit..s.lit + s.ll];
      DecodeGrows(src, s.next, CopyMatch(o, s.off, s.ml));
      ShortRun(src, i + 1, LitNibble(src[i]));
      ShortRun(src, s.lit + s.ll + 2, MatchNibble(src[i]));
      DecodedIsRegular(src, s.next, CopyMatch(o, s.off, s.ml));
    }
  }

  lemma {:induction false} DecodeGrows(src: seq<byte>, i: nat, out: seq<byte>)
    requires Decode(src, i, out).Some?
    ensures |out| <= |Decode(src, i, out).value|
    decreases |src| - i
  {
    hide CopyMatch, StepAt;
    var s := StepAt(src, i);
    if s.Match? { DecodeGrows(src, s.next, CopyMatch(out + src[s.lit..s.lit + s.ll], s.off, s.ml)); }
  }

  /** The decoder's meaning of a block is the format's exactly where the block is regular. */
  lemma SameMeaning(src: seq<byte>, out: seq<byte>)
    requires Decode32(src, 0, out).Some? && |Decode32(src, 0, out).value| < |out| + 0x1_0000_0000
    ensures Decode(src, 0, out) == Decode32(src, 0, out) <==> Regular(src, 0)
  {
    hide Decode, Decode32, Regular;
    if Regular(src, 0) { RegularDecode(src, 0, out); }
    if Decode(src, 0, out) == Decode32(src, 0, out) { DecodedIsRegular(src, 0, out); }
  }

  lemma {:induction false} EndsWellIs32(src: seq<byte>, i: nat, o: int, h: int, d: int)
    requires EndsWell(src, i, o, h, d) && Regular(src, i)
    ensures EndsWell32(src, i, o, h, d, 1)
    decreases |src| - i
  {
    hide StepAt, StepAt32, Regular;
    RegularStep(src, i);
    var s := StepAt(src, i);
    if s.Match? { EndsWellIs32(src, s.next, o + s.ll + s.ml, h, d); }
  }

  lemma {:induction false} EndsWell32Less(src: seq<byte>, i: nat, o: int, h: int, d: int, least: nat)
    requires EndsWell32(src, i, o, h, d, least)
    ensures EndsWell32(src, i, o, h, d, 0)
    decreases |src| - i
  {
    hide StepAt32;
    var s := StepAt32(src, i);
    if s.Match? { EndsWell32Less(src, s.next, o + s.ll + s.ml, h, d, least); }
  }

  /** A block that keeps the rules of the format and decodes to less than 4 GB keeps them here. */
  lemma WellFormed(src: seq<byte>, h: int, d: int)
    requires EndsWell(src, 0, 0, h, d) && d < 0x1_0000_0000
    ensures Regular(src, 0) && EndsWell32(src, 0, 0, h, d, 0) && EndsWell32(src, 0, 0, h, d, 1)
  {
    hide EndsWell, EndsWell32, Regular;
    EndsWellIsRegular(src, 0, 0, h, d);
    EndsWellIs32(src, 0, 0, h, d);
    EndsWell32Less(src, 0, 0, h, d, 1);
  }

  lemma {:induction false} MarginIs32(src: seq<byte>, i: nat, gap: int)
    requires Margin(src, i, gap) && Regular(src, i)
    ensures Margin32(src, i, gap)
    decreases |src| - i
  {
    hide StepAt, StepAt32, Regular;
    RegularStep(src, i);
    var s := StepAt(src, i);
    if s.Match? { MarginIs32(src, s.next, gap + (s.next - i) - (s.ll + s.ml)); }
  }

  // ---------- the blocks for which it is not ----------

  /** No match on the path from i has offset 0. */
  ghost predicate NoZeroOffset(src: seq<byte>, i: nat)
    decreases |src| - i
  {
    match StepAt(src, i)
    case Match(p, ll, off, ml, next) => 1 <= off && NoZeroOffset(src, next)
    case _ => true
  }

  lemma {:induction false} RunBound(src: seq<byte>, i: nat)
    requires ReadRun(src, i).Some?
    ensures ReadRun(src, i).value.0 < 255 * (|src| - i)
    decreases |src| - i
  {
    if src[i] == 255 { RunBound(src, i + 1); }
  }

  lemma ShortFits(src: seq<byte>, i: nat)
    requires |src| <= 16843010 && 1 <= i
    ensures Fits32(src, i)
  {
    if ReadRun(src, i).Some? { RunBound(src, i); }
  }

  /** Below 16 MB a length cannot overflow: there a block is regular when no offset is 0. */
  lemma {:induction false} ShortIsRegular(src: seq<byte>, i: nat)
    requires |src| <= 16843010
    ensures Regular(src, i) <==> NoZeroOffset(src, i)
    decreases |src| - i
  {
    hide ReadLength, Fits32, StepAt;
    if i < |src| {
      ShortFits(src, i + 1);
      var r := ReadLength(src, i + 1, LitNibble(src[i]));
      if r.Some? && r.value.1 + r.value.0 + 2 <= |src| { ShortFits(src, r.value.1 + r.value.0 + 2); }
      var s := StepAt(src, i);
      if s.Match? {
        StepLengths(src, i);
        ShortIsRegular(src, s.next);
      }
    }
  }

  /** Every byte of src[i..j] is 255. */
  ghost predicate Full(src: seq<byte>, i: int, j: int)
  {
    0 <= i <= j <= |src| && forall k :: i <= k < j ==> src[k] == 255
  }

  /** A run of bytes 255 adds up, and goes on behind its end. */
  lemma {:induction false} FullRun(src: seq<byte>, i: nat, j: nat)
    requires Full(src, i, j)
    ensures ReadRun(src, i) == match ReadRun(src, j) case None => None case Some(r) => Some((255 * (j - i) + r.0, r.1))
    decreases j - i
  {
    if i < j { FullRun(src, i + 1, j); }
  }

  /** A token that announces 15 literals and more, 16843009 bytes 255, a 1, and 15 bytes: the
      format reads a length of 2^32 + 15, the decoder one of 15. */
  function WrappingBlock(lits: seq<byte>): (r: seq<byte>)
    requires |lits| == 15
    ensures |r| == 16843026
  {
    [0xF0] + Repeated(255, 16843009) + [1] + lits
  }

  /** The format gives this block no meaning; the decoder gives it one that keeps all its rules. */
  lemma WrappingBlockDecodes(lits: seq<byte>)
    requires |lits| == 15
    ensures var b := WrappingBlock(lits);
      && Decode(b, 0, []) == None && !Regular(b, 0)
      && Decode32(b, 0, []) == Some(lits) && EndsWell32(b, 0, 0, 0, 15, 1)
  {
    hide Regular;
    var b := WrappingBlock(lits);
    assert b[0] == 0xF0 && b[16843010] == 1 && Full(b, 1, 16843010) && b[16843011..] == lits;
    FullRun(b, 1, 16843010);
    WrappingSteps(b);
    assert [] + b[16843011..16843026] == lits;
    if Regular(b, 0) { RegularStep(b, 0); }
  }

  lemma WrappingSteps(b: seq<byte>)
    requires |b| == 16843026 && b[0] == 0xF0 && ReadRun(b, 1) == Some((0x1_0000_0000, 16843011))
    ensures StepAt(b, 0) == Bad && StepAt32(b, 0) == Final(16843011, 15) && MatchNibble(b[0]) == 0
  {
  }

  /** One literal, a match at offset 0, and eight literals at the end. */
  function ZeroOffsetBlock(x: byte, lits: seq<byte>): (r: seq<byte>)
    requires |lits| == 8
    ensures |r| == 13
  {
    [0x10, x, 0, 0, 0x80] + lits
  }

  /** The format forbids the offset; the decoder gives four bytes 0. */
  lemma ZeroOffsetBlockDecodes(x: byte, lits: seq<byte>)
    requires |lits| == 8
    ensures var b := ZeroOffsetBlock(x, lits);
      && Decode(b, 0, []) == None && !Regular(b, 0)
      && Decode32(b, 0, []) == Some([x, 0, 0, 0, 0] + lits) && EndsWell32(b, 0, 0, 0, 13, 0)
  {
    hide CopyMatch;
    var b := ZeroOffsetBlock(x, lits);
    ZeroSteps(b);
    hide StepAt, StepAt32;
    assert b[1..2] == [x] && b[5..13] == lits && [] + [x] == [x];
    assert [x] + Repeated(0, 4) == [x, 0, 0, 0, 0];
  }

  lemma ZeroSteps(b: seq<byte>)
    requires |b| == 13 && b[0] == 0x10 && b[2] == 0 && b[3] == 0 && b[4] == 0x80
    ensures StepAt(b, 0) == Match(1, 1, 0, 4, 4) && StepAt32(b, 0) == Match(1, 1, 0, 4, 4)
    ensures StepAt32(b, 4) == Final(5, 8) && MatchNibble(b[4]) == 0
  {
    hide ReadRun;
    assert LitNibble(b[0]) == 1 && MatchNibble(b[0]) == 0 && LitNibble(b[4]) == 8;
    assert ReadLength(b, 1, 1) == Some((1, 1)) && ReadLength32(b, 1, 1) == Some((1, 1));
    assert ReadLength(b, 4, 0) == Some((0, 4)) && ReadLength32(b, 4, 0) == Some((0, 4));
    assert ReadLength32(b, 5, 8) == Some((8, 5)) && LE16(b[2], b[3]) == 0;
  }
}
