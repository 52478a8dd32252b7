/** What becomes of matches in the source when the external dictionary starts where the source does, so
    that the pointer test takes them for matches in the dictionary. */
module Alias {
  import opened Bytes
  import opened BlockFormat
  import opened MatchLength

  /** Sizes of dictionary and source for which that does no harm. */
  predicate Tame(k: int, n: int) { MINMATCH <= k && (n < 14 || n < k + 7 || (k == 4 && n == 14)) }

  /** The length found for a match at m taken to be in a dictionary that ends at dictEnd: up to there,
      and then on from the start of the source. */
  function Measured(mem: seq<byte>, ip: int, m: int, source: int, dictEnd: int, matchlimit: int): int
    requires 0 <= m && 0 <= source <= ip && matchlimit <= |mem| && dictEnd <= |mem|
  {
    var limit := Min(ip + (dictEnd - m), matchlimit);
    var ml := MINMATCH + CommonLength(mem, ip + MINMATCH, m + MINMATCH, limit);
    if ip + ml == limit then ml + CommonLength(mem, limit, source, matchlimit) else ml
  }

  /** A match in the source as the parser comes by it: `known` equal bytes, found at ip + known - 4 and
      extended backwards. */
  ghost predicate FoundMatch(mem: seq<byte>, source: int, n: int, ip: int, m: int, known: int)
  {
    && 0 <= source <= m < ip && MINMATCH <= known && ip + known + MFLIMIT - MINMATCH <= source + n <= |mem|
    && Same(mem, ip, m, known)
  }

  function Matchlimit(source: int, n: int): int { source + n - LASTLITERALS }

  // ---------- harmless ----------

  lemma CountKnown(mem: seq<byte>, a: int, b: int, limit: int, n: int)
    requires Same(mem, a, b, n) && MINMATCH <= n && limit <= |mem| && b + (limit - a) <= |mem|
    ensures Min(n, limit - a) <= MINMATCH + CommonLength(mem, a + MINMATCH, b + MINMATCH, limit)
  {
    var k := Min(n, limit - a) - MINMATCH;
    if k > 0 {
      SameSub(mem, a, b, n, MINMATCH, k);
      StrideTest(mem, a + MINMATCH, b + MINMATCH, limit, 0, k);
    }
  }

  lemma CountSame(mem: seq<byte>, a: int, b: int, limit: int, n: int)
    requires Same(mem, a, b, n) && MINMATCH <= n && limit <= |mem| && b + (limit - a) <= |mem|
    ensures var ml := MINMATCH + CommonLength(mem, a + MINMATCH, b + MINMATCH, limit);
      Same(mem, a, b, ml) && a + ml <= Max(a + MINMATCH, limit)
  {
    SameSub(mem, a, b, n, 0, MINMATCH);
    CommonLengthIsCommon(mem, a + MINMATCH, b + MINMATCH, limit);
    SameJoin(mem, a, b, MINMATCH, CommonLength(mem, a + MINMATCH, b + MINMATCH, limit));
  }

  /** The dictionary's end is out of reach. */
  lemma FarIsHarmless(mem: seq<byte>, source: int, k: int, n: int, ip: int, m: int, known: int)
    requires FoundMatch(mem, source, n, ip, m, known) && source + k <= |mem|
      && Matchlimit(source, n) <= ip + (source + k - m)
    ensures var ml := Measured(mem, ip, m, source, source + k, Matchlimit(source, n));
      known <= ml && ip + ml <= Matchlimit(source, n) && Same(mem, ip, m, ml)
  {
    hide CommonLength, Same;
    CountKnown(mem, ip, m, Matchlimit(source, n), known);
    CountSame(mem, ip, m, Matchlimit(source, n), known);
    Nothing(mem, Matchlimit(source, n), source);
  }

  lemma Nothing(mem: seq<byte>, limit: int, source: int)
    requires 0 <= source <= limit <= |mem|
    ensures CommonLength(mem, limit, source, limit) == 0
  {
  }

  /** A match one byte back is a run of equal bytes. */
  lemma {:induction false} RunOfOne(mem: seq<byte>, s: int, n: int, j: int)
    requires Same(mem, s + 1, s, n) && 0 <= j <= n
    ensures 0 <= s && s + j < |mem| + (if n == 0 then 1 else 0) && (j > 0 ==> mem[s + j] == mem[s])
  {
    if j > 0 {
      RunOfOne(mem, s, n, j - 1);
      SameAt(mem, s + 1, s, n, j - 1);
    }
  }

  /** ... that goes on when it is compared with its own start. */
  lemma RunGoesOn(mem: seq<byte>, s: int, k: int, more: int)
    requires Same(mem, s + 1, s, k) && Same(mem, s + 1 + k, s, more) && 0 <= more <= k
    ensures Same(mem, s + 1, s, k + more)
  {
    if more > 0 {
      var x, y := mem[s + 1 + k..s + 1 + k + more], mem[s + k..s + k + more];
      forall j | 0 <= j < more ensures x[j] == y[j] {
        RunOfOne(mem, s, k, j);
        RunOfOne(mem, s, k, k);
        SameAt(mem, s + 1 + k, s, more, j);
        if j > 0 {
          RunOfOne(mem, s, k, j - 1);
          SameAt(mem, s + 1 + k, s, more, j - 1);
        }
      }
      assert x == y;
      SameJoin(mem, s + 1, s, k, more);
    }
  }

  lemma NextToStart(mem: seq<byte>, s: int, k: int, n: int, known: int)
    requires FoundMatch(mem, s, n, s + 1, s, known) && 4 <= k && s + 1 + k < Matchlimit(s, n) && n <= 14
      && (n == 14 ==> k == 4)
    ensures var ml := Measured(mem, s + 1, s, s, s + k, Matchlimit(s, n));
      known <= ml && s + 1 + ml <= Matchlimit(s, n) && Same(mem, s + 1, s, ml)
  {
    hide CommonLength, Same;
    var limit, end := s + 1 + k, Matchlimit(s, n);
    CountKnown(mem, s + 1, s, limit, known);
    CountSame(mem, s + 1, s, limit, known);
    var ml := MINMATCH + CommonLength(mem, s + 1 + MINMATCH, s + MINMATCH, limit);
    if ml == k {
      var more := CommonLength(mem, limit, s, end);
      CommonLengthIsCommon(mem, limit, s, end);
      RunGoesOn(mem, s, k, more);
      if known > k { OneMore(mem, s, k, known, end); }
    }
  }

  lemma OneMore(mem: seq<byte>, s: int, k: int, known: int, end: int)
    requires Same(mem, s + 1, s, known) && 0 < k < known && s + 1 + k < end <= |mem|
    ensures CommonLength(mem, s + 1 + k, s, end) >= 1
  {
    RunOfOne(mem, s, known, k + 1);
  }

  /** Two bytes back, four bytes of dictionary. */
  lemma TwoFromStart(mem: seq<byte>, s: int)
    requires FoundMatch(mem, s, 14, s + 2, s, 4)
    ensures var ml := Measured(mem, s + 2, s, s, s + 4, Matchlimit(s, 14));
      4 <= ml && s + 2 + ml <= Matchlimit(s, 14) && Same(mem, s + 2, s, ml)
  {
    hide CommonLength, Same;
    CountSame(mem, s + 2, s, s + 6, 4);
    CommonLengthIsCommon(mem, s + 6, s, s + 9);
    PeriodTwo(mem, s, CommonLength(mem, s + 6, s, s + 9));
  }

  lemma PeriodTwo(mem: seq<byte>, s: int, more: int)
    requires Same(mem, s + 2, s, 4) && Same(mem, s + 6, s, more) && more <= 3
    ensures Same(mem, s + 2, s, 4 + more)
  {
    var x, y := mem[s + 6..s + 6 + more], mem[s + 4..s + 4 + more];
    SameAt(mem, s + 2, s, 4, 0);
    SameAt(mem, s + 2, s, 4, 1);
    SameAt(mem, s + 2, s, 4, 2);
    SameAt(mem, s + 2, s, 4, 3);
    forall j | 0 <= j < more ensures x[j] == y[j] {
      SameAt(mem, s + 6, s, more, j);
      SameAt(mem, s + 6, s, more, 0);
    }
    assert x == y;
    SameJoin(mem, s + 2, s, 4, more);
  }

  lemma ShortOfDict(mem: seq<byte>, s: int)
    requires FoundMatch(mem, s, 14, s + 2, s + 1, 4)
    ensures Measured(mem, s + 2, s + 1, s, s + 4, Matchlimit(s, 14)) == 4
  {
  }

  /** With tame sizes every match in the source is measured right. */
  lemma TameIsHarmless(mem: seq<byte>, source: int, k: int, n: int, ip: int, m: int, known: int)
    requires FoundMatch(mem, source, n, ip, m, known) && 4 <= k && source + k <= |mem| && Tame(k, n)
    ensures var ml := Measured(mem, ip, m, source, source + k, Matchlimit(source, n));
      known <= ml && ip + ml <= Matchlimit(source, n) && Same(mem, ip, m, ml)
  {
    hide CommonLength, Same, Measured;
    if Matchlimit(source, n) <= ip + (source + k - m) {
      FarIsHarmless(mem, source, k, n, ip, m, known);
    } else if ip == source + 1 {
      NextToStart(mem, source, k, n, known);
    } else if m == source {
      TwoFromStart(mem, source);
    } else {
      ShortOfDict(mem, source);
    }
  }

  // ---------- harmful ----------

  /** One other byte in front of a run of k, and once more behind it. */
  function Content(k: nat, n: nat): (r: seq<byte>)
    ensures |r| == n
  {
    seq(n, i requires 0 <= i < n => if i == 0 || i > k then 1 else 0)
  }

  /** Three bytes and their repetition. */
  function Content4(n: nat): (r: seq<byte>)
    ensures |r| == n
  {
    seq(n, i requires 0 <= i < n => if i % 3 == 1 && i != 7 then 1 else 0)
  }

  /** The match at the second byte of the source runs to the end of the dictionary; its continuation is
      looked for at the start of the source, where the decoder does not look. */
  lemma RunIsHarmful(k: int, n: int)
    requires 5 <= k && n >= k + 7 && n >= 14
    ensures var mem := Content(k, n);
      FoundMatch(mem, 0, n, 2, 1, 4) && !Same(mem, 2, 1, Measured(mem, 2, 1, 0, k, Matchlimit(0, n)))
  {
    hide CommonLength;
    var mem := Content(k, n);
    assert mem[2..6] == mem[1..5];
    CommonRun(mem, 6, 5, k + 1);
    var ml := Measured(mem, 2, 1, 0, k, Matchlimit(0, n));
    AtLeastOne(mem, k + 1, 0, Matchlimit(0, n));
    if Same(mem, 2, 1, ml) { SameAt(mem, 2, 1, ml, k - 1); }
  }

  lemma FourIsHarmful(n: int)
    requires n >= 15
    ensures var mem := Content4(n);
      FoundMatch(mem, 0, n, 3, 0, 4) && !Same(mem, 3, 0, Measured(mem, 3, 0, 0, 4, Matchlimit(0, n)))
  {
    hide CommonLength;
    var mem := Content4(n);
    assert mem[3..7] == mem[0..4];
    var ml := Measured(mem, 3, 0, 0, 4, Matchlimit(0, n));
    Nothing4(mem);
    AtLeastOne(mem, 7, 0, Matchlimit(0, n));
    if Same(mem, 3, 0, ml) { SameAt(mem, 3, 0, ml, 4); }
  }

  lemma AtLeastOne(mem: seq<byte>, a: int, b: int, limit: int)
    requires 0 <= b <= a < limit <= |mem| && mem[a] == mem[b]
    ensures CommonLength(mem, a, b, limit) >= 1
  {
  }

  lemma Nothing4(mem: seq<byte>)
    requires 7 <= |mem|
    ensures CommonLength(mem, 7, 4, 7) == 0
  {
  }

  /** The length of every match in the source, whatever the content, is right exactly for tame sizes. */
  lemma TameIsExact(k: int, n: int)
    requires 4 <= k
    ensures Tame(k, n) <==>
      forall mem: seq<byte>, source, ip, m, known :: FoundMatch(mem, source, n, ip, m, known) && source + k <= |mem| ==>
        Same(mem, ip, m, Measured(mem, ip, m, source, source + k, Matchlimit(source, n)))
  {
    hide Same, Measured, Content, Content4;
    if Tame(k, n) {
      forall mem: seq<byte>, source, ip, m, known | FoundMatch(mem, source, n, ip, m, known) && source + k <= |mem|
        ensures Same(mem, ip, m, Measured(mem, ip, m, source, source + k, Matchlimit(source, n)))
      {
        TameIsHarmless(mem, source, k, n, ip, m, known);
      }
    } else if k == 4 {
      FourIsHarmful(n);
      assert FoundMatch(Content4(n), 0, n, 3, 0, 4) && 0 + k <= |Content4(n)|;
    } else {
      RunIsHarmful(k, n);
      assert FoundMatch(Content(k, n), 0, n, 2, 1, 4) && 0 + k <= |Content(k, n)|;
    }
  }

  lemma {:induction false} CommonRun(mem: seq<byte>, a: int, b: int, limit: int)
    requires 0 <= b < a <= limit <= |mem| && forall i :: b <= i < limit ==> mem[i] == mem[b]
    ensures CommonLength(mem, a, b, limit) == limit - a
    decreases limit - a
  {
    if a < limit { CommonRun(mem, a + 1, b + 1, limit); }
  }
}
