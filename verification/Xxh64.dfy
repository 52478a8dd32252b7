/** XXH64: the one-shot hash and the streaming state.  Unlike XXH32 the state has no flag for a
    long input, so they agree up to the length that its 64-bit counter can tell apart. */
module Xxh64 {
  import opened Bytes

  const STRIPE: nat := 32

  const PRIME_1: bv64 := 11400714785074694791
  const PRIME_2: bv64 := 14029467366897019727
  const PRIME_3: bv64 := 1609587929392839161
  const PRIME_4: bv64 := 9650029242287828579
  const PRIME_5: bv64 := 2870177450012600261

  function RotateLeft(x: bv64, n: nat): bv64
    requires n <= 64
  {
    x.RotateLeft(n)
  }

  function Round(acc: bv64, input: bv64): bv64
  {
    RotateLeft(acc + input * PRIME_2, 31) * PRIME_1
  }

  function MergeRound(acc: bv64, val: bv64): bv64
  {
    (acc ^ Round(0, val)) * PRIME_1 + PRIME_4
  }

  function Avalanche(h: bv64): bv64
  {
    var a := (h ^ (h >> 33)) * PRIME_2;
    var b := (a ^ (a >> 29)) * PRIME_3;
    b ^ (b >> 32)
  }

  /** Little-endian words at i. */
  function Word32(s: seq<byte>, i: nat): bv64
    requires i + 4 <= |s|
  {
    s[i] as bv64 | (s[i + 1] as bv64 << 8) | (s[i + 2] as bv64 << 16) | (s[i + 3] as bv64 << 24)
  }

  function Word(s: seq<byte>, i: nat): bv64
    requires i + 8 <= |s|
  {
    Word32(s, i) | (Word32(s, i + 4) << 32)
  }

  /** The four accumulators. */
  datatype Lanes = Lanes(v1: bv64, v2: bv64, v3: bv64, v4: bv64)

  function Start(seed: bv64): Lanes
  {
    Lanes(seed + PRIME_1 + PRIME_2, seed + PRIME_2, seed, seed - PRIME_1)
  }

  /** One stripe of 32 bytes. */
  function Absorb(v: Lanes, stripe: seq<byte>): Lanes
    requires |stripe| == STRIPE
  {
    Lanes(Round(v.v1, Word(stripe, 0)), Round(v.v2, Word(stripe, 8)), Round(v.v3, Word(stripe, 16)),
      Round(v.v4, Word(stripe, 24)))
  }

  /** Every whole stripe of s. */
  function AbsorbAll(v: Lanes, s: seq<byte>): Lanes
    decreases |s|
  {
    if |s| < STRIPE then v else AbsorbAll(Absorb(v, s[..STRIPE]), s[STRIPE..])
  }

  function Merge(v: Lanes): bv64
  {
    var h := RotateLeft(v.v1, 1) + RotateLeft(v.v2, 7) + RotateLeft(v.v3, 12) + RotateLeft(v.v4, 18);
    MergeRound(MergeRound(MergeRound(MergeRound(h, v.v1), v.v2), v.v3), v.v4)
  }

  /** PROCESS8_64, PROCESS4_64 and PROCESS1_64 */
  function MixLong(h: bv64, w: bv64): bv64 { RotateLeft(h ^ Round(0, w), 27) * PRIME_1 + PRIME_4 }

  function MixWord(h: bv64, w: bv64): bv64 { RotateLeft(h ^ (w * PRIME_1), 23) * PRIME_2 + PRIME_3 }

  function MixByte(h: bv64, b: byte): bv64 { RotateLeft(h ^ (b as bv64 * PRIME_5), 11) * PRIME_1 }

  /** The bytes after the last whole stripe: words of 8, a word of 4, single bytes. */
  function Finish(h: bv64, s: seq<byte>, i: nat): bv64
    decreases |s| - i
  {
    if i + 8 <= |s| then Finish(MixLong(h, Word(s, i)), s, i + 8)
    else if i + 4 <= |s| then Finish(MixWord(h, Word32(s, i)), s, i + 4)
    else if i < |s| then Finish(MixByte(h, s[i]), s, i + 1)
    else Avalanche(h)
  }

  function AddWord(h: bv64, w: nat): bv64
    requires w < 0x1_0000_0000_0000_0000
  {
    h + w as bv64
  }

  /** h64 += (U64)len */
  function AddLength(h: bv64, n: nat): bv64 { AddWord(h, n % 0x1_0000_0000_0000_0000) }

  /** Where the hash of fewer than 32 bytes starts. */
  function SmallStart(seed: bv64): bv64 { seed + PRIME_5 }

  /** The hash of s. */
  function Hash(s: seq<byte>, seed: bv64): bv64
  {
    Finish(AddLength(if |s| >= STRIPE then Merge(AbsorbAll(Start(seed), s)) else SmallStart(seed), |s|), Rest(s), 0)
  }

  /** What is left after the last whole stripe. */
  function Rest(s: seq<byte>): seq<byte> { s[|s| - |s| % STRIPE..] }

  lemma RestOfSmall(s: seq<byte>)
    requires |s| < STRIPE
    ensures Rest(s) == s
  {
  }

  predicate Whole(s: seq<byte>) { |s| % STRIPE == 0 }

  // ---------- absorbing piece by piece ----------

  lemma {:induction false} AbsorbSplit(v: Lanes, a: seq<byte>, b: seq<byte>)
    requires Whole(a)
    ensures AbsorbAll(v, a + b) == AbsorbAll(AbsorbAll(v, a), b)
    decreases |a|
  {
    hide Absorb;
    if a == [] {
      assert a + b == b;
    } else {
      assert (a + b)[..STRIPE] == a[..STRIPE] && (a + b)[STRIPE..] == a[STRIPE..] + b;
      AbsorbSplit(Absorb(v, a[..STRIPE]), a[STRIPE..], b);
    }
  }

  lemma AbsorbOne(v: Lanes, stripe: seq<byte>)
    requires |stripe| == STRIPE
    ensures AbsorbAll(v, stripe) == Absorb(v, stripe)
  {
    hide Absorb;
    assert stripe[..STRIPE] == stripe;
  }

  lemma AbsorbNone(v: Lanes, t: seq<byte>)
    requires |t| < STRIPE
    ensures AbsorbAll(v, t) == v
  {
    hide Absorb;
  }

  lemma AbsorbStripe(v: Lanes, a: seq<byte>, stripe: seq<byte>)
    requires Whole(a) && |stripe| == STRIPE
    ensures Whole(a + stripe) && AbsorbAll(v, a + stripe) == Absorb(AbsorbAll(v, a), stripe)
  {
    hide Absorb, AbsorbAll;
    AbsorbSplit(v, a, stripe);
    AbsorbOne(AbsorbAll(v, a), stripe);
  }

  lemma AbsorbShort(v: Lanes, a: seq<byte>, t: seq<byte>)
    requires Whole(a) && |t| < STRIPE
    ensures AbsorbAll(v, a + t) == AbsorbAll(v, a) && Rest(a + t) == t
  {
    hide AbsorbAll;
    AbsorbSplit(v, a, t);
    AbsorbNone(AbsorbAll(v, a), t);
    RestOfShort(a, t);
  }

  lemma RestOfShort(a: seq<byte>, t: seq<byte>)
    requires Whole(a) && |t| < STRIPE
    ensures Rest(a + t) == t && |a + t| % STRIPE == |t|
  {
  }

  /** The do-while loop over whole stripes of x from p on, after `before` has been absorbed. */
  method AbsorbStripes(x: seq<byte>, p0: nat, v0: Lanes, ghost start: Lanes, ghost before: seq<byte>)
      returns (p: nat, v: Lanes)
    requires p0 <= |x| && Whole(before + x[..p0]) && v0 == AbsorbAll(start, before + x[..p0])
    ensures p0 <= p <= |x| < p + STRIPE && Whole(before + x[..p]) && v == AbsorbAll(start, before + x[..p])
  {
    hide Absorb, AbsorbAll, Whole;
    p, v := p0, v0;
    while p + STRIPE <= |x|
      invariant p0 <= p <= |x| && Whole(before + x[..p]) && v == AbsorbAll(start, before + x[..p])
    {
      AbsorbStripe(start, before + x[..p], x[p..p + STRIPE]);
      assert before + x[..p] + x[p..p + STRIPE] == before + x[..p + STRIPE];
      v := Absorb(v, x[p..p + STRIPE]);
      p := p + STRIPE;
    }
  }

  // ---------- one shot ----------

  /** XXH64_finalize: the switch on the length falls through len/8 longs, a word, then the last bytes. */
  method Finalize(h0: bv64, s: seq<byte>) returns (h: bv64)
    requires |s| < STRIPE
    ensures h == Finish(h0, s, 0)
  {
    hide Word, Word32, MixLong, MixWord, MixByte, Avalanche;
    h := h0;
    var i := 0;
    while i + 8 <= |s|
      invariant i <= |s| && Finish(h, s, i) == Finish(h0, s, 0)
    {
      h := MixLong(h, Word(s, i));
      i := i + 8;
    }
    if i + 4 <= |s| {
      h := MixWord(h, Word32(s, i));
      i := i + 4;
    }
    while i < |s|
      invariant i <= |s| < i + 4 && Finish(h, s, i) == Finish(h0, s, 0)
    {
      h := MixByte(h, s[i]);
      i := i + 1;
    }
    h := Avalanche(h);
  }

  /** XXH64 */
  method OneShot(x: seq<byte>, seed: bv64) returns (h: bv64)
    ensures h == Hash(x, seed)
  {
    hide AbsorbAll, Merge, Finish, Start, AddLength, SmallStart, Rest, Whole;
    var p := 0;
    if |x| >= STRIPE {
      var v;
      AbsorbNothing(Start(seed));
      assert [] + x[..0] == [];
      p, v := AbsorbStripes(x, 0, Start(seed), Start(seed), []);
      assert [] + x[..p] == x[..p] && x == x[..p] + x[p..];
      AbsorbShort(Start(seed), x[..p], x[p..]);
      h := Merge(v);
    } else {
      RestOfSmall(x);
      h := SmallStart(seed);
    }
    h := Finalize(AddLength(h, |x|), x[p..]);
  }

  lemma AbsorbNothing(v: Lanes)
    ensures AbsorbAll(v, []) == v && Whole([])
  {
  }

  // ---------- streaming ----------

  /** What the fields mean: whole stripes absorbed, the rest buffered, the length truncated. */
  ghost predicate Stands(v: Lanes, mem64: seq<byte>, memsize: nat, totalLen: nat, seed: bv64, content: seq<byte>)
  {
    && memsize == |content| % STRIPE && memsize <= |mem64| && mem64[..memsize] == Rest(content)
    && v == AbsorbAll(Start(seed), content)
    && totalLen == |content| % 0x1_0000_0000_0000_0000
  }

  /** The truncated length says whether there was a whole stripe. */
  predicate CounterTells(n: nat)
  {
    n >= STRIPE <==> n % 0x1_0000_0000_0000_0000 >= STRIPE
  }

  lemma CounterTellsUpTo64Bits(n: nat)
    ensures n < 0x1_0000_0000_0000_0000 ==> CounterTells(n)
    ensures CounterTells(n) <==> n < STRIPE || n % 0x1_0000_0000_0000_0000 >= STRIPE
  {
  }

  class State {
    var v: Lanes
    const mem64: array<byte>
    var memsize: nat
    var totalLen: nat
    ghost var seed: bv64
    ghost var content: seq<byte>

    /** The state stands for everything it has been given since the last reset. */
    ghost predicate Valid()
      reads this, mem64
    {
      mem64.Length == STRIPE && Stands(v, mem64[..], memsize, totalLen, seed, content)
    }

    constructor (seed: bv64)
      ensures Valid() && fresh(mem64) && content == [] && this.seed == seed
    {
      mem64 := new byte[STRIPE](_ => 0);
      v, memsize, totalLen := Start(seed), 0, 0;
      this.seed, content := seed, [];
    }

    /** XXH64_reset */
    method Reset(seed: bv64)
      requires mem64.Length == STRIPE
      modifies this
      ensures Valid() && content == [] && this.seed == seed
    {
      v, memsize, totalLen := Start(seed), 0, 0;
      this.seed, content := seed, [];
    }

    /** XXH64_update */
    method Update(x: seq<byte>)
      requires Valid()
      modifies this, mem64
      ensures Valid() && content == old(content) + x && seed == old(seed)
    {
      hide AbsorbAll, Absorb, Start, Rest, Whole;
      LengthsAdd(|content|, |x|);
      totalLen := (totalLen + |x| % 0x1_0000_0000_0000_0000) % 0x1_0000_0000_0000_0000;
      if memsize + |x| < STRIPE {
        FillUp(Start(seed), content, x);
        Store(memsize, x);
        memsize := memsize + |x|;
        content := content + x;
      } else {
        UpdateStripes(x);
      }
    }

    /** ... when at least one stripe is complete. */
    method UpdateStripes(x: seq<byte>)
      requires mem64.Length == STRIPE && memsize + |x| >= STRIPE
      requires totalLen == (|content| + |x|) % 0x1_0000_0000_0000_0000
      requires memsize == |content| % STRIPE && mem64[..memsize] == Rest(content)
        && v == AbsorbAll(Start(seed), content)
      modifies this, mem64
      ensures Valid() && content == old(content) + x && seed == old(seed)
    {
      hide AbsorbAll, Absorb, Start, Rest, Whole;
      ghost var c := content;
      FirstStripe(Start(seed), c, x, if memsize == 0 then 0 else STRIPE - memsize);
      var p := 0;
      if memsize != 0 {
        p := STRIPE - memsize;
        v := Absorb(v, mem64[..memsize] + x[..p]);
      }
      p, v := AbsorbStripes(x, p, v, Start(seed), c);
      LastPiece(Start(seed), c, x, p);
      Store(0, x[p..]);
      memsize := |x| - p;
      content := c + x;
    }

    method Store(at: nat, x: seq<byte>)
      requires at + |x| <= mem64.Length
      modifies mem64
      ensures mem64[..at + |x|] == old(mem64[..at]) + x
    {
      forall k | 0 <= k < |x| { mem64[at + k] := x[k]; }
    }

    /** XXH64_digest: the state forgets that its input was long only when the 64-bit length wraps to
        less than a stripe. */
    method Digest() returns (h: bv64)
      requires Valid()
      ensures CounterTells(|content|) ==> h == Hash(content, seed)
    {
      hide AbsorbAll, Merge, Finish, Rest, Start, AddLength, SmallStart;
      SameLength(totalLen, |content|);
      RestSize(content);
      if totalLen >= STRIPE {
        h := Merge(v);
      } else {
        if |content| < STRIPE { NoStripes(seed, content); }
        h := SmallStart(v.v3);
      }
      h := Finalize(AddLength(h, totalLen), mem64[..memsize]);
    }
  }

  lemma LengthsAdd(a: nat, b: nat)
    ensures (a % 0x1_0000_0000_0000_0000 + b % 0x1_0000_0000_0000_0000) % 0x1_0000_0000_0000_0000
         == (a + b) % 0x1_0000_0000_0000_0000
  {
  }

  lemma NoStripes(seed: bv64, c: seq<byte>)
    requires |c| < STRIPE
    ensures AbsorbAll(Start(seed), c).v3 == seed
  {
    hide Absorb;
  }

  lemma SameLength(total: nat, n: nat)
    requires total == n % 0x1_0000_0000_0000_0000
    ensures forall h :: AddLength(h, total) == AddLength(h, n)
  {
    hide AddWord;
  }

  lemma RestSize(c: seq<byte>)
    ensures |Rest(c)| == |c| % STRIPE
  {
  }

  /** New bytes that do not complete a stripe. */
  lemma FillUp(v: Lanes, c: seq<byte>, x: seq<byte>)
    requires |c| % STRIPE + |x| < STRIPE
    ensures AbsorbAll(v, c + x) == AbsorbAll(v, c) && Rest(c + x) == Rest(c) + x
    ensures |c + x| % STRIPE == |c| % STRIPE + |x|
  {
    hide AbsorbAll;
    SplitRest(c);
    var w := c[..|c| - |c| % STRIPE];
    assert c + x == w + (Rest(c) + x);
    AbsorbShort(v, w, Rest(c));
    AbsorbShort(v, w, Rest(c) + x);
  }

  /** The buffered bytes and the first k new ones complete a stripe (or nothing is buffered). */
  lemma FirstStripe(v: Lanes, c: seq<byte>, x: seq<byte>, k: nat)
    requires k == (if |c| % STRIPE == 0 then 0 else STRIPE - |c| % STRIPE) && STRIPE <= |c| % STRIPE + |x|
    ensures k <= |x| && Whole(c + x[..k])
    ensures AbsorbAll(v, c + x[..k]) == if |c| % STRIPE == 0 then AbsorbAll(v, c)
      else Absorb(AbsorbAll(v, c), Rest(c) + x[..k])
  {
    hide AbsorbAll, Absorb;
    SplitRest(c);
    var w := c[..|c| - |c| % STRIPE];
    if k == 0 {
      assert c + x[..0] == c;
    } else {
      assert c + x[..k] == w + (Rest(c) + x[..k]);
      AbsorbShort(v, w, Rest(c));
      AbsorbStripe(v, w, Rest(c) + x[..k]);
    }
  }

  lemma LastPiece(v: Lanes, c: seq<byte>, x: seq<byte>, p: nat)
    requires p <= |x| < p + STRIPE && Whole(c + x[..p])
    ensures AbsorbAll(v, c + x) == AbsorbAll(v, c + x[..p]) && Rest(c + x) == x[p..] && |c + x| % STRIPE == |x| - p
  {
    hide AbsorbAll;
    assert c + x == (c + x[..p]) + x[p..];
    AbsorbShort(v, c + x[..p], x[p..]);
  }

  lemma SplitRest(c: seq<byte>)
    ensures var w := c[..|c| - |c| % STRIPE]; Whole(w) && c == w + Rest(c) && |Rest(c)| == |c| % STRIPE
  {
  }
}
