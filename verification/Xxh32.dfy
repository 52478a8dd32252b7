/** XXH32: the one-shot hash and the streaming state, which must agree for every way of cutting
    the input into updates. */
module Xxh32 {
  import opened Bytes

  const STRIPE: nat := 16

  const PRIME_1: bv32 := 2654435761
  const PRIME_2: bv32 := 2246822519
  const PRIME_3: bv32 := 3266489917
  const PRIME_4: bv32 := 668265263
  const PRIME_5: bv32 := 374761393

  function RotateLeft(x: bv32, n: nat): bv32
    requires n <= 32
  {
    x.RotateLeft(n)
  }

  function Round(acc: bv32, input: bv32): bv32
  {
    RotateLeft(acc + input * PRIME_2, 13) * PRIME_1
  }

  function Avalanche(h: bv32): bv32
  {
    var a := (h ^ (h >> 15)) * PRIME_2;
    var b := (a ^ (a >> 13)) * PRIME_3;
    b ^ (b >> 16)
  }

  /** Little-endian word at i. */
  function Word(s: seq<byte>, i: nat): bv32
    requires i + 4 <= |s|
  {
    s[i] as bv32 | (s[i + 1] as bv32 << 8) | (s[i + 2] as bv32 << 16) | (s[i + 3] as bv32 << 24)
  }

  /** The four accumulators. */
  datatype Lanes = Lanes(v1: bv32, v2: bv32, v3: bv32, v4: bv32)

  function Start(seed: bv32): Lanes
  {
    Lanes(seed + PRIME_1 + PRIME_2, seed + PRIME_2, seed, seed - PRIME_1)
  }

  /** One stripe of 16 bytes. */
  function Absorb(v: Lanes, stripe: seq<byte>): Lanes
    requires |stripe| == STRIPE
  {
    Lanes(Round(v.v1, Word(stripe, 0)), Round(v.v2, Word(stripe, 4)), Round(v.v3, Word(stripe, 8)),
      Round(v.v4, Word(stripe, 12)))
  }

  /** Every whole stripe of s. */
  function AbsorbAll(v: Lanes, s: seq<byte>): Lanes
    decreases |s|
  {
    if |s| < STRIPE then v else AbsorbAll(Absorb(v, s[..STRIPE]), s[STRIPE..])
  }

  function Merge(v: Lanes): bv32
  {
    RotateLeft(v.v1, 1) + RotateLeft(v.v2, 7) + RotateLeft(v.v3, 12) + RotateLeft(v.v4, 18)
  }

  /** PROCESS4 and PROCESS1 */
  function MixWord(h: bv32, w: bv32): bv32 { RotateLeft(h + w * PRIME_3, 17) * PRIME_4 }

  function MixByte(h: bv32, b: byte): bv32 { RotateLeft(h + b as bv32 * PRIME_5, 11) * PRIME_1 }

  /** The bytes after the last whole stripe: words of 4 as long as they last, then single bytes. */
  function Finish(h: bv32, s: seq<byte>, i: nat): bv32
    decreases |s| - i
  {
    if i + 4 <= |s| then Finish(MixWord(h, Word(s, i)), s, i + 4)
    else if i < |s| then Finish(MixByte(h, s[i]), s, i + 1)
    else Avalanche(h)
  }

  function AddWord(h: bv32, w: nat): bv32
    requires w < 0x1_0000_0000
  {
    h + w as bv32
  }

  /** h += (U32)len */
  function AddLength(h: bv32, n: nat): bv32 { AddWord(h, n % 0x1_0000_0000) }

  /** Where the hash of fewer than 16 bytes starts. */
  function SmallStart(seed: bv32): bv32 { seed + PRIME_5 }

  /** The hash of s. */
  function Hash(s: seq<byte>, seed: bv32): bv32
  {
    Finish(AddLength(if |s| >= STRIPE then Merge(AbsorbAll(Start(seed), s)) else SmallStart(seed), |s|), Rest(s), 0)
  }

  /** What is left after the last whole stripe. */
  function Rest(s: seq<byte>): seq<byte> { s[|s| - |s| % STRIPE..] }

  lemma RestOfSmall(s: seq<byte>)
    requires |s| < STRIPE
    ensures Rest(s) == s
  {
  }

  predicate Whole(s: seq<byte>) { |s| % STRIPE == 0 }

  // ---------- absorbing piece by piece ----------

  lemma {:induction false} AbsorbSplit(v: Lanes, a: seq<byte>, b: seq<byte>)
    requires Whole(a)
    ensures AbsorbAll(v, a + b) == AbsorbAll(AbsorbAll(v, a), b)
    decreases |a|
  {
    hide Absorb;
    if a == [] {
      assert a + b == b;
    } else {
      assert (a + b)[..STRIPE] == a[..STRIPE] && (a + b)[STRIPE..] == a[STRIPE..] + b;
      AbsorbSplit(Absorb(v, a[..STRIPE]), a[STRIPE..], b);
    }
  }

  lemma AbsorbOne(v: Lanes, stripe: seq<byte>)
    requires |stripe| == STRIPE
    ensures AbsorbAll(v, stripe) == Absorb(v, stripe)
  {
    hide Absorb;
    assert stripe[..STRIPE] == stripe;
  }

  lemma AbsorbNone(v: Lanes, t: seq<byte>)
    requires |t| < STRIPE
    ensures AbsorbAll(v, t) == v
  {
    hide Absorb;
  }

  lemma AbsorbStripe(v: Lanes, a: seq<byte>, stripe: seq<byte>)
    requires Whole(a) && |stripe| == STRIPE
    ensures Whole(a + stripe) && AbsorbAll(v, a + stripe) == Absorb(AbsorbAll(v, a), stripe)
  {
    hide Absorb, AbsorbAll;
    AbsorbSplit(v, a, stripe);
    AbsorbOne(AbsorbAll(v, a), stripe);
  }

  lemma AbsorbShort(v: Lanes, a: seq<byte>, t: seq<byte>)
    requires Whole(a) && |t| < STRIPE
    ensures AbsorbAll(v, a + t) == AbsorbAll(v, a) && Rest(a + t) == t
  {
    hide AbsorbAll;
    AbsorbSplit(v, a, t);
    AbsorbNone(AbsorbAll(v, a), t);
    RestOfShort(a, t);
  }

  lemma RestOfShort(a: seq<byte>, t: seq<byte>)
    requires Whole(a) && |t| < STRIPE
    ensures Rest(a + t) == t && |a + t| % STRIPE == |t|
  {
  }

  /** The do-while loop over whole stripes of x from p on, after `before` has been absorbed. */
  method AbsorbStripes(x: seq<byte>, p0: nat, v0: Lanes, ghost start: Lanes, ghost before: seq<byte>)
      returns (p: nat, v: Lanes)
    requires p0 <= |x| && Whole(before + x[..p0]) && v0 == AbsorbAll(start, before + x[..p0])
    ensures p0 <= p <= |x| < p + STRIPE && Whole(before + x[..p]) && v == AbsorbAll(start, before + x[..p])
  {
    hide Absorb, AbsorbAll, Whole;
    p, v := p0, v0;
    while p + STRIPE <= |x|
      invariant p0 <= p <= |x| && Whole(before + x[..p]) && v == AbsorbAll(start, before + x[..p])
    {
      AbsorbStripe(start, before + x[..p], x[p..p + STRIPE]);
      assert before + x[..p] + x[p..p + STRIPE] == before + x[..p + STRIPE];
      v := Absorb(v, x[p..p + STRIPE]);
      p := p + STRIPE;
    }
  }

  // ---------- one shot ----------

  /** XXH32_finalize: the switch on the length falls through len/4 words, then the last bytes. */
  method Finalize(h0: bv32, s: seq<byte>) returns (h: bv32)
    requires |s| < STRIPE
    ensures h == Finish(h0, s, 0)
  {
    hide Word, MixWord, MixByte, Avalanche;
    h := h0;
    var i := 0;
    while i + 4 <= |s|
      invariant i <= |s| && Finish(h, s, i) == Finish(h0, s, 0)
    {
      h := MixWord(h, Word(s, i));
      i := i + 4;
    }
    while i < |s|
      invariant i <= |s| < i + 4 && Finish(h, s, i) == Finish(h0, s, 0)
    {
      h := MixByte(h, s[i]);
      i := i + 1;
    }
    h := Avalanche(h);
  }

  /** XXH32 */
  method OneShot(x: seq<byte>, seed: bv32) returns (h: bv32)
    ensures h == Hash(x, seed)
  {
    hide AbsorbAll, Merge, Finish, Start, AddLength, SmallStart, Rest, Whole;
    var p := 0;
    if |x| >= STRIPE {
      var v;
      AbsorbNothing(Start(seed));
      assert [] + x[..0] == [];
      p, v := AbsorbStripes(x, 0, Start(seed), Start(seed), []);
      assert [] + x[..p] == x[..p] && x == x[..p] + x[p..];
      AbsorbShort(Start(seed), x[..p], x[p..]);
      h := Merge(v);
    } else {
      RestOfSmall(x);
      h := SmallStart(seed);
    }
    h := Finalize(AddLength(h, |x|), x[p..]);
  }

  lemma AbsorbNothing(v: Lanes)
    ensures AbsorbAll(v, []) == v && Whole([])
  {
  }

  // ---------- streaming ----------

  /** What the fields mean: whole stripes absorbed, the rest buffered, the length truncated, and a
      flag that outlives the truncation. */
  ghost predicate Stands(v: Lanes, mem32: seq<byte>, memsize: nat, totalLen32: nat, largeLen: bool, seed: bv32,
      content: seq<byte>)
  {
    && memsize == |content| % STRIPE && memsize <= |mem32| && mem32[..memsize] == Rest(content)
    && v == AbsorbAll(Start(seed), content)
    && totalLen32 == |content| % 0x1_0000_0000
    && (largeLen <==> |content| >= STRIPE)
  }

  class State {
    var v: Lanes
    const mem32: array<byte>
    var memsize: nat
    var totalLen32: nat
    var largeLen: bool
    ghost var seed: bv32
    ghost var content: seq<byte>

    /** The state stands for everything it has been given since the last reset. */
    ghost predicate Valid()
      reads this, mem32
    {
      mem32.Length == STRIPE && Stands(v, mem32[..], memsize, totalLen32, largeLen, seed, content)
    }

    constructor (seed: bv32)
      ensures Valid() && fresh(mem32) && content == [] && this.seed == seed
    {
      mem32 := new byte[STRIPE](_ => 0);
      v, memsize, totalLen32, largeLen := Start(seed), 0, 0, false;
      this.seed, content := seed, [];
    }

    /** XXH32_reset */
    method Reset(seed: bv32)
      requires mem32.Length == STRIPE
      modifies this
      ensures Valid() && content == [] && this.seed == seed
    {
      v, memsize, totalLen32, largeLen := Start(seed), 0, 0, false;
      this.seed, content := seed, [];
    }

    /** XXH32_update */
    method Update(x: seq<byte>)
      requires Valid()
      modifies this, mem32
      ensures Valid() && content == old(content) + x && seed == old(seed)
    {
      hide AbsorbAll, Absorb, Start, Rest, Whole;
      LengthsAdd(|content|, |x|);
      totalLen32 := (totalLen32 + |x| % 0x1_0000_0000) % 0x1_0000_0000;
      largeLen := largeLen || |x| >= STRIPE || totalLen32 >= STRIPE;
      if memsize + |x| < STRIPE {
        FillUp(Start(seed), content, x);
        Store(memsize, x);
        memsize := memsize + |x|;
        content := content + x;
      } else {
        UpdateStripes(x);
      }
    }

    /** ... when at least one stripe is complete. */
    method UpdateStripes(x: seq<byte>)
      requires mem32.Length == STRIPE && memsize + |x| >= STRIPE
      requires totalLen32 == (|content| + |x|) % 0x1_0000_0000 && largeLen
      requires memsize == |content| % STRIPE && mem32[..memsize] == Rest(content)
        && v == AbsorbAll(Start(seed), content)
      modifies this, mem32
      ensures Valid() && content == old(content) + x && seed == old(seed)
    {
      hide AbsorbAll, Absorb, Start, Rest, Whole;
      ghost var c := content;
      FirstStripe(Start(seed), c, x, if memsize == 0 then 0 else STRIPE - memsize);
      var p := 0;
      if memsize != 0 {
        p := STRIPE - memsize;
        v := Absorb(v, mem32[..memsize] + x[..p]);
      }
      p, v := AbsorbStripes(x, p, v, Start(seed), c);
      LastPiece(Start(seed), c, x, p);
      Store(0, x[p..]);
      memsize := |x| - p;
      content := c + x;
    }

    method Store(at: nat, x: seq<byte>)
      requires at + |x| <= mem32.Length
      modifies mem32
      ensures mem32[..at + |x|] == old(mem32[..at]) + x
    {
      forall k | 0 <= k < |x| { mem32[at + k] := x[k]; }
    }

    /** XXH32_digest */
    method Digest() returns (h: bv32)
      requires Valid()
      ensures h == Hash(content, seed)
    {
      hide AbsorbAll, Merge, Finish, Rest, Start, AddLength, SmallStart;
      SameLength(totalLen32, |content|);
      RestSize(content);
      if largeLen {
        h := Merge(v);
      } else {
        NoStripes(seed, content);
        h := SmallStart(v.v3);
      }
      h := Finalize(AddLength(h, totalLen32), mem32[..memsize]);
    }
  }

  lemma LengthsAdd(a: nat, b: nat)
    ensures (a % 0x1_0000_0000 + b % 0x1_0000_0000) % 0x1_0000_0000 == (a + b) % 0x1_0000_0000
    ensures a < STRIPE && b < STRIPE ==> (a + b) % 0x1_0000_0000 == a + b
    ensures (a + b) % 0x1_0000_0000 <= a + b
  {
  }

  lemma NoStripes(seed: bv32, c: seq<byte>)
    requires |c| < STRIPE
    ensures AbsorbAll(Start(seed), c).v3 == seed
  {
    hide Absorb;
  }

  lemma SameLength(total: nat, n: nat)
    requires total == n % 0x1_0000_0000
    ensures forall h :: AddLength(h, total) == AddLength(h, n)
  {
    hide AddWord;
  }

  lemma RestSize(c: seq<byte>)
    ensures |Rest(c)| == |c| % STRIPE
  {
  }

  /** New bytes that do not complete a stripe. */
  lemma FillUp(v: Lanes, c: seq<byte>, x: seq<byte>)
    requires |c| % STRIPE + |x| < STRIPE
    ensures AbsorbAll(v, c + x) == AbsorbAll(v, c) && Rest(c + x) == Rest(c) + x
    ensures |c + x| % STRIPE == |c| % STRIPE + |x|
  {
    hide AbsorbAll;
    SplitRest(c);
    var w := c[..|c| - |c| % STRIPE];
    assert c + x == w + (Rest(c) + x);
    AbsorbShort(v, w, Rest(c));
    AbsorbShort(v, w, Rest(c) + x);
  }

  /** The buffered bytes and the first k new ones complete a stripe (or nothing is buffered). */
  lemma FirstStripe(v: Lanes, c: seq<byte>, x: seq<byte>, k: nat)
    requires k == (if |c| % STRIPE == 0 then 0 else STRIPE - |c| % STRIPE) && STRIPE <= |c| % STRIPE + |x|
    ensures k <= |x| && Whole(c + x[..k])
    ensures AbsorbAll(v, c + x[..k]) == if |c| % STRIPE == 0 then AbsorbAll(v, c)
      else Absorb(AbsorbAll(v, c), Rest(c) + x[..k])
  {
    hide AbsorbAll, Absorb;
    SplitRest(c);
    var w := c[..|c| - |c| % STRIPE];
    if k == 0 {
      assert c + x[..0] == c;
    } else {
      assert c + x[..k] == w + (Rest(c) + x[..k]);
      AbsorbShort(v, w, Rest(c));
      AbsorbStripe(v, w, Rest(c) + x[..k]);
    }
  }

  lemma LastPiece(v: Lanes, c: seq<byte>, x: seq<byte>, p: nat)
    requires p <= |x| < p + STRIPE && Whole(c + x[..p])
    ensures AbsorbAll(v, c + x) == AbsorbAll(v, c + x[..p]) && Rest(c + x) == x[p..] && |c + x| % STRIPE == |x| - p
  {
    hide AbsorbAll;
    assert c + x == (c + x[..p]) + x[p..];
    AbsorbShort(v, c + x[..p], x[p..]);
  }

  lemma SplitRest(c: seq<byte>)
    ensures var w := c[..|c| - |c| % STRIPE]; Whole(w) && c == w + Rest(c) && |Rest(c)| == |c| % STRIPE
  {
  }
}
