/** Memory as a sequence of bytes: what a write leaves unchanged, and memmove. */
module Memory {
  import opened Bytes

  /** m1 differs from m only inside [a, b). */
  ghost predicate Agree(m: seq<byte>, m1: seq<byte>, a: int, b: int)
  {
    |m| == |m1| && forall k :: 0 <= k < |m| && (k < a || b <= k) ==> m1[k] == m[k]
  }

  lemma AgreeSlice(m: seq<byte>, m1: seq<byte>, a: int, b: int, i: int, n: int)
    requires Agree(m, m1, a, b) && 0 <= i && 0 <= n && i + n <= |m| && (i + n <= a || b <= i)
    ensures m1[i..i + n] == m[i..i + n]
  {
  }

  lemma AgreeTrans(m: seq<byte>, m1: seq<byte>, m2: seq<byte>, a: int, b: int, c: int, d: int, lo: int, hi: int)
    requires Agree(m, m1, a, b) && Agree(m1, m2, c, d) && lo <= a && lo <= c && b <= hi && d <= hi
    ensures Agree(m, m2, lo, hi)
  {
  }

  lemma AgreeWider(m: seq<byte>, m1: seq<byte>, a: int, b: int, lo: int, hi: int)
    requires Agree(m, m1, a, b) && lo <= a && b <= hi
    ensures Agree(m, m1, lo, hi)
  {
  }

  lemma AgreeSize(m: seq<byte>, m1: seq<byte>, a: int, b: int)
    requires Agree(m, m1, a, b)
    ensures |m| == |m1|
  {
  }

  lemma AgreeSelf(m: seq<byte>, a: int, b: int)
    ensures Agree(m, m, a, b)
  {
  }

  /** memmove; also memcpy, taken to read its whole source first. */
  method MemMove(mem: array<byte>, d: int, s: int, n: int, ghost m: seq<byte>)
    requires mem[..] == m && 0 <= n && 0 <= d && d + n <= |m| && 0 <= s && s + n <= |m|
    modifies mem
    ensures Agree(m, mem[..], d, d + n) && mem[..][d..d + n] == m[s..s + n]
  {
    forall k | d <= k < d + n { mem[k] := mem[s + k - d]; }
  }

  /** data is put at address a. */
  method Put(mem: array<byte>, a: int, data: seq<byte>)
    requires 0 <= a && a + |data| <= mem.Length
    modifies mem
    ensures Agree(old(mem[..]), mem[..], a, a + |data|) && mem[..][a..a + |data|] == data
  {
    forall k | a <= k < a + |data| { mem[k] := data[k - a]; }
  }
}
