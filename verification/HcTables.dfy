/** The HC hash and chain tables over the window they index. */
module HcTables {
  import opened Bytes
  import opened BlockFormat
  import opened MatchLength
  import opened Windows

  const HASH_SIZE: nat := 0x8000
  const MAXD: nat := 0x1_0000

  /** LZ4HC_hashPtr: Fibonacci hashing of 4 bytes onto 15 bits. */
  function HashPtr(mem: seq<byte>, p: int): (h: int)
    requires 0 <= p && p + 4 <= |mem|
    ensures 0 <= h < HASH_SIZE
  {
    var v := LE32(mem[p], mem[p + 1], mem[p + 2], mem[p + 3]);
    (v * 2654435761) % 0x1_0000_0000 / 0x2_0000
  }

  /** mem shows x through the window (lo and dl are lowLimit and dictLimit). */
  ghost predicate Sees(w: Window, mem: seq<byte>, x: seq<byte>)
  {
    MAXD <= w.lo && Shows(w, mem, x)
  }

  /** Not one of the last three bytes of the dictionary, where four bytes cannot be compared. */
  predicate Good(w: Window, i: int)
  {
    i < w.lo || i + 4 <= w.dl || w.dl <= i
  }

  function Slot(i: int): (s: int)
    ensures 0 <= s < MAXD
  {
    i % MAXD
  }

  lemma SlotsDiffer(i: int, j: int)
    requires i < j < i + MAXD
    ensures Slot(i) != Slot(j)
  {
  }

  ghost predicate HashOk(w: Window, hash: seq<int>, nu: int)
  {
    |hash| == HASH_SIZE && forall h :: 0 <= h < HASH_SIZE ==> 0 <= hash[h] < nu && Good(w, hash[h])
  }

  /** Following the chain from i leads to an earlier index that is good or already too far away. */
  ghost predicate LinkOk(w: Window, nu: int, i: int, delta: int)
  {
    0 <= delta <= DISTANCE_MAX && (Good(w, i - delta) || i - delta + DISTANCE_MAX < nu)
  }

  ghost predicate Chained(w: Window, nu: int, i: int)
  {
    w.lo <= i < nu <= i + MAXD && Good(w, i)
  }

  ghost predicate ChainOk(w: Window, chain: seq<int>, nu: int)
  {
    && |chain| == MAXD
    && (forall s :: 0 <= s < MAXD ==> 0 <= chain[s] <= DISTANCE_MAX)
    && forall i :: Chained(w, nu, i) ==> LinkOk(w, nu, i, chain[Slot(i)])
  }

  lemma ChainStep(w: Window, chain: seq<int>, nu: int, delta: int)
    requires ChainOk(w, chain, nu) && w.dl <= nu
    requires LinkOk(w, nu + 1, nu, delta)
    ensures ChainOk(w, chain[Slot(nu) := delta], nu + 1)
  {
    var c := chain[Slot(nu) := delta];
    forall i | Chained(w, nu + 1, i) ensures LinkOk(w, nu + 1, i, c[Slot(i)]) {
      if i != nu {
        SlotsDiffer(i, nu);
        assert Chained(w, nu, i);
      }
    }
  }

  // ---------- loading a dictionary ----------

  /** Entries from a dictionary whose indices start at 64 KB: empty, or a position of it. */
  predicate LoadedEntry(e: int, nu: int) { e == 0 || MAXD <= e < nu }

  /** Where a link of a loaded dictionary may lead: to an earlier position, or out of anyone's reach. */
  predicate LoadedLink(i: int, target: int, dictEnd: int) { MAXD <= target <= i
      || (0 <= target && target + DISTANCE_MAX < dictEnd) }

  ghost predicate Loading(hash: seq<int>, chain: seq<int>, nu: int, dictEnd: int)
  {
    && |hash| == HASH_SIZE && |chain| == MAXD && MAXD <= nu
    && (forall h :: 0 <= h < HASH_SIZE ==> LoadedEntry(hash[h], nu))
    && (forall i :: MAXD <= i < nu ==> LoadedLink(i, i - chain[Slot(i)], dictEnd))
  }

  lemma LoadingStep(hash: seq<int>, chain: seq<int>, nu: int, dictEnd: int, h: int)
    requires Loading(hash, chain, nu, dictEnd) && 0 <= h < HASH_SIZE && nu < dictEnd <= 2 * MAXD
    ensures var delta := Min(nu - hash[h], DISTANCE_MAX);
      Loading(hash[h := nu], chain[Slot(nu) := delta], nu + 1, dictEnd)
  {
    hide Slot;
    var delta := Min(nu - hash[h], DISTANCE_MAX);
    var c := chain[Slot(nu) := delta];
    assert LoadedEntry(hash[h], nu);
    forall i | MAXD <= i < nu + 1 ensures LoadedLink(i, i - c[Slot(i)], dictEnd) {
      if i != nu {
        SlotsDiffer(i, nu);
        assert LoadedLink(i, i - chain[Slot(i)], dictEnd);
      }
    }
  }

  // ---------- when the window changes ----------

  /** Tables of the right sizes whose entries are below a bound. */
  ghost predicate Ranged(hash: seq<int>, chain: seq<int>, bound: int)
  {
    && |hash| == HASH_SIZE && |chain| == MAXD
    && (forall h :: 0 <= h < HASH_SIZE ==> 0 <= hash[h] < bound)
    && (forall s :: 0 <= s < MAXD ==> 0 <= chain[s] <= DISTANCE_MAX)
  }

  ghost predicate TablesOk(w: Window, hash: seq<int>, chain: seq<int>, nu: int)
  {
    w.dl <= nu && HashOk(w, hash, nu) && ChainOk(w, chain, nu)
  }

  lemma TablesRanged(w: Window, hash: seq<int>, chain: seq<int>, nu: int)
    requires TablesOk(w, hash, chain, nu)
    ensures Ranged(hash, chain, nu)
  {
  }

  lemma RangedMore(hash: seq<int>, chain: seq<int>, bound: int, bound1: int)
    requires Ranged(hash, chain, bound) && bound <= bound1
    ensures Ranged(hash, chain, bound1)
  {
  }

  /** A new index space above everything in the tables. */
  lemma FreshWindow(hash: seq<int>, chain: seq<int>, w: Window)
    requires Ranged(hash, chain, w.lo) && w.lo == w.dl
    ensures TablesOk(w, hash, chain, w.dl)
  {
    hide Slot;
  }

  /** LZ4HC_setExternalDict: the prefix becomes the dictionary.  Its last three bytes were never chained. */
  lemma ExternWindow(w: Window, w1: Window, hash: seq<int>, chain: seq<int>, nu: int)
    requires TablesOk(w, hash, chain, nu) && nu <= Max(w.dl, w.end - 3) && w.lo <= w.dl <= w.end
    requires w.end - 3 <= nu || w.end < w.dl + 4
    requires w1.lo == w.dl && w1.dl == w.end
    ensures TablesOk(w1, hash, chain, w1.dl)
  {
    hide Slot;
    forall i | Chained(w1, w1.dl, i) ensures LinkOk(w1, w1.dl, i, chain[Slot(i)]) {
      assert Chained(w, nu, i);
    }
  }

  /** The dictionary loses its front. */
  lemma TrimWindow(w: Window, w1: Window, hash: seq<int>, chain: seq<int>, nu: int)
    requires TablesOk(w, hash, chain, nu) && w.lo <= w1.lo <= w.dl && w1.dl == w.dl
    ensures TablesOk(w1, hash, chain, nu)
  {
    hide Slot;
    forall i | Chained(w1, nu, i) ensures LinkOk(w1, nu, i, chain[Slot(i)]) {
      assert Chained(w, nu, i);
    }
  }

  /** The prefix loses its front, and with it the dictionary. */
  lemma PrefixWindow(w: Window, w1: Window, hash: seq<int>, chain: seq<int>, nu: int)
    requires TablesOk(w, hash, chain, nu) && w.lo <= w.dl <= w1.lo && w1.dl == w1.lo
    ensures TablesOk(w1, hash, chain, Max(nu, w1.dl))
  {
    hide Slot;
    forall i | Chained(w1, Max(nu, w1.dl), i) ensures LinkOk(w1, Max(nu, w1.dl), i, chain[Slot(i)]) {
      assert Chained(w, nu, i);
    }
  }

  /** Only lo and dl matter to the tables. */
  lemma SameLimits(w: Window, w1: Window, hash: seq<int>, chain: seq<int>, nu: int)
    requires TablesOk(w, hash, chain, nu) && w1.lo == w.lo && w1.dl == w.dl
    ensures TablesOk(w1, hash, chain, nu)
  {
    hide Slot;
    forall i | Chained(w1, nu, i) ensures LinkOk(w1, nu, i, chain[Slot(i)]) {
      assert Chained(w, nu, i);
    }
  }

  class HcTable {
    const hashTable: array<int>
    const chainTable: array<int>
    var nextToUpdate: int

    ghost predicate Valid(w: Window)
      reads this, hashTable, chainTable
    {
      && hashTable != chainTable
      && TablesOk(w, hashTable[..], chainTable[..], nextToUpdate)
    }

    constructor ()
      ensures fresh(hashTable) && fresh(chainTable) && Sized() && Ranged(hashTable[..], chainTable[..], 1)
        && nextToUpdate == 0
    {
      hashTable := new int[HASH_SIZE](_ => 0);
      chainTable := new int[MAXD](_ => 0);
      nextToUpdate := 0;
    }

    predicate Sized()
    {
      hashTable != chainTable && hashTable.Length == HASH_SIZE && chainTable.Length == MAXD
    }

    /** MEM_INIT of a whole state. */
    method Zero()
      requires Sized()
      modifies this, hashTable, chainTable
      ensures Ranged(hashTable[..], chainTable[..], 1) && nextToUpdate == 0
    {
      forall h | 0 <= h < hashTable.Length { hashTable[h] := 0; }
      forall s | 0 <= s < chainTable.Length { chainTable[s] := 0; }
      nextToUpdate := 0;
    }

    /** LZ4HC_clearTables */
    method Clear()
      requires Sized()
      modifies hashTable, chainTable
      ensures Ranged(hashTable[..], chainTable[..], 1)
    {
      forall h | 0 <= h < hashTable.Length { hashTable[h] := 0; }
      forall s | 0 <= s < chainTable.Length { chainTable[s] := DISTANCE_MAX; }
    }

    method CopyFrom(o: HcTable)
      requires o != this && Sized() && o.Sized() && {hashTable, chainTable} !! {o.hashTable, o.chainTable}
      modifies this, hashTable, chainTable
      ensures hashTable[..] == o.hashTable[..] && chainTable[..] == o.chainTable[..] && nextToUpdate == o.nextToUpdate
    {
      forall h | 0 <= h < hashTable.Length { hashTable[h] := o.hashTable[h]; }
      forall s | 0 <= s < chainTable.Length { chainTable[s] := o.chainTable[s]; }
      nextToUpdate := o.nextToUpdate;
    }

    /** Chain one position.  While a dictionary is loaded (up to index dictEnd) every link leads to an
        earlier position of it, or out of reach. */
    method InsertOne(mem: seq<byte>, ghost w: Window, base: int, ghost dictEnd: Option<int>)
      requires Valid(w) && MAXD <= w.lo <= w.dl
      requires 0 <= base + nextToUpdate && base + nextToUpdate + 4 <= |mem|
      requires dictEnd.Some? ==>
        Loading(hashTable[..], chainTable[..], nextToUpdate, dictEnd.value) && nextToUpdate < dictEnd.value <= 2 * MAXD
      modifies this, hashTable, chainTable
      ensures Valid(w) && nextToUpdate == old(nextToUpdate) + 1
      ensures dictEnd.Some? ==> Loading(hashTable[..], chainTable[..], nextToUpdate, dictEnd.value)
    {
      hide HashPtr, Slot, Good, ChainOk, Loading;
      var idx := nextToUpdate;
      var h := HashPtr(mem, base + idx);
      var delta := idx - hashTable[h];
      if delta > DISTANCE_MAX { delta := DISTANCE_MAX; }
      ghost var hash0, chain0 := hashTable[..], chainTable[..];
      GoodPrefix(w, idx);
      assert hash0[h] == hashTable[h];
      ChainStep(w, chain0, idx, delta);
      ChainSize(w, chain0, idx);
      if dictEnd.Some? { LoadingStep(hash0, chain0, idx, dictEnd.value, h); }
      chainTable[Slot(idx)] := delta;
      hashTable[h] := idx;
      nextToUpdate := idx + 1;
      assert chainTable[..] == chain0[Slot(idx) := delta];
      assert hashTable[..] == hash0[h := idx];
    }

    /** LZ4HC_Insert: chain every position up to `target`. */
    method Insert(mem: seq<byte>, ghost w: Window, base: int, target: int, ghost dictEnd: Option<int>)
      requires Valid(w) && MAXD <= w.lo <= w.dl && nextToUpdate <= target
      requires 0 <= base + w.dl && base + target + 3 <= |mem|
      requires dictEnd.Some? ==>
        Loading(hashTable[..], chainTable[..], nextToUpdate, dictEnd.value) && target <= dictEnd.value <= 2 * MAXD
      modifies this, hashTable, chainTable
      ensures Valid(w) && nextToUpdate == target
      ensures dictEnd.Some? ==> Loading(hashTable[..], chainTable[..], nextToUpdate, dictEnd.value)
    {
      hide HashOk, ChainOk, Loading;
      while nextToUpdate < target
        invariant Valid(w) && nextToUpdate <= target
        invariant dictEnd.Some? ==> Loading(hashTable[..], chainTable[..], nextToUpdate, dictEnd.value)
      {
        InsertOne(mem, w, base, dictEnd);
      }
    }
  }

  lemma GoodPrefix(w: Window, i: int)
    requires w.dl <= i
    ensures Good(w, i)
  {
  }

  lemma ChainSize(w: Window, chain: seq<int>, nu: int)
    requires ChainOk(w, chain, nu)
    ensures |chain| == MAXD
  {
  }
}
