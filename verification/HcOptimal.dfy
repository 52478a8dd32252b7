/** LZ4HC_compress_optimal: a price table over the next positions, a path chosen backwards and
    rewritten in place so that it can be walked forwards. */
module HcOptimal {
  import opened Bytes
  import opened BlockFormat
  import opened BlockWriter
  import opened BlockOutput
  import opened HcEncoder
  import opened HcTables
  import opened HcMatchFinder
  import opened Windows
  import opened HcParser

  const OPT_NUM: int := 0x1000
  const TRAILING_LITERALS: int := 3

  // ---------- prices ----------

  function LiteralsPrice(litlen: int): int
  {
    if litlen >= RUN_MASK then litlen + 1 + (litlen - RUN_MASK) / 255 else litlen
  }

  function SequencePrice(litlen: int, mlen: int): int
  {
    1 + 2 + LiteralsPrice(litlen)
    + if mlen >= ML_MASK + MINMATCH then 1 + (mlen - (ML_MASK + MINMATCH)) / 255 else 0
  }

  /** The price of a sequence is the number of bytes that encoding it writes. */
  lemma SequencePriceIsSize(s: Sequence)
    requires Encodable(s)
    ensures SequencePrice(|s.lits|, s.mlen) == |EncodeSequence(s)|
  {
    hide EncodeSequence;
  }

  lemma LiteralsPriceIsSize(lits: seq<byte>)
    ensures 1 + LiteralsPrice(|lits|) == |EncodeLiterals(lits, 0)|
  {
    hide EncodeLiterals;
  }

  // ---------- the table ----------

  datatype Opt = Opt(price: int, off: int, mlen: int, litlen: int)

  /** A hop of the path: from relative position pos, a literal (mlen 1) or a match. */
  datatype Hop = Hop(pos: int, mlen: int, off: int)

  ghost predicate HopOk(x: seq<byte>, ip: int, h: Hop)
  {
    0 <= h.pos && (h.mlen == 1 || (ip + h.pos + MFLIMIT <= |x| && Is(x, M(ip + h.pos, ip + h.pos - h.off, h.mlen))))
  }

  /** Cell p says how p is reached: by a literal, or by a genuine match of 4 to p bytes ending there. */
  ghost predicate Cell(x: seq<byte>, ip: int, p: int, c: Opt)
  {
    0 <= c.litlen && (c.mlen == 1 || (MINMATCH <= c.mlen <= p && HopOk(x, ip, Hop(p - c.mlen, c.mlen, c.off))))
  }

  ghost predicate Table(x: seq<byte>, ip: int, opt: seq<Opt>, last: int)
  {
    && |opt| == OPT_NUM + TRAILING_LITERALS && 1 <= last < OPT_NUM
    && (forall p :: 0 <= p <= last + TRAILING_LITERALS ==> Cell(x, ip, p, opt[p]))
    && opt[0].mlen == 1
  }

  /** Cells below `done` are set. */
  ghost predicate Filled(x: seq<byte>, ip: int, opt: seq<Opt>, done: int)
  {
    && |opt| == OPT_NUM + TRAILING_LITERALS && 1 <= done <= |opt|
    && (forall p :: 0 <= p < done ==> Cell(x, ip, p, opt[p]))
    && opt[0].mlen == 1
  }

  lemma FillCell(x: seq<byte>, ip: int, opt: seq<Opt>, done: int, p: int, c: Opt)
    requires Filled(x, ip, opt, done) && 0 < p <= done && p < |opt| && Cell(x, ip, p, c)
    ensures Filled(x, ip, opt[p := c], Max(done, p + 1))
  {
    hide Cell;
  }

  /** A prefix of a genuine match is a hop too. */
  lemma PrefixCell(x: seq<byte>, ip: int, cur: int, len: int, off: int, ml: int, price: int, litlen: int)
    requires Is(x, M(ip + cur, ip + cur - off, len)) && MINMATCH <= ml <= len && 0 <= cur && 0 <= litlen
    requires ip + cur + MFLIMIT <= |x|
    ensures Cell(x, ip, cur + ml, Opt(price, off, ml, litlen))
  {
    IsSub(x, M(ip + cur, ip + cur - off, len), 0, ml);
    hide Is;
  }

  // ---------- walking the table ----------

  /** How p is reached from 0, first hop first. */
  ghost function Back(opt: seq<Opt>, p: int): seq<Hop>
    decreases p
  {
    if p <= 0 || p >= |opt| || opt[p].mlen < 1 || opt[p].mlen > p then []
    else Back(opt, p - opt[p].mlen) + [Hop(p - opt[p].mlen, opt[p].mlen, opt[p].off)]
  }

  /** The hops met when each cell says where it leads to. */
  ghost function Forward(opt: seq<Opt>, r: int, last: int): seq<Hop>
    decreases last - r
  {
    if r < 0 || r >= last || r >= |opt| || opt[r].mlen < 1 then []
    else [Hop(r, opt[r].mlen, opt[r].off)] + Forward(opt, r + opt[r].mlen, last)
  }

  lemma {:induction false} ForwardFrame(opt: seq<Opt>, opt1: seq<Opt>, r: int, last: int)
    requires |opt| == |opt1| && forall k :: r <= k < |opt| && 0 <= k ==> opt[k] == opt1[k]
    ensures Forward(opt, r, last) == Forward(opt1, r, last)
    decreases last - r
  {
    if r < 0 || r >= last || r >= |opt| || opt[r].mlen < 1 {
    } else {
      ForwardFrame(opt, opt1, r + opt[r].mlen, last);
    }
  }

  /** The reverse traversal: each cell of the path takes over the hop that leaves it.  Walking
      forward afterwards meets the hops of the backward walk, in reverse order. */
  method Reverse(opt: array<Opt>, cur: int, bestMlen: int, bestOff: int, last: int)
    requires opt.Length == OPT_NUM + TRAILING_LITERALS && 0 <= cur < last && cur < opt.Length && 1 <= bestMlen
    requires opt[0].mlen == 1 && forall p :: 0 < p <= cur ==> 1 <= opt[p].mlen <= p
    requires last <= cur + bestMlen
    modifies opt
    ensures Forward(opt[..], 0, last) == Back(old(opt[..]), cur) + [Hop(cur, bestMlen, bestOff)]
  {
    ghost var opt0 := opt[..];
    var candidate, mlen, off := cur, bestMlen, bestOff;
    ghost var total := Back(opt0, cur) + [Hop(cur, bestMlen, bestOff)];
    assert Forward(opt[..], cur + bestMlen, last) == [];
    while true
      invariant 0 <= candidate <= cur && 1 <= mlen
      invariant forall k :: 0 <= k <= candidate ==> opt[k] == opt0[k]
      invariant Back(opt0, candidate) + [Hop(candidate, mlen, off)] + Forward(opt[..], candidate + mlen, last) == total
      decreases candidate
    {
      var nextMlen, nextOff := opt[candidate].mlen, opt[candidate].off;
      ghost var before := opt[..];
      opt[candidate] := opt[candidate].(mlen := mlen, off := off);
      TakeOver(opt0, before, opt[..], candidate, mlen, off, last);
      mlen, off := nextMlen, nextOff;
      if nextMlen > candidate { break; }
      candidate := candidate - nextMlen;
    }
  }

  lemma TakeOver(opt0: seq<Opt>, before: seq<Opt>, after: seq<Opt>, c: int, mlen: int, off: int, last: int)
    requires 0 <= c < |before| && c < last && 1 <= mlen && after == before[c := before[c].(mlen := mlen, off := off)]
    requires |opt0| == |before| && before[c] == opt0[c]
    ensures Back(opt0, c) + [Hop(c, mlen, off)] + Forward(before, c + mlen, last) == Back(opt0, c) + Forward(after, c,
      last)
    ensures 1 <= opt0[c].mlen <= c ==>
      Back(opt0, c) + Forward(after, c, last)
      == Back(opt0, c - opt0[c].mlen) + [Hop(c - opt0[c].mlen, opt0[c].mlen, opt0[c].off)] + Forward(after, c, last)
    ensures c == 0 ==> Back(opt0, c) == []
  {
    ForwardFrame(before, after, c + mlen, last);
    Concat3(Back(opt0, c), [Hop(c, mlen, off)], Forward(before, c + mlen, last));
  }

  // ---------- filling the table ----------

  method SetCell(opt: array<Opt>, ghost x: seq<byte>, ghost ip: int, ghost done: int, p: int, c: Opt)
    requires Filled(x, ip, opt[..], done) && 0 < p <= done && p < opt.Length && Cell(x, ip, p, c)
    modifies opt
    ensures Filled(x, ip, opt[..], Max(done, p + 1))
    ensures forall k :: 0 <= k < opt.Length && k != p ==> opt[k] == old(opt[k])
  {
    hide Filled, Cell;
    ghost var before := opt[..];
    FillCell(x, ip, before, done, p, c);
    opt[p] := c;
    assert opt[..] == before[p := c];
  }

  /** Three literals after the last match position, so that looking ahead stays inside the table. */
  method LiteralsAfter(opt: array<Opt>, ghost x: seq<byte>, ghost ip: int, last: int)
    requires Filled(x, ip, opt[..], last + 1) && 1 <= last < OPT_NUM
    modifies opt
    ensures Table(x, ip, opt[..], last)
  {
    hide Is;
    var addLit := 1;
    while addLit <= TRAILING_LITERALS
      invariant 1 <= addLit <= TRAILING_LITERALS + 1
      invariant Filled(x, ip, opt[..], last + addLit)
    {
      SetCell(opt, x, ip, last + addLit, last + addLit,
              Opt(opt[last].price + LiteralsPrice(addLit), 0, 1, addLit));
      addLit := addLit + 1;
    }
  }

  /** Prices of the first literals and of every length of the first match. */
  method InitTable(opt: array<Opt>, ghost x: seq<byte>, ghost ip: int, llen: int, len: int, off: int)
    requires opt.Length == OPT_NUM + TRAILING_LITERALS && 0 <= llen
    requires len < OPT_NUM && Is(x, M(ip, ip - off, len)) && ip + MFLIMIT <= |x|
    modifies opt
    ensures Table(x, ip, opt[..], len)
  {
    hide Is, LiteralsPrice, SequencePrice;
    opt[0] := Opt(LiteralsPrice(llen), 0, 1, llen);
    var rPos := 1;
    while rPos < MINMATCH
      invariant 1 <= rPos <= MINMATCH && Filled(x, ip, opt[..], rPos)
    {
      SetCell(opt, x, ip, rPos, rPos, Opt(LiteralsPrice(llen + rPos), 0, 1, llen + rPos));
      rPos := rPos + 1;
    }
    IsLong(x, M(ip, ip - off, len));
    var mlen := MINMATCH;
    while mlen <= len
      invariant MINMATCH <= mlen <= len + 1 && Filled(x, ip, opt[..], mlen)
    {
      PrefixCell(x, ip, 0, len, off, mlen, SequencePrice(llen, mlen), llen);
      SetCell(opt, x, ip, mlen, mlen, Opt(SequencePrice(llen, mlen), off, mlen, llen));
      mlen := mlen + 1;
    }
    LiteralsAfter(opt, x, ip, len);
  }

  lemma IsLong(x: seq<byte>, m: M)
    requires Is(x, m)
    ensures MINMATCH <= m.len
  {
  }

  lemma TableIsFilled(x: seq<byte>, ip: int, opt: seq<Opt>, last: int)
    requires Table(x, ip, opt, last)
    ensures Filled(x, ip, opt, last + TRAILING_LITERALS + 1)
  {
  }

  lemma CellAt(x: seq<byte>, ip: int, opt: seq<Opt>, done: int, p: int)
    requires Filled(x, ip, opt, done) && 0 <= p < done
    ensures 0 <= opt[p].litlen
  {
  }

  /** Literals at the beginning of a new match, where they are cheaper. */
  method CheaperLiterals(opt: array<Opt>, ghost x: seq<byte>, ghost ip: int, cur: int, ghost done: int)
    requires Filled(x, ip, opt[..], done) && 0 <= cur && cur + MINMATCH <= done
    modifies opt
    ensures Filled(x, ip, opt[..], done)
  {
    hide Is, LiteralsPrice, Filled;
    FilledSize(x, ip, opt[..], done);
    CellAt(x, ip, opt[..], done, cur);
    var base, price0 := opt[cur].litlen, opt[cur].price;
    var litlen := 1;
    while litlen < MINMATCH
      invariant 1 <= litlen <= MINMATCH && Filled(x, ip, opt[..], done)
    {
      var price := price0 - LiteralsPrice(base) + LiteralsPrice(base + litlen);
      var pos := cur + litlen;
      if price < opt[pos].price {
        SetCell(opt, x, ip, done, pos, Opt(price, 0, 1, base + litlen));
      }
      litlen := litlen + 1;
    }
  }

  lemma FilledSize(x: seq<byte>, ip: int, opt: seq<Opt>, done: int)
    requires Filled(x, ip, opt, done)
    ensures done <= |opt| == OPT_NUM + TRAILING_LITERALS
  {
  }

  /** Every length of a match at cur, where it is cheaper or beyond what is set. */
  method PriceMatch(opt: array<Opt>, ghost x: seq<byte>, ghost ip: int, cur: int, last: int, len: int, off: int,
      favor: int)
    returns (last1: int)
    requires Table(x, ip, opt[..], last) && 1 <= cur < last && cur + len < OPT_NUM && ip + cur + MFLIMIT <= |x|
    requires Is(x, M(ip + cur, ip + cur - off, len))
    modifies opt
    ensures last <= last1 < OPT_NUM && Filled(x, ip, opt[..], last1 + 1)
    ensures last1 <= Max(last, cur + len)
  {
    hide Is, LiteralsPrice, SequencePrice, Filled, Cell, Table;
    TableIsFilled(x, ip, opt[..], last);
    TableSize(x, ip, opt[..], last);
    IsLong(x, M(ip + cur, ip + cur - off, len));
    last1 := last;
    var ml := MINMATCH;
    ghost var done := last + TRAILING_LITERALS + 1;
    while ml <= len
      invariant MINMATCH <= ml <= len + 1 && last <= last1 <= Max(last, cur + len)
      invariant done == Max(last + TRAILING_LITERALS + 1, cur + ml) && Filled(x, ip, opt[..], done)
      invariant last1 < done && (ml <= len ==> last1 == last)
    {
      var pos := cur + ml;
      CellAt(x, ip, opt[..], done, cur);
      FilledSize(x, ip, opt[..], done);
      var ll := if opt[cur].mlen == 1 then opt[cur].litlen else 0;
      var price :=
        (if opt[cur].mlen == 1 then (if cur > ll then opt[cur - ll].price else 0)
        else opt[cur].price) + SequencePrice(ll, ml);
      if pos > last1 + TRAILING_LITERALS || price <= opt[pos].price - favor {
        if ml == len && last1 < pos { last1 := pos; }
        PrefixCell(x, ip, cur, len, off, ml, price, ll);
        SetCell(opt, x, ip, done, pos, Opt(price, off, ml, ll));
      }
      ml := ml + 1;
      done := Max(last + TRAILING_LITERALS + 1, cur + ml);
    }
    FilledLess(x, ip, opt[..], done, last1 + 1);
  }

  lemma FilledLess(x: seq<byte>, ip: int, opt: seq<Opt>, done: int, less: int)
    requires Filled(x, ip, opt, done) && 1 <= less <= done
    ensures Filled(x, ip, opt, less)
  {
  }

  lemma TableSize(x: seq<byte>, ip: int, opt: seq<Opt>, last: int)
    requires Table(x, ip, opt, last)
    ensures last < OPT_NUM && |opt| == OPT_NUM + TRAILING_LITERALS
  {
  }

  // ---------- the parser ----------

  /** Three bytes behind an external dictionary can be read: this parser searches with chainSwap. */
  predicate Room(w: Window, att: Option<Attached>, size: int)
  {
    att.None? && w.lo < w.dl ==> w.dictBase + w.dl + 3 <= size
  }

  ghost predicate RoomyJob(j: Job, capacity: int)
  {
    JobOk(j, capacity) && Room(j.w, j.att, |j.mem|)
  }

  /** LZ4HC_FindLongerMatch: a match longer than minLen starting at ip, or length 0. */
  method FindLongerMatch(j: Job, t: HcTable, ip: int, minLen: int, favorDecSpeed: bool, ghost capacity: int)
    returns (len: int, off: int)
    requires RoomyJob(j, capacity) && t.Valid(j.Own()) && NextBound(j, t) && t.nextToUpdate - j.w.lo <= ip
      && j.s0 <= ip <= j.Mflimit()
    requires 1 <= minLen && ip + minLen <= j.Matchlimit()
    modifies t, t.hashTable, t.chainTable
    ensures t.Valid(j.Own()) && t.nextToUpdate == ip + j.w.lo && NextBound(j, t)
    ensures len == 0 || Is(j.x, M(ip, ip - off, len))
  {
    hide Genuine, Searchable, CompressBound;
    SearchableBounds(j.w, j.att, j.mem, j.x);
    var lo := j.w.lo;
    var q := Query(ip + lo, ip + lo, j.Matchlimit() + lo, j.attempts, true, true, favorDecSpeed);
    var b := InsertAndGetWiderMatch(t, j.w, j.att, j.mem, j.x, q, minLen);
    if b.longest <= minLen { return 0, 0; }
    len, off := b.longest, b.start - b.ref;
    FoundIs(j.w, j.x, q, b, ip);
    if favorDecSpeed && 18 < len <= 36 {
      IsSub(j.x, M(ip, ip - off, len), 0, 18);
      len := 18;
    }
  }

  lemma FoundIs(w: Window, x: seq<byte>, q: Query, b: Best, ip: int)
    requires Found(w, x, q, b) && q.low == q.ip == ip + w.lo && q.high == |x| - LASTLITERALS + w.lo
    ensures Is(x, M(ip, ip - (b.start - b.ref), b.longest))
  {
  }

  /** Where the search for further matches ended: the position the last hop starts from, that hop,
      and the last position of the table. */
  datatype Choice = Choice(cur: int, mlen: int, off: int, last: int)

  ghost predicate ChoiceOk(x: seq<byte>, ip: int, opt: seq<Opt>, c: Choice)
  {
    && 0 <= c.cur < c.last && 1 <= c.mlen && c.last <= c.cur + c.mlen
    && Filled(x, ip, opt, c.cur + 1) && HopOk(x, ip, Hop(c.cur, c.mlen, c.off))
  }

  /** One position of the loop over further positions: price what a match there offers. */
  method LookAt(j: Job, t: HcTable, opt: array<Opt>, ip: int, cur: int, last: int, sufficient: int, fullUpdate: bool,
                favorDecSpeed: bool, ghost capacity: int)
    returns (stop: bool, last1: int, mlen: int, off: int)
    requires RoomyJob(j, capacity) && t.Valid(j.Own()) && NextBound(j, t) && t.nextToUpdate - j.w.lo <= ip + cur
    requires Table(j.x, ip, opt[..], last) && 1 <= cur < last && j.s0 <= ip && ip + cur <= j.Mflimit()
    requires ip + last <= j.Matchlimit() && opt.Length == OPT_NUM + TRAILING_LITERALS
    modifies t, t.hashTable, t.chainTable, opt
    ensures t.Valid(j.Own()) && NextBound(j, t) && t.nextToUpdate - j.w.lo <= ip + cur
    ensures stop ==> last1 == last && Table(j.x, ip, opt[..], last) && Is(j.x, M(ip + cur, ip + cur - off, mlen))
    ensures !stop ==> last <= last1 && Table(j.x, ip, opt[..], last1) && ip + last1 <= j.Matchlimit()
  {
    hide Is, Searchable, CompressBound, Cell, Filled, LiteralsPrice, SequencePrice;
    stop, last1, mlen, off := false, last, 0, 0;
    if opt[cur + 1].price <= opt[cur].price
       && (!fullUpdate || opt[cur + MINMATCH].price < opt[cur].price + 3) {
      return;
    }
    mlen, off :=
      FindLongerMatch(j, t, ip + cur, if fullUpdate then MINMATCH - 1 else last - cur, favorDecSpeed, capacity);
    if mlen == 0 { return; }
    IsEnds(j.x, M(ip + cur, ip + cur - off, mlen));
    if mlen > sufficient || mlen + cur >= OPT_NUM {
      return true, last, mlen, off;
    }
    TableIsFilled(j.x, ip, opt[..], last);
    CheaperLiterals(opt, j.x, ip, cur, last + TRAILING_LITERALS + 1);
    FilledIsTable(j.x, ip, opt[..], last);
    last1 := PriceMatch(opt, j.x, ip, cur, last, mlen, off, if favorDecSpeed then 1 else 0);
    LiteralsAfter(opt, j.x, ip, last1);
  }

  lemma IsEnds(x: seq<byte>, m: M)
    requires Is(x, m)
    ensures MINMATCH <= m.len && m.End() + LASTLITERALS <= |x|
  {
  }

  lemma FilledIsTable(x: seq<byte>, ip: int, opt: seq<Opt>, last: int)
    requires Filled(x, ip, opt, last + TRAILING_LITERALS + 1) && 1 <= last < OPT_NUM
    ensures Table(x, ip, opt, last)
  {
  }

  lemma LastHop(x: seq<byte>, ip: int, opt: seq<Opt>, last: int)
    requires Table(x, ip, opt, last)
    ensures 1 <= opt[last].mlen <= last
    ensures ChoiceOk(x, ip, opt, Choice(last - opt[last].mlen, opt[last].mlen, opt[last].off, last))
  {
    hide Is;
    assert Cell(x, ip, last, opt[last]);
  }

  lemma MatchHop(x: seq<byte>, ip: int, opt: seq<Opt>, last: int, cur: int, mlen: int, off: int)
    requires Table(x, ip, opt, last) && 0 <= cur < last && ip + cur + MFLIMIT <= |x|
    requires Is(x, M(ip + cur, ip + cur - off, mlen))
    ensures ChoiceOk(x, ip, opt, Choice(cur, mlen, off, cur + 1))
  {
    IsLong(x, M(ip + cur, ip + cur - off, mlen));
    hide Is, Cell;
  }

  /** Price the table from a first match and choose the path's last hop. */
  method ChoosePath(j: Job, t: HcTable, opt: array<Opt>, ip: int, len: int, off: int, llen: int, sufficient: int,
                    fullUpdate: bool, favorDecSpeed: bool, ghost capacity: int)
    returns (c: Choice)
    requires RoomyJob(j, capacity) && t.Valid(j.Own()) && NextBound(j, t) && t.nextToUpdate - j.w.lo <= ip
    requires opt.Length == OPT_NUM + TRAILING_LITERALS && 0 <= llen && len <= sufficient < OPT_NUM
    requires Is(j.x, M(ip, ip - off, len)) && j.s0 <= ip <= j.Mflimit()
    modifies t, t.hashTable, t.chainTable, opt
    ensures t.Valid(j.Own()) && NextBound(j, t) && t.nextToUpdate - j.w.lo < ip + c.last
    ensures ChoiceOk(j.x, ip, opt[..], c)
  {
    hide Is, Searchable, CompressBound, Table, Filled, Cell, HopOk;
    InitTable(opt, j.x, ip, llen, len, off);
    IsEnds(j.x, M(ip, ip - off, len));
    var last, cur := len, 1;
    while cur < last && ip + cur <= j.Mflimit()
      invariant 1 <= cur <= last && Table(j.x, ip, opt[..], last) && ip + last <= j.Matchlimit()
      invariant t.Valid(j.Own()) && NextBound(j, t) && t.nextToUpdate - j.w.lo < ip + cur
      decreases j.Mflimit() + 1 - ip - cur
    {
      var stop, last1, ml, o := LookAt(j, t, opt, ip, cur, last, sufficient, fullUpdate, favorDecSpeed, capacity);
      if stop {
        MatchHop(j.x, ip, opt[..], last, cur, ml, o);
        return Choice(cur, ml, o, cur + 1);
      }
      last, cur := last1, cur + 1;
    }
    TableSize(j.x, ip, opt[..], last);
    LastHop(j.x, ip, opt[..], last);
    c := Choice(last - opt[last].mlen, opt[last].mlen, opt[last].off, last);
  }

  // ---------- encoding the chosen path ----------

  ghost predicate HopsOk(x: seq<byte>, ip: int, hops: seq<Hop>)
  {
    forall k :: 0 <= k < |hops| ==> HopOk(x, ip, hops[k])
  }

  lemma {:induction false} BackHopsOk(x: seq<byte>, ip: int, opt: seq<Opt>, p: int)
    requires Filled(x, ip, opt, p + 1)
    ensures HopsOk(x, ip, Back(opt, p))
    decreases p
  {
    hide Is;
    if p <= 0 || p >= |opt| || opt[p].mlen < 1 || opt[p].mlen > p {
    } else {
      FilledLess(x, ip, opt, p + 1, p - opt[p].mlen + 1);
      BackHopsOk(x, ip, opt, p - opt[p].mlen);
      assert Cell(x, ip, p, opt[p]);
    }
  }

  lemma ReadyToReverse(x: seq<byte>, ip: int, opt: seq<Opt>, cur: int)
    requires Filled(x, ip, opt, cur + 1)
    ensures cur < |opt| == OPT_NUM + TRAILING_LITERALS && opt[0].mlen == 1
    ensures forall p :: 0 < p <= cur ==> 1 <= opt[p].mlen <= p
  {
    hide Is, HopOk;
  }

  lemma ForwardStep(x: seq<byte>, ip: int, opt: seq<Opt>, r: int, last: int)
    requires 0 <= r < last && HopsOk(x, ip, Forward(opt, r, last)) && Forward(opt, r, last) != []
    ensures r < |opt| && 1 <= opt[r].mlen && HopOk(x, ip, Hop(r, opt[r].mlen, opt[r].off))
    ensures HopsOk(x, ip, Forward(opt, r + opt[r].mlen, last))
  {
    hide HopOk;
    var f := Forward(opt, r, last);
    assert f[0] == Hop(r, opt[r].mlen, opt[r].off);
    assert f[1..] == Forward(opt, r + opt[r].mlen, last);
  }

  /** The hops lead to `last` or beyond. */
  ghost predicate Arrives(r: int, hops: seq<Hop>, last: int)
  {
    if hops == [] then last <= r else last <= hops[|hops| - 1].pos + hops[|hops| - 1].mlen
  }

  lemma ArrivesStep(opt: seq<Opt>, r: int, last: int)
    requires Arrives(r, Forward(opt, r, last), last) && r < last
    ensures Forward(opt, r, last) != []
    ensures 0 <= r < |opt| && Arrives(r + opt[r].mlen, Forward(opt, r + opt[r].mlen, last), last)
  {
    var f := Forward(opt, r, last);
    var g := Forward(opt, r + opt[r].mlen, last);
    assert f == [Hop(r, opt[r].mlen, opt[r].off)] + g;
    if g != [] { assert f[|f| - 1] == g[|g| - 1]; }
  }

  /** Encode all recorded sequences in order; literals only move ip. */
  method EncodePath(j: Job, o: Output, opt: array<Opt>, ip: int, last: int) returns (ph: Phase)
    requires RoomyJob(j, o.dst.Length) && OutOk(j, o) && o.anchor <= ip && j.s0 <= o.anchor
    requires HopsOk(j.x, ip, Forward(opt[..], 0, last)) && Arrives(0, Forward(opt[..], 0, last), last)
    modifies o, o.dst
    ensures OutOk(j, o) && j.s0 <= o.anchor
    ensures ph.Overflow? || (ph.Outer? && ip + last <= ph.ip && o.anchor <= ph.ip)
    ensures ph.Overflow? ==>
      j.limit != NotLimited && TooSmall(j) && Is(j.x, ph.m) && o.anchor <= ph.m.start <= j.Mflimit()
  {
    hide Is, Searchable, OutOk, HopsOk, Arrives, CompressBound;
    var cells := opt[..];
    var rPos := 0;
    while rPos < last
      invariant 0 <= rPos && HopsOk(j.x, ip, Forward(cells, rPos, last))
        && Arrives(rPos, Forward(cells, rPos, last), last)
      invariant OutOk(j, o) && j.s0 <= o.anchor <= ip + rPos
    {
      ArrivesStep(cells, rPos, last);
      ForwardStep(j.x, ip, cells, rPos, last);
      var ml, off := cells[rPos].mlen, cells[rPos].off;
      if ml != 1 {
        var m := M(ip + rPos, ip + rPos - off, ml);
        var overflow := Encode(j, o, m);
        if overflow { return Overflow(m); }
      }
      rPos := rPos + ml;
    }
    ph := Outer(ip + rPos);
  }

  lemma PathIsForward(x: seq<byte>, ip: int, opt0: seq<Opt>, opt1: seq<Opt>, c: Choice)
    requires ChoiceOk(x, ip, opt0, c)
    requires Forward(opt1, 0, c.last) == Back(opt0, c.cur) + [Hop(c.cur, c.mlen, c.off)]
    ensures HopsOk(x, ip, Forward(opt1, 0, c.last)) && Arrives(0, Forward(opt1, 0, c.last), c.last)
  {
    hide Filled, HopOk, Cell;
    BackHopsOk(x, ip, opt0, c.cur);
  }

  ghost predicate StepState(j: Job, t: HcTable, o: Output, ip: int)
    reads t, t.hashTable, t.chainTable, o, o.dst
  {
    && RoomyJob(j, o.dst.Length) && OutOk(j, o) && t.Valid(j.Own()) && NextBound(j, t) && j.s0 <= o.anchor <= ip
    && t.nextToUpdate - j.w.lo <= ip && NextBound(j, t)
  }

  /** One turn of the main loop: no match, an immediate one, or a priced path. */
  method OptStep(j: Job, t: HcTable, o: Output, opt: array<Opt>, ip: int, sufficient: int, fullUpdate: bool,
      favorDecSpeed: bool)
    returns (ph: Phase)
    requires StepState(j, t, o, ip) && ip <= j.Mflimit() && sufficient < OPT_NUM
    requires opt.Length == OPT_NUM + TRAILING_LITERALS
    modifies t, t.hashTable, t.chainTable, opt, o, o.dst
    ensures ph.Outer? || ph.Overflow?
    ensures ph.Outer? ==> ip < ph.ip && StepState(j, t, o, ph.ip)
    ensures ph.Overflow? ==>
      RoomyJob(j, o.dst.Length) && OutOk(j, o) && t.Valid(j.Own()) && NextBound(j, t) && j.s0 <= o.anchor
    ensures ph.Overflow? ==>
      j.limit != NotLimited && TooSmall(j) && Is(j.x, ph.m) && o.anchor <= ph.m.start <= j.Mflimit()
  {
    hide Is, Searchable, OutOk, HopsOk, Arrives, CompressBound, ChoiceOk;
    var llen := ip - o.anchor;
    var len, off := FindLongerMatch(j, t, ip, MINMATCH - 1, favorDecSpeed, o.dst.Length);
    if len == 0 { return Outer(ip + 1); }
    var m := M(ip, ip - off, len);
    IsEnds(j.x, m);
    if len > sufficient {
      var overflow := Encode(j, o, m);
      return if overflow then Overflow(m) else Outer(ip + len);
    }
    var c := ChoosePath(j, t, opt, ip, len, off, llen, sufficient, fullUpdate, favorDecSpeed, o.dst.Length);
    ghost var opt0 := opt[..];
    ChoiceParts(j.x, ip, opt0, c);
    Reverse(opt, c.cur, c.mlen, c.off, c.last);
    PathIsForward(j.x, ip, opt0, opt[..], c);
    ph := EncodePath(j, o, opt, ip, c.last);
  }

  lemma ChoiceParts(x: seq<byte>, ip: int, opt: seq<Opt>, c: Choice)
    requires ChoiceOk(x, ip, opt, c)
    ensures 0 <= c.cur < c.last && 1 <= c.mlen && c.last <= c.cur + c.mlen && c.cur < |opt| && opt[0].mlen == 1
    ensures forall p :: 0 < p <= c.cur ==> 1 <= opt[p].mlen <= p
  {
    hide Filled, HopOk;
    ReadyToReverse(x, ip, opt, c.cur);
  }

  method OptParse(j: Job, t: HcTable, o: Output, opt: array<Opt>, sufficient: int, fullUpdate: bool,
      favorDecSpeed: bool)
    returns (ph: Phase)
    requires StepState(j, t, o, j.s0) && sufficient < OPT_NUM && opt.Length == OPT_NUM + TRAILING_LITERALS
    modifies t, t.hashTable, t.chainTable, opt, o, o.dst
    ensures ph.LastLiterals? || ph.Overflow?
    ensures j.Mflimit() < j.s0 ==> t.nextToUpdate == old(t.nextToUpdate)
    ensures RoomyJob(j, o.dst.Length) && OutOk(j, o) && t.Valid(j.Own()) && NextBound(j, t) && j.s0 <= o.anchor
    ensures ph.Overflow? ==>
      j.limit != NotLimited && TooSmall(j) && Is(j.x, ph.m) && o.anchor <= ph.m.start <= j.Mflimit()
  {
    hide Is, OutOk, JobOk;
    var ip := j.s0;
    while ip <= j.Mflimit()
      invariant StepState(j, t, o, ip) && (j.Mflimit() < j.s0 ==> ip == j.s0 && t.nextToUpdate == old(t.nextToUpdate))
      decreases j.Mflimit() + |j.x| - ip
    {
      ph := OptStep(j, t, o, opt, ip, sufficient, fullUpdate, favorDecSpeed);
      if ph.Overflow? { return; }
      ip := ph.ip;
    }
    ph := LastLiterals;
  }

  /** LZ4HC_compress_optimal. */
  method CompressOptimal(t: HcTable, w: Window, att: Option<Attached>, mem: seq<byte>, x: seq<byte>, s0: int,
      dst: array<byte>, dstCapacity: int, nbSearches: int, targetLength: int, limit: Limit, fullUpdate: bool,
      favorDecSpeed: bool)
    returns (result: int, consumed: int, o: Output)
    requires Searchable(w, att, mem, x) && w.end < 0x1_0000_0000 && t.Valid(OwnWindow(w, att))
      && Room(w, att, |mem|)
      && t.nextToUpdate <= s0 + w.lo
    requires w.dl - w.lo <= s0 <= |x| && |x| - s0 <= MAX_INPUT_SIZE
    requires if limit == NotLimited then CompressBound(|x| - s0) <= dst.Length else 0 <= dstCapacity <= dst.Length
    requires limit == FillOutput ==> 1 <= dstCapacity
    modifies t, t.hashTable, t.chainTable, dst
    ensures fresh(o) && o.dst == dst && t.Valid(OwnWindow(w, att))
    ensures t.nextToUpdate <= Max(s0 + w.lo, w.end - LASTLITERALS - MINMATCH)
    ensures |x| - s0 < MFLIMIT ==> t.nextToUpdate == old(t.nextToUpdate)
    ensures Compressed(o, x, s0, limit, dstCapacity, result, consumed)
  {
    hide Parsed, CompressBound, EncodeAll, AllEncodable, Holds, IsBlock, Searchable, Genuine, Room;
    SearchableBounds(w, att, mem, x);
    var oend := if limit == FillOutput then dstCapacity - LASTLITERALS else dstCapacity;
    var j := Job(w, att, mem, x, s0, nbSearches, limit, oend);
    o := new Output(dst, x, s0);
    var opt := new Opt[OPT_NUM + TRAILING_LITERALS](_ => Opt(0, 0, 0, 0));
    var sufficient := if targetLength >= OPT_NUM then OPT_NUM - 1 else targetLength;
    var ph := OptParse(j, t, o, opt, sufficient, fullUpdate, favorDecSpeed);
    InRangeOut(j, o);
    if ph.Overflow? {
      if limit != FillOutput { return 0, 0, o; }
      DestOverflow(j, o, ph.m, dstCapacity);
    } else if limit == FillOutput {
      NoOverflowRoom(j, o, dstCapacity);
    }
    result, consumed := Last(o, x, s0, limit, dstCapacity);
  }

  lemma InRangeOut(j: Job, o: Output)
    requires OutOk(j, o)
    ensures o.anchor <= |j.x|
  {
  }
}
