/** A block of the memory storage allocator: a header and a data area that the segments
    tile. The 32-bit word at address a of the data area is mem[a - data]. */
module SegBlks {
  import opened Descriptors
  import opened SegMaps
  import opened FreeLists
  import opened BlockWords
  import opened SweepBounds

  lemma ReleasedBounded(m: SegMap, prev: nat, next: nat, a: nat, max: nat, max': nat)
    requires a in m && m[a].alloc && m[a].len > 0
    requires JoinsNext(m, a, next) ==> next in m && next != a
    requires JoinsPrev(m, a, prev) ==> prev != a && prev != next
    requires JoinsPrev(Forward(m, a, next), a, prev) ==> a in Forward(m, a, next)
    requires forall p | p in FreeSet(m) :: m[p].len <= max
    requires max' >= max
    requires max' >= FreedLen(m, a, next) + if JoinsPrev(m, a, prev) then m[prev].len else 0
    ensures forall p | p in FreeSet(Released(m, a, prev, next)) :: Released(m, a, prev, next)[p].len <= max'
  {
    ReleasedAt(m, a, prev, next);
    forall p | p in FreeSet(Released(m, a, prev, next)) ensures Released(m, a, prev, next)[p].len <= max' {
      assert p in FreeSet(m) || p == a || p == prev;
    }
  }

  /** max is the length of the longest free segment of m, 0 if there is none. */
  ghost predicate IsLongest(m: SegMap, max: nat) {
    && (forall a | a in FreeSet(m) :: m[a].len <= max)
    && (max == 0 || exists a :: a in FreeSet(m) && m[a].len == max)
  }

  /** What the bound max becomes when n bytes are taken off the free segment at a of m: it is set anew
      only where that was the only one. */
  ghost function TakenMax(m: SegMap, a: nat, n: nat, max: nat): int
    requires a in m
  {
    if FreeSet(m) == {a} then m[a].len - n else max
  }

  /** What the bound max becomes when the segment at a is freed, with m the segments after it: it grows to
      the free segment that a is in now, if that is longer. */
  ghost predicate FreedMax(m: SegMap, a: nat, max: nat, max': nat) {
    exists d: nat :: IsFree(m, d) && d <= a < d + m[d].len && max' == Larger(max, m[d].len)
  }

  class SegBlk {
    const data: nat            // address of the data area, _data
    const len: nat             // _len, block length in bytes with the header
    const mem: array<nat>      // the words of the data area
    var maxFreeSegLen: nat     // _maxFreeSegLen
    var nAllocSeg: nat         // _nAllocSeg
    var nFreeSeg: nat          // _nFreeSeg
    var prev: SegBlk?          // _prev
    var next: SegBlk?          // _next
    var hdFreeSeg: nat         // _hdFreeSeg
    ghost var segs: SegMap     // the segments, by address

    /** The address just behind the block. */
    function End(): nat {
      data + mem.Length
    }

    /** Layout, tiling, coalescing, descriptors, free list and free count; the descriptor
        at skip is not looked at (NULL is no segment, so Shape(NULL) covers all). */
    ghost predicate Shape(skip: nat)
      reads `segs, `hdFreeSeg, `nFreeSeg, mem
    {
      && HDR < data && len == HDR + mem.Length && mem.Length % QUANT == 0
      && WellFormed(segs, data, End(), skip, hdFreeSeg, mem[..])
      && nFreeSeg == |FreeSet(segs)|
    }

    ghost predicate Valid()
      reads `segs, `hdFreeSeg, `nFreeSeg, `nAllocSeg, mem
    {
      Shape(NULL) && |Live(segs)| <= nAllocSeg
    }

    /** The cached bound covers every free segment. */
    ghost predicate Bounded()
      reads `segs, `maxFreeSegLen
    {
      forall a | a in FreeSet(segs) :: segs[a].len <= maxFreeSegLen
    }

    /** The count of allocated segments is exact. */
    ghost predicate Exact()
      reads `segs, `nAllocSeg
    {
      nAllocSeg == |Live(segs)|
    }

    /** The block set up by MSA::addBlk in len bytes whose data area is at address data: all
        of it one free segment. */
    constructor (data: nat, len: nat)
      requires HDR < data && HDR + QUANT <= len && (len - HDR) % QUANT == 0
      ensures Valid() && Bounded() && Exact()
      ensures this.data == data && this.len == len && prev == null && next == null && fresh(mem)
      ensures segs == map[data := FreeSeg(len - HDR)] && nAllocSeg == 0 && maxFreeSegLen == len - HDR
    {
      this.data := data;
      this.len := len;
      mem := new nat[len - HDR];
      prev, next := null, null;
      hdFreeSeg := data;
      maxFreeSegLen := len - HDR;
      nAllocSeg, nFreeSeg := 0, 1;
      segs := map[data := FreeSeg(len - HDR)];
      new;
      mem[0] := len - HDR;
      mem[DESCR] := NULL;
      WholeWellFormed(data, len - HDR, mem[..]);
    }

    /** What is stored at a free segment. */
    lemma FreeAt(a: nat)
      requires Shape(NULL) && a in FreeSet(segs)
      ensures data <= a && a + QUANT <= a + segs[a].len <= End() && SegOk(segs[a])
      ensures mem[a - data] == segs[a].len
      ensures HasLink(mem[..], data, a) && Link(mem[..], data, a) == mem[a + DESCR - data]
      ensures IsNext(FreeSet(segs), a + 1, mem[a + DESCR - data])
    {
      assert Inside(segs, data, End(), a) && Says(segs, data, a, mem[..]);
      assert LinkOk(FreeSet(segs), data, mem[..], a);
    }

    lemma FreeAbove(skip: nat)
      requires Shape(skip)
      ensures forall a | a in FreeSet(segs) :: data <= a
    {
      forall a | a in FreeSet(segs) ensures data <= a {
        assert Inside(segs, data, End(), a);
      }
    }

    /** The links in the words, followed from the head: exactly the free segments, in ascending
        order of address, and as many as are counted. */
    lemma FreeList()
      requires Shape(NULL)
      ensures Ascending(Chain(data, mem[..], hdFreeSeg))
      ensures forall a :: a in Chain(data, mem[..], hdFreeSeg) <==> a in FreeSet(segs)
      ensures |Chain(data, mem[..], hdFreeSeg)| == nFreeSeg
    {
      ChainIsList(FreeSet(segs), data, mem[..], data, hdFreeSeg);
      FreeAbove(NULL);
      AscendingCount(Chain(data, mem[..], hdFreeSeg), FreeSet(segs));
    }

    /** SegBlk::fstFit: the first free segment that is long enough, split if it is longer. For the
        length 0 the first one of all is found and stays as it is. */
    method FstFit(reqLen: nat) returns (seg: nat)
      requires Valid() && hdFreeSeg != NULL && reqLen % QUANT == 0
      modifies `maxFreeSegLen, `nAllocSeg, `nFreeSeg, `hdFreeSeg, `segs, mem
      ensures Valid()
      ensures seg == NULL ==>
                && segs == old(segs) && mem[..] == old(mem[..])
                && nAllocSeg == old(nAllocSeg) && hdFreeSeg == old(hdFreeSeg)
                && (forall a | a in FreeSet(segs) :: segs[a].len < reqLen)
                && Bounded() && IsLongest(segs, maxFreeSegLen)
      ensures seg != NULL ==>
                && IsFree(old(segs), seg) && reqLen <= old(segs)[seg].len
                && (forall a | a in FreeSet(old(segs)) :: a < seg ==> old(segs)[a].len < reqLen)
                && (reqLen > 0 ==> Live(segs) == Live(old(segs))[seg := Seg(reqLen, true, false, false)])
                && nAllocSeg == old(nAllocSeg) + 1
                && (old(Bounded()) ==> Bounded())
                && maxFreeSegLen == TakenMax(old(segs), seg, reqLen, old(maxFreeSegLen))
      ensures reqLen == 0 ==> seg == old(hdFreeSeg) && seg != NULL && NothingTaken()
      ensures SameData(old(segs), data, old(mem[..]), mem[..])
    {
      hide SameData, Tiled, NoFreeAfter, LinkOk, Live;
      var max: nat, prev: nat, curr: nat := 0, NULL, hdFreeSeg;
      var len: nat;
      FreeAbove(NULL);
      while true
        invariant curr in FreeSet(segs)
        invariant IsPrev(FreeSet(segs), data, hdFreeSeg, mem[..], prev, curr)
        invariant forall a | a in FreeSet(segs) :: a < curr ==> segs[a].len <= max && segs[a].len < reqLen
        invariant max == 0 || exists a :: a in FreeSet(segs) && segs[a].len == max
        decreases End() - curr
        modifies {}
      {
        FreeAt(curr);
        len := mem[curr - data];
        if len >= reqLen {
          break;
        }
        if len > max {
          max := len;
        }
        prev := curr;
        curr := mem[curr + DESCR - data];
        if curr == NULL {
          break;
        }
      }
      assert mem[..] == old(mem[..]);
      if curr == NULL {
        maxFreeSegLen := max;
        SameDataSame(segs, data, mem[..]);
        return NULL;
      }
      seg := curr;
      Take(prev, curr, len, reqLen);
    }

    /** SegBlk::check: no free segment is shorter than a quantum. A valid block passes. */
    method Check() returns (res: int)
      requires Valid()
      ensures res == 0
    {
      var curr: nat := hdFreeSeg;
      if curr == NULL {
        return 0;
      }
      while true
        invariant curr in FreeSet(segs)
        decreases End() - curr
      {
        FreeAt(curr);
        if mem[curr - data] < QUANT {
          return -1;
        }
        curr := mem[curr + DESCR - data];
        if curr == NULL {
          break;
        }
      }
      res := 0;
    }

    /** Since the old state no segment, word or link has changed. */
    twostate predicate NothingTaken()
      reads `segs, `hdFreeSeg, `nFreeSeg, mem
    {
      segs == old(segs) && mem[..] == old(mem[..]) && hdFreeSeg == old(hdFreeSeg) && nFreeSeg == old(nFreeSeg)
    }

    /** The second half of fstFit: the segment found is allocated, after a split when it is
        longer than the request, and its successor in the free list takes its place. */
    method Take(prev: nat, curr: nat, len: nat, reqLen: nat)
      requires Valid()
      requires IsFree(segs, curr) && segs[curr].len == len && reqLen <= len && reqLen % QUANT == 0
      requires IsPrev(FreeSet(segs), data, hdFreeSeg, mem[..], prev, curr)
      modifies `maxFreeSegLen, `nAllocSeg, `nFreeSeg, `hdFreeSeg, `segs, mem
      ensures Valid()
      ensures reqLen > 0 ==> segs == Carve(old(segs), curr, reqLen)
      ensures reqLen > 0 ==> Live(segs) == Live(old(segs))[curr := Seg(reqLen, true, false, false)]
      ensures reqLen == 0 ==> NothingTaken()
      ensures nAllocSeg == old(nAllocSeg) + 1
      ensures old(Bounded()) ==> Bounded()
      ensures maxFreeSegLen == TakenMax(old(segs), curr, reqLen, old(maxFreeSegLen))
      ensures SameData(old(segs), data, old(mem[..]), mem[..])
    {
      hide Linked, Live, Taken, Coalesced, Encoded, LinkOk, Carve, SegOk, Apart, Link, Closed;
      ghost var m, w, hd, max := segs, mem[..], hdFreeSeg, maxFreeSegLen;
      FreeAt(curr);
      if prev != NULL { FreeAt(prev); CellsApart(m, data, End(), prev, curr); }
      if reqLen < len { Quanta(reqLen, len); }
      assert curr in FreeSet(m);
      if |FreeSet(m)| == 1 { Singleton(FreeSet(m), curr); }
      TakeWrites(prev, curr, len, reqLen);
      nAllocSeg := nAllocSeg + 1;
      if reqLen > 0 {
        segs := Carve(segs, curr, reqLen);
        TakenWellFormed(m, data, End(), hd, w, hdFreeSeg, mem[..], prev, curr, reqLen);
        CarveTiles(m, data, End(), curr, reqLen);
        if old(Bounded()) {
          TakenBounded(m, curr, reqLen, nFreeSeg, max, maxFreeSegLen);
        }
      } else {
        SameDataSame(m, data, w);
      }
    }

    method TakeWrites(prev: nat, curr: nat, len: nat, reqLen: nat)
      requires |mem[..]| == mem.Length
      requires IsFree(segs, curr) && segs[curr].len == len && reqLen <= len && reqLen % QUANT == 0 && len > 0
      requires HasLink(mem[..], data, curr) && mem[curr - data] == len
      requires reqLen < len ==> HasLink(mem[..], data, curr + reqLen)
      requires if prev == NULL then hdFreeSeg == curr else Link(mem[..], data, prev) == curr
      requires prev != NULL ==> HasLink(mem[..], data, prev) && prev + QUANT <= curr
      requires nFreeSeg > 0
      modifies `maxFreeSegLen, `nFreeSeg, `hdFreeSeg, mem
      ensures reqLen > 0 ==> Taken(segs, data, old(hdFreeSeg), old(mem[..]), hdFreeSeg, mem[..], prev, curr, reqLen)
      ensures reqLen == 0 ==> hdFreeSeg == old(hdFreeSeg) && mem[..] == old(mem[..])
      ensures nFreeSeg == if reqLen == len then old(nFreeSeg) - 1 else old(nFreeSeg)
      ensures maxFreeSegLen == if reqLen == len then (if nFreeSeg == 0 then 0 else old(maxFreeSegLen))
                               else if nFreeSeg == 1 then len - reqLen else old(maxFreeSegLen)
    {
      hide Taken;
      ghost var w, hd := mem[..], hdFreeSeg;
      var next := SplitWrites(curr, len, reqLen);
      if prev != NULL {
        Put(prev + DESCR, next);
      } else {
        hdFreeSeg := next;
      }
      if reqLen > 0 {
        TakenWords(segs, data, hd, w, hdFreeSeg, mem[..], prev, curr, reqLen);
      } else {
        UntakenWords(data, hd, w, hdFreeSeg, mem[..], prev, curr, len, Word(Seg(0, true, false, false)));
      }
    }

    /** The descriptor of the new segment and what remains of the free one are written; next is what
        follows in the free list. */
    method SplitWrites(curr: nat, len: nat, reqLen: nat) returns (next: nat)
      requires HasLink(mem[..], data, curr) && mem[curr - data] == len
      requires reqLen <= len && reqLen % QUANT == 0 && len > 0 && nFreeSeg > 0
      requires reqLen < len ==> HasLink(mem[..], data, curr + reqLen)
      modifies `maxFreeSegLen, `nFreeSeg, mem
      ensures next == if reqLen < len then curr + reqLen else old(mem[curr + DESCR - data])
      ensures mem[..] == var w := old(mem[..]);
                         var w1 := w[curr - data := Word(Seg(reqLen, true, false, false))];
                         if reqLen < len
                         then w1[curr + reqLen - data := len - reqLen]
                                [curr + reqLen + DESCR - data := w[curr + DESCR - data]]
                         else w1
      ensures nFreeSeg == if reqLen == len then old(nFreeSeg) - 1 else old(nFreeSeg)
      ensures maxFreeSegLen == if reqLen == len then (if nFreeSeg == 0 then 0 else old(maxFreeSegLen))
                               else if nFreeSeg == 1 then len - reqLen else old(maxFreeSegLen)
    {
      FlagsOf(FreeSeg(reqLen));
      if reqLen == len {
        Put(curr, SetFlag(mem[curr - data], ALLOC_FLAG));
        next := mem[curr + DESCR - data];
        nFreeSeg := nFreeSeg - 1;
        if nFreeSeg == 0 {
          maxFreeSegLen := 0;
        }
      } else {
        Put(curr, SetFlag(reqLen, ALLOC_FLAG));
        next := curr + reqLen;
        Put(next, len - reqLen);
        Put(next + DESCR, mem[curr + DESCR - data]);
        if nFreeSeg == 1 {
          maxFreeSegLen := mem[next - data];
        }
      }
    }

    /** The last part of MSA::free: the segment at a, whose alloc flag is cleared, goes back
        into the free list and is joined with its free neighbours, into the one at d. */
    method Insert(a: nat) returns (ghost d: nat)
      requires Shape(a)
      requires a in segs && segs[a].alloc && data <= a < End() && mem[a - data] == segs[a].len
      modifies `maxFreeSegLen, `nFreeSeg, `hdFreeSeg, `segs, mem
      ensures Shape(NULL)
      ensures Live(segs) == Live(old(segs)) - {a}
      ensures IsFree(segs, d) && d <= a < d + segs[d].len && maxFreeSegLen == Larger(old(maxFreeSegLen), segs[d].len)
      ensures old(Bounded()) ==> Bounded()
      ensures SameData(old(segs) - {a}, data, old(mem[..]), mem[..])
    {
      var prev: nat, cur: nat := FindPlace(a);
      ghost var m, w, hd, max := segs, mem[..], hdFreeSeg, maxFreeSegLen;
      PlaceFacts(a, prev, cur);
      InsertWrites(a, prev, cur);
      FreedSummary(m, data, End(), hd, w, hdFreeSeg, mem[..], prev, cur, a);
      segs := Released(segs, a, prev, cur);
      d := Into(m, a, prev);
      if old(Bounded()) {
        ReleasedBounded(m, prev, cur, a, max, maxFreeSegLen);
      }
    }

    /** The descriptor at a holds the plain length, and there is room for a link. */
    ghost predicate Stored(a: nat)
      reads `segs, mem
    {
      a in segs && HasLink(mem[..], data, a) && mem[a - data] == segs[a].len
    }

    lemma PlaceFacts(a: nat, prev: nat, cur: nat)
      requires Shape(a) && a in segs && segs[a].alloc
      requires Between(FreeSet(segs), a, prev, cur)
      ensures HasLink(mem[..], data, a) && SegOk(segs[a])
      ensures prev != NULL ==> IsFree(segs, prev) && Stored(prev) && prev + QUANT <= a
      ensures cur != NULL ==> IsFree(segs, cur) && Stored(cur) && a + QUANT <= cur
    {
      assert Inside(segs, data, End(), a);
      assert prev in segs ==> Inside(segs, data, End(), prev);
      assert cur in segs ==> Inside(segs, data, End(), cur);
      if prev != NULL {
        assert prev in FreeSet(segs) && LinkOk(FreeSet(segs), data, mem[..], prev);
        assert Says(segs, data, prev, mem[..]);
        CellsApart(segs, data, End(), prev, a);
      }
      if cur != NULL {
        assert cur in FreeSet(segs) && LinkOk(FreeSet(segs), data, mem[..], cur);
        assert Says(segs, data, cur, mem[..]);
        CellsApart(segs, data, End(), a, cur);
      }
    }

    method InsertWrites(a: nat, prev: nat, cur: nat)
      requires Stored(a) && segs[a].len > 0 && 0 < data
      requires prev != NULL ==> Stored(prev) && prev + QUANT <= a
      requires cur != NULL ==> Stored(cur) && a + QUANT <= cur
      requires JoinsNext(segs, a, cur) && JoinsPrev(segs, a, prev) ==> nFreeSeg > 0
      modifies `maxFreeSegLen, `nFreeSeg, `hdFreeSeg, mem
      ensures Freed(segs, data, old(hdFreeSeg), old(mem[..]), hdFreeSeg, mem[..], prev, cur, a)
      ensures nFreeSeg == old(nFreeSeg) - (if JoinsNext(segs, a, cur) then 1 else 0)
                          + (if JoinsPrev(segs, a, prev) then 0 else 1)
      ensures maxFreeSegLen == Larger(old(maxFreeSegLen),
                                      FreedLen(segs, a, cur) + if JoinsPrev(segs, a, prev) then segs[prev].len else 0)
    {
      ghost var w, hd := mem[..], hdFreeSeg;
      JoinForward(a, cur);
      ghost var w1 := mem[..];
      JoinBackward(a, prev);
      FreedWords(segs, data, hd, w, w1, hdFreeSeg, mem[..], prev, cur, a);
    }

    method JoinForward(a: nat, cur: nat)
      requires Stored(a) && segs[a].len > 0
      requires cur != NULL ==> Stored(cur)
      requires JoinsNext(segs, a, cur) ==> cur != NULL
      modifies `nFreeSeg, mem
      ensures mem[..] == Forwarded(segs, data, old(mem[..]), cur, a)
      ensures nFreeSeg == old(nFreeSeg) + if JoinsNext(segs, a, cur) then 0 else 1
    {
      if a + mem[a - data] == cur {
        Put(a, mem[a - data] + mem[cur - data]);
        Put(a + DESCR, mem[cur + DESCR - data]);
      } else {
        Put(a + DESCR, cur);
        nFreeSeg := nFreeSeg + 1;
      }
    }

    method JoinBackward(a: nat, prev: nat)
      requires HasLink(mem[..], data, a)
      requires prev != NULL ==> Stored(prev) && prev + QUANT <= a
      requires JoinsPrev(segs, a, prev) ==> nFreeSeg > 0
      modifies `maxFreeSegLen, `nFreeSeg, `hdFreeSeg, mem
      ensures mem[..] == var w := old(mem[..]);
                         if JoinsPrev(segs, a, prev)
                         then w[prev - data := segs[prev].len + w[a - data]][prev + DESCR - data := w[a + DESCR - data]]
                         else if prev != NULL then w[prev + DESCR - data := a] else w
      ensures hdFreeSeg == if prev == NULL then a else old(hdFreeSeg)
      ensures nFreeSeg == old(nFreeSeg) - if JoinsPrev(segs, a, prev) then 1 else 0
      ensures maxFreeSegLen == Larger(old(maxFreeSegLen),
                                      old(mem[a - data]) + if JoinsPrev(segs, a, prev) then segs[prev].len else 0)
    {
      if prev != NULL && prev + mem[prev - data] == a {
        Put(prev, mem[prev - data] + mem[a - data]);
        if mem[prev - data] > maxFreeSegLen {
          maxFreeSegLen := mem[prev - data];
        }
        Put(prev + DESCR, mem[a + DESCR - data]);
        nFreeSeg := nFreeSeg - 1;
      } else {
        if prev != NULL {
          Put(prev + DESCR, a);
        } else {
          hdFreeSeg := a;
        }
        if mem[a - data] > maxFreeSegLen {
          maxFreeSegLen := mem[a - data];
        }
      }
    }

    /** The free neighbours of address a. */
    method FindPlace(a: nat) returns (prev: nat, cur: nat)
      requires Shape(a) && a in segs && segs[a].alloc
      ensures Between(FreeSet(segs), a, prev, cur)
    {
      prev, cur := NULL, hdFreeSeg;
      while cur != NULL && cur < a
        invariant cur != NULL ==> cur in FreeSet(segs)
        invariant if prev == NULL then hdFreeSeg == cur
                  else prev in FreeSet(segs) && prev < a && Link(mem[..], data, prev) == cur
        decreases if cur == NULL then 0 else End() - cur
        modifies {}
      {
        prev := cur;
        assert LinkOk(FreeSet(segs), data, mem[..], cur);
        cur := mem[cur + DESCR - data];
      }
      FreeAbove(a);
      assert prev != NULL ==> LinkOk(FreeSet(segs), data, mem[..], prev);
    }

    // ---- Flags ----

    lemma DescriptorAt(d: nat)
      requires Shape(NULL) && d in segs
      ensures data <= d < End() && SegOk(segs[d]) && mem[d - data] == Word(segs[d])
      ensures Has(mem[d - data], GC_FLAG) == segs[d].gc
      ensures Has(mem[d - data], MARK_FLAG) == segs[d].mark
      ensures Has(mem[d - data], ALLOC_FLAG) == segs[d].alloc
      ensures !segs[d].gc ==> ClearFlag(mem[d - data], ALLOC_FLAG) == segs[d].len
    {
      assert Inside(segs, data, End(), d) && Says(segs, data, d, mem[..]);
      FlagsOf(segs[d]);
    }

    /** The descriptor of an allocated segment is overwritten with other flags. */
    method PutDescriptor(d: nat, v: nat, ghost t: Seg)
      requires Shape(NULL) && d in segs && Retag(segs[d], t) && v == Word(t)
      requires data <= d < End()
      modifies `segs, mem
      ensures Shape(NULL)
      ensures segs == old(segs)[d := t]
      ensures Live(segs) == Live(old(segs))[d := t]
      ensures FreeSet(segs) == FreeSet(old(segs))
      ensures forall p | p in FreeSet(segs) :: Link(mem[..], data, p) == Link(old(mem[..]), data, p)
      ensures SameData(old(segs), data, old(mem[..]), mem[..])
    {
      ghost var m, w := segs, mem[..];
      RetagWellFormed(m, data, End(), hdFreeSeg, w, d, t);
      Put(d, v);
      segs := segs[d := t];
      forall p | p in FreeSet(segs) ensures Link(mem[..], data, p) == Link(w, data, p) {
        CellsApart(m, data, End(), p, d);
      }
    }

    /** The alloc flag of a segment that is about to be freed is cleared. */
    method ClearAlloc(a: nat)
      requires Shape(NULL) && a in segs && segs[a].alloc && !segs[a].gc
      requires data <= a < End()
      modifies mem
      ensures Shape(a) && mem[a - data] == segs[a].len
      ensures SameData(segs, data, old(mem[..]), mem[..])
    {
      DescriptorAt(a);
      ghost var w := mem[..];
      Put(a, ClearFlag(mem[a - data], ALLOC_FLAG));
      OpenedDescriptor(segs, data, End(), hdFreeSeg, w, a, mem[..]);
    }

    // ---- Sweeping ----

    /** Where the sweep stands in the free list: next follows prev, which lies below d. */
    ghost predicate Cursor(prev: nat, next: nat, d: nat)
      reads `segs, `hdFreeSeg, mem
    {
      if prev == NULL then next == hdFreeSeg
      else prev in FreeSet(segs) && prev < d && Link(mem[..], data, prev) == next
    }

    /** The sweep moves on in the free list up to the neighbours of d, and looks at the lengths
        of the free segments that it passes. */
    method Advance(d: nat, prev0: nat, next0: nat, max0: nat) returns (prev: nat, next: nat, max: nat)
      requires Shape(d) && d in segs && segs[d].alloc
      requires Cursor(prev0, next0, d)
      ensures Between(FreeSet(segs), d, prev, next)
      ensures prev == NULL ==> next == hdFreeSeg
      ensures Passed(segs, prev0, d, max0, max)
    {
      prev, next, max := prev0, next0, max0;
      CursorNext(d, prev, next);
      while next != NULL && next < d
        invariant next != NULL ==> next in FreeSet(segs)
        invariant Cursor(prev, next, d) && prev0 <= prev
        invariant Passed(segs, prev0, prev + 1, max0, max)
        decreases if next == NULL then 0 else End() - next
        modifies {}
      {
        FreeStored(next, d);
        CursorNext(d, prev, next);
        PassNext(segs, prev0, prev, next, max0, max);
        if mem[next - data] > max {
          max := mem[next - data];
        }
        prev := next;
        next := mem[next + DESCR - data];
        CursorNext(d, prev, next);
      }
      FreeAbove(d);
      assert prev != NULL ==> LinkOk(FreeSet(segs), data, mem[..], prev);
      assert Inside(segs, data, End(), d);
      PassEnd(segs, prev0, prev, d, max0, max);
    }

    lemma CursorNext(d: nat, prev: nat, next: nat)
      requires Shape(d) && Cursor(prev, next, d)
      ensures next != NULL ==> next in FreeSet(segs) && prev < next
      ensures forall p | p in FreeSet(segs) :: p <= prev || (next != NULL && next <= p)
    {
      FreeAbove(d);
      if prev != NULL {
        assert LinkOk(FreeSet(segs), data, mem[..], prev);
      }
    }

    lemma FreeStored(a: nat, skip: nat)
      requires Shape(skip) && a in FreeSet(segs) && a != skip
      ensures Stored(a) && data <= a && a + QUANT <= End()
      ensures IsNext(FreeSet(segs), a + 1, Link(mem[..], data, a))
    {
      assert Inside(segs, data, End(), a) && LinkOk(FreeSet(segs), data, mem[..], a);
      assert Says(segs, data, a, mem[..]);
    }

    /** The release of an unmarked segment during a sweep. */
    method ReleaseAt(d0: nat, len0: nat, prev0: nat, next0: nat, max0: nat, ghost m: SegMap)
      returns (d: nat, len: nat, prev: nat, next: nat, max: nat)
      requires Shape(d0)
      requires d0 in segs && segs[d0].alloc && data <= d0 < End() && mem[d0 - data] == segs[d0].len == len0
      requires Cursor(prev0, next0, d0) && nAllocSeg > 0
      requires OnTrack(m, segs, prev0, max0) && d0 in Live(m)
      modifies `nAllocSeg, `nFreeSeg, `hdFreeSeg, `segs, mem
      ensures Shape(NULL)
      ensures Live(segs) == Live(old(segs)) - {d0}
      ensures IsFree(segs, d) && segs[d].len == len && d <= d0 && d0 + len0 <= d + len
      ensures prev == d && Link(mem[..], data, prev) == next
      ensures nAllocSeg == old(nAllocSeg) - if FreeSet(old(segs)) == {} then 1 else 0
      ensures prev != NULL && OnTrack(m, segs, prev, max)
      ensures SameData(old(segs) - {d0}, data, old(mem[..]), mem[..])
    {
      hide FreeSet, Encoded, OnTrack;
      ghost var m0 := segs;
      CursorNext(d0, prev0, next0);
      FreeAbove(d0);
      assert Inside(m0, data, End(), d0);
      if prev0 == NULL && next0 == NULL {
        nAllocSeg := nAllocSeg - 1;
        ReleaseFirst(d0);
        max := len0;
        d, len, prev, next := d0, len0, d0, NULL;
        TrackFirst(m, m0, segs, d0, max0);
      } else {
        prev, next, max := Advance(d0, prev0, next0, max0);
        ghost var max1, prev1, next1 := max, prev, next;
        d, len, prev, next, max := ReleaseBetween(d0, len0, prev, next, max);
        TrackRelease(m, m0, segs, prev0, d0, prev1, next1, max0, max1, max);
      }
    }

    /** The block has no free segment yet. */
    method ReleaseFirst(d: nat)
      requires Shape(d) && hdFreeSeg == NULL
      requires d in segs && segs[d].alloc && data <= d < End() && mem[d - data] == segs[d].len
      modifies `nFreeSeg, `hdFreeSeg, `segs, mem
      ensures Shape(NULL)
      ensures FreeSet(old(segs)) == {}
      ensures Live(segs) == Live(old(segs)) - {d}
      ensures segs == old(segs)[d := FreeSeg(old(segs)[d].len)] && FreeSet(segs) == {d}
      ensures Link(mem[..], data, d) == NULL
      ensures SameData(old(segs) - {d}, data, old(mem[..]), mem[..])
    {
      ghost var m, w, hd := segs, mem[..], hdFreeSeg;
      FreeAbove(d);
      assert FreeSet(segs) == {};
      PlaceFacts(d, NULL, NULL);
      nFreeSeg := nFreeSeg + 1;
      Put(d + DESCR, NULL);
      hdFreeSeg := d;
      FreedSummary(m, data, End(), hd, w, hdFreeSeg, mem[..], NULL, NULL, d);
      segs := Released(m, d, NULL, NULL);
    }

    /** The block has free segments; prev and next are the neighbours among them. */
    method ReleaseBetween(d0: nat, len0: nat, prev0: nat, next0: nat, max0: nat)
      returns (d: nat, len: nat, prev: nat, next: nat, max: nat)
      requires Shape(d0)
      requires d0 in segs && segs[d0].alloc && data <= d0 < End() && mem[d0 - data] == segs[d0].len == len0
      requires Between(FreeSet(segs), d0, prev0, next0)
      requires prev0 == NULL ==> next0 == hdFreeSeg
      modifies `nFreeSeg, `hdFreeSeg, `segs, mem
      ensures Shape(NULL)
      ensures Live(segs) == Live(old(segs)) - {d0}
      ensures IsFree(segs, d) && segs[d].len == len && d <= d0 && d0 + len0 <= d + len
      ensures prev == d && Link(mem[..], data, prev) == next
      ensures d == Into(old(segs), d0, prev0) && Merged(old(segs), segs, d0, prev0, next0)
      ensures JoinsPrev(old(segs), d0, prev0) ==> len > old(segs)[prev0].len
      ensures max == if JoinsPrev(old(segs), d0, prev0) && len > max0 then len else max0
      ensures SameData(old(segs) - {d0}, data, old(mem[..]), mem[..])
    {
      hide FreeSet;
      ghost var m, w, hd := segs, mem[..], hdFreeSeg;
      PlaceFacts(d0, prev0, next0);
      d, len, prev, next, max := ReleaseWrites(d0, len0, prev0, next0, max0);
      FreedSummary(m, data, End(), hd, w, hdFreeSeg, mem[..], prev0, next0, d0);
      segs := Released(m, d0, prev0, next0);
      ReleasedMerged(m, data, End(), d0, prev0, next0);
      assert d in FreeSet(segs);
    }

    method ReleaseWrites(d0: nat, len0: nat, prev0: nat, next0: nat, max0: nat)
      returns (d: nat, len: nat, prev: nat, next: nat, max: nat)
      requires Stored(d0) && segs[d0].len == len0 > 0 && 0 < data
      requires prev0 != NULL ==> Stored(prev0) && prev0 + QUANT <= d0
      requires next0 != NULL ==> Stored(next0) && d0 + QUANT <= next0
      requires JoinsNext(segs, d0, next0) && JoinsPrev(segs, d0, prev0) ==> nFreeSeg > 0
      requires prev0 == NULL ==> next0 == hdFreeSeg
      modifies `nFreeSeg, `hdFreeSeg, mem
      ensures Freed(segs, data, old(hdFreeSeg), old(mem[..]), hdFreeSeg, mem[..], prev0, next0, d0)
      ensures nFreeSeg == old(nFreeSeg) - (if JoinsNext(segs, d0, next0) then 1 else 0)
                          + (if JoinsPrev(segs, d0, prev0) then 0 else 1)
      ensures d == prev == if JoinsPrev(segs, d0, prev0) then prev0 else d0
      ensures len == FreedLen(segs, d0, next0) + if JoinsPrev(segs, d0, prev0) then segs[prev0].len else 0
      ensures next == old(FreedLink(segs, data, mem[..], d0, next0))
      ensures max == if JoinsPrev(segs, d0, prev0) && len > max0 then len else max0
    {
      ghost var w, hd := mem[..], hdFreeSeg;
      len, next := SweepForward(d0, len0, prev0, next0);
      ghost var w1 := mem[..];
      d, len, prev, max := SweepBackward(d0, len, prev0, max0);
      FreedWords(segs, data, hd, w, w1, hdFreeSeg, mem[..], prev0, next0, d0);
    }

    method SweepForward(d: nat, len0: nat, prev: nat, next0: nat) returns (len: nat, next: nat)
      requires Stored(d) && segs[d].len == len0 > 0
      requires prev != NULL ==> Stored(prev) && prev + QUANT <= d
      requires next0 != NULL ==> Stored(next0) && d + QUANT <= next0
      requires JoinsNext(segs, d, next0) ==> next0 != NULL
      modifies `nFreeSeg, `hdFreeSeg, mem
      ensures mem[..] == var w0 := Forwarded(segs, data, old(mem[..]), next0, d);
                         if JoinsNext(segs, d, next0) && prev != NULL then w0[prev + DESCR - data := d] else w0
      ensures prev != NULL ==> hdFreeSeg == old(hdFreeSeg)
      ensures nFreeSeg == old(nFreeSeg) + if JoinsNext(segs, d, next0) then 0 else 1
      ensures len == FreedLen(segs, d, next0)
      ensures next == old(FreedLink(segs, data, mem[..], d, next0))
    {
      len, next := len0, next0;
      if d + len == next {
        len := len + mem[next - data];
        Put(d, len);
        Put(d + DESCR, mem[next + DESCR - data]);
        if prev == NULL {
          hdFreeSeg := prev;
        } else {
          Put(prev + DESCR, d);
        }
        next := mem[d + DESCR - data];
      } else {
        Put(d + DESCR, next);
        nFreeSeg := nFreeSeg + 1;
      }
    }

    method SweepBackward(d0: nat, len0: nat, prev0: nat, max0: nat)
      returns (d: nat, len: nat, prev: nat, max: nat)
      requires HasLink(mem[..], data, d0)
      requires JoinsPrev(segs, d0, prev0) ==> len0 == mem[d0 - data]
      requires prev0 != NULL ==> Stored(prev0) && prev0 + QUANT <= d0
      requires JoinsPrev(segs, d0, prev0) ==> nFreeSeg > 0
      modifies `nFreeSeg, `hdFreeSeg, mem
      ensures mem[..] == var w := old(mem[..]);
                         if JoinsPrev(segs, d0, prev0)
                         then w[prev0 - data := segs[prev0].len + w[d0 - data]]
                               [prev0 + DESCR - data := w[d0 + DESCR - data]]
                         else if prev0 != NULL then w[prev0 + DESCR - data := d0] else w
      ensures hdFreeSeg == if prev0 == NULL then d0 else old(hdFreeSeg)
      ensures nFreeSeg == old(nFreeSeg) - if JoinsPrev(segs, d0, prev0) then 1 else 0
      ensures d == prev == if JoinsPrev(segs, d0, prev0) then prev0 else d0
      ensures len == len0 + if JoinsPrev(segs, d0, prev0) then segs[prev0].len else 0
      ensures max == if JoinsPrev(segs, d0, prev0) && len > max0 then len else max0
    {
      d, len, prev, max := d0, len0, prev0, max0;
      if prev != NULL && prev + mem[prev - data] == d {
        len := len + mem[prev - data];
        if len > max {
          max := len;
        }
        Put(prev, len);
        Put(prev + DESCR, mem[d + DESCR - data]);
        d := prev;
        nFreeSeg := nFreeSeg - 1;
      } else {
        if prev != NULL {
          Put(prev + DESCR, d);
        } else {
          hdFreeSeg := d;
        }
        prev := d;
      }
    }

    /** The sweep of a block has come up to address d: m, w and n are the segments, the words and
        _nAllocSeg it began with. */
    ghost predicate SweptUpTo(m: SegMap, w: seq<nat>, n: nat, d: nat, prev: nat, next: nat, max: nat,
                              freed: nat, released: nat, unmarked: nat)
      reads `segs, `hdFreeSeg, `nFreeSeg, `nAllocSeg, mem
    {
      && Shape(NULL)
      && Cursor(prev, next, d)
      && Tally(Live(m), segs, d, freed, released, unmarked)
      && |Live(m)| <= n && nAllocSeg == n - (if FreeSet(m) == {} && released > 0 then 1 else 0)
      && (released == 0 <==> prev == NULL)
      && OnTrack(m, segs, prev, max)
      && SameData(Live(segs), data, w, mem[..])
    }

    /** A marked segment is kept and loses its mark. */
    method ClearMark(d: nat)
      requires Shape(NULL) && d in segs && segs[d].mark
      modifies `segs, mem
      ensures Shape(NULL)
      ensures segs == old(segs)[d := old(segs)[d].(mark := false)]
      ensures FreeSet(segs) == FreeSet(old(segs))
      ensures forall p | p in FreeSet(segs) :: Link(mem[..], data, p) == Link(old(mem[..]), data, p)
      ensures SameData(old(segs), data, old(mem[..]), mem[..])
    {
      DescriptorAt(d);
      FlagsOf(segs[d]);
      PutDescriptor(d, ClearFlag(mem[d - data], MARK_FLAG), segs[d].(mark := false));
    }

    /** An unmarked collectable segment is released. */
    method Release(d0: nat, len0: nat, prev0: nat, next0: nat, max0: nat, ghost m: SegMap)
      returns (d: nat, len: nat, prev: nat, next: nat, max: nat)
      requires Shape(NULL) && Cursor(prev0, next0, d0)
      requires OnTrack(m, segs, prev0, max0) && d0 in Live(m)
      requires d0 in segs && segs[d0].alloc && len0 == segs[d0].len && nAllocSeg > 0
      modifies `nAllocSeg, `nFreeSeg, `hdFreeSeg, `segs, mem
      ensures Shape(NULL)
      ensures Live(segs) == Live(old(segs)) - {d0}
      ensures IsFree(segs, d) && segs[d].len == len && d <= d0 && d0 + len0 <= d + len
      ensures prev == d && Link(mem[..], data, prev) == next
      ensures nAllocSeg == old(nAllocSeg) - if FreeSet(old(segs)) == {} then 1 else 0
      ensures prev != NULL && OnTrack(m, segs, prev, max)
      ensures SameData(Live(segs), data, old(mem[..]), mem[..])
    {
      hide OnTrack;
      ghost var m0, w := segs, mem[..];
      assert Inside(segs, data, End(), d0);
      Put(d0, len0);
      OpenedDescriptor(m0, data, End(), hdFreeSeg, w, d0, mem[..]);
      ghost var w1 := mem[..];
      if prev0 != NULL {
        CellsApart(m0, data, End(), prev0, d0);
      }
      d, len, prev, next, max := ReleaseAt(d0, len0, prev0, next0, max0, m);
      SameDataStep(m0, m0 - {d0}, Live(segs), data, w, w1, mem[..]);
    }

    method StepMarked(d: nat, len0: nat, ghost m: SegMap, ghost w: seq<nat>, ghost n: nat,
                      prev: nat, next: nat, ghost max: nat, ghost freed: nat, ghost released: nat, unmarked0: nat)
      returns (len: nat, unmarked: nat, ghost e: nat)
      requires SweptUpTo(m, w, n, d, prev, next, max, freed, released, unmarked0)
      requires d in segs && segs[d].mark && len0 == Word(segs[d])
      modifies `segs, mem
      ensures SweptUpTo(m, w, n, e, prev, next, max, freed, released, unmarked)
      ensures d in segs && len == segs[d].len > 0 && e == d + len
    {
      hide OnTrack, Tally;
      ghost var m0, w0 := segs, mem[..];
      assert Inside(segs, data, End(), d);
      len := StripFlags(len0, segs[d]);
      ClearMark(d);
      unmarked := unmarked0 + 1;
      e := d + m0[d].len;
      TallyMark(Live(m), m0, d, freed, released, unmarked0);
      SameTrack(m, m0, segs, prev, max);
      SameDataStep(Live(m0), m0, Live(segs), data, w, w0, mem[..]);
    }

    method StepGarbage(d0: nat, len0: nat, prev0: nat, next0: nat, max0: nat, freed0: nat, released0: nat,
                       ghost m: SegMap, ghost w: seq<nat>, ghost n: nat, ghost unmarked: nat)
      returns (d: nat, len: nat, prev: nat, next: nat, max: nat, freed: nat, released: nat, ghost e: nat)
      requires SweptUpTo(m, w, n, d0, prev0, next0, max0, freed0, released0, unmarked)
      requires d0 in segs && Garbage(segs[d0]) && len0 == Word(segs[d0])
      modifies `nAllocSeg, `nFreeSeg, `hdFreeSeg, `segs, mem
      ensures SweptUpTo(m, w, n, e, prev, next, max, freed, released, unmarked)
      ensures d in segs && len == segs[d].len && d0 < e == d + len
    {
      hide OnTrack;
      ghost var m0, w0 := segs, mem[..];
      assert Inside(segs, data, End(), d0);
      len := StripFlags(len0, segs[d0]);
      freed := freed0 + len;
      released := released0 + 1;
      assert d0 in Live(m0) && |Live(m0)| > 0;
      assert SweptAt(Live(m), Live(m0), d0, d0);
      TrackFree(m, m0, prev0, max0);
      d, len, prev, next, max := Release(d0, len, prev0, next0, max0, m);
      assert Inside(segs, data, End(), d);
      e := d + segs[d].len;
      TallyRelease(Live(m), m0, segs, d0, d, freed0, released0, unmarked);
      SameDataStep(Live(m0), Live(segs), Live(segs), data, w, w0, mem[..]);
    }

    lemma StepKept(d: nat, e: nat, m: SegMap, w: seq<nat>, n: nat,
                   prev: nat, next: nat, max: nat, freed: nat, released: nat, unmarked: nat)
      requires SweptUpTo(m, w, n, d, prev, next, max, freed, released, unmarked)
      requires d in segs && !segs[d].gc && e == d + segs[d].len
      ensures segs[d].len > 0
      ensures SweptUpTo(m, w, n, e, prev, next, max, freed, released, unmarked)
    {
      assert Inside(segs, data, End(), d);
      TallyKeep(Live(m), segs, d, freed, released, unmarked);
    }

    /** One turn of the walk: the segment at d0 is dealt with, and the next one begins at
        d + len. */
    method SweepStep(d0: nat, prev0: nat, next0: nat, max0: nat, freed0: nat, released0: nat, unmarked0: nat,
                     ghost m: SegMap, ghost w: seq<nat>, ghost n: nat)
      returns (d: nat, len: nat, prev: nat, next: nat, max: nat, freed: nat, released: nat, unmarked: nat,
               ghost e: nat)
      requires SweptUpTo(m, w, n, d0, prev0, next0, max0, freed0, released0, unmarked0)
      requires d0 in segs
      modifies `nAllocSeg, `nFreeSeg, `hdFreeSeg, `segs, mem
      ensures SweptUpTo(m, w, n, e, prev, next, max, freed, released, unmarked)
      ensures d in segs && len == segs[d].len && d0 < e == d + len
    {
      DescriptorAt(d0);
      d, prev, next, max, freed, released, unmarked := d0, prev0, next0, max0, freed0, released0, unmarked0;
      len := mem[d - data];
      if Has(len, GC_FLAG) {
        if Has(len, MARK_FLAG) {
          len, unmarked, e := StepMarked(d, len, m, w, n, prev, next, max, freed, released, unmarked);
        } else {
          d, len, prev, next, max, freed, released, e :=
            StepGarbage(d, len, prev, next, max, freed, released, m, w, n, unmarked);
        }
      } else {
        len := ClearFlag(len, ALLOC_FLAG);
        e := d + len;
        StepKept(d, e, m, w, n, prev, next, max, freed, released, unmarked);
      }
    }

    /** The length of a segment without its flags. */
    method StripFlags(w: nat, ghost s: Seg) returns (len: nat)
      requires s.len % QUANT == 0 && w == Word(s)
      ensures len == s.len
    {
      FlagsOf(s);
      len := ClearFlag(w, MARK_FLAG);
      FlagsOf(s.(mark := false));
      len := ClearFlag(len, GC_FLAG);
      FlagsOf(s.(mark := false, gc := false));
      len := ClearFlag(len, ALLOC_FLAG);
    }

    /** The walk of MSA_GC::sweep over one block, to its end. */
    method SweepWalk(ghost m: SegMap, ghost w: seq<nat>, ghost n: nat)
      returns (max: nat, freed: nat, released: nat, unmarked: nat, ghost prev': nat, ghost next': nat)
      requires SweptUpTo(m, w, n, data, NULL, hdFreeSeg, 0, 0, 0, 0) && data in segs
      modifies `nAllocSeg, `nFreeSeg, `hdFreeSeg, `segs, mem
      ensures SweptUpTo(m, w, n, End(), prev', next', max, freed, released, unmarked)
    {
      hide SweptUpTo;
      var dataSeg: nat, prev: nat, next: nat, len: nat := data, NULL, hdFreeSeg, 0;
      max, freed, released, unmarked := 0, 0, 0, 0;
      ghost var e := data;
      while true
        invariant SweptUpTo(m, w, n, e, prev, next, max, freed, released, unmarked)
        invariant e == dataSeg && dataSeg in segs
        decreases End() - dataSeg
      {
        AtEnd(dataSeg, m, w, n, e, prev, next, max, freed, released, unmarked);
        dataSeg, len, prev, next, max, freed, released, unmarked, e :=
          SweepStep(dataSeg, prev, next, max, freed, released, unmarked, m, w, n);
        AtEnd(dataSeg, m, w, n, e, prev, next, max, freed, released, unmarked);
        if dataSeg + len == End() {
          break;
        }
        dataSeg := dataSeg + len;
      }
      prev', next' := prev, next;
    }

    lemma AtEnd(d: nat, m: SegMap, w: seq<nat>, n: nat, e: nat, prev: nat, next: nat, max: nat,
                freed: nat, released: nat, unmarked: nat)
      requires SweptUpTo(m, w, n, e, prev, next, max, freed, released, unmarked) && d in segs
      ensures data <= d < d + segs[d].len <= End()
      ensures d + segs[d].len == End() || d + segs[d].len in segs
    {
      assert Inside(segs, data, End(), d) && Closed(segs, d, End());
    }

    /** MSA_GC::sweep on one block. Unmarked collectable segments are released and marks are
        cleared; freed bytes, released segments and cleared marks are counted. */
    method Sweep() returns (freed: nat, released: nat, unmarked: nat)
      requires Valid()
      modifies `maxFreeSegLen, `nAllocSeg, `nFreeSeg, `hdFreeSeg, `segs, mem
      ensures Valid()
      ensures Live(segs) == Swept(Live(old(segs)))
      ensures freed + Bytes(Live(segs)) == Bytes(Live(old(segs)))
      ensures released + |Live(segs)| == |Live(old(segs))|
      ensures unmarked == |Marked(Live(old(segs)))|
      ensures nAllocSeg == old(nAllocSeg) - if FreeSet(old(segs)) == {} && released > 0 then 1 else 0
      ensures SweptBound(old(segs), maxFreeSegLen)
      ensures Bounded() <==> LongestSeen(old(segs))
      ensures SameData(Live(segs), data, old(mem[..]), mem[..])
    {
      hide OnTrack, SweptBound, LongestSeen, Tally, SameData, Bytes;
      ghost var m, w, n := segs, mem[..], nAllocSeg;
      TallyStart(Live(m), segs, data, End());
      TrackStart(m);
      SameDataSame(Live(m), data, w);
      var max;
      ghost var prev, next;
      max, freed, released, unmarked, prev, next := SweepWalk(m, w, n);
      TallyDone(Live(m), m, segs, data, End(), freed, released, unmarked);
      maxFreeSegLen := max;
      BoundAfter(m, segs, data, End(), prev, max);
      BoundRightWhen(m, segs, data, End(), max);
    }

    /** The owner of the segment at a writes to the word at address x of its data. */
    method Store(x: nat, v: nat, ghost a: nat)
      requires Valid() && a in Live(segs) && a + DESCR <= x && x + DESCR <= a + segs[a].len && data <= x < End()
      modifies mem
      ensures Valid() && mem[..] == old(mem[..])[x - data := v]
      ensures SameData(segs - {a}, data, old(mem[..]), mem[..])
    {
      StoreWellFormed(segs, data, End(), hdFreeSeg, mem[..], a, x, v);
      Put(x, v);
    }

    /** A store to the word at address a. */
    method Put(a: nat, v: nat)
      requires data <= a < End()
      modifies mem
      ensures mem[..] == old(mem[..])[a - data := v]
    {
      mem[a - data] := v;
    }
  }
}
