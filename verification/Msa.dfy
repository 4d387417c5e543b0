/** The memory storage allocator with garbage collection: MSA and MSA_GC in one class, as
    MSA is MSA_GC whose switches stay as the constructor sets them. A segment is known by the address of its
    descriptor; the pointer that a caller sees lies DESCR bytes above. */
module Msa {
  import opened Descriptors
  import opened SegMaps
  import opened BlockWords
  import opened SweepBounds
  import opened Views
  import opened SegBlks
  import opened BlockLists

  /** No free segment of m holds n bytes. */
  ghost predicate NoFit(m: SegMap, n: nat) {
    forall a | a in FreeSet(m) :: m[a].len < n
  }

  lemma WholeFits(a: nat, len: nat, n: nat)
    requires a != NULL && NoFit(map[a := FreeSeg(len)], n)
    ensures len < n
  {
    assert a in FreeSet(map[a := FreeSeg(len)]);
  }

  /** m' is m with the first bytes of its first fitting free segment, at a, allocated as s. */
  ghost predicate FirstFit(m: SegMap, m': SegMap, a: nat, s: Seg) {
    && IsFree(m, a) && s.len <= m[a].len
    && (forall p | p in FreeSet(m) :: p < a ==> m[p].len < s.len)
    && Live(m') == Live(m)[a := s]
  }

  lemma FirstFits(m: SegMap, m': SegMap, a: nat, s: Seg)
    requires FirstFit(m, m', a, s) && a != NULL
    ensures !NoFit(m, s.len)
  {
    assert a in FreeSet(m);
  }

  /** A new segment of n bytes, not collectable. */
  ghost function Plain(n: nat): Seg {
    Seg(n, true, false, false)
  }

  /** The search for n bytes passes over a block with segments m and bound max: because nothing
      fits, or because the bound says so. */
  ghost predicate Passes(max: nat, m: SegMap, n: nat) {
    max < n || NoFit(m, n)
  }

  /** The same for the j-th of several blocks with bounds ms and segments ss. */
  ghost predicate PassesAt(ms: seq<nat>, ss: seq<SegMap>, j: nat, n: nat)
    requires j < |ms| == |ss|
  {
    Passes(ms[j], ss[j], n)
  }

  ghost predicate PassesAll(ms: seq<nat>, ss: seq<SegMap>, n: nat) {
    |ms| == |ss| && forall j: nat {:trigger PassesAt(ms, ss, j, n)} | j < |ms| :: PassesAt(ms, ss, j, n)
  }

  /** The blocks that a search from the c-th block tries before the k-th. */
  ghost predicate TriedBefore(j: nat, c: nat, k: nat) {
    if k >= c then c <= j < k else j >= c || k < j
  }

  /** In the order of a search from the c-th block, the k-th is the first not passed over. */
  ghost predicate FirstTaken(ms: seq<nat>, ss: seq<SegMap>, c: nat, k: nat, n: nat) {
    && k < |ms| == |ss| && !PassesAt(ms, ss, k, n)
    && forall j: nat {:trigger PassesAt(ms, ss, j, n)} | j < |ms| && TriedBefore(j, c, k) :: PassesAt(ms, ss, j, n)
  }

  /** What a search for n bytes leaves of the bound max and the count cnt of a block b with segments m
      that does not serve it: one that was tried is passed over, and where the free list was walked, the
      bound is the longest free segment now. */
  ghost predicate LookedUp(b: SegBlk, m: SegMap, max: nat, cnt: nat, n: nat, tried: bool)
    reads b`maxFreeSegLen, b`nAllocSeg
  {
    && b.nAllocSeg == cnt
    && (tried ==> Passes(max, m, n))
    && if tried && FreeSet(m) != {} && n <= max then IsLongest(m, b.maxFreeSegLen) else b.maxFreeSegLen == max
  }

  /** The same for the blocks bs but the one at skip: those from lo up to hi were tried. */
  ghost predicate Looked(bs: seq<SegBlk>, ss: seq<SegMap>, ms: seq<nat>, ns: seq<nat>, n: nat,
                         lo: nat, hi: nat, skip: nat)
    reads (set b | b in bs)`maxFreeSegLen, (set b | b in bs)`nAllocSeg
  {
    && |bs| == |ss| == |ms| == |ns|
    && forall j: nat {:trigger bs[j]} | j < |bs| && j != skip ::
         LookedUp(bs[j], ss[j], ms[j], ns[j], n, lo <= j < hi)
  }

  /** What serving n bytes at address a leaves of the bound max and the count cnt of the block b. */
  ghost predicate Served(b: SegBlk, m: SegMap, max: nat, cnt: nat, n: nat, a: nat)
    reads b`maxFreeSegLen, b`nAllocSeg
  {
    b.nAllocSeg == cnt + 1 && a in m && b.maxFreeSegLen == TakenMax(m, a, n, max)
  }

  /** The bounds ms and counts ns of the blocks bs after a search for n bytes from the c-th block:
      the k-th served it, or none did if k is |bs|. */
  ghost predicate SearchedAll(bs: seq<SegBlk>, ss: seq<SegMap>, ms: seq<nat>, ns: seq<nat>, n: nat, a: nat,
                              c: nat, k: nat)
    reads (set b | b in bs)`maxFreeSegLen, (set b | b in bs)`nAllocSeg
  {
    && |bs| == |ss| == |ms| == |ns|
    && if k >= |bs| then Looked(bs, ss, ms, ns, n, 0, |bs|, k)
       else
         && (if k >= c then Looked(bs, ss, ms, ns, n, c, k, k) else Looked(bs, ss, ms, ns, n, k + 1, |bs|, k))
         && Served(bs[k], ss[k], ms[k], ns[k], n, a)
  }

  /** There is no search without a current block; else it is in vain or not. */
  datatype Course = Skipped | InVain | Successful

  /** The same for a request whose search, if there is one, takes the given course. */
  ghost predicate CachesAfter(bs: seq<SegBlk>, ss: seq<SegMap>, ms: seq<nat>, ns: seq<nat>, course: Course,
                              n: nat, a: nat, c: nat, k: nat)
    reads (set b | b in bs)`maxFreeSegLen, (set b | b in bs)`nAllocSeg
  {
    match course
    case Skipped => Looked(bs, ss, ms, ns, n, 0, 0, |bs|)
    case InVain => SearchedAll(bs, ss, ms, ns, n, a, c, |bs|)
    case Successful => k < |bs| && SearchedAll(bs, ss, ms, ns, n, a, c, k)
  }

  /** Blocks are passed over in the order of the search. */
  lemma SearchedOrder(bs: seq<SegBlk>, ss: seq<SegMap>, ms: seq<nat>, ns: seq<nat>, n: nat, a: nat, c: nat, k: nat)
    requires SearchedAll(bs, ss, ms, ns, n, a, c, k) && c < |bs|
    ensures k >= |bs| ==> PassesAll(ms, ss, n)
    ensures k < |bs| && !PassesAt(ms, ss, k, n) ==> FirstTaken(ms, ss, c, k, n)
  {
    forall j: nat | j < |bs| && (k < |bs| ==> TriedBefore(j, c, k)) ensures PassesAt(ms, ss, j, n) {
      assert LookedUp(bs[j], ss[j], ms[j], ns[j], n, true);
    }
  }

  /** The allocated segments of m' are those of m, but the one at a, if it is there, became
      collectable. */
  ghost predicate TaggedAt(m: SegMap, m': SegMap, a: nat) {
    Live(m') == if a in Live(m) then Live(m)[a := m[a].(gc := true)] else Live(m)
  }

  lemma TaggedFit(m: SegMap, m1: SegMap, m2: SegMap, a: nat, n: nat)
    requires FirstFit(m, m1, a, Plain(n)) && TaggedAt(m1, m2, a)
    ensures FirstFit(m, m2, a, Plain(n).(gc := true))
  {
    assert a in Live(m1) && Live(m1)[a] == m1[a] == Plain(n);
  }

  lemma TaggedKeeps(m0: SegMap, m: SegMap, m': SegMap, a: nat)
    requires KeepsAll(m0, m) && TaggedAt(m, m', a)
    ensures KeepsAll(m0, m')
  {
    forall p | p in Live(m0) ensures p in Live(m') && m'[p].len == m0[p].len {
      assert p in Live(m) && Live(m')[p].len == m[p].len;
    }
  }

  class MsaGc {
    const blkLen: nat         // _blkLen, default block length
    var nBlk: nat             // _nBlk
    var nSeg: nat             // _nSeg, number of segments
    var totUse: nat           // _totUse, bytes in blocks
    var maxUse: nat           // _maxUse
    var currUse: nat          // _currUse, bytes in segments
    var hdBlk: SegBlk?        // _hdBlk
    var tlBlk: SegBlk?        // _tlBlk
    var currBlk: SegBlk?      // _currBlk
    var errCode: int          // _errCode
    var enabled: bool         // _enabled
    var enableAddBlk: bool    // _enableAddBlk
    var markCount: nat        // _markCount
    ghost var blks: seq<SegBlk>   // the block list
    ghost var views: seq<SegMap>  // the segments of each block
    ghost var live: SegMap        // the allocated segments of all blocks

    ghost predicate ListValid()
      reads `blks, `hdBlk, `tlBlk, `currBlk, (set b | b in blks)`prev, (set b | b in blks)`next
    {
      ListOk(blks, hdBlk, tlBlk, currBlk)
    }

    ghost predicate BlocksValid()
      reads `blks, `views, (set b | b in blks)`segs, (set b | b in blks)`hdFreeSeg
      reads (set b | b in blks)`nFreeSeg, (set b | b in blks)`nAllocSeg, Mems(blks)
    {
      this !in Mems(blks) && BlocksOk(blks, views)
    }

    ghost predicate BooksValid()
      reads `blks, `views, `live, `nBlk, `totUse, `nSeg, `currUse, `markCount, `maxUse
    {
      Books(blks, views, live, nBlk, totUse, nSeg, currUse, markCount) && currUse <= maxUse
    }

    /** What holds in every reachable state. */
    ghost predicate Valid()
      reads `blks, `views, `live, `hdBlk, `tlBlk, `currBlk, `nBlk, `totUse, `nSeg, `currUse, `maxUse, `markCount
      reads blks, Mems(blks)
    {
      && blkLen % QUANT == HDR % QUANT && HDR + QUANT <= blkLen < WORD
      && ListValid() && BlocksValid() && BooksValid()
      && (currBlk == null ==> live == map[])
    }

    /** Where there are blocks, one of them is the current one. Every operation keeps this but an
        allocation so large that request and header together wrap around. */
    ghost predicate HasCurrent()
      reads `blks, `currBlk
    {
      currBlk == null ==> blks == []
    }

    /** MSA::MSA and MSA_GC::MSA_GC: the block length is rounded up so that the data area is a
        whole number of quanta. */
    constructor (len: nat)
      requires HDR < len <= WORD - DESCR
      ensures Valid() && HasCurrent() && blks == [] && live == map[] && enabled && enableAddBlk
      ensures currBlk == null && maxUse == 0 && errCode == 0
      ensures len <= blkLen < len + QUANT
    {
      var dataLen := len - HDR;
      blkLen := HDR + QUANT * ((dataLen + QUANT - 1) / QUANT);
      nBlk, nSeg, totUse, maxUse, currUse, errCode := 0, 0, 0, 0, 0, 0;
      hdBlk, tlBlk, currBlk := null, null, null;
      enabled, enableAddBlk, markCount := true, true, 0;
      blks, views, live := [], [], map[];
      new;
      assert IsUnion(map[], []) by { UnionIs(map[], []); }
      assert Counts([], 0, 0, 0);
    }

    /** MSA_GC::setEnabled. */
    method SetEnabled(q: bool)
      requires Valid()
      modifies `enabled, `enableAddBlk
      ensures Valid() && enabled == enableAddBlk == q
    {
      enabled := q;
      enableAddBlk := q;
    }

    // ---- The block list ----

    /** MSA::queryBlk: the block whose data area holds the address. */
    method QueryBlk(descr: nat) returns (blk: SegBlk?)
      requires ListValid() && currBlk != null
      ensures blk != null ==> blk in blks && blk.data <= descr < blk.End()
      ensures blk == null ==> forall b | b in blks :: !(b.data <= descr < b.End())
    {
      if currBlk.data <= descr && descr < currBlk.End() {
        return currBlk;
      }
      blk := tlBlk;
      ghost var i := |blks|;
      while blk != null
        invariant 0 <= i <= |blks|
        invariant blk == if i == 0 then null else blks[i - 1]
        invariant forall j | i <= j < |blks| :: !(blks[j].data <= descr < blks[j].End())
        decreases i
      {
        if blk.data <= descr && descr < blk.End() {
          return blk;
        }
        assert ChainedAt(blks, i - 1);
        blk := blk.prev;
        i := i - 1;
      }
    }

    /** MSA::check: every block passes its own check. A valid allocator passes. */
    method Check() returns (res: int)
      requires ListValid() && BlocksValid()
      ensures res == 0
    {
      var blk := hdBlk;
      ghost var i := 0;
      while blk != null
        invariant 0 <= i <= |blks| && blk == if i < |blks| then blks[i] else null
        decreases |blks| - i
      {
        assert BlockAt(blks, views, i);
        res := blk.Check();
        if res != 0 {
          return -1;
        }
        assert ChainedAt(blks, i);
        blk := blk.next;
        i := i + 1;
      }
      res := 0;
    }

    /** A block is put at the tail of the list. */
    method Append(blk: SegBlk)
      requires ListValid() && blk !in blks && blk.mem !in Mems(blks) && HDR <= blk.data
      requires forall b | b in blks :: blk.End() + HDR <= b.data || b.End() + HDR <= blk.data
      modifies `hdBlk, `tlBlk, `blks, (set b | b in blks)`next, blk`prev, blk`next
      ensures ListValid() && blks == old(blks) + [blk]
    {
      ghost var bs := blks;
      Distinct(bs);
      assert bs != [] ==> ChainedAt(bs, |bs| - 1);
      blk.prev := tlBlk;
      if blk.prev != null {
        blk.prev.next := blk;
      } else {
        hdBlk := blk;
      }
      blk.next := null;
      tlBlk := blk;
      blks := bs + [blk];
      forall j: nat | j < |blks| ensures ChainedAt(blks, j) {
        assert j < |bs| ==> old(ChainedAt(bs, j));
      }
      forall j: nat, k: nat | j < k < |blks| ensures Separate(blks[j], blks[k]) {
        assert k < |bs| ==> Separate(bs[j], bs[k]);
      }
      assert Chained(blks, hdBlk, tlBlk);
    }

    /** A block is taken out of the list. */
    method Unlink(blk: SegBlk, ghost i: nat)
      requires ListValid() && i < |blks| && blks[i] == blk
      modifies `hdBlk, `tlBlk, `currBlk, `blks, (set b | b in blks)`prev, (set b | b in blks)`next
      ensures blks == RemoveAt(old(blks), i)
      ensures ListValid()
      ensures currBlk == if old(currBlk) == blk then hdBlk else old(currBlk)
      ensures blks != [] && old(currBlk) != null ==> currBlk != null
    {
      hide AllSeparate;
      ghost var bs := blks;
      Distinct(bs);
      assert ChainedAt(bs, i);
      if blk.prev != null {
        blk.prev.next := blk.next;
      } else {
        hdBlk := blk.next;
      }
      if blk.next != null {
        blk.next.prev := blk.prev;
      } else {
        tlBlk := blk.prev;
      }
      blks := RemoveAt(blks, i);
      forall j: nat | j < |blks| ensures ChainedAt(blks, j) {
        assert old(ChainedAt(bs, if j < i then j else j + 1));
      }
      assert Chained(blks, hdBlk, tlBlk);
      RemoveAtHas(bs, i);
      RemovedSeparate(bs, i);
      if currBlk == blk {
        currBlk := hdBlk;
      }
    }

    // ---- Growth ----

    /** The length of a new block. */
    ghost function NewBlkLen(reqLen: nat): nat {
      BlkLenFor(blkLen, reqLen)
    }

    /** n bytes from address base on are clear of all blocks: what the system hands out. */
    ghost predicate Room(base: nat, n: nat)
      reads `blks
    {
      && 0 < base && base + n <= WORD
      && forall b | b in blks :: base + n + HDR <= b.data || b.End() <= base
    }

    /** Since the old state one block of n bytes, all free, was appended. */
    twostate predicate Grown(base: nat, n: nat)
      reads this, blks
    {
      && |blks| == |old(blks)| + 1 && blks[..|old(blks)|] == old(blks)
      && var b := blks[|old(blks)|];
         && n >= HDR && b.data == base + HDR && b.len == n
         && b.segs == map[b.data := FreeSeg(n - HDR)] && b.Bounded() && b.Exact()
         && b.maxFreeSegLen == n - HDR && b.nAllocSeg == 0
         && b.hdFreeSeg != NULL && fresh(b) && fresh(b.mem)
    }

    /** MSA::addBlk with no limit set. base is what the system allocator returned, NULL when
        it had no memory. */
    method AddBlkBase(reqLen: nat, base: nat) returns (res: int)
      requires Valid() && reqLen % QUANT == 0
      requires base != NULL ==> Room(base, NewBlkLen(reqLen))
      modifies `hdBlk, `tlBlk, `totUse, `nBlk, `blks, `views, (set b | b in blks)`next
      ensures Valid()
      ensures res == if base == NULL then -1 else 0
      ensures res < 0 ==> blks == old(blks) && views == old(views)
      ensures res == 0 ==> Grown(base, NewBlkLen(reqLen))
      ensures CachesKept()
    {
      hide AllExact, Live, ListOk, BlocksOk, BooksValid, BlockAt, AllSeparate, ListValid, AllBounded;
      var len := blkLen;
      if len < (reqLen + HDR) % WORD {
        len := (reqLen + HDR) % WORD;
      }
      BlkLenForOk(blkLen, reqLen);
      if base == NULL {
        return -1;
      }
      var blk := new SegBlk(base + HDR, len);
      assert ListValid();
      assert BlocksOk(blks, views);
      Adopt(blk);
      return 0;
    }

    /** A new block, all free, joins the list and the books. */
    method Adopt(blk: SegBlk)
      requires Valid()
      requires blk !in blks && blk.mem !in Mems(blks) && HDR <= blk.data
      requires blk.Valid() && Live(blk.segs) == map[] && blk.Bounded() && blk.Exact()
      requires forall b | b in blks :: blk.End() + HDR <= b.data || b.End() + HDR <= blk.data
      modifies `hdBlk, `tlBlk, `totUse, `nBlk, `blks, `views, (set b | b in blks)`next, blk`prev, blk`next
      ensures Valid()
      ensures blks == old(blks) + [blk]
      ensures CachesKept()
    {
      hide AllExact, AllBounded, Live, ListOk, SameData, SameMem, Books, Mems, FreeSet, AllSeparate, BlockAt;
      BooksAppend(blks, views, live, nBlk, totUse, nSeg, currUse, markCount, blk, blk.segs);
      totUse := totUse + blk.len;
      nBlk := nBlk + 1;
      AppendValid(blk);
    }

    method AppendValid(blk: SegBlk)
      requires ListValid() && BlocksValid()
      requires blk !in blks && blk.mem !in Mems(blks) && HDR <= blk.data
      requires blk.Valid() && blk.Bounded() && blk.Exact()
      requires forall b | b in blks :: blk.End() + HDR <= b.data || b.End() + HDR <= blk.data
      modifies `hdBlk, `tlBlk, `blks, `views, (set b | b in blks)`next, blk`prev, blk`next
      ensures ListValid() && BlocksValid()
      ensures blks == old(blks) + [blk] && views == old(views) + [blk.segs]
      ensures CachesKept()
    {
      ghost var bs, ss := blks, views;
      views := views + [blk.segs];
      Append(blk);
      BlocksAppend(bs, ss, blk);
      BoundedAppend();
    }

    /** The cached bounds and counts of the other blocks are as before. */
    twostate lemma BoundedAppend()
      requires Extended() && blks[|old(blks)|].Bounded() && blks[|old(blks)|].Exact()
      requires forall b | b in old(blks) :: SameCache(b)
      ensures CachesKept()
    {
      ghost var bs := old(blks);
      forall i: nat | i < |bs|
        ensures old(blks[i].Bounded()) ==> blks[i].Bounded()
        ensures old(blks[i].Exact()) ==> blks[i].Exact()
      {
        assert SameCache(bs[i]);
      }
      if old(AllBounded()) {
        forall i: nat | i < |blks| ensures blks[i].Bounded() {
          assert i < |bs| ==> old(blks[i].Bounded());
        }
      }
      if old(AllExact()) {
        forall i: nat | i < |blks| ensures blks[i].Exact() {
          assert i < |bs| ==> old(blks[i].Exact());
        }
      }
    }

    // ---- The search for a free segment ----

    /** Every block's cached bound covers its free segments. */
    ghost predicate AllBounded()
      reads `blks, (set b | b in blks)`segs, (set b | b in blks)`maxFreeSegLen
    {
      forall i: nat {:trigger blks[i].Bounded()} | i < |blks| :: blks[i].Bounded()
    }

    /** Every block's count of allocated segments is exact. */
    ghost predicate AllExact()
      reads `blks, (set b | b in blks)`segs, (set b | b in blks)`nAllocSeg
    {
      forall i: nat {:trigger blks[i].Exact()} | i < |blks| :: blks[i].Exact()
    }

    /** Right bounds and exact counts stay so. */
    twostate predicate CachesKept()
      reads `blks, blks
    {
      (old(AllBounded()) ==> AllBounded()) && (old(AllExact()) ==> AllExact())
    }

    /** SegBlk::fstFit on the k-th block. */
    method FitBlk(blk: SegBlk, ghost k: nat, reqLen: nat) returns (descr: nat)
      requires ListValid() && BlocksValid() && k < |blks| && blks[k] == blk && blk.hdFreeSeg != NULL
      requires QUANT <= reqLen && reqLen % QUANT == 0
      modifies blk`maxFreeSegLen, blk`nAllocSeg, blk`nFreeSeg, blk`hdFreeSeg, blk`segs, blk.mem
      ensures BlocksOk(blks, views[k := blk.segs]) && CachesKept()
      ensures forall b | b in blks && b != blk :: SameMem(b)
      ensures descr == NULL ==> BlocksValid() && SameMem(blk) && NoFit(views[k], reqLen)
      ensures descr == NULL ==> IsLongest(views[k], blk.maxFreeSegLen) && blk.nAllocSeg == old(blk.nAllocSeg)
      ensures descr != NULL ==> Served(blk, views[k], old(blk.maxFreeSegLen), old(blk.nAllocSeg), reqLen, descr)
      ensures descr != NULL ==> FirstFit(views[k], blk.segs, descr, Plain(reqLen))
      ensures SameData(views[k], blk.data, old(blk.mem[..]), blk.mem[..])
    {
      Distinct(blks);
      assert BlockAt(blks, views, k);
      ghost var bounded, exact := AllBounded(), AllExact();
      assert (bounded ==> blk.Bounded()) && (exact ==> blk.Exact());
      descr := blk.FstFit(reqLen);
      OthersKept(k);
      if descr == NULL {
        assert views[k := blk.segs] == views;
      } else if exact {
        CountUpdate(Live(views[k]), descr, Plain(reqLen));
      }
      forall i: nat | i < |blks| ensures (bounded ==> blks[i].Bounded()) && (exact ==> blks[i].Exact()) {
        assert old(bounded ==> blks[i].Bounded()) && old(exact ==> blks[i].Exact());
      }
    }

    /** One block is tried, unless its head and bound say that nothing fits. */
    method TryBlk(blk: SegBlk, ghost k: nat, reqLen: nat) returns (descr: nat)
      requires ListValid() && BlocksValid() && k < |blks| && blks[k] == blk
      requires QUANT <= reqLen && reqLen % QUANT == 0
      modifies blk`maxFreeSegLen, blk`nAllocSeg, blk`nFreeSeg, blk`hdFreeSeg, blk`segs, blk.mem
      ensures BlocksOk(blks, views[k := blk.segs]) && CachesKept()
      ensures forall b | b in blks && b != blk :: SameMem(b)
      ensures descr == NULL <==> Passes(old(blk.maxFreeSegLen), views[k], reqLen)
      ensures descr == NULL ==> BlocksValid() && SameMem(blk)
      ensures descr == NULL ==> LookedUp(blk, views[k], old(blk.maxFreeSegLen), old(blk.nAllocSeg), reqLen, true)
      ensures descr != NULL ==> Served(blk, views[k], old(blk.maxFreeSegLen), old(blk.nAllocSeg), reqLen, descr)
      ensures descr != NULL ==> FirstFit(views[k], blk.segs, descr, Plain(reqLen))
      ensures SameData(views[k], blk.data, old(blk.mem[..]), blk.mem[..])
    {
      assert BlockAt(blks, views, k);
      if blk.hdFreeSeg != NULL && reqLen <= blk.maxFreeSegLen {
        descr := FitBlk(blk, k, reqLen);
        if descr != NULL { FirstFits(views[k], blk.segs, descr, Plain(reqLen)); }
      } else {
        descr := NULL;
        blk.FreeAbove(NULL);
        assert views[k := blk.segs] == views;
        SameDataSame(blk.segs, blk.data, blk.mem[..]);
      }
    }

    /** Only the k-th block has changed, and it is valid. */
    twostate lemma OthersKept(k: nat)
      requires old(BlocksValid()) && blks == old(blks) && views == old(views) && AllSeparate(blks)
      requires k < |blks| && old(allocated(blks[k])) && blks[k].Valid()
      requires forall b | b in blks && b != blks[k] :: Unmoved(b)
      ensures BlocksOk(blks, views[k := blks[k].segs])
    {
      var ss := views[k := blks[k].segs];
      Distinct(blks);
      forall i: nat | i < |blks| ensures BlockAt(blks, ss, i) {
        assert old(BlockAt(blks, views, i));
        assert i != k ==> Unmoved(blks[i]);
      }
    }

    /** The cached bounds of the blocks. */
    ghost function Bounds(): (ms: seq<nat>)
      reads `blks, blks
      ensures |ms| == |blks| && forall j: nat {:trigger ms[j]} | j < |blks| :: ms[j] == blks[j].maxFreeSegLen
    {
      var bs := blks;
      seq(|bs|, i requires 0 <= i < |bs| reads bs => bs[i].maxFreeSegLen)
    }

    /** The counts of allocated segments of the blocks. */
    ghost function Counted(): (ns: seq<nat>)
      reads `blks, blks
      ensures |ns| == |blks| && forall j: nat {:trigger ns[j]} | j < |blks| :: ns[j] == blks[j].nAllocSeg
    {
      var bs := blks;
      seq(|bs|, i requires 0 <= i < |bs| reads bs => bs[i].nAllocSeg)
    }

    /** The k-th block, blk, served the request: the segment at descr was carved off. */
    ghost predicate Carved(blk: SegBlk, k: nat, descr: nat, n: nat)
      reads `blks, `views, (set b | b in blks)`segs, (set b | b in blks)`hdFreeSeg, (set b | b in blks)`nFreeSeg
      reads (set b | b in blks)`nAllocSeg, Mems(blks)
    {
      && k < |blks| == |views| && blk == blks[k] && BlocksOk(blks, views[k := blk.segs])
      && FirstFit(views[k], blk.segs, descr, Plain(n))
    }

    /** One more block is tried, behind or before those from lo up to hi. */
    method TryNext(blk: SegBlk, ghost k: nat, reqLen: nat, ghost lo: nat, ghost hi: nat,
                   ghost ms: seq<nat>, ghost ns: seq<nat>) returns (descr: nat)
      requires ListValid() && BlocksValid() && k < |blks| && blks[k] == blk
      requires QUANT <= reqLen && reqLen % QUANT == 0 && lo <= hi && (k == hi || k + 1 == lo)
      requires Looked(blks, views, ms, ns, reqLen, lo, hi, |blks|)
      modifies blk`maxFreeSegLen, blk`nAllocSeg, blk`nFreeSeg, blk`hdFreeSeg, blk`segs, blk.mem
      ensures BlocksOk(blks, views[k := blk.segs]) && CachesKept()
      ensures forall b | b in blks && b != blk :: SameMem(b)
      ensures |ms| == |ns| == |views| == |blks| && (descr == NULL <==> PassesAt(ms, views, k, reqLen))
      ensures descr == NULL ==> BlocksValid() && SameMem(blk)
      ensures descr == NULL ==> Looked(blks, views, ms, ns, reqLen, if k == hi then lo else k,
                                       if k == hi then k + 1 else hi, |blks|)
      ensures descr != NULL ==> Looked(blks, views, ms, ns, reqLen, lo, hi, k)
      ensures descr != NULL ==> Served(blk, views[k], ms[k], ns[k], reqLen, descr)
      ensures descr != NULL ==> FirstFit(views[k], blk.segs, descr, Plain(reqLen))
      ensures DataSame(blk, views[k])
    {
      hide FirstFit, NoFit, SameData, Passes, AllBounded, AllExact, AllSeparate, Live, FreeSet, BlockAt, IsLongest,
        TakenMax;
      DistinctFrom(blks, k);
      assert LookedUp(blks[k], views[k], ms[k], ns[k], reqLen, lo <= k < hi);
      descr := TryBlk(blk, k, reqLen);
    }

    /** Forwards from the c-th block, the current one, to the tail; ms are the bounds and ns the counts of the
        blocks. */
    method SearchForwards(ghost c: nat, reqLen: nat, ghost ms: seq<nat>, ghost ns: seq<nat>)
      returns (blk: SegBlk?, descr: nat, ghost k: nat)
      requires ListValid() && BlocksValid() && c < |blks| && currBlk == blks[c]
      requires QUANT <= reqLen && reqLen % QUANT == 0 && |ms| == |ns| == |blks|
      requires Looked(blks, views, ms, ns, reqLen, c, c, |blks|)
      modifies (set b | b in blks)`maxFreeSegLen, (set b | b in blks)`nAllocSeg, (set b | b in blks)`nFreeSeg
      modifies (set b | b in blks)`hdFreeSeg, (set b | b in blks)`segs, Mems(blks)
      ensures CachesKept()
      ensures blk == null ==> BlocksValid() && k == |blks|
      ensures forall b | b in blks && b != blk :: SameMem(b)
      ensures blk != null ==> Carved(blk, k, descr, reqLen) && DataSame(blk, views[k])
      ensures blk != null ==> !PassesAt(ms, views, k, reqLen)
      ensures blk != null ==> Served(blk, views[k], ms[k], ns[k], reqLen, descr)
      ensures Looked(blks, views, ms, ns, reqLen, c, k, if blk == null then |blks| else k)
      ensures c <= k <= |blks|
    {
      hide Looked, AllExact, SegBlk.Bounded, SegBlk.Valid, Before, BlocksOk;
      blk, descr, k := currBlk, NULL, c;
      while blk != null
        invariant c <= k <= |blks| && blk == if k == |blks| then null else blks[k]
        invariant ListValid() && BlocksValid() && CachesKept()
        invariant forall b | b in blks :: SameMem(b)
        invariant Looked(blks, views, ms, ns, reqLen, c, k, |blks|)
        decreases |blks| - k
      {
        descr := TryNext(blk, k, reqLen, c, k, ms, ns);
        if descr != NULL {
          return;
        }
        assert ChainedAt(blks, k);
        blk := blk.next;
        k := k + 1;
      }
    }

    /** Backwards from before the c-th block, the current one, to the head. */
    method SearchBackwards(ghost c: nat, reqLen: nat, ghost ms: seq<nat>, ghost ns: seq<nat>)
      returns (blk: SegBlk?, descr: nat, ghost k: nat)
      requires ListValid() && BlocksValid() && c < |blks| && currBlk == blks[c]
      requires QUANT <= reqLen && reqLen % QUANT == 0 && |ms| == |ns| == |blks|
      requires Looked(blks, views, ms, ns, reqLen, c, |blks|, |blks|)
      modifies (set b | b in blks)`maxFreeSegLen, (set b | b in blks)`nAllocSeg, (set b | b in blks)`nFreeSeg
      modifies (set b | b in blks)`hdFreeSeg, (set b | b in blks)`segs, Mems(blks)
      ensures CachesKept()
      ensures blk == null ==> BlocksValid() && k == 0 && Looked(blks, views, ms, ns, reqLen, 0, |blks|, |blks|)
      ensures forall b | b in blks && b != blk :: SameMem(b)
      ensures blk != null ==> k < c && Carved(blk, k, descr, reqLen) && DataSame(blk, views[k])
      ensures blk != null ==> !PassesAt(ms, views, k, reqLen)
      ensures blk != null ==> Served(blk, views[k], ms[k], ns[k], reqLen, descr)
      ensures blk != null ==> Looked(blks, views, ms, ns, reqLen, k + 1, |blks|, k)
    {
      hide Looked, NoFit, TakenMax, AllBounded, AllSeparate, BlockAt, After, Passes;
      assert ChainedAt(blks, c);
      blk, descr, k := currBlk.prev, NULL, c;
      while blk != null
        invariant k <= c && blk == if k == 0 then null else blks[k - 1]
        invariant ListValid() && BlocksValid() && CachesKept()
        invariant forall b | b in blks :: SameMem(b)
        invariant Looked(blks, views, ms, ns, reqLen, k, |blks|, |blks|)
        decreases k
      {
        k := k - 1;
        descr := TryNext(blk, k, reqLen, k + 1, |blks|, ms, ns);
        if descr != NULL {
          return;
        }
        assert ChainedAt(blks, k);
        blk := blk.prev;
      }
    }

    // ---- Allocation ----

    /** Less than four fifths of the bytes in blocks are in use; the products are 32 bits wide. */
    predicate Inefficient()
      reads `currUse, `totUse
    {
      currUse * 5 % WORD < totUse * 4 % WORD
    }

    /** Where no product wraps around, this is a use below 80%; where they do, w and v times, their rests
        are compared instead. */
    lemma InefficientWhen(w: nat, v: nat)
      requires w * 0x1_0000_0000 <= currUse * 5 < (w + 1) * 0x1_0000_0000
      requires v * 0x1_0000_0000 <= totUse * 4 < (v + 1) * 0x1_0000_0000
      ensures Inefficient() <==> 5 * currUse - w * 0x1_0000_0000 < 4 * totUse - v * 0x1_0000_0000
      ensures w == v ==> (Inefficient() <==> 100 * currUse < 80 * totUse)
    {
      RestOf(currUse * 5, w);
      RestOf(totUse * 4, v);
    }

    /** The search starts over from the head when memory is used inefficiently. */
    method ChooseStart() returns (ghost c: nat)
      requires ListValid() && BlocksValid() && currBlk != null
      modifies `currBlk
      ensures ListValid() && BlocksValid() && currBlk != null
      ensures c < |blks| && blks[c] == currBlk == old(StartBlk())
      ensures currUse * 5 < 0x1_0000_0000 && totUse * 4 < 0x1_0000_0000 ==>
                currBlk == if 100 * currUse < 80 * totUse then hdBlk else old(currBlk)
      ensures currBlk == if currUse * 5 % 0x1_0000_0000 < totUse * 4 % 0x1_0000_0000 then hdBlk else old(currBlk)
    {
      if Inefficient() {
        currBlk := hdBlk;
        c := 0;
      } else {
        c :| c < |blks| && blks[c] == currBlk;
      }
    }

    lemma NoneTried(n: nat, c: nat, ms: seq<nat>, ns: seq<nat>)
      requires |views| == |blks| && ms == Bounds() && ns == Counted()
      ensures Looked(blks, views, ms, ns, n, c, c, |blks|)
    {
    }

    /** The search of MSA::alloc through the existing blocks, from the current block or, when
        memory is used inefficiently, from the head. */
    method Search(reqLen: nat) returns (blk: SegBlk?, descr: nat, ghost c: nat, ghost k: nat)
      requires ListValid() && BlocksValid() && currBlk != null
      requires QUANT <= reqLen && reqLen % QUANT == 0
      modifies `currBlk
      modifies (set b | b in blks)`maxFreeSegLen, (set b | b in blks)`nAllocSeg, (set b | b in blks)`nFreeSeg
      modifies (set b | b in blks)`hdFreeSeg, (set b | b in blks)`segs, Mems(blks)
      ensures ListValid() && currBlk != null && c < |blks| && CachesKept()
      ensures currBlk == blks[c] == old(StartBlk())
      ensures currUse * 5 < 0x1_0000_0000 && totUse * 4 < 0x1_0000_0000 ==>
                currBlk == if 100 * currUse < 80 * totUse then hdBlk else old(currBlk)
      ensures forall b | b in blks && b != blk :: SameMem(b)
      ensures blk == null ==> BlocksValid() && PassesAll(old(Bounds()), views, reqLen)
      ensures blk != null ==> Carved(blk, k, descr, reqLen) && DataSame(blk, views[k])
      ensures blk != null ==> FirstTaken(old(Bounds()), views, c, k, reqLen)
      ensures SearchedAll(blks, views, old(Bounds()), old(Counted()), reqLen, descr, c,
                          if blk == null then |blks| else k)
    {
      hide ListOk, Live, ListValid, Chained, FirstTaken, SegBlk.Valid, AllBounded, Books, AllExact, PassesAt, Looked,
        Served, Inefficient, AllSeparate, PassesAll, FreeSet;
      ghost var ms, ns := Bounds(), Counted();
      c := ChooseStart();
      NoneTried(reqLen, c, ms, ns);
      blk, descr, k := SearchForwards(c, reqLen, ms, ns);
      if blk == null {
        blk, descr, k := SearchBackwards(c, reqLen, ms, ns);
      }
      SearchedOrder(blks, views, ms, ns, reqLen, descr, c, if blk == null then |blks| else k);
    }

    /** MSA_GC::addBlk: growth is switched off while collection is enabled, unless allowed. */
    method AddBlk(reqLen: nat, base: nat) returns (res: int)
      requires Valid() && reqLen % QUANT == 0
      requires base != NULL ==> Room(base, NewBlkLen(reqLen))
      modifies `enabled, `hdBlk, `tlBlk, `totUse, `nBlk, `blks, `views, (set b | b in blks)`next
      ensures Valid()
      ensures res == if (!old(enabled) || enableAddBlk) && base != NULL then 0 else -1
      ensures enabled == (old(enabled) || enableAddBlk)
      ensures res < 0 ==> blks == old(blks) && views == old(views)
      ensures res == 0 ==> Grown(base, NewBlkLen(reqLen))
      ensures CachesKept()
    {
      hide ListOk, ListValid;
      if !enabled || enableAddBlk {
        res := AddBlkBase(reqLen, base);
        if enableAddBlk {
          enabled := true;
        }
      } else {
        res := -1;
      }
    }

    /** The segment at descr, just carved off in the k-th block, enters the books. */
    method Enter(blk: SegBlk, ghost k: nat, descr: nat, reqLen: nat)
      requires blkLen % QUANT == HDR % QUANT && HDR + QUANT <= blkLen < WORD && this !in Mems(blks)
      requires ListValid() && BooksValid() && k < |blks| == |views| && blks[k] == blk
      requires BlocksOk(blks, views[k := blk.segs])
      requires Live(blk.segs) == Live(views[k])[descr := Seg(reqLen, true, false, false)]
      requires descr !in Live(views[k])
      modifies `currBlk, `nSeg, `currUse, `maxUse, `views, `live
      ensures Valid()
      ensures currBlk == blk && descr > 0 && views == old(views)[k := blk.segs]
      ensures descr !in old(live) && live == old(live)[descr := Seg(reqLen, true, false, false)]
      ensures blk.data <= descr && descr + reqLen <= blk.End()
      ensures maxUse == Larger(old(maxUse), currUse)
    {
      hide BlocksOk, BlockAt, Chained, Books, Mems, AllSeparate, Live;
      BooksEnter(blks, views, live, nBlk, totUse, nSeg, currUse, markCount, k, blk.segs, descr, reqLen);
      views := views[k := blk.segs];
      live := live[descr := Seg(reqLen, true, false, false)];
      assert ListValid();
      assert BlocksOk(blks, views);
      currBlk := blk;
      nSeg := nSeg + 1;
      currUse := currUse + reqLen;
      if currUse > maxUse {
        maxUse := currUse;
      }
      assert ListValid();
      assert BlocksOk(blks, views);
    }

    /** Since the old state the data of every segment that was and is allocated is the same. */
    twostate predicate DataKept()
      requires old(Valid())
      reads this, blks, Mems(blks)
    {
      forall i: nat {:trigger DataKeptAt(i)} | i < |old(blks)| && old(blks)[i] in blks :: DataKeptAt(i)
    }

    twostate predicate DataKeptAt(i: nat)
      requires i < |old(blks)| == |old(views)| && old(blks)[i] in blks
      reads this, blks, Mems(blks)
    {
      DataSame(old(blks)[i], Both(old(views)[i], live))
    }

    /** One segment, s at descr, has come to live, or none. */
    twostate predicate Gained(descr: nat, s: Seg)
      reads `live
    {
      if descr == NULL then live == old(live) else descr !in old(live) && live == old(live)[descr := s]
    }

    /** A segment is allocated in an existing block, if one is found that has room. */
    method AllocExisting(reqLen: nat) returns (blk: SegBlk?, descr: nat, ghost c: nat, ghost k: nat)
      requires Valid() && currBlk != null
      requires QUANT <= reqLen && reqLen % QUANT == 0
      modifies `currBlk, `nSeg, `currUse, `maxUse, `views, `live
      modifies (set b | b in blks)`maxFreeSegLen, (set b | b in blks)`nAllocSeg, (set b | b in blks)`nFreeSeg
      modifies (set b | b in blks)`hdFreeSeg, (set b | b in blks)`segs, Mems(blks)
      ensures Valid() && CachesKept()
      ensures blk == null ==> PassesAll(old(Bounds()), views, reqLen)
      ensures blk != null ==> FirstTaken(old(Bounds()), old(views), c, k, reqLen)
      ensures c < |blks| && blks[c] == old(StartBlk())
      ensures SearchedAll(blks, old(views), old(Bounds()), old(Counted()), reqLen, descr, c,
                          if blk == null then |blks| else k)
      ensures maxUse == Larger(old(maxUse), currUse)
      ensures forall b | b in blks && b != blk :: SameMem(b)
      ensures blk == null ==> live == old(live) && views == old(views) && currBlk == blks[c] && currUse == old(currUse)
      ensures blk != null ==> k < |blks| && currBlk == blk == blks[k] && views == old(views)[k := blk.segs]
      ensures blk != null ==> FirstFit(old(views)[k], blk.segs, descr, Plain(reqLen)) && DataSame(blk, old(views)[k])
      ensures blk != null ==> descr != NULL && Gained(descr, Plain(reqLen)) && blk.data <= descr < blk.End()
    {
      hide BlocksOk, AllBounded, AllExact, AllSeparate, Chained, Mems, SameMem, BlockAt, ListOk, CachesKept,
        ListValid, Books, PassesAll, FirstTaken;
      blk, descr, c, k := Search(reqLen);
      if blk != null {
        Enter(blk, k, descr, reqLen);
      }
    }

    /** The last block serves the request, unless wrap-around made it too short. */
    method AllocIn(blk: SegBlk, ghost k: nat, reqLen: nat) returns (descr: nat)
      requires Valid() && k < |blks| && blks[k] == blk && blk.hdFreeSeg != NULL
      requires QUANT <= reqLen && reqLen % QUANT == 0
      modifies `currBlk, `nSeg, `currUse, `maxUse, `views, `live
      modifies blk`maxFreeSegLen, blk`nAllocSeg, blk`nFreeSeg, blk`hdFreeSeg, blk`segs, blk.mem
      ensures Valid() && CachesKept()
      ensures Gained(descr, Plain(reqLen))
      ensures descr == NULL ==> NoFit(old(views)[k], reqLen) && currBlk == old(currBlk)
      ensures descr != NULL ==> currBlk == blk && blk.data <= descr && descr + reqLen <= blk.End()
      ensures descr == NULL ==> IsLongest(old(views)[k], blk.maxFreeSegLen) && blk.nAllocSeg == old(blk.nAllocSeg)
      ensures descr != NULL ==> Served(blk, old(views)[k], old(blk.maxFreeSegLen), old(blk.nAllocSeg), reqLen, descr)
      ensures maxUse == Larger(old(maxUse), currUse)
      ensures forall b | b in blks && b != blk :: SameMem(b)
    {
      descr := FitBlk(blk, k, reqLen);
      if descr != NULL {
        Enter(blk, k, descr, reqLen);
      }
    }

    /** The new block serves the request if it is long enough. */
    method ServeNew(blk: SegBlk, ghost k: nat, reqLen: nat) returns (descr: nat)
      requires Valid() && k < |blks| && blks[k] == blk && blk.hdFreeSeg != NULL
      requires blk.len >= HDR && blk.segs == map[blk.data := FreeSeg(blk.len - HDR)]
      requires QUANT <= reqLen && reqLen % QUANT == 0
      modifies `currBlk, `nSeg, `currUse, `maxUse, `views, `live
      modifies blk`maxFreeSegLen, blk`nAllocSeg, blk`nFreeSeg, blk`hdFreeSeg, blk`segs, blk.mem
      ensures Valid() && CachesKept()
      ensures Gained(descr, Plain(reqLen))
      ensures descr != NULL <==> reqLen <= blk.len - HDR
      ensures currBlk == if descr == NULL then old(currBlk) else blk
      ensures descr != NULL ==> blk.data <= descr < blk.End()
      ensures blk.nAllocSeg == old(blk.nAllocSeg) + if descr == NULL then 0 else 1
      ensures blk.maxFreeSegLen == blk.len - HDR - if descr == NULL then 0 else reqLen
      ensures maxUse == Larger(old(maxUse), currUse)
      ensures forall b | b in blks && b != blk :: SameMem(b)
    {
      assert BlockAt(blks, views, k);
      descr := AllocIn(blk, k, reqLen);
      if descr == NULL {
        WholeFits(blk.data, blk.len - HDR, reqLen);
      }
    }

    /** A block of n bytes that the system had room for at base was appended. */
    twostate predicate NewBlock(base: nat, n: nat)
      reads `blks
    {
      && Extended()
      && var b := blks[|old(blks)|]; fresh(b) && fresh(b.mem) && b.data == base + HDR && b.len == n
    }

    /** Since the old state one block was appended to the list. */
    twostate predicate Extended()
      reads `blks
    {
      |blks| == |old(blks)| + 1 && blks[..|old(blks)|] == old(blks)
    }

    /** A block for n bytes was asked for. It is refused exactly when growth is switched off or
        the system has no memory (base is NULL), and serves the request exactly when its length
        does not wrap around. cur is the current block without it. */
    twostate predicate Grew(descr: nat, n: nat, base: nat, cur: SegBlk?)
      reads `blks, `enabled, `enableAddBlk, `errCode, `currBlk
    {
      && (blks == old(blks) <==> (old(enabled) && !enableAddBlk) || base == NULL)
      && (blks != old(blks) ==> NewBlock(base, NewBlkLen(n)))
      && (descr != NULL <==> blks != old(blks) && n + HDR < WORD)
      && enabled == (old(enabled) || enableAddBlk)
      && errCode == (if blks == old(blks) then -1 else old(errCode))
      && currBlk == (if descr == NULL then cur else blks[|old(blks)|])
    }

    /** The bound and the count of the last block, new, after a request for n bytes: it is full but for
        the segment at descr, if one was carved off. */
    ghost predicate LastCache(descr: nat, n: nat)
      reads `blks, (set b | b in blks)`maxFreeSegLen, (set b | b in blks)`nAllocSeg
    {
      && blks != []
      && var b := blks[|blks| - 1];
         if descr == NULL then b.nAllocSeg == 0 && b.maxFreeSegLen == b.len - HDR
         else b.nAllocSeg == 1 && b.maxFreeSegLen == b.len - HDR - n
    }

    /** A segment is allocated in a new block. */
    method AllocNew(reqLen: nat, base: nat) returns (descr: nat)
      requires Valid()
      requires QUANT <= reqLen < WORD && reqLen % QUANT == 0
      requires base != NULL ==> Room(base, NewBlkLen(reqLen))
      modifies `errCode, `enabled, `hdBlk, `tlBlk, `totUse, `nBlk, `blks, `views, (set b | b in blks)`next
      modifies `currBlk, `nSeg, `currUse, `maxUse, `live
      ensures Valid() && CachesKept()
      ensures Gained(descr, Plain(reqLen)) && Grew(descr, reqLen, base, old(currBlk))
      ensures descr != NULL ==> currBlk != null && currBlk.data <= descr < currBlk.End()
      ensures maxUse == Larger(old(maxUse), currUse)
      ensures blks != old(blks) ==> LastCache(descr, reqLen)
      ensures forall b | b in old(blks) :: SameMem(b) && SameCounts(b)
    {
      hide BlocksOk, AllBounded, AllExact, AllSeparate, Mems, Live, FreeSet, BlockAt, Books, SegBlk.Exact,
        SegBlk.Bounded;
      BlkLenForOk(blkLen, reqLen);
      var res := AddBlk(reqLen, base);
      if res < 0 {
        errCode := res;
        return NULL;
      }
      descr := ServeNew(tlBlk, |blks| - 1, reqLen);
    }

    /** No existing block serves a request for n bytes: there is no search without a current
        block, and every block is passed over with one. */
    ghost predicate Unserved(n: nat)
      reads `blks, `views, `currBlk, blks
    {
      currBlk == null || PassesAll(Bounds(), views, n)
    }

    /** The block at which the search begins: the head where less than 80% of the bytes in blocks are
        in use; where the 32-bit products wrap around, their rests are compared. */
    ghost function StartBlk(): (b: SegBlk?)
      reads `currUse, `totUse, `hdBlk, `currBlk
      ensures currBlk != null && currUse * 5 < 0x1_0000_0000 && totUse * 4 < 0x1_0000_0000 ==>
                b == if 100 * currUse < 80 * totUse then hdBlk else currBlk
    {
      if currBlk != null && currUse * 5 % 0x1_0000_0000 < totUse * 4 % 0x1_0000_0000 then hdBlk else currBlk
    }

    /** A request for the segment s was dealt with. Where an existing block could serve it, the
        first one in the order of the search did, first fit: the k-th, the search having begun
        at the c-th. Otherwise growth was asked for. */
    twostate predicate Dealt(descr: nat, s: Seg, base: nat, c: nat, k: nat)
      requires |old(blks)| == |old(views)| && |blks| == |views|
      reads `blks, `views, `live, `enabled, `enableAddBlk, `errCode, `currBlk, `maxUse, `currUse
    {
      && Gained(descr, s)
      && (descr != NULL ==> currBlk != null && currBlk.data <= descr < currBlk.End())
      && maxUse == Larger(old(maxUse), currUse)
      && if old(Unserved(s.len)) then Grew(descr, s.len, base, old(StartBlk()))
         else
           && descr != NULL && blks == old(blks) && enabled == old(enabled) && errCode == old(errCode)
           && c < |blks| && blks[c] == old(StartBlk())
           && FirstTaken(old(Bounds()), old(views), c, k, s.len) && k < |blks| && currBlk == blks[k]
           && FirstFit(old(views)[k], views[k], descr, s)
    }

    /** How a request for n bytes is met. */
    ghost function SearchOf(n: nat): Course
      reads `blks, `views, `currBlk, blks
    {
      if currBlk == null then Skipped else if Unserved(n) then InVain else Successful
    }

    /** The bounds and counts of the blocks after a request for n bytes. */
    twostate predicate Cached(n: nat, descr: nat, c: nat, k: nat)
      requires forall b | b in old(blks) :: b in blks
      reads `blks, (set b | b in blks)`maxFreeSegLen, (set b | b in blks)`nAllocSeg
    {
      CachedSince(old(blks), old(views), old(Bounds()), old(Counted()), old(SearchOf(n)), n, descr, c, k)
    }

    /** The same, where the blocks were bs with segments ss, bounds ms and counts ns. */
    ghost predicate CachedSince(bs: seq<SegBlk>, ss: seq<SegMap>, ms: seq<nat>, ns: seq<nat>, course: Course,
                                n: nat, descr: nat, c: nat, k: nat)
      requires forall b | b in bs :: b in blks
      reads `blks, (set b | b in blks)`maxFreeSegLen, (set b | b in blks)`nAllocSeg
    {
      && CachesAfter(bs, ss, ms, ns, course, n, descr, c, k)
      && (blks != bs ==> LastCache(descr, n))
    }

    /** MSA::alloc from the rounding on. */
    method AllocRounded(reqLen: nat, base: nat) returns (descr: nat, ghost c: nat, ghost k: nat)
      requires Valid() && QUANT <= reqLen < WORD && reqLen % QUANT == 0
      requires base != NULL ==> Room(base, NewBlkLen(reqLen))
      modifies `errCode, `enabled, `nBlk, `nSeg, `totUse, `maxUse, `currUse, `hdBlk, `tlBlk, `currBlk
      modifies `blks, `views, `live, blks, Mems(blks)
      ensures Valid() && DataKept() && CachesKept()
      ensures Dealt(descr, Plain(reqLen), base, c, k)
      ensures Cached(reqLen, descr, c, k)
    {
      hide FirstFit, Live, SameData, AllExact, HasCurrent, AllSeparate, NoFit, AllBounded, Inefficient, DataKept,
        Mems, ListOk, ListValid, Chained, Room, FreeSet, SegBlk.Valid, BlockAt, Framed, Served, Books, LastCache;
      c, k := 0, 0;
      if currBlk != null {
        var blk;
        blk, descr, c, k := AllocExisting(reqLen);
        if blk != null {
          SameDataBoth(old(views)[k], live, blk.data, old(blk.mem[..]), blk.mem[..]);
          KeptButOne(k);
          return;
        }
      }
      descr := AllocNew(reqLen, base);
      SameMemKept();
    }

    /** Where every bound is right, blocks are passed over only because nothing fits. */
    lemma UnservedWhen(n: nat)
      requires Valid() && AllBounded() && HasCurrent()
      ensures Unserved(n) <==> forall j: nat | j < |views| :: NoFit(views[j], n)
    {
      forall j: nat | j < |blks| ensures PassesAt(Bounds(), views, j, n) <==> NoFit(views[j], n) {
        assert BlockAt(blks, views, j) && blks[j].Bounded();
      }
    }

    /** MSA::alloc. The address of the new segment's data is returned, or NULL; base is what
        the system would return for a new block. When an existing block served the request, it
        is the k-th, and the search began at the c-th. */
    method Alloc(reqLen0: nat, base: nat) returns (seg: nat, ghost c: nat, ghost k: nat)
      requires Valid() && reqLen0 < WORD && (reqLen0 > 0 ==> AllocLen(reqLen0) > 0)
      requires base != NULL ==> Room(base, NewBlkLen(AllocLen(reqLen0)))
      modifies `errCode, `enabled, `nBlk, `nSeg, `totUse, `maxUse, `currUse, `hdBlk, `tlBlk, `currBlk
      modifies `blks, `views, `live, blks, Mems(blks)
      ensures Valid() && DataKept() && CachesKept()
      ensures Framed()
      ensures seg != NULL ==> seg > DESCR
      ensures reqLen0 == 0 ==> seg == NULL && NothingDone()
      ensures reqLen0 > 0 ==> Dealt(if seg == NULL then NULL else seg - DESCR, Plain(AllocLen(reqLen0)), base, c, k)
      // The cached bounds and counts, right or not, of the old blocks and the new one.
      ensures reqLen0 == 0 ==> forall b | b in old(blks) :: SameCounts(b)
      ensures reqLen0 > 0 ==> Cached(AllocLen(reqLen0), if seg == NULL then NULL else seg - DESCR, c, k)
      // The 80% rule, where no product wraps around.
      ensures old(currBlk) != null && old(currUse) * 5 < 0x1_0000_0000 && old(totUse) * 4 < 0x1_0000_0000 ==>
                old(StartBlk()) == if 100 * old(currUse) < 80 * old(totUse) then old(hdBlk) else old(currBlk)
      // The current block is lost exactly when the length of a first block wraps around.
      ensures old(HasCurrent()) ==>
                (!HasCurrent() <==> old(currBlk) == null && blks != old(blks) && AllocLen(reqLen0) + HDR >= WORD)
    {
      hide Cached, CachesAfter, SearchOf, CachedSince, Gained, BlocksValid, Bounds, Unserved, PassesAll, FirstFit;
      c, k := 0, 0;
      if reqLen0 == 0 {
        SameMemKept();
        return NULL, c, k;
      }
      var descr;
      descr, c, k := AllocRounded(AllocLen(reqLen0), base);
      NothingElse();
      seg := if descr == NULL then NULL else descr + DESCR;
    }

    /** Since the old state nothing of what alloc changes was changed. */
    twostate predicate NothingDone()
      reads this
    {
      && blks == old(blks) && views == old(views) && live == old(live) && currBlk == old(currBlk)
      && maxUse == old(maxUse) && currUse == old(currUse) && enabled == old(enabled) && errCode == old(errCode)
    }

    twostate lemma SameMemKept()
      requires old(Valid())
      requires forall b | b in old(blks) :: SameMem(b)
      ensures DataKept()
    {
      forall i: nat | i < |old(blks)| && old(blks)[i] in blks ensures DataKeptAt(i) {
        ghost var b := old(blks)[i];
        assert SameMem(b);
        SameDataSame(Both(old(views)[i], live), b.data, b.mem[..]);
      }
    }

    twostate lemma KeptButOne(k: nat)
      requires old(Valid()) && k < |old(blks)| && blks == old(blks)
      requires DataSame(old(blks)[k], Both(old(views)[k], live))
      requires forall b | b in old(blks) && b != old(blks)[k] :: SameMem(b)
      ensures DataKept()
    {
      forall i: nat | i < |old(blks)| && old(blks)[i] in blks ensures DataKeptAt(i) {
        ghost var b := old(blks)[i];
        if b == old(blks)[k] {
          Distinct(old(blks));
        } else {
          assert SameMem(b);
          SameDataSame(Both(old(views)[i], live), b.data, b.mem[..]);
        }
      }
    }

    /** A live segment lies in the data area of one block and is allocated there. */
    lemma Located(a: nat) returns (k: nat)
      requires Valid() && a in live
      ensures k < |blks| == |views| && a in Live(views[k]) && live[a] == views[k][a]
      ensures blks[k].data <= a && a + live[a].len <= blks[k].End() && SegOk(live[a])
      ensures forall j | 0 <= j < |views| && j != k :: a !in Live(views[j])
    {
      UnionIs(live, views);
      LiveAllHas(views, a);
      k :| k < |views| && a in Live(views[k]);
      assert BlockAt(blks, views, k);
      assert Inside(views[k], blks[k].data, blks[k].End(), a);
      LiveHere(blks, views, live, k, a);
      ViewsApart(blks, views, k, a);
    }

    /** Live segments do not overlap, and each is a whole number of quanta. */
    lemma LiveLayout(a: nat, b: nat)
      requires Valid() && a in live && b in live && a < b
      ensures a + live[a].len <= b
      ensures live[a].alloc && live[a].len % QUANT == 0 && live[a].len >= QUANT
    {
      var k := Located(a);
      var j := Located(b);
      if j == k {
        assert BlockAt(blks, views, k);
        assert Apart(views[k], a, b);
      } else {
        assert Separate(blks[if j < k then j else k], blks[if j < k then k else j]);
      }
    }

    /** The collectable flag is set in the descriptor at a. */
    method Tag(a: nat)
      requires Valid() && a in live && live[a] == Plain(live[a].len)
      modifies `nSeg, `currUse, `markCount, `views, `live, (set b | b in blks)`segs, Mems(blks)
      ensures Valid() && DataKept()
      ensures a in old(live) && live == old(live)[a := old(live)[a].(gc := true)]
      ensures blks == old(blks) && currUse == old(currUse) && CachesKept()
      ensures |views| == |old(views)| && forall j: nat {:trigger views[j]} | j < |views| ::
                TaggedAt(old(views)[j], views[j], a)
    {
      hide AllExact, AllBounded, Both, Counts, Chained;
      ghost var k := Located(a);
      var blk := Home(a);
      LiveHere(blks, views, live, k, a);
      WordHere(blks, views, k, a);
      ghost var s := live[a];
      FlagsOf(s);
      label L:
      assert forall b | b in blks :: SameMem(b);
      Reflag(blk, k, a, SetFlag(blk.mem[a - blk.data], GC_FLAG), s.(gc := true), 0);
      forall i: nat | i < |old(blks)| && old(blks)[i] in blks ensures DataKeptAt(i) {
        assert DataKeptAt@L(i);
      }
    }

    /** Every block, with its words, is one of before or a new one. */
    twostate predicate Framed()
      reads `blks
    {
      && (forall i: nat {:trigger blks[i]} | i < |blks| :: blks[i] in old(blks) || fresh(blks[i]))
      && (forall o | o in Mems(blks) :: o in old(Mems(blks)) || fresh(o))
    }

    /** The blocks are those of before, and perhaps a new one. */
    twostate lemma NothingElse()
      requires blks == old(blks) || (Extended() && fresh(blks[|old(blks)|]) && fresh(blks[|old(blks)|].mem))
      ensures Framed()
    {
      forall i: nat | i < |blks| ensures blks[i] in old(blks) || (fresh(blks[i]) && fresh(blks[i].mem)) {
        assert i < |old(blks)| ==> blks[i] == blks[..|old(blks)|][i];
      }
    }

    /** The blocks are some of those of before. */
    twostate lemma NoneNew()
      requires forall b {:trigger b in blks} | b in blks :: b in old(blks)
      ensures Framed()
    {
      assert forall i: nat {:trigger blks[i]} | i < |blks| :: blks[i] in blks;
    }

    /** What was allocated in the i-th block still is. */
    twostate lemma StillThere(i: nat)
      requires old(Valid()) && Valid() && Apart2(old(views))
      requires i < |old(blks)| && i < |blks| && blks[i] == old(blks)[i]
      requires forall a | a in old(live) :: a in live && live[a] == old(live)[a]
      ensures i < |old(views)| && i < |views|
      ensures KeepsAll(old(views)[i], views[i])
    {
      forall a | a in Live(old(views)[i]) ensures a in Live(views[i]) && views[i][a].len == old(views)[i][a].len {
        assert old(BlockAt(blks, views, i));
        assert Inside(old(views)[i], blks[i].data, blks[i].End(), a);
        OthersApart(old(views), i, a);
        LiveAllOnly(old(views), i, a);
        UnionIs(old(live), old(views));
        LiveHere(blks, views, live, i, a);
      }
    }

    /** The owner of the live segment at a writes v to the word at address x of its data:
        nothing that the allocator relies on lies there, and no other data. */
    method Store(x: nat, v: nat, ghost a: nat)
      requires Valid() && a in live && a + DESCR <= x && x + DESCR <= a + live[a].len
      modifies Mems(blks)
      ensures Valid()
      ensures forall b | b in blks :: b.mem[..] == if b.data <= x < b.End() then old(b.mem[..])[x - b.data := v]
                                                   else old(b.mem[..])
      ensures forall i: nat {:trigger blks[i]} | i < |blks| :: DataSame(blks[i], views[i] - {a})
    {
      ghost var k := Located(a);
      var blk := Home(x);
      LiveHere(blks, views, live, k, x);
      assert BlockAt(blks, views, k);
      Distinct(blks);
      blk.Store(x, v, a);
      OthersKept(k);
      assert views[k := blk.segs] == views;
      assert ListValid();
    }

    /** The words of the blocks. */
    ghost function Words(): (ws: seq<seq<nat>>)
      reads `blks, Mems(blks)
      ensures |ws| == |blks| && forall i: nat {:trigger ws[i]} | i < |blks| :: ws[i] == blks[i].mem[..]
    {
      var bs := blks;
      seq(|bs|, i requires 0 <= i < |bs| reads Mems(bs) => bs[i].mem[..])
    }

    /** The first blocks are bs; what was allocated in the i-th as in ss still is, and its data is
        that of the words ws. */
    ghost predicate KeptSince(bs: seq<SegBlk>, ss: seq<SegMap>, ws: seq<seq<nat>>)
      reads `blks, `views, `live, Mems(bs)
    {
      && |bs| == |ss| == |ws| && |bs| <= |blks| == |views| && blks[..|bs|] == bs
      && forall i: nat {:trigger KeptSinceAt(bs, ss, ws, i)} | i < |bs| :: KeptSinceAt(bs, ss, ws, i)
    }

    ghost predicate KeptSinceAt(bs: seq<SegBlk>, ss: seq<SegMap>, ws: seq<seq<nat>>, i: nat)
      requires i < |bs| == |ss| == |ws| && i < |views|
      reads `views, `live, Mems(bs)
    {
      KeepsAll(ss[i], views[i]) && SameData(Both(ss[i], live), bs[i].data, ws[i], bs[i].mem[..])
    }

    /** After an allocation everything allocated is where it was. */
    twostate lemma StillKept(ws: seq<seq<nat>>)
      requires old(Valid()) && Valid() && DataKept() && ws == old(Words())
      requires (blks == old(blks) || Extended()) && Apart2(old(views))
      requires forall a | a in old(live) :: a in live && live[a] == old(live)[a]
      ensures KeptSince(old(blks), old(views), ws)
    {
      forall i: nat | i < |old(blks)| ensures i < |views| && KeptSinceAt(old(blks), old(views), ws, i) {
        assert blks[i] == blks[..|old(blks)|][i] == old(blks)[i];
        StillThere(i);
        assert DataKeptAt(i);
      }
    }

    twostate lemma KeptSinceIs(ws: seq<seq<nat>>)
      requires old(Valid()) && ws == old(Words()) && KeptSince(old(blks), old(views), ws)
      ensures DataKept()
    {
      forall i: nat | i < |old(blks)| && old(blks)[i] in blks ensures DataKeptAt(i) {
        assert KeptSinceAt(old(blks), old(views), ws, i);
      }
    }

    /** The new segment at a becomes collectable; older data stays. */
    method TagSince(a: nat, ghost bs: seq<SegBlk>, ghost ss: seq<SegMap>, ghost ws: seq<seq<nat>>,
                    ghost ms: seq<nat>, ghost ns: seq<nat>, ghost course: Course, ghost n: nat, ghost c: nat,
                    ghost k: nat)
      requires Valid() && a in live && live[a] == Plain(live[a].len) && KeptSince(bs, ss, ws)
      requires (forall b | b in bs :: b in blks) && CachedSince(bs, ss, ms, ns, course, n, a, c, k)
      modifies `nSeg, `currUse, `markCount, `views, `live, (set b | b in blks)`segs, Mems(blks)
      ensures Valid() && CachesKept() && KeptSince(bs, ss, ws)
      ensures (forall b | b in bs :: b in blks) && CachedSince(bs, ss, ms, ns, course, n, a, c, k)
      ensures a in old(live) && live == old(live)[a := old(live)[a].(gc := true)]
      ensures blks == old(blks) && currUse == old(currUse)
      ensures |views| == |old(views)| && forall j: nat {:trigger views[j]} | j < |views| ::
                TaggedAt(old(views)[j], views[j], a)
    {
      hide CachesAfter, LastCache;
      Tag(a);
      forall i: nat | i < |bs| ensures KeptSinceAt(bs, ss, ws, i) {
        ghost var b := bs[i];
        assert b == blks[..|bs|][i] == blks[i];
        assert old(KeptSinceAt(bs, ss, ws, i)) && DataKeptAt(i);
        TaggedKeeps(ss[i], old(views)[i], views[i], a);
        KeptTwice(ss[i], old(live), old(views)[i], live, b.data, ws[i], old(b.mem[..]), b.mem[..]);
      }
    }

    /** MSA_GC::allocGC: as MSA::alloc, but the new segment is collectable. */
    method AllocGC(reqLen: nat, base: nat) returns (seg: nat, ghost c: nat, ghost k: nat)
      requires Valid() && reqLen < WORD && (reqLen > 0 ==> AllocLen(reqLen) > 0)
      requires base != NULL ==> Room(base, NewBlkLen(AllocLen(reqLen)))
      modifies `errCode, `enabled, `nBlk, `nSeg, `totUse, `maxUse, `currUse, `hdBlk, `tlBlk, `currBlk, `markCount
      modifies `blks, `views, `live, blks, Mems(blks)
      ensures Valid() && DataKept() && CachesKept()
      ensures Framed()
      ensures seg != NULL ==> seg > DESCR
      ensures reqLen == 0 ==> seg == NULL && NothingDone()
      ensures reqLen > 0 ==>
                Dealt(if seg == NULL then NULL else seg - DESCR, Seg(AllocLen(reqLen), true, true, false), base, c, k)
      ensures reqLen == 0 ==> forall b | b in old(blks) :: SameCounts(b)
      ensures reqLen > 0 ==> Cached(AllocLen(reqLen), if seg == NULL then NULL else seg - DESCR, c, k)
      // The 80% rule, where no product wraps around.
      ensures old(currBlk) != null && old(currUse) * 5 < 0x1_0000_0000 && old(totUse) * 4 < 0x1_0000_0000 ==>
                old(StartBlk()) == if 100 * old(currUse) < 80 * old(totUse) then old(hdBlk) else old(currBlk)
      ensures old(HasCurrent()) ==>
                (!HasCurrent() <==> old(currBlk) == null && blks != old(blks) && AllocLen(reqLen) + HDR >= WORD)
    {
      hide CachedSince, SearchOf, Unserved, Bounds, Counted, AllExact, AllBounded, FirstFit, TaggedAt, KeptSince,
        DataKeptAt, Live, Mems, Inefficient, FirstTaken, PassesAll, BooksValid, SameData, BlockAt, AllSeparate,
        Chained;
      ghost var bs, ss, ws, ms, ns, course := blks, views, Words(), Bounds(), Counted(), SearchOf(AllocLen(reqLen));
      AllApart(bs, ss);
      seg, c, k := Alloc(reqLen, base);
      if seg != NULL {
        StillKept(ws);
        ghost var mid := views;
        TagSince(seg - DESCR, bs, ss, ws, ms, ns, course, AllocLen(reqLen), c, k);
        KeptSinceIs(ws);
        if !old(Unserved(AllocLen(reqLen))) {
          TaggedFit(ss[k], mid[k], views[k], seg - DESCR, AllocLen(reqLen));
        }
      }
    }

    // ---- Freeing ----

    /** The block whose memory holds the word at address a: what dereferencing a does. */
    method Home(a: nat) returns (blk: SegBlk)
      requires ListValid() && exists b :: b in blks && b.data <= a < b.End()
      ensures blk in blks && blk.data <= a < blk.End()
    {
      ghost var i := 0;
      var b: SegBlk := hdBlk;
      while !(b.data <= a && a < b.End())
        invariant i < |blks| && b == blks[i]
        invariant forall j | 0 <= j < i :: !(blks[j].data <= a < blks[j].End())
        decreases |blks| - i
      {
        assert ChainedAt(blks, i);
        b := b.next;
        i := i + 1;
      }
      blk := b;
    }

    /** The only segment of its block is freed: the block leaves the list. */
    method FreeLast(blk: SegBlk, ghost k: nat, descr: nat)
      requires Valid() && k < |blks| && blks[k] == blk && blk.nAllocSeg == 1
      requires descr in Live(views[k]) && !views[k][descr].gc
      modifies `nSeg, `currUse, `totUse, `nBlk, `live, `hdBlk, `tlBlk, `currBlk, `blks, `views
      modifies blk`nAllocSeg, blk.mem, (set b | b in blks)`prev, (set b | b in blks)`next
      ensures Valid()
      ensures live == old(live) - {descr}
      ensures blks == RemoveAt(old(blks), k) && Live(old(views)[k]).Keys == {descr}
      ensures old(HasCurrent()) ==> HasCurrent()
      ensures currBlk == if old(currBlk) == blk then hdBlk else old(currBlk)
      ensures forall b | b in old(blks) && b != blk :: Alike(b)
    {
      FreeFacts(k, descr);
      BooksDropLast(blks, views, live, nBlk, totUse, nSeg, currUse, markCount, k, descr);
      var len := ClearLast(blk, k, descr);
      Retire(blk, k, 1, len, live - {descr});
    }

    /** The k-th block leaves the books and the list; n segments of len bytes went with it. */
    method Retire(blk: SegBlk, ghost k: nat, n: nat, len: nat, ghost left: SegMap)
      requires blkLen % QUANT == HDR % QUANT && HDR + QUANT <= blkLen < WORD && this !in Mems(blks)
      requires ListValid() && k < |blks| == |views| && blks[k] == blk && currUse <= maxUse
      requires BlocksOk(RemoveAt(blks, k), RemoveAt(views, k))
      requires nBlk >= 1 && totUse >= blk.len && nSeg >= n && currUse >= len
      requires Books(RemoveAt(blks, k), RemoveAt(views, k), left, nBlk - 1, totUse - blk.len,
                     nSeg - n, currUse - len, markCount)
      requires currBlk == null ==> left == map[]
      modifies `nSeg, `currUse, `totUse, `nBlk, `live
      modifies `hdBlk, `tlBlk, `currBlk, `blks, `views, (set b | b in blks)`prev, (set b | b in blks)`next
      ensures Valid()
      ensures live == left && blks == RemoveAt(old(blks), k) && views == RemoveAt(old(views), k)
      ensures currUse == old(currUse) - len
      ensures blks != [] && old(currBlk) != null ==> currBlk != null
      ensures currBlk == if old(currBlk) == blk then hdBlk else old(currBlk)
    {
      hide ListValid, BlockAt, ListOk, Books;
      RemoveAtHas(blks, k);
      BooksNoBlocks(RemoveAt(blks, k), RemoveAt(views, k), left, nBlk - 1, totUse - blk.len,
                    nSeg - n, currUse - len, markCount);
      assert this !in Mems(RemoveAt(blks, k));
      nSeg := nSeg - n;
      currUse := currUse - len;
      totUse := totUse - blk.len;
      nBlk := nBlk - 1;
      live := left;
      assert ListValid();
      assert BlocksOk(RemoveAt(blks, k), RemoveAt(views, k));
      UnlinkValid(blk, k);
    }

    /** The segment's flag is cleared and the block's count goes to zero. */
    method ClearLast(blk: SegBlk, ghost k: nat, descr: nat) returns (len: nat)
      requires ListValid() && BlocksValid() && k < |blks| && blks[k] == blk
      requires descr in Live(views[k]) && !views[k][descr].gc && blk.nAllocSeg == 1
      modifies blk`nAllocSeg, blk.mem
      ensures len == views[k][descr].len
      ensures this !in Mems(RemoveAt(blks, k)) && BlocksOk(RemoveAt(blks, k), RemoveAt(views, k))
      ensures forall b | b in blks && b != blk :: Alike(b)
    {
      RemoveAtHas(blks, k);
      FreeFacts(k, descr);
      BlocksRemove(blks, views, k);
      RemovedApart(blks, k);
      Distinct(blks);
      blk.ClearAlloc(descr);
      len := blk.mem[descr - blk.data];
      blk.nAllocSeg := blk.nAllocSeg - 1;
    }

    /** The k-th block goes; the others are valid. */
    method UnlinkValid(blk: SegBlk, ghost k: nat)
      requires ListValid() && |views| == |blks| && k < |blks| && blks[k] == blk && this !in Mems(blks)
      requires this !in Mems(RemoveAt(blks, k)) && BlocksOk(RemoveAt(blks, k), RemoveAt(views, k))
      modifies `hdBlk, `tlBlk, `currBlk, `blks, `views, (set b | b in blks)`prev, (set b | b in blks)`next
      ensures ListValid() && BlocksValid()
      ensures blks == RemoveAt(old(blks), k) && views == RemoveAt(old(views), k)
      ensures currBlk == if old(currBlk) == blk then hdBlk else old(currBlk)
      ensures blks != [] && old(currBlk) != null ==> currBlk != null
    {
      ghost var bs := blks;
      RemoveAtHas(bs, k);
      views := RemoveAt(views, k);
      assert BlocksOk(RemoveAt(bs, k), views);
      Unlink(blk, k);
    }

    /** The segment is one of several of its block and goes back to the free list. */
    method FreeSome(blk: SegBlk, ghost k: nat, descr: nat)
      requires Valid() && k < |blks| && blks[k] == blk && blk.nAllocSeg > 1
      requires descr in Live(views[k]) && !views[k][descr].gc
      modifies `nSeg, `currUse, `markCount, `views, `live
      modifies blk`maxFreeSegLen, blk`nAllocSeg, blk`nFreeSeg, blk`hdFreeSeg, blk`segs, blk.mem
      ensures Valid()
      ensures live == old(live) - {descr}
      ensures CachesKept() && k < |views|
      ensures blk.nAllocSeg == old(blk.nAllocSeg) - 1
      ensures FreedMax(views[k], descr, old(blk.maxFreeSegLen), blk.maxFreeSegLen)
      ensures forall b | b in blks && b != blk :: SameMem(b)
      ensures DataSame(blk, old(views)[k] - {descr})
    {
      FreeFacts(k, descr);
      var len := Return(blk, k, descr);
      BooksDrop(blks, views, live, nBlk, totUse, nSeg, currUse, markCount, k, blk.segs, descr);
      Settle(blk, k, nSeg - 1, currUse - len, markCount, live - {descr});
    }

    /** The k-th block was changed: its segments and the counters are entered in the books. */
    method Settle(blk: SegBlk, ghost k: nat, n: nat, use: nat, marks: nat, ghost now: SegMap)
      requires blkLen % QUANT == HDR % QUANT && HDR + QUANT <= blkLen < WORD && this !in Mems(blks)
      requires ListValid() && k < |blks| == |views| && BlocksOk(blks, views[k := blk.segs])
      requires use <= maxUse && (currBlk == null ==> now == map[])
      requires Books(blks, views[k := blk.segs], now, nBlk, totUse, n, use, marks)
      modifies `nSeg, `currUse, `markCount, `views, `live
      ensures Valid()
      ensures live == now && views == old(views)[k := blk.segs]
      ensures nSeg == n && currUse == use && markCount == marks
    {
      views := views[k := blk.segs];
      live := now;
      nSeg := n;
      currUse := use;
      markCount := marks;
    }

    /** The segment at descr is freed inside its block. */
    method Return(blk: SegBlk, ghost k: nat, descr: nat) returns (len: nat)
      requires ListValid() && BlocksValid() && k < |blks| && blks[k] == blk && blk.nAllocSeg > 1
      requires descr in Live(views[k]) && !views[k][descr].gc
      modifies blk`maxFreeSegLen, blk`nAllocSeg, blk`nFreeSeg, blk`hdFreeSeg, blk`segs, blk.mem
      ensures len == views[k][descr].len
      ensures BlocksOk(blks, views[k := blk.segs])
      ensures Live(blk.segs) == Live(views[k]) - {descr}
      ensures CachesKept()
      ensures blk.nAllocSeg == old(blk.nAllocSeg) - 1
      ensures FreedMax(blk.segs, descr, old(blk.maxFreeSegLen), blk.maxFreeSegLen)
      ensures forall b | b in blks && b != blk :: SameMem(b)
      ensures DataSame(blk, views[k] - {descr})
    {
      hide FreeSet;
      FreeFacts(k, descr);
      Distinct(blks);
      ghost var w := blk.mem[..];
      CountRemove(Live(views[k]), descr);
      blk.ClearAlloc(descr);
      len := blk.mem[descr - blk.data];
      ghost var w1 := blk.mem[..];
      blk.nAllocSeg := blk.nAllocSeg - 1;
      ghost var into := blk.Insert(descr);
      SameDataStep(views[k], views[k] - {descr}, Live(views[k]) - {descr}, blk.data, w, w1, blk.mem[..]);
      SameDataLive(views[k] - {descr}, Live(views[k]) - {descr}, blk.data, w, blk.mem[..]);
      OthersKept(k);
      BoundedButOne(k);
    }

    /** The cached bounds and counts of the other blocks are as before. */
    twostate lemma BoundedButOne(k: nat)
      requires blks == old(blks) && k < |blks|
      requires old(blks[k].Bounded()) ==> blks[k].Bounded()
      requires old(blks[k].Exact()) ==> blks[k].Exact()
      requires forall b | b in old(blks) && b != blks[k] :: SameCache(b)
      ensures CachesKept()
    {
      forall i: nat | i < |blks|
        ensures old(blks[i].Bounded()) ==> blks[i].Bounded()
        ensures old(blks[i].Exact()) ==> blks[i].Exact()
      {
        assert blks[i] != blks[k] ==> SameCache(blks[i]);
      }
      if old(AllBounded()) {
        forall i: nat | i < |blks| ensures blks[i].Bounded() {
          assert old(blks[i].Bounded());
        }
      }
      if old(AllExact()) {
        forall i: nat | i < |blks| ensures blks[i].Exact() {
          assert old(blks[i].Exact());
        }
      }
    }

    /** What is known about the segment at descr of the k-th block. */
    lemma FreeFacts(k: nat, descr: nat)
      requires ListValid() && BlocksValid() && k < |blks|
      requires descr in Live(views[k]) && !views[k][descr].gc
      ensures views[k] == blks[k].segs && blks[k].Valid() && SegOk(views[k][descr])
      ensures blks[k].data <= descr < blks[k].End()
      ensures forall j | 0 <= j < |views| && j != k :: descr !in Live(views[j])
      ensures blks[k].nAllocSeg > 0
      ensures blks[k].nAllocSeg == 1 ==> Live(views[k]).Keys == {descr}
      ensures blks[k].Exact() && Live(views[k]).Keys == {descr} ==> blks[k].nAllocSeg == 1
    {
      assert BlockAt(blks, views, k);
      assert Inside(views[k], blks[k].data, blks[k].End(), descr);
      ViewsApart(blks, views, k, descr);
      OnlyOne(Live(views[k]), descr);
    }

    /** The k-th block loses the segment at descr, and leaves with its last one. */
    method FreeIn(blk: SegBlk, ghost k: nat, descr: nat)
      requires Valid() && k < |blks| && blks[k] == blk
      requires descr in Live(views[k]) && !views[k][descr].gc
      modifies `nSeg, `currUse, `totUse, `nBlk, `live, `hdBlk, `tlBlk, `currBlk, `blks, `views, `markCount
      modifies blks, Mems(blks)
      ensures Valid() && DataKept()
      ensures live == old(live) - {descr}
      ensures old(HasCurrent()) ==> HasCurrent()
      ensures CachesKept()
      ensures blks == old(blks) || (blks == RemoveAt(old(blks), k) && Live(old(views)[k]).Keys == {descr})
      ensures currBlk == if blks != old(blks) && old(currBlk) == blk then hdBlk else old(currBlk)
      ensures old(AllExact()) && Live(old(views)[k]).Keys == {descr} ==> blks == RemoveAt(old(blks), k)
      ensures blks == if old(blk.nAllocSeg) == 1 then RemoveAt(old(blks), k) else old(blks)
      ensures old(blk.nAllocSeg) != 1 ==>
                && blk.nAllocSeg == old(blk.nAllocSeg) - 1
                && FreedMax(views[k], descr, old(blk.maxFreeSegLen), blk.maxFreeSegLen)
      ensures forall b | b in old(blks) && b != blk :: SameCounts(b)
    {
      FreeFacts(k, descr);
      assert AllExact() ==> blks[k].Exact();
      if blk.nAllocSeg == 1 {
        FreeLast(blk, k, descr);
        KeptWithout(k);
      } else {
        FreeSome(blk, k, descr);
        SameDataBoth(old(views)[k] - {descr}, live, blk.data, old(blk.mem[..]), blk.mem[..]);
        assert Both(old(views)[k] - {descr}, live) == Both(old(views)[k], live);
        KeptButOne(k);
      }
    }

    /** The block that was removed does not count; the caches of the others are as before. */
    twostate lemma KeptWithout(k: nat)
      requires old(Valid()) && k < |old(blks)| && blks == RemoveAt(old(blks), k)
      requires forall b | b in old(blks) && b != old(blks)[k] :: Alike(b)
      ensures DataKept()
      ensures CachesKept()
    {
      RemovedApart(old(blks), k);
      forall i: nat | i < |old(blks)| && old(blks)[i] in blks ensures DataKeptAt(i) {
        ghost var b := old(blks)[i];
        assert Alike(b);
        SameDataSame(Both(old(views)[i], live), b.data, b.mem[..]);
      }
      forall i: nat | i < |blks| ensures old(AllBounded()) ==> blks[i].Bounded()
                                 ensures old(AllExact()) ==> blks[i].Exact() {
        ghost var j := if i < k then i else i + 1;
        Distinct(old(blks));
        assert blks[i] == old(blks)[j] && Alike(old(blks)[j]);
        assert old(AllBounded()) ==> old(blks[j].Bounded());
        assert old(AllExact()) ==> old(blks[j].Exact());
      }
    }

    /** The word at the descriptor of seg says that it is allocated only when it is. */
    ghost predicate Freeable(seg: nat)
      reads `blks, `live, blks, Mems(blks)
    {
      && seg >= DESCR
      && exists b :: b in blks && b.data <= seg - DESCR < b.End()
                     && (Has(b.mem[seg - DESCR - b.data], ALLOC_FLAG) ==> seg - DESCR in live && !live[seg - DESCR].gc)
    }

    /** The word before seg is read; whether its flag is set tells whether seg is live. */
    method Probe(seg: nat) returns (blk: SegBlk, flagged: bool, ghost k: nat)
      requires Valid() && Freeable(seg)
      ensures k < |blks| == |views| && blk == blks[k] && blk.data <= seg - DESCR < blk.End()
      ensures flagged <==> seg - DESCR in live
      ensures seg - DESCR in live <==> seg - DESCR in Live(views[k])
      ensures seg - DESCR in live ==> !views[k][seg - DESCR].gc && currBlk != null
      ensures forall b | b in blks && b.data <= seg - DESCR < b.End() :: b == blk
    {
      var a := seg - DESCR;
      blk := Home(a);
      k :| k < |blks| && blks[k] == blk;
      LiveHere(blks, views, live, k, a);
      if a in live { FlagsHere(blks, views, k, a); }
      flagged := Has(blk.mem[a - blk.data], ALLOC_FLAG);
    }

    /** The first half of free: the flag is tested and the block looked up. */
    method Find(seg: nat) returns (blk: SegBlk?, ghost k: nat)
      requires Valid() && Freeable(seg)
      ensures blk == null <==> seg - DESCR !in live
      ensures blk != null ==> k < |blks| == |views| && blk == blks[k]
      ensures blk != null ==> seg - DESCR in Live(views[k]) && !views[k][seg - DESCR].gc
    {
      var home, flagged;
      home, flagged, k := Probe(seg);
      if !flagged {
        return null, k;
      }
      blk := QueryBlk(seg - DESCR);
    }

    /** MSA::free. The argument is NULL or points into a block; what it points at must not be
        mistaken for an allocated segment and must not be collectable. */
    method Free(seg: nat) returns (res: int, ghost k: nat)
      requires Valid()
      requires seg != NULL ==> Freeable(seg)
      modifies `nSeg, `currUse, `totUse, `nBlk, `live, `hdBlk, `tlBlk, `currBlk, `blks, `views, `markCount
      modifies blks, Mems(blks)
      ensures Valid() && DataKept() && Framed()
      ensures seg == NULL ==> res == 0 && live == old(live) && blks == old(blks) && views == old(views)
      ensures seg != NULL && seg - DESCR !in old(live) ==>
                res == -1 && live == old(live) && blks == old(blks) && views == old(views)
      ensures old(HasCurrent()) ==> HasCurrent()
      ensures CachesKept()
      ensures currBlk == if blks != old(blks) && k < |old(blks)| && old(currBlk) == old(blks)[k] then hdBlk
                         else old(currBlk)
      // Exactly the one segment is freed, and its block is released only with its last one.
      ensures seg != NULL && seg - DESCR in old(live) ==>
                && res == 0 && live == old(live) - {seg - DESCR}
                && k < |old(blks)| && seg - DESCR in Live(old(views)[k])
                && (blks == old(blks) ||
                    (blks == RemoveAt(old(blks), k) && Live(old(views)[k]).Keys == {seg - DESCR}))
                && (old(AllExact()) && Live(old(views)[k]).Keys == {seg - DESCR} ==> blks == RemoveAt(old(blks), k))
      // Right or not, the count of allocated segments of its block decides.
      ensures seg != NULL && seg - DESCR in old(live) ==>
                && k < |old(blks)|
                && blks == (if old(blks[k].nAllocSeg) == 1 then RemoveAt(old(blks), k) else old(blks))
                && (blks == old(blks) ==>
                      && k < |views| && blks[k].nAllocSeg == old(blks[k].nAllocSeg) - 1
                      && FreedMax(views[k], seg - DESCR, old(blks[k].maxFreeSegLen), blks[k].maxFreeSegLen))
                && forall b | b in old(blks) && b != old(blks)[k] :: SameCounts(b)
      ensures seg == NULL || seg - DESCR !in old(live) ==> forall b | b in old(blks) :: SameCounts(b)
    {
      hide ListValid, ListOk, Freeable, Chained, BlockAt, BooksValid, Both, AllSeparate, Books, AllExact, HasCurrent,
        FreedMax;
      k := 0;
      if seg == NULL {
        SameMemKept();
        return 0, k;
      }
      var blk;
      blk, k := Find(seg);
      if blk == null {
        SameMemKept();
        return -1, k;
      }
      label L:
      assert forall b | b in blks :: SameMem(b);
      FreeIn(blk, k, seg - DESCR);
      forall i: nat | i < |old(blks)| && old(blks)[i] in blks ensures DataKeptAt(i) {
        assert DataKeptAt@L(i);
      }
      RemoveAtHas(old(blks), k);
      NoneNew();
      res := 0;
    }

    // ---- Marking ----

    /** The descriptor of a live segment is overwritten with other flags; delta marks are added. */
    method Reflag(blk: SegBlk, ghost k: nat, a: nat, v: nat, ghost t: Seg, delta: nat)
      requires Valid() && k < |blks| && blks[k] == blk && a in Live(views[k])
      requires blk.data <= a < blk.End()
      requires Retag(views[k][a], t) && v == Word(t)
      requires delta + (if views[k][a].mark then 1 else 0) == if t.mark then 1 else 0
      modifies `nSeg, `currUse, `markCount, `views, `live, blk`segs, blk.mem
      ensures Valid() && DataKept()
      ensures a in old(live) && live == old(live)[a := t]
      ensures blk.segs == old(views)[k][a := t] && views == old(views)[k := blk.segs]
      ensures currUse == old(currUse)
      ensures CachesKept()
    {
      SetFlags(blk, k, a, v, t, delta);
      SameDataBoth(old(views)[k], live, blk.data, old(blk.mem[..]), blk.mem[..]);
      KeptButOne(k);
    }

    method SetFlags(blk: SegBlk, ghost k: nat, a: nat, v: nat, ghost t: Seg, delta: nat)
      requires Valid() && k < |blks| && blks[k] == blk && a in Live(views[k])
      requires blk.data <= a < blk.End()
      requires Retag(views[k][a], t) && v == Word(t)
      requires delta + (if views[k][a].mark then 1 else 0) == if t.mark then 1 else 0
      modifies `nSeg, `currUse, `markCount, `views, `live, blk`segs, blk.mem
      ensures Valid()
      ensures a in old(live) && live == old(live)[a := t]
      ensures blk.segs == old(views)[k][a := t] && views == old(views)[k := blk.segs]
      ensures currUse == old(currUse)
      ensures CachesKept()
      ensures forall b | b in blks && b != blk :: SameMem(b)
      ensures DataSame(blk, old(views)[k])
    {
      RetagBooks(k, views[k][a := t], a, t, delta);
      Rewrite(blk, k, a, v, t);
      Settle(blk, k, nSeg, currUse, markCount + delta, live[a := t]);
    }

    method Rewrite(blk: SegBlk, ghost k: nat, a: nat, v: nat, ghost t: Seg)
      requires ListValid() && BlocksValid() && k < |blks| && blks[k] == blk && a in Live(views[k])
      requires blk.data <= a < blk.End() && Retag(views[k][a], t) && v == Word(t)
      modifies blk`segs, blk.mem
      ensures BlocksOk(blks, views[k := blk.segs])
      ensures blk.segs == views[k][a := t]
      ensures CachesKept()
      ensures forall b | b in blks && b != blk :: SameMem(b)
      ensures DataSame(blk, views[k])
    {
      assert BlockAt(blks, views, k);
      Distinct(blks);
      CountUpdate(Live(views[k]), a, t);
      blk.PutDescriptor(a, v, t);
      OthersKept(k);
      BoundedButOne(k);
    }

    lemma RetagBooks(k: nat, m: SegMap, a: nat, t: Seg, delta: nat)
      requires Valid() && k < |blks| && a in Live(views[k]) && Retag(views[k][a], t) && m == views[k][a := t]
      requires delta + (if views[k][a].mark then 1 else 0) == if t.mark then 1 else 0
      ensures a in live
      ensures Books(blks, views[k := m], live[a := t], nBlk, totUse, nSeg, currUse, markCount + delta)
    {
      assert BlockAt(blks, views, k);
      assert Inside(views[k], blks[k].data, blks[k].End(), a);
      ViewsApart(blks, views, k, a);
      assert Live(m) == Live(views[k])[a := t];
      BooksSet(blks, views, live, nBlk, totUse, nSeg, currUse, markCount, k, m, a, t);
    }

    /** The descriptor word says that seg is allocated and collectable only when it is. */
    ghost predicate Markable(seg: nat)
      reads `blks, `live, blks, Mems(blks)
    {
      && seg >= DESCR
      && exists b :: b in blks && b.data <= seg - DESCR < b.End()
                     && (Has(b.mem[seg - DESCR - b.data], ALLOC_FLAG) && Has(b.mem[seg - DESCR - b.data], GC_FLAG)
                         ==> seg - DESCR in live)
    }

    /** The word before seg is read. */
    method ReadFlags(seg: nat) returns (blk: SegBlk, w: nat, ghost k: nat)
      requires Valid() && Markable(seg)
      ensures k < |blks| == |views| && blk == blks[k] && blk.data <= seg - DESCR < blk.End()
      ensures seg - DESCR in live <==> seg - DESCR in Live(views[k])
      ensures seg - DESCR in live ==> live[seg - DESCR] == views[k][seg - DESCR] && SegOk(live[seg - DESCR])
      ensures seg - DESCR in live ==> w == Word(live[seg - DESCR])
      ensures Has(w, ALLOC_FLAG) && Has(w, GC_FLAG) <==> seg - DESCR in live && live[seg - DESCR].gc
    {
      var a := seg - DESCR;
      blk := Home(a);
      k :| k < |blks| && blks[k] == blk;
      w := blk.mem[a - blk.data];
      LiveHere(blks, views, live, k, a);
      if a in live { WordHere(blks, views, k, a); }
    }

    /** MSA_GC::mark. */
    method Mark(seg: nat) returns (res: int)
      requires Valid()
      requires seg != NULL ==> Markable(seg)
      modifies `nSeg, `currUse, `markCount, `views, `live, (set b | b in blks)`segs, Mems(blks)
      ensures Valid() && DataKept()
      ensures blks == old(blks)
      ensures res == if seg == NULL then 0
                     else if seg - DESCR !in old(live) || !old(live)[seg - DESCR].gc then -1
                     else if old(live)[seg - DESCR].mark then 0 else 1
      ensures live == if res == 1 then old(live)[seg - DESCR := old(live)[seg - DESCR].(mark := true)] else old(live)
      ensures CachesKept()
    {
      hide ListOk, Markable, AllSeparate, ListValid, Chained, BlocksValid, Live, AllExact, SameData;
      if seg == NULL {
        SameMemKept();
        return 0;
      }
      var blk, w;
      ghost var k;
      blk, w, k := ReadFlags(seg);
      if !Has(w, ALLOC_FLAG) || !Has(w, GC_FLAG) {
        SameMemKept();
        return -1;
      }
      ghost var s := live[seg - DESCR];
      FlagsOf(s);
      if Has(w, MARK_FLAG) {
        SameMemKept();
        return 0;
      }
      label L:
      assert forall b | b in blks :: SameMem(b);
      Reflag(blk, k, seg - DESCR, SetFlag(w, MARK_FLAG), s.(mark := true), 1);
      forall i: nat | i < |old(blks)| && old(blks)[i] in blks ensures DataKeptAt(i) {
        assert DataKeptAt@L(i);
      }
      res := 1;
    }

    // ---- Sweeping ----

    /** The k-th block is swept and the books follow. */
    method SweepAt(blk: SegBlk, ghost k: nat) returns (h: Haul)
      requires Valid() && k < |blks| && blks[k] == blk
      modifies `nSeg, `currUse, `markCount, `views, `live
      modifies blk`maxFreeSegLen, blk`nAllocSeg, blk`nFreeSeg, blk`hdFreeSeg, blk`segs, blk.mem
      ensures Valid()
      ensures k < |old(views)| && views == old(views)[k := blk.segs]
      ensures Done(old(views)[k], old(blk.nAllocSeg), blk.segs, blk.nAllocSeg, blk.maxFreeSegLen, h)
      ensures currUse + h.freed == old(currUse) && markCount + h.unmarked == old(markCount)
      ensures forall b | b in blks && b != blk :: SameMem(b)
      ensures DataSame(blk, Swept(Live(old(views)[k])))
    {
      h := SweepBlock(blk, k);
      ghost var now := BooksSweep(blks, views, live, nBlk, totUse, nSeg, currUse, markCount, k, blk.segs,
                                  old(blk.nAllocSeg), blk.nAllocSeg, blk.maxFreeSegLen, h);
      Settle(blk, k, nSeg - h.released, currUse - h.freed, markCount - h.unmarked, now);
    }

    method SweepBlock(blk: SegBlk, ghost k: nat) returns (h: Haul)
      requires ListValid() && BlocksValid() && k < |blks| && blks[k] == blk
      modifies blk`maxFreeSegLen, blk`nAllocSeg, blk`nFreeSeg, blk`hdFreeSeg, blk`segs, blk.mem
      ensures BlocksOk(blks, views[k := blk.segs])
      ensures Done(views[k], old(blk.nAllocSeg), blk.segs, blk.nAllocSeg, blk.maxFreeSegLen, h)
      ensures forall b | b in blks && b != blk :: SameMem(b)
      ensures DataSame(blk, Swept(Live(views[k])))
    {
      hide Bytes, FreeSet, Mems, Chained, Swept, SweptBound, LongestSeen, Live, AllSeparate;
      assert BlockAt(blks, views, k);
      Distinct(blks);
      var freed, released, unmarked := blk.Sweep();
      h := Haul(freed, released, unmarked);
      OthersKept(k);
    }

    /** How far a sweep has come: the blocks from p on are done, those before it untouched, and
        empty ones have left from q on. */
    ghost predicate Sweeping(was: Was, p: nat, q: nat, nFree: nat)
      reads `blks, `views, `markCount, Mems(was.bs)
      reads (set b | b in was.bs)`nAllocSeg, (set b | b in was.bs)`maxFreeSegLen
    {
      forall i: nat {:trigger OnCourse(was, p, q, nFree, i)} :: OnCourse(was, p, q, nFree, i)
    }

    /** The i-th block has fared as it should, and so has the sweep as a whole. */
    ghost predicate OnCourse(was: Was, p: nat, q: nat, nFree: nat, i: nat)
      reads `blks, `views, `markCount, Mems(was.bs)
      reads (set b | b in was.bs)`nAllocSeg, (set b | b in was.bs)`maxFreeSegLen
    {
      CourseAt(was, blks, views, markCount, p, q, nFree, i)
    }

    /** The sweep of one more block. */
    method Visit(blk: SegBlk, ghost k: nat, ghost was: Was, ghost nFree: nat) returns (freed: nat)
      requires Valid() && Sweeping(was, k + 1, k + 1, nFree) && was.Ok() && was.Foretold(blkLen)
      requires k < |was.bs| && was.bs[k] == blk
      modifies `nSeg, `currUse, `markCount, `views, `live
      modifies blk`maxFreeSegLen, blk`nAllocSeg, blk`nFreeSeg, blk`hdFreeSeg, blk`segs, blk.mem
      ensures Valid() && Sweeping(was, k, k + 1, nFree + freed)
      ensures currUse + freed == old(currUse)
      ensures blk.nAllocSeg == was.left[k]
      ensures was.ends[k] <==> nFree + freed >= blkLen && markCount == 0
      ensures blks == old(blks) && k < |blks| && blks[k] == blk
    {
      assert OnCourse(was, k + 1, k + 1, nFree, k);
      assert ProgressIn(Prefix, was.ss, views, k + 1, nFree, markCount);
      SharePrefix(blks, was.bs, k);
      SharePrefix(views, was.ss, k);
      var h := SweepAt(blk, k);
      freed := h.freed;
      ProgressStep(was.ss, old(views), k, nFree, old(markCount), old(blk.nAllocSeg), blk.segs, blk.nAllocSeg,
                   blk.maxFreeSegLen, h);
      Outcome(was, k, nFree + freed, blk.segs, blk.nAllocSeg, blk.maxFreeSegLen, h);
      DistinctFrom(was.bs, k);
      ghost var n, q := nFree + freed, k + 1;
      forall i: nat ensures OnCourse(was, k, q, n, i) {
        assert old(OnCourse(was, k + 1, k + 1, nFree, i));
        assert i < k ==> was.bs[i] == blks[i];
        assert i < |was.bs| && was.bs[i] in blks && was.bs[i] != blk ==> SameMem(was.bs[i]);
      }
    }

    /** What was foretold of the k-th block has come about. */
    lemma Outcome(was: Was, k: nat, nFree: nat, m': SegMap, n': nat, max: nat, h: Haul)
      requires was.Ok() && was.Foretold(blkLen) && k < |was.bs|
      requires Done(was.ss[k], was.ns[k], m', n', max, h)
      requires Progress(was.ss, views, k, nFree, markCount)
      ensures n' == was.left[k]
      ensures SweptBound(was.ss[k], max)
      ensures was.ends[k] <==> nFree >= blkLen && markCount == 0
    {
      assert was.ForetoldAt(k, blkLen);
      DoneFacts(was.ss[k], was.ns[k], m', n', max, h);
      ProgressFacts(was.ss, views, k, nFree, markCount);
    }

    /** The k-th block is empty: lists and books without it. */
    lemma EmptyBlock(k: nat)
      requires Valid() && k < |blks| && blks[k].nAllocSeg == 0
      ensures k < |views| && Vacant(views[k])
      ensures nBlk >= 1 && totUse >= blks[k].len
      ensures BlocksOk(RemoveAt(blks, k), RemoveAt(views, k))
      ensures Books(RemoveAt(blks, k), RemoveAt(views, k), live, nBlk - 1, totUse - blks[k].len,
                    nSeg, currUse, markCount)
      ensures blks[k] !in RemoveAt(blks, k)
    {
      assert BlockAt(blks, views, k);
      VacantIs(views[k]);
      BooksRemove(blks, views, live, nBlk, totUse, nSeg, currUse, markCount, k);
      BlocksRemove(blks, views, k);
      RemovedApart(blks, k);
    }

    /** Without the empty k-th block the sweep is as far as before. */
    lemma Dismissal(k: nat, was: Was, nFree: nat)
      requires Valid() && Sweeping(was, k, k + 1, nFree) && was.Ok()
      requires k < |blks| && k < |was.bs| && blks[k] == was.bs[k] && was.left[k] == blks[k].nAllocSeg == 0
      ensures k < |views|
      ensures forall i: nat
                {:trigger CourseAt(was, RemoveAt(blks, k), RemoveAt(views, k), markCount, k, k, nFree, i)} ::
                CourseAt(was, RemoveAt(blks, k), RemoveAt(views, k), markCount, k, k, nFree, i)
    {
      assert OnCourse(was, k, k + 1, nFree, k);
      EmptyBlock(k);
      RemovePrefix(blks, was.bs, k);
      RemovedFates(blks, k, was.bs);
      ProgressDrop(was.ss, views, k, nFree, markCount);
      var now, ss := RemoveAt(blks, k), RemoveAt(views, k);
      forall i: nat ensures CourseAt(was, now, ss, markCount, k, k, nFree, i) {
        assert OnCourse(was, k, k + 1, nFree, i);
      }
    }

    /** A swept block that is empty leaves. */
    method Dismiss(blk: SegBlk, ghost k: nat, ghost was: Was, ghost nFree: nat)
      requires Valid() && Sweeping(was, k, k + 1, nFree) && was.Ok()
      requires k < |blks| && k < |was.bs| && blks[k] == blk == was.bs[k] && was.left[k] == blk.nAllocSeg == 0
      modifies `nSeg, `currUse, `totUse, `nBlk, `live
      modifies `hdBlk, `tlBlk, `currBlk, `blks, `views, (set b | b in blks)`prev, (set b | b in blks)`next
      ensures Valid() && Sweeping(was, k, k, nFree) && currUse == old(currUse)
      ensures old(HasCurrent()) ==> HasCurrent()
      ensures blks == RemoveAt(old(blks), k) && currBlk == if old(currBlk) == blk then Head(blks) else old(currBlk)
    {
      EmptyBlock(k);
      Dismissal(k, was, nFree);
      ghost var now, ss := RemoveAt(blks, k), RemoveAt(views, k);
      Retire(blk, k, 0, 0, live);
      forall i: nat ensures OnCourse(was, k, k, nFree, i) {
        assert old(CourseAt(was, now, ss, markCount, k, k, nFree, i));
      }
    }

    /** A swept block becomes the current one. */
    method SetCurr(blk: SegBlk, ghost k: nat, ghost q: nat, ghost was: Was, ghost nFree: nat)
      requires Valid() && Sweeping(was, k, q, nFree) && k < |blks| && blks[k] == blk
      modifies `currBlk
      ensures Valid() && Sweeping(was, k, q, nFree) && currBlk == blk
      ensures markCount == old(markCount) && currUse == old(currUse)
    {
      currBlk := blk;
      assert ListValid();
      assert BlocksOk(blks, views);
      forall i: nat ensures OnCourse(was, k, q, nFree, i) {
        assert old(OnCourse(was, k, q, nFree, i));
      }
    }

    /** From a swept block to the one before it; an empty block leaves the list. */
    method Onwards(blk: SegBlk, nFree: nat, prevNFree: nat, ghost k: nat, ghost was: Was)
      returns (next: SegBlk?, prevNFree': nat)
      requires Valid() && Sweeping(was, k, k + 1, nFree) && was.Ok()
      requires k < |blks| && k < |was.bs| && blks[k] == blk == was.bs[k]
      requires blk.nAllocSeg == was.left[k]
      modifies `nSeg, `currUse, `totUse, `nBlk, `live
      modifies `hdBlk, `tlBlk, `currBlk, `blks, `views, (set b | b in blks)`prev, (set b | b in blks)`next
      ensures Valid() && Sweeping(was, k, k, nFree) && currUse == old(currUse)
      ensures old(HasCurrent()) ==> HasCurrent()
      ensures next == if k == 0 then null else was.bs[k - 1]
      ensures prevNFree' == if was.left[k] != 0 then nFree else prevNFree
      ensures blks == if was.left[k] != 0 then old(blks) else RemoveAt(old(blks), k)
      ensures currBlk == if was.left[k] == 0 then (if old(currBlk) == blk then Head(blks) else old(currBlk))
                         else if nFree != prevNFree then blk else old(currBlk)
      ensures forall b {:trigger b in blks} | b in blks :: b in was.bs
    {
      assert ChainedAt(blks, k) && OnCourse(was, k, k + 1, nFree, k);
      assert k > 0 ==> blks[k - 1] == blks[..k][k - 1] == was.bs[k - 1];
      next, prevNFree' := blk.prev, prevNFree;
      if blk.nAllocSeg != 0 {
        Stays(blk, k, was, nFree);
        if nFree != prevNFree {
          SetCurr(blk, k, k, was, nFree);
          prevNFree' := nFree;
        }
      } else {
        Dismiss(blk, k, was, nFree);
      }
      assert OnCourse(was, k, k, nFree, 0);
    }

    lemma Stays(blk: SegBlk, k: nat, was: Was, nFree: nat)
      requires Sweeping(was, k, k + 1, nFree) && was.Ok()
      requires k < |was.bs| && k < |blks| && blks[k] == was.bs[k] && was.left[k] != 0
      ensures Sweeping(was, k, k, nFree)
    {
      forall i: nat ensures OnCourse(was, k, k, nFree, i) {
        assert OnCourse(was, k, k + 1, nFree, i);
      }
    }

    lemma StartSweep() returns (was: Was)
      requires Valid()
      ensures was.Ok() && was.Foretold(blkLen) && was.bs == blks && was.ss == views
      ensures forall i: nat {:trigger WasWords(was, i)} | i < |blks| :: WasWords(was, i)
      ensures Sweeping(was, |blks|, |blks|, 0)
    {
      var bs := blks;
      was := Forecast(bs, views, seq(|bs|, i requires 0 <= i < |bs| reads Mems(bs) => bs[i].mem[..]),
                      seq(|bs|, i requires 0 <= i < |bs| reads bs => bs[i].nAllocSeg),
                      seq(|bs|, i requires 0 <= i < |bs| reads bs => bs[i].maxFreeSegLen), blkLen);
      AllApart(blks, views);
      ProgressStart(views, nSeg, currUse, markCount);
      forall i: nat ensures OnCourse(was, |blks|, |blks|, 0, i) {
      }
    }

    /** The record of the words, the count and the bound of the i-th block. */
    ghost predicate WasWords(was: Was, i: nat)
      requires was.Ok() && was.bs == blks && i < |blks|
      reads `blks, Mems(blks), (set b | b in blks)`nAllocSeg, (set b | b in blks)`maxFreeSegLen
    {
      was.ws[i] == blks[i].mem[..] && was.ns[i] == blks[i].nAllocSeg && was.ms[i] == blks[i].maxFreeSegLen
    }

    /** The data that block i had is still there, as far as it is live. */
    lemma DataSwept(was: Was, p: nat, q: nat, nFree: nat, i: nat)
      requires Sweeping(was, p, q, nFree) && was.Ok() && i < |was.bs| && p <= |was.bs|
      requires live == LiveAll(was.ss[..p]) + Swept(LiveAll(was.ss[p..])) && was.bs[i] in blks
      ensures SameData(Both(was.ss[i], live), was.bs[i].data, was.ws[i], was.bs[i].mem[..])
    {
      assert OnCourse(was, p, q, nFree, i);
      if i < p {
        SameDataSame(Both(was.ss[i], live), was.bs[i].data, was.ws[i]);
      } else {
        SweptBoth(was.ss, p, i, live, was.bs[i].data, was.ws[i], was.bs[i].mem[..]);
      }
    }

    lemma CountCovers(i: nat)
      requires Valid() && i < |blks|
      ensures i < |views| && |Live(views[i])| <= blks[i].nAllocSeg
    {
      assert BlockAt(blks, views, i);
    }

    lemma EndSweep(was: Was, p: nat, q: nat, nFree: nat)
      requires Valid() && Sweeping(was, p, q, nFree) && was.Ok() && markCount == 0
      ensures p <= |blks| && p <= |was.bs| && live == LiveAll(was.ss[..p]) + Swept(LiveAll(was.ss[p..]))
      ensures Marked(live) == {}
      ensures blks[..p] == was.bs[..p] && p <= |views| && views[..p] == was.ss[..p]
      ensures forall b {:trigger b in blks} | b in blks :: b in was.bs
      ensures nFree == Collected(was.ss[p..])
    {
      assert OnCourse(was, p, q, nFree, 0);
      ProgressFacts(was.ss, views, p, nFree, markCount);
      ProgressEnd(was.ss, views, p, nFree, markCount, live);
      AllApart(blks, views);
      NoMarks(views, live, nSeg, currUse);
    }

    /** The sweep has dealt with the blocks from p on: the current block, which was cur before, and
        what had been collected when last a block stayed. */
    ghost predicate Steered(was: Was, p: nat, cur: SegBlk?, prevNFree: nat)
      reads `blks, `currBlk
    {
      && was.Ok() && p <= |was.bs| && prevNFree == LastCount(was.ss, was.left, p)
      && currBlk == CurrentAfter(was.bs, was.ss, was.left, p, cur, blks)
    }

    lemma SteerFacts(was: Was, k: nat, nFree: nat)
      requires Valid() && Sweeping(was, k, k + 1, nFree) && was.Ok() && k < |was.bs|
      ensures AllSeparate(was.bs) && AllSeparate(blks) && nFree == Collected(was.ss[k..])
    {
      assert OnCourse(was, k, k + 1, nFree, k);
      ProgressFacts(was.ss, views, k, nFree, markCount);
    }

    /** One round of the loop over the blocks; it may be the last one. */
    method SweepNext(blk: SegBlk, nFree0: nat, prevNFree0: nat, ghost k: nat, ghost was: Was, ghost cur: SegBlk?)
      returns (nFree: nat, next: SegBlk?, prevNFree: nat, stopped: bool)
      requires Valid() && Sweeping(was, k + 1, k + 1, nFree0) && was.Ok() && was.Foretold(blkLen)
      requires k < |was.bs| && was.bs[k] == blk && Steered(was, k + 1, cur, prevNFree0)
      modifies `nSeg, `currUse, `totUse, `nBlk, `live, `hdBlk, `tlBlk, `currBlk, `blks, `views, `markCount
      modifies (set b | b in blks)`prev, (set b | b in blks)`next
      modifies blk`maxFreeSegLen, blk`nAllocSeg, blk`nFreeSeg, blk`hdFreeSeg, blk`segs, blk.mem
      ensures Valid() && Sweeping(was, k, if stopped then k + 1 else k, nFree)
      ensures currUse + nFree == old(currUse) + nFree0 && (old(HasCurrent()) ==> HasCurrent())
      ensures stopped <==> was.ends[k]
      ensures stopped ==> markCount == 0 && currBlk == blk
      ensures blks == old(blks) || (k < |old(blks)| && blks == RemoveAt(old(blks), k))
      ensures !stopped ==> next == (if k == 0 then null else was.bs[k - 1]) && Steered(was, k, cur, prevNFree)
      ensures forall b {:trigger b in blks} | b in blks :: b in was.bs
    {
      hide CurrentAfter, BlockAt;
      assert OnCourse(was, k + 1, k + 1, nFree0, k);
      var freed := Visit(blk, k, was, nFree0);
      nFree, next, prevNFree := nFree0 + freed, null, prevNFree0;
      stopped := nFree >= blkLen && markCount == 0;
      if stopped {
        SetCurr(blk, k, k + 1, was, nFree);
      } else {
        ghost var now := blks;
        SteerFacts(was, k, nFree);
        next, prevNFree := Onwards(blk, nFree, prevNFree0, k, was);
        CurrentStep(was.bs, was.ss, was.left, k, cur, old(currBlk), currBlk, now, blks);
      }
    }

    lemma AtTail(was: Was)
      requires ListValid() && was.Ok() && was.bs == blks
      ensures Steered(was, |was.bs|, currBlk, 0)
      ensures tlBlk == if |blks| == 0 then null else blks[|blks| - 1]
    {
    }

    /** No block is left to sweep. */
    lemma AllSwept(was: Was, nFree: nat, cur: SegBlk?, prevNFree: nat)
      requires Sweeping(was, 0, 0, nFree) && Steered(was, 0, cur, prevNFree)
      ensures markCount == 0 && currBlk == CurrentAfter(was.bs, was.ss, was.left, 0, cur, blks)
    {
      assert OnCourse(was, 0, 0, nFree, 0);
      ProgressFacts(was.ss, views, 0, nFree, markCount);
    }

    /** The loop over the blocks, from the tail. */
    method SweepBlocks(ghost was: Was) returns (nFree: nat, ghost stop: nat, ghost q: nat)
      requires Valid() && was.Ok() && was.Foretold(blkLen) && was.bs == blks && Sweeping(was, |was.bs|, |was.bs|, 0)
      modifies `nSeg, `currUse, `totUse, `nBlk, `live, `hdBlk, `tlBlk, `currBlk, `blks, `views, `markCount
      modifies blks, Mems(blks)
      ensures Valid() && stop <= |was.bs| && markCount == 0
      ensures Sweeping(was, stop, q, nFree) && currUse + nFree == old(currUse)
      ensures was.Stops(stop) && q == if stop < |was.bs| && was.ends[stop] then stop + 1 else stop
      ensures if stop < |was.bs| && was.ends[stop] then currBlk == was.bs[stop]
              else stop == 0 && currBlk == CurrentAfter(was.bs, was.ss, was.left, 0, old(currBlk), blks)
      ensures old(HasCurrent()) ==> HasCurrent()
      ensures InOrder(blks, was.bs)
    {
      hide Steered, Sweeping, CurrentAfter, BlocksOk, AllSeparate, Chained, Books, InOrder;
      var blk, prevNFree: nat := tlBlk, 0;
      nFree, stop := 0, |blks|;
      AtTail(was);
      SameOrder(blks);
      while blk != null
        invariant Valid() && Sweeping(was, stop, stop, nFree)
        invariant stop <= |was.bs| && blk == if stop == 0 then null else was.bs[stop - 1]
        invariant forall b {:trigger b in blks} | b in blks :: b in was.bs
        invariant currUse + nFree == old(currUse) && (old(HasCurrent()) ==> HasCurrent())
        invariant Steered(was, stop, old(currBlk), prevNFree)
        invariant InOrder(blks, was.bs)
        invariant forall i: nat | stop <= i < |was.bs| :: !was.ends[i]
        decreases stop
      {
        stop := stop - 1;
        ghost var now := blks;
        var stopped;
        nFree, blk, prevNFree, stopped := SweepNext(blk, nFree, prevNFree, stop, was, old(currBlk));
        if blks != now { RemoveInOrder(now, was.bs, stop); }
        if stopped {
          q := stop + 1;
          return;
        }
      }
      q := stop;
      AllSwept(was, nFree, old(currBlk), prevNFree);
    }

    /** What a sweep does to the i-th block when it stops at the stop-th. */
    twostate predicate BlockSwept(bs: seq<SegBlk>, i: nat, stop: nat)
      requires i < |bs| == |old(views)| && stop <= |bs|
      reads this, bs, Mems(bs)
    {
      var b, m := bs[i], old(views)[i];
      && (i < stop ==> SameMem(b) && b.maxFreeSegLen == old(b.maxFreeSegLen) && b.nAllocSeg == old(b.nAllocSeg))
      // Out goes a block that nothing is left in and whose count says so, but not where the
      // sweep stopped.
      && (b !in blks ==> Swept(Live(m)) == map[])
      && (b !in blks <==> i >= stop && !Enough(old(views), i, blkLen) && Recount(m, old(b.nAllocSeg)) == 0)
      && (b in blks && i >= stop ==> b.nAllocSeg == Recount(m, old(b.nAllocSeg)))
      // The new bound is that of the runs that the sweep saw.
      && (b in blks && i >= stop ==> SweptBound(m, b.maxFreeSegLen))
    }

    /** How the i-th block has fared in the end. */
    twostate lemma Fate(e: Ending)
      requires e.Ok(blkLen) && Sweeping(e.was, e.stop, e.q, e.nFree)
      requires e.was.bs == old(blks) && e.was.ss == old(views) && old(WasWords(e.was, e.i))
      requires |Live(e.was.ss[e.i])| <= e.was.ns[e.i]
      ensures BlockSwept(old(blks), e.i, e.stop)
    {
      assert OnCourse(e.was, e.stop, e.q, e.nFree, e.i) && e.was.ForetoldAt(e.i, blkLen);
      assert e.stop < |e.was.bs| ==> e.was.ForetoldAt(e.stop, blkLen);
      if e.was.left[e.i] == 0 { LeavesEmpty(e.was.ss[e.i], e.was.ns[e.i]); }
    }

    /** The counts of allocated segments that a sweep leaves the blocks with. */
    ghost function Recounts(): (left: seq<int>)
      requires |blks| == |views|
      reads `blks, `views, blks
      ensures |left| == |blks|
      ensures forall i: nat {:trigger left[i]} | i < |blks| :: left[i] == Recount(views[i], blks[i].nAllocSeg)
    {
      var bs, ss := blks, views;
      seq(|bs|, i requires 0 <= i < |bs| reads bs => Recount(ss[i], bs[i].nAllocSeg))
    }

    /** MSA_GC::sweep. Collectable segments that are not marked are released, and marks are
        cleared, block by block from the tail. The sweep stops early, at the stop-th block,
        when no marks are left and a block's worth of bytes has been collected. */
    method Sweep() returns (ghost stop: nat)
      requires Valid() && enabled
      modifies `enabled, `nSeg, `currUse, `totUse, `nBlk, `live, `hdBlk, `tlBlk, `currBlk, `blks, `views, `markCount
      modifies blks, Mems(blks)
      ensures Valid() && DataKept() && !enabled
      ensures stop <= |old(blks)| && stop <= |blks|
      ensures live == LiveAll(old(views)[..stop]) + Swept(LiveAll(old(views)[stop..]))
      ensures Marked(live) == {} && markCount == 0
      ensures StopsAt(old(views), stop, blkLen)
      ensures blks[..stop] == old(blks)[..stop] && views[..stop] == old(views)[..stop]
      ensures Framed() && forall b {:trigger b in blks} | b in blks :: b in old(blks)
      // The blocks that stay keep their order.
      ensures InOrder(blks, old(blks))
      ensures forall i: nat {:trigger BlockSwept(old(blks), i, stop)} | i < |old(blks)| ::
                BlockSwept(old(blks), i, stop)
      ensures currUse + Collected(old(views)[stop..]) == old(currUse)
      ensures if stop < |old(views)| && Enough(old(views), stop, blkLen) then currBlk == old(blks)[stop]
              else stop == 0 && currBlk == CurrentAfter(old(blks), old(views), old(Recounts()), 0, old(currBlk), blks)
      ensures old(HasCurrent()) ==> HasCurrent()
    {
      hide BlockSwept, Sweeping, OnCourse, CurrentAfter, BlocksOk, AllSeparate, Chained, Books, SameData, StopsAt,
        Swept, LiveAll, Collected, Both, Live, Enough, ListOk, Recounts, Mems;
      ghost var was := StartSweep();
      ghost var q;
      var nFree;
      forall i: nat | i < |blks| ensures WasWords(was, i) && |Live(was.ss[i])| <= was.ns[i] {
        CountCovers(i);
      }
      forall i: nat | i < |blks| ensures was.left[i] == Recounts()[i] {
        assert was.ForetoldAt(i, blkLen) && WasWords(was, i);
      }
      assert was.left == Recounts();
      nFree, stop, q := SweepBlocks(was);
      enabled := false;
      EndSweep(was, stop, q, nFree);
      NoneNew();
      was.StopsForetold(stop, blkLen);
      assert stop < |was.bs| ==> was.ForetoldAt(stop, blkLen);
      forall i: nat | i < |old(blks)| && old(blks)[i] in blks ensures DataKeptAt(i) {
        assert old(WasWords(was, i));
        DataSwept(was, stop, q, nFree, i);
      }
      forall i: nat | i < |old(blks)| ensures BlockSwept(old(blks), i, stop) {
        assert old(WasWords(was, i));
        Fate(Ending(was, stop, q, nFree, i));
      }
    }
  }
}
