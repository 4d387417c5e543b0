/** What a sweep does not keep: the cached bound of a block, which MSA::alloc trusts, and the
    count of its allocated segments, which decides whether the block is given back. */
module SweepFindings {
  import opened Descriptors
  import opened SegMaps
  import opened SweepBounds
  import opened Views
  import opened SegBlks
  import opened BlockLists
  import opened Msa

  /** Which blocks come out of a sweep with a right bound: those where, of the runs of free
      segments and garbage before the sweep, one of the longest is seen, or that have none. */
  lemma BoundRight(b: SegBlk, m: SegMap)
    requires b.Valid() && Tiled(m, b.data, b.End()) && Live(b.segs) == Swept(Live(m))
    requires SweptBound(m, b.maxFreeSegLen)
    ensures b.Bounded() <==> LongestSeen(m)
  {
    BoundRightWhen(m, b.segs, b.data, b.End(), b.maxFreeSegLen);
  }

  /** In a block without garbage every free segment is a run. */
  lemma IdleRun(m: SegMap, lo: nat, hi: nat, a: nat)
    requires Tiled(m, lo, hi) && Coalesced(m) && Waste(m) == {} && IsFree(m, a)
    ensures Run(m, a, a + m[a].len)
  {
    var q := a + m[a].len;
    assert Inside(m, lo, hi, a) && NoFreeAfter(m, a) && EndsAt(m, a, q);
    forall b | b in m ensures RunAt(m, a, q, b) {
      assert b !in Waste(m) && NoFreeAfter(m, b) && Apart(m, a, b);
    }
  }

  /** Where there is no garbage, nothing is seen: the bound is right only if the block is full. */
  lemma IdleWrong(m: SegMap, lo: nat, hi: nat)
    requires Tiled(m, lo, hi) && Coalesced(m) && Waste(m) == {}
    ensures LongestSeen(m) <==> FreeSet(m) == {}
  {
    assert forall p: nat, q: nat :: !SeenRun(m, p, q);
    if a :| a in FreeSet(m) {
      IdleRun(m, lo, hi, a);
    } else {
      forall p: nat, q: nat ensures !Run(m, p, q) {
        assert p in m && p < q ==> p !in Waste(m) && p !in FreeSet(m) && !RunAt(m, p, q, p);
      }
    }
  }

  /** A block where something is released and the bound is wrong all the same: garbage at its
      begin, with the free rest of the block behind an allocated segment. */
  lemma WrongWithGarbage(m: SegMap, lo: nat)
    requires m == map[lo := Seg(16, true, true, false), lo + 16 := Plain(8), lo + 24 := FreeSeg(936)] && lo > 0
    ensures Tiled(m, lo, lo + 960) && Coalesced(m) && Waste(m) == {lo}
    ensures !LongestSeen(m)
  {
    assert FreeSet(m) == {lo + 24};
    assert forall p: nat, q: nat :: !SeenRun(m, p, q);
    assert EndsAt(m, lo + 24, lo + 960);
    assert Run(m, lo + 24, lo + 960);
  }

  /** Where one segment does not fill the block, some segment is free. */
  lemma RoomLeft(m: SegMap, lo: nat, hi: nat, a: nat)
    requires Tiled(m, lo, hi) && lo < hi
    requires forall p | p in Live(m) :: p == a
    requires a in m ==> m[a].len < hi - lo
    ensures FreeSet(m) != {}
  {
    var p := if lo != a then lo else lo + m[a].len;
    assert lo in m;
    assert Inside(m, lo, hi, lo) && Closed(m, lo, hi);
    assert p in m && p !in Live(m);
    assert IsFree(m, p) && p in FreeSet(m);
  }

  /** Where the count is exact: an empty block leaves, and one that is a single piece of
      garbage from end to end. */
  lemma LeavesWhen(m: SegMap, n: nat)
    requires n == |Live(m)|
    ensures Recount(m, n) == 0 <==>
              Live(m) == map[] || (FreeSet(m) == {} && |m| == 1 && forall a | a in m :: Garbage(m[a]))
  {
    var l := Live(m);
    if FreeSet(m) == {} {
      assert forall a | a in m :: m[a].alloc by {
        assert forall a | a in m :: IsFree(m, a) ==> a in FreeSet(m);
      }
      assert l == m;
    }
    if |l| == 1 {
      var a :| a in l;
      OnlyOne(l, a);
      assert l == map[a := l[a]];
      assert Garbage(l[a]) ==> Swept(l) == map[];
      assert !Garbage(l[a]) ==> Swept(l).Keys == {a};
      assert |Swept(l).Keys| == |Swept(l)|;
    }
  }

  /** Where the count was exact, it still is only if the sweep released nothing, or a single
      segment of a block that had no free one. */
  lemma CountExactWhen(m: SegMap)
    ensures Recount(m, |Live(m)|) == |Swept(Live(m))| <==>
              HaulOf(m).released == 0 || (HaulOf(m).released == 1 && FreeSet(m) == {})
  {
    SweptBytes(Live(m));
  }

  /** A surplus in the count never goes away in a sweep, so that such a block is never given
      back: its count stays above zero. */
  lemma SurplusStays(m: SegMap, n: nat)
    requires n >= |Live(m)|
    ensures Recount(m, n) - |Swept(Live(m))| >= n - |Live(m)|
    ensures n > |Live(m)| ==> Recount(m, n) > 0
  {
    SweptBytes(Live(m));
  }

  /** One block of 60 bytes with one live segment of 8. */
  ghost predicate OneBlock(m: MsaGc, a: nat, gc: bool)
    reads m, m.blks, Mems(m.blks)
  {
    && m.Valid() && m.blkLen == 60 && m.enabled
    && |m.blks| == 1 && m.blks[0].data == 1028 && m.blks[0].len == 60
    && m.live == map[a := Seg(8, true, gc, false)]
  }

  lemma OneBlockFacts(m: MsaGc, a: nat, gc: bool)
    requires OneBlock(m, a, gc)
    ensures |m.views| == 1 && Live(m.views[0]) == m.live && m.views[0] == m.blks[0].segs
    ensures FreeSet(m.views[0]) != {} && m.blks[0].nAllocSeg >= 1
  {
    var b := m.blks[0];
    assert BlockAt(m.blks, m.views, 0);
    UnionIs(m.live, m.views);
    LiveAllHas(m.views[1..], a);
    assert LiveAll(m.views) == Live(m.views[0]) + LiveAll(m.views[1..]) && m.views[1..] == [];
    UnionEmpty(m.live);
    RoomLeft(m.views[0], b.data, b.End(), a);
    OnlyOne(m.live, a);
  }

  method Start(gc: bool) returns (m: MsaGc, ghost a: nat)
    ensures fresh(m) && OneBlock(m, a, gc) && fresh(m.blks[0]) && fresh(m.blks[0].mem)
  {
    m := new MsaGc(60);
    a := First(m, gc);
  }

  /** The first segment of an allocator. */
  method First(m: MsaGc, gc: bool) returns (ghost a: nat)
    requires m.Valid() && m.blks == [] && m.live == map[] && m.blkLen == 60
    requires m.enabled && m.enableAddBlk && m.currBlk == null
    modifies m
    ensures OneBlock(m, a, gc) && fresh(m.blks[0]) && fresh(m.blks[0].mem)
  {
    hide PassesAll, NoFit, FirstFit, MsaGc.CachesKept, MsaGc.DataKept, MsaGc.AllExact, MsaGc.AllBounded,
      MsaGc.BlocksValid, MsaGc.ListValid, MsaGc.BooksValid;
    assert m.NewBlkLen(AllocLen(4)) == 60;
    ghost var c, k;
    var seg;
    if gc {
      seg, c, k := m.AllocGC(4, 1000);
    } else {
      seg, c, k := m.Alloc(4, 1000);
    }
    a := seg - DESCR;
  }

  lemma NoWaste(m: SegMap, lo: nat, hi: nat)
    requires Placed(m, lo, hi) && forall a | a in Live(m) :: !m[a].gc
    ensures Waste(m) == {}
  {
    forall a | a in m ensures a !in Waste(m) {
      assert Inside(m, lo, hi, a) && (m[a].alloc ==> a in Live(m));
    }
  }

  /** What the sweep makes of one allocated segment. */
  lemma OneSegment(m: SegMap, a: nat, gc: bool, n: nat)
    requires Live(m) == map[a := Seg(8, true, gc, false)] && FreeSet(m) != {}
    ensures Swept(Live(m)) == if gc then map[] else Live(m)
    ensures HaulOf(m).released == (if gc then 1 else 0) && HaulOf(m).freed <= 8
    ensures Recount(m, n) == n
  {
    var l := Live(m);
    assert Swept(l) == if gc then map[] else l;
    BytesRemove(l, a);
    assert l - {a} == map[];
  }

  lemma OneBlockHaul(m: MsaGc, a: nat, gc: bool)
    requires OneBlock(m, a, gc)
    ensures |m.views| == 1 && Swept(Live(m.views[0])) == if gc then map[] else m.live
    ensures !gc ==> Waste(m.views[0]) == {}
    ensures Recount(m.views[0], m.blks[0].nAllocSeg) == m.blks[0].nAllocSeg > 0
    ensures Collected(m.views) <= 8
  {
    OneBlockFacts(m, a, gc);
    OneSegment(m.views[0], a, gc, m.blks[0].nAllocSeg);
    assert Collected(m.views[1..]) == 0;
    if !gc {
      assert BlockAt(m.blks, m.views, 0);
      NoWaste(m.views[0], m.blks[0].data, m.blks[0].End());
    }
  }

  lemma HeadOnly(ss: seq<SegMap>, stop: nat, live: SegMap, blkLen: nat)
    requires |ss| == 1 && StopsAt(ss, stop, blkLen) && Collected(ss) < blkLen
    requires live == LiveAll(ss[..stop]) + Swept(LiveAll(ss[stop..]))
    ensures stop == 0 && live == Swept(Live(ss[0])) && !Enough(ss, 0, blkLen)
  {
    assert ss[0..] == ss && ss[..0] == [] && ss[1..] == [];
    UnionEmpty(Swept(Live(ss[0])));
    assert Live(ss[0]) + map[] == Live(ss[0]);
  }

  lemma SameOne(bs: seq<SegBlk>, now: seq<SegBlk>)
    requires |bs| == 1 && AllSeparate(now) && bs[0] in now && forall b | b in now :: b in bs
    ensures now == bs
  {
    var last := now[|now| - 1];
    forall i | 0 <= i < |now| ensures now[i] == bs[0] {
      assert now[i] in now && now[i] in bs;
    }
    assert last == now[0];
    Distinct(now);
  }

  /** After the sweep: one block, with the bound and the count the sweep left. */
  lemma Aftermath(m: MsaGc, a: nat, gc: bool, was: SegMap)
    requires m.Valid() && |m.blks| == 1 && m.blks[0].len == 60
    requires m.live == if gc then map[] else map[a := Plain(8)]
    requires !gc ==> SweptBound(was, m.blks[0].maxFreeSegLen) && Waste(was) == {}
    requires m.blks[0].nAllocSeg > 0
    ensures !gc ==> !m.AllBounded() && m.blks[0].maxFreeSegLen == 0
    ensures gc ==> !m.AllExact()
  {
    var b := m.blks[0];
    OneView(m);
    if gc {
      assert !m.blks[0].Exact();
    } else {
      RoomLeft(b.segs, b.data, b.End(), a);
      IdleBound(was, b.maxFreeSegLen);
      var p :| p in FreeSet(b.segs);
      assert Inside(b.segs, b.data, b.End(), p);
      assert !m.blks[0].Bounded();
    }
  }

  lemma OneView(m: MsaGc)
    requires m.Valid() && |m.blks| == 1
    ensures |m.views| == 1 && Live(m.views[0]) == m.live && m.views[0] == m.blks[0].segs && m.blks[0].Valid()
  {
    assert BlockAt(m.blks, m.views, 0);
    UnionIs(m.live, m.views);
    assert m.views[1..] == [];
    assert Live(m.views[0]) + map[] == Live(m.views[0]);
  }

  /** The sweep of such a block. A segment that is not collectable stays, and the cached bound no
      longer covers the free space beside it. A collectable one goes, but the empty block stays,
      for good: its count of allocated segments is not lowered. */
  method SweepOne(m: MsaGc, ghost a: nat, ghost gc: bool)
    requires OneBlock(m, a, gc)
    modifies m, m.blks, Mems(m.blks)
    ensures m.Valid() && m.blks == old(m.blks)
    ensures m.live == if gc then map[] else old(m.live)
    ensures !gc ==> !m.AllBounded() && m.blks[0].maxFreeSegLen == 0
    ensures gc ==> !m.AllExact()
  {
    hide Collected, Swept, LiveAll;
    OneBlockHaul(m, a, gc);
    ghost var b, ss := m.blks[0], m.views;
    ghost var stop := m.Sweep();
    HeadOnly(ss, stop, m.live, 60);
    assert m.BlockSwept(old(m.blks), 0, 0);
    SameOne(old(m.blks), m.blks);
    Aftermath(m, a, gc, ss[0]);
  }

  /** A request for 4 bytes after such a sweep fails, when the system has no memory for another
      block, although the block there is has room for it. */
  method Overlooked(m: MsaGc, ghost a: nat) returns (seg: nat)
    requires OneBlock(m, a, false)
    modifies m, m.blks, Mems(m.blks)
    ensures m.Valid() && seg == NULL && m.blks == old(m.blks) && m.live == old(m.live)
    ensures |m.views| == 1 && !NoFit(m.views[0], AllocLen(4))
  {
    SweepOne(m, a, false);
    HiddenRoom(m, a);
    ghost var c, k;
    seg, c, k := m.Alloc(4, NULL);
    HiddenRoom(m, a);
  }

  lemma HiddenRoom(m: MsaGc, a: nat)
    requires m.Valid() && |m.blks| == 1 && m.blks[0].len == 60 && m.live == map[a := Plain(8)]
    ensures |m.views| == 1 && !NoFit(m.views[0], AllocLen(4))
    ensures m.blks[0].maxFreeSegLen == 0 ==> m.Unserved(AllocLen(4))
  {
    var b := m.blks[0];
    OneView(m);
    RoomLeft(b.segs, b.data, b.End(), a);
    var p :| p in FreeSet(b.segs);
    assert Inside(b.segs, b.data, b.End(), p);
    if b.maxFreeSegLen == 0 {
      assert PassesAt(m.Bounds(), m.views, 0, AllocLen(4));
    }
  }
}
