/** Requests so large that 32-bit arithmetic wraps around. */
module AllocFindings {
  import opened Descriptors
  import opened SegMaps
  import opened BlockWords
  import opened Views
  import opened SegBlks
  import opened BlockLists
  import opened Msa

  /** One block of 60 bytes, all of it free, and no current block. */
  ghost predicate Wrapped(m: MsaGc)
    reads m, m.blks, Mems(m.blks)
  {
    && m.Valid() && m.live == map[] && |m.blks| == 1 && m.currBlk == null
    && m.blks[0].data == 1028 && m.blks[0].len == 60
    && m.views == [map[1028 := FreeSeg(32)]]
  }

  /** The length of a block for such a request wraps around: the block that is added is too
      short, and the allocator has a block but no current one. */
  method WrapLosesCurrent() returns (m: MsaGc)
    ensures fresh(m) && fresh(m.blks) && fresh(Mems(m.blks)) && Wrapped(m)
  {
    m := new MsaGc(60);
    assert AllocLen(WORD - DESCR - QUANT) == WORD - QUANT;
    assert m.NewBlkLen(WORD - QUANT) == 60;
    ghost var c, k;
    var seg;
    seg, c, k := m.Alloc(WORD - DESCR - QUANT, 1000);
    AllFree(m);
  }

  /** The next request does not look at that block: for 4 bytes it fails, when the system has no
      memory for another block, although all of the block is free. */
  method FreeBlockIgnored(m: MsaGc) returns (seg: nat)
    requires Wrapped(m)
    modifies m, m.blks, Mems(m.blks)
    ensures seg == NULL && Wrapped(m) && !NoFit(m.views[0], AllocLen(4))
  {
    ghost var c, k;
    seg, c, k := m.Alloc(4, NULL);
    AllFree(m);
    assert 1028 in FreeSet(m.views[0]);
  }

  lemma AllFree(m: MsaGc)
    requires m.Valid() && m.live == map[] && |m.blks| == 1
    requires m.blks[0].data == 1028 && m.blks[0].len == 60
    ensures m.views == [map[1028 := FreeSeg(32)]]
  {
    assert BlockAt(m.blks, m.views, 0);
    UnionIs(m.live, m.views);
    assert m.views[1..] == [];
    assert Live(m.views[0]) + map[] == Live(m.views[0]);
    var n := map[1028 := FreeSeg(32)];
    assert Live(n) == map[];
    TilingUnique(m.views[0], n, 1028, 1060);
  }

  /** The rounded length itself wraps around: more than four billion bytes are asked for, and a
      segment of one quantum is returned. */
  method WrapTooShort() returns (m: MsaGc, seg: nat)
    ensures fresh(m) && m.Valid() && seg != NULL && m.live == map[seg - DESCR := Plain(QUANT)]
  {
    m := new MsaGc(60);
    assert AllocLen(WORD - 1) == QUANT && m.NewBlkLen(QUANT) == 60;
    ghost var c, k;
    seg, c, k := m.Alloc(WORD - 1, 1000);
  }

  /** A request that is rounded to 0, in a block with room: its first free segment is handed out and
      stays free, and nothing but the count of allocated segments changes, which is then too high.
      The next such request gets the same segment. */
  method HandedOutTwice(b: SegBlk, reqLen: nat) returns (seg: nat, again: nat)
    requires b.Valid() && b.hdFreeSeg != NULL && WORD - QUANT - DESCR + 1 <= reqLen <= WORD - DESCR
    modifies b, b.mem
    ensures b.Valid() && b.segs == old(b.segs) && b.mem[..] == old(b.mem[..]) && b.hdFreeSeg == old(b.hdFreeSeg)
    ensures again == seg == b.hdFreeSeg && IsFree(b.segs, seg)
    ensures b.nAllocSeg == old(b.nAllocSeg) + 2 && !b.Exact()
  {
    AllocLenZero(reqLen);
    seg := b.FstFit(AllocLen(reqLen));
    again := b.FstFit(AllocLen(reqLen));
  }
}
