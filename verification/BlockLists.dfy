/** The doubly linked list of blocks, as a relation between the fields of the blocks and a
    sequence of them, and the books that are kept over all blocks. */
module BlockLists {
  import opened Descriptors
  import opened SegMaps
  import opened BlockWords
  import opened SweepBounds
  import opened Views
  import opened SegBlks

  // ---- The list ----

  /** Two blocks share no memory. */
  ghost predicate Separate(b: SegBlk, c: SegBlk) {
    && b != c && b.mem != c.mem
    && (b.End() + HDR <= c.data || c.End() + HDR <= b.data)
  }

  ghost predicate AllSeparate(bs: seq<SegBlk>) {
    forall i: nat, j: nat {:trigger Separate(bs[i], bs[j])} | i < j < |bs| :: Separate(bs[i], bs[j])
  }

  lemma Distinct(bs: seq<SegBlk>)
    requires AllSeparate(bs)
    ensures forall i: nat, j: nat | i < |bs| && j < |bs| && i != j :: bs[i] != bs[j] && bs[i].mem != bs[j].mem
  {
    forall i: nat, j: nat | i < |bs| && j < |bs| && i != j ensures bs[i] != bs[j] && bs[i].mem != bs[j].mem {
      assert i < j ==> Separate(bs[i], bs[j]);
      assert j < i ==> Separate(bs[j], bs[i]);
    }
  }

  lemma DistinctFrom(bs: seq<SegBlk>, k: nat)
    requires AllSeparate(bs) && k < |bs|
    ensures forall i: nat {:trigger bs[i]} | i < |bs| && i != k :: bs[i] != bs[k] && bs[i].mem != bs[k].mem
  {
    Distinct(bs);
  }

  ghost function Before(bs: seq<SegBlk>, i: nat): SegBlk?
    requires i < |bs|
  {
    if i == 0 then null else bs[i - 1]
  }

  ghost function After(bs: seq<SegBlk>, i: nat): SegBlk?
    requires i < |bs|
  {
    if i + 1 == |bs| then null else bs[i + 1]
  }

  ghost predicate ChainedAt(bs: seq<SegBlk>, i: nat)
    requires i < |bs|
    reads (set b | b in bs)`prev, (set b | b in bs)`next
  {
    bs[i].prev == Before(bs, i) && bs[i].next == After(bs, i)
  }

  /** hd and tl are the ends of the list bs, and the fields link its blocks both ways. */
  ghost predicate Chained(bs: seq<SegBlk>, hd: SegBlk?, tl: SegBlk?)
    reads (set b | b in bs)`prev, (set b | b in bs)`next
  {
    && (if bs == [] then hd == null && tl == null else hd == bs[0] && tl == bs[|bs| - 1])
    && (forall i: nat {:trigger ChainedAt(bs, i)} | i < |bs| :: ChainedAt(bs, i))
  }

  /** The block list: linked both ways, disjoint memory, cur one of the blocks or null. */
  ghost predicate ListOk(bs: seq<SegBlk>, hd: SegBlk?, tl: SegBlk?, cur: SegBlk?)
    reads (set b | b in bs)`prev, (set b | b in bs)`next
  {
    Chained(bs, hd, tl) && AllSeparate(bs) && (cur != null ==> cur in bs)
  }

  // ---- The blocks ----

  ghost function Mems(bs: seq<SegBlk>): set<object> {
    set b | b in bs :: b.mem
  }

  ghost predicate BlockAt(bs: seq<SegBlk>, ss: seq<SegMap>, i: nat)
    requires i < |bs| == |ss|
    reads (set b | b in bs)`segs, (set b | b in bs)`hdFreeSeg, (set b | b in bs)`nFreeSeg
    reads (set b | b in bs)`nAllocSeg, Mems(bs)
  {
    bs[i].Valid() && bs[i].segs == ss[i]
  }

  /** Every block is valid and ss holds the segments of each. */
  ghost predicate BlocksOk(bs: seq<SegBlk>, ss: seq<SegMap>)
    reads (set b | b in bs)`segs, (set b | b in bs)`hdFreeSeg, (set b | b in bs)`nFreeSeg
    reads (set b | b in bs)`nAllocSeg, Mems(bs)
  {
    |ss| == |bs| && forall i: nat {:trigger BlockAt(bs, ss, i)} | i < |bs| :: BlockAt(bs, ss, i)
  }

  /** Since the old state the words of b are the same. */
  twostate predicate SameMem(b: SegBlk)
    reads b.mem
  {
    b.mem[..] == old(b.mem[..])
  }

  /** The allocated segments of m that are in l as well. */
  ghost function Both(m: SegMap, l: SegMap): SegMap {
    map a | a in Live(m) && a in l :: m[a]
  }

  /** Since the old state the data of the segments m of block b is the same. */
  twostate predicate DataSame(b: SegBlk, m: SegMap)
    reads b.mem
  {
    SameData(m, b.data, old(b.mem[..]), b.mem[..])
  }

  lemma SameDataBoth(m: SegMap, l: SegMap, lo: nat, w: seq<nat>, w': seq<nat>)
    requires SameData(m, lo, w, w')
    ensures SameData(Both(m, l), lo, w, w')
  {
    forall a: nat, i: nat | a in Both(m, l) && m[a].alloc && i < |w| ensures Kept(Both(m, l), lo, a, w, w', i) {
      assert Kept(m, lo, a, w, w', i);
    }
  }

  /** What is allocated in m is so in m', with the same length. */
  ghost predicate KeepsAll(m: SegMap, m': SegMap) {
    forall a | a in Live(m) :: a in Live(m') && m[a].len == m'[a].len
  }

  /** Data that was kept twice in a row. */
  lemma KeptTwice(m: SegMap, l: SegMap, m': SegMap, l': SegMap, lo: nat, w: seq<nat>, w': seq<nat>, w'': seq<nat>)
    requires SameData(Both(m, l), lo, w, w') && SameData(Both(m', l'), lo, w', w'')
    requires l.Keys == l'.Keys
    requires KeepsAll(m, m')
    ensures SameData(Both(m, l'), lo, w, w'')
  {
    SameDataStep(Both(m, l), Both(m', l'), Both(m, l'), lo, w, w', w'');
  }

  /** Since the old state b kept its segments and what it caches about them. */
  twostate predicate SameCache(b: SegBlk)
    reads b
  {
    b.segs == old(b.segs) && b.maxFreeSegLen == old(b.maxFreeSegLen) && b.nAllocSeg == old(b.nAllocSeg)
  }

  /** Since the old state b kept its bound and its count of allocated segments. */
  twostate predicate SameCounts(b: SegBlk)
    reads b`maxFreeSegLen, b`nAllocSeg
  {
    b.maxFreeSegLen == old(b.maxFreeSegLen) && b.nAllocSeg == old(b.nAllocSeg)
  }

  twostate predicate Alike(b: SegBlk)
    reads b, b.mem
  {
    SameMem(b) && SameCache(b)
  }

  /** Since the old state b kept its segments, free list, words and counts. */
  twostate predicate Unmoved(b: SegBlk)
    reads b, b.mem
  {
    && b.segs == old(b.segs) && b.mem[..] == old(b.mem[..]) && b.nAllocSeg == old(b.nAllocSeg)
    && b.hdFreeSeg == old(b.hdFreeSeg) && b.nFreeSeg == old(b.nFreeSeg)
  }

  lemma BlocksAppend(bs: seq<SegBlk>, ss: seq<SegMap>, b: SegBlk)
    requires BlocksOk(bs, ss) && b.Valid()
    ensures BlocksOk(bs + [b], ss + [b.segs])
  {
    forall i: nat | i < |bs + [b]| ensures BlockAt(bs + [b], ss + [b.segs], i) {
      assert i < |bs| ==> BlockAt(bs, ss, i);
    }
  }

  ghost function RemoveAt<T>(s: seq<T>, i: nat): seq<T>
    requires i < |s|
  {
    s[..i] + s[i + 1..]
  }

  lemma RemoveAtHas<T>(s: seq<T>, i: nat)
    requires i < |s|
    ensures forall x | x in s && x != s[i] :: x in RemoveAt(s, i)
    ensures forall x | x in RemoveAt(s, i) :: x in s
  {
    var t := RemoveAt(s, i);
    forall x | x in s && x != s[i] ensures x in t {
      var k :| 0 <= k < |s| && s[k] == x;
      assert t[if k < i then k else k - 1] == x;
    }
  }

  /** What two sequences share up to k + 1 they share up to k, and at k. */
  lemma SharePrefix<T>(s: seq<T>, t: seq<T>, k: nat)
    requires k < |s| && k < |t| && s[..k + 1] == t[..k + 1]
    ensures s[..k] == t[..k] && s[k] == t[k]
    ensures forall i: nat {:trigger t[i]} | i < k :: t[i] == s[i]
  {
    assert s[..k] == s[..k + 1][..k] && t[..k] == t[..k + 1][..k];
    assert forall i: nat {:trigger t[i]} | i <= k :: t[i] == t[..k + 1][i] && s[..k + 1][i] == s[i];
  }

  /** Taking out the k-th element leaves the first k alone. */
  lemma RemovePrefix<T>(s: seq<T>, t: seq<T>, k: nat)
    requires k < |s| && k <= |t| && s[..k] == t[..k]
    ensures RemoveAt(s, k)[..k] == t[..k]
    ensures forall i: nat {:trigger t[i]} | i < k :: t[i] in RemoveAt(s, k)
  {
    assert forall i: nat {:trigger t[i]} | i < k :: t[i] == t[..k][i] && s[..k][i] == s[i] == RemoveAt(s, k)[i];
  }

  /** x comes before y in the list. */
  ghost predicate Ahead<T>(s: seq<T>, x: T, y: T) {
    exists i: nat, j: nat :: i < j < |s| && s[i] == x && s[j] == y
  }

  /** The elements of s come from t in their old order. */
  ghost predicate InOrder<T>(s: seq<T>, t: seq<T>) {
    forall p: nat, q: nat {:trigger s[p], s[q]} | p < q < |s| :: Ahead(t, s[p], s[q])
  }

  lemma SameOrder<T>(s: seq<T>)
    ensures InOrder(s, s)
  {
  }

  lemma RemoveInOrder<T>(s: seq<T>, t: seq<T>, k: nat)
    requires InOrder(s, t) && k < |s|
    ensures InOrder(RemoveAt(s, k), t)
  {
    var r := RemoveAt(s, k);
    forall p: nat, q: nat | p < q < |r| ensures Ahead(t, r[p], r[q]) {
      var p', q' := if p < k then p else p + 1, if q < k then q else q + 1;
      assert r[p] == s[p'] && r[q] == s[q'];
    }
  }

  lemma BlocksRemove(bs: seq<SegBlk>, ss: seq<SegMap>, k: nat)
    requires BlocksOk(bs, ss) && k < |bs|
    ensures BlocksOk(RemoveAt(bs, k), RemoveAt(ss, k))
  {
    var cs, tt := RemoveAt(bs, k), RemoveAt(ss, k);
    forall i: nat | i < |cs| ensures BlockAt(cs, tt, i) {
      var j := if i < k then i else i + 1;
      assert cs[i] == bs[j] && tt[i] == ss[j];
      assert BlockAt(bs, ss, j);
    }
  }

  /** Segments of different blocks lie at different addresses. */
  lemma ViewsApart(bs: seq<SegBlk>, ss: seq<SegMap>, k: nat, a: nat)
    requires BlocksOk(bs, ss) && AllSeparate(bs) && k < |bs| && bs[k].data <= a < bs[k].End()
    ensures forall j | 0 <= j < |ss| && j != k :: a !in Live(ss[j])
  {
    forall j | 0 <= j < |ss| && j != k ensures a !in Live(ss[j]) {
      assert BlockAt(bs, ss, j);
      assert j < k ==> Separate(bs[j], bs[k]);
      assert k < j ==> Separate(bs[k], bs[j]);
      LiveInside(ss[j], bs[j].data, bs[j].End());
    }
  }

  lemma RemovedApart(bs: seq<SegBlk>, k: nat)
    requires AllSeparate(bs) && k < |bs|
    ensures bs[k] !in RemoveAt(bs, k) && bs[k].mem !in Mems(RemoveAt(bs, k))
  {
    Distinct(bs);
  }

  lemma RemovedSeparate(bs: seq<SegBlk>, k: nat)
    requires AllSeparate(bs) && k < |bs|
    ensures AllSeparate(RemoveAt(bs, k))
  {
    var cs := RemoveAt(bs, k);
    forall i: nat, j: nat | i < j < |cs| ensures Separate(cs[i], cs[j]) {
      assert Separate(bs[if i < k then i else i + 1], bs[if j < k then j else j + 1]);
    }
  }

  /** Of the blocks was, only the k-th is among bs and not any more once it is taken out. */
  lemma RemovedFates(bs: seq<SegBlk>, k: nat, was: seq<SegBlk>)
    requires AllSeparate(bs) && AllSeparate(was) && k < |bs| && k < |was| && bs[k] == was[k]
    requires forall b {:trigger b in bs} | b in bs :: b in was
    ensures forall i: nat {:trigger was[i]} | i < |was| :: was[i] in RemoveAt(bs, k) <==> was[i] in bs && i != k
    ensures forall b {:trigger b in RemoveAt(bs, k)} | b in RemoveAt(bs, k) :: b in was
  {
    RemoveAtHas(bs, k);
    RemovedApart(bs, k);
    DistinctFrom(was, k);
  }

  // ---- The books ----

  /** The lengths of the blocks together. */
  ghost function TotLen(bs: seq<SegBlk>): nat {
    if bs == [] then 0 else bs[0].len + TotLen(bs[1..])
  }

  lemma {:induction false} TotLenAppend(bs: seq<SegBlk>, cs: seq<SegBlk>)
    ensures TotLen(bs + cs) == TotLen(bs) + TotLen(cs)
  {
    if bs == [] {
      assert bs + cs == cs;
    } else {
      assert (bs + cs)[1..] == bs[1..] + cs;
      TotLenAppend(bs[1..], cs);
    }
  }

  lemma TotLenOne(bs: seq<SegBlk>, b: SegBlk)
    ensures TotLen(bs + [b]) == TotLen(bs) + b.len
  {
    TotLenAppend(bs, [b]);
    assert [b][1..] == [];
  }

  lemma {:induction false} TotLenRemove(bs: seq<SegBlk>, i: nat)
    requires i < |bs|
    ensures TotLen(bs) == TotLen(RemoveAt(bs, i)) + bs[i].len
  {
    if i == 0 {
      assert RemoveAt(bs, 0) == bs[1..];
    } else {
      assert RemoveAt(bs, i)[1..] == RemoveAt(bs[1..], i - 1);
      TotLenRemove(bs[1..], i - 1);
    }
  }

  /** The counters over all blocks, and the union of the allocated segments. */
  ghost predicate Books(bs: seq<SegBlk>, ss: seq<SegMap>, live: SegMap, nBlk: nat, totUse: nat,
                        nSeg: nat, currUse: nat, markCount: nat) {
    && nBlk == |bs|
    && totUse == TotLen(bs)
    && Counts(ss, nSeg, currUse, markCount)
    && IsUnion(live, ss)
  }

  lemma BooksNoBlocks(bs: seq<SegBlk>, ss: seq<SegMap>, live: SegMap, nBlk: nat, totUse: nat,
                      nSeg: nat, currUse: nat, markCount: nat)
    requires Books(bs, ss, live, nBlk, totUse, nSeg, currUse, markCount) && |ss| == |bs|
    ensures bs == [] ==> live == map[]
  {
    UnionIs(live, ss);
  }

  lemma BooksAppend(bs: seq<SegBlk>, ss: seq<SegMap>, live: SegMap, nBlk: nat, totUse: nat,
                    nSeg: nat, currUse: nat, markCount: nat, b: SegBlk, m: SegMap)
    requires Books(bs, ss, live, nBlk, totUse, nSeg, currUse, markCount) && Live(m) == map[]
    ensures Books(bs + [b], ss + [m], live, nBlk + 1, totUse + b.len, nSeg, currUse, markCount)
  {
    TotLenOne(bs, b);
    CountsAppend(ss, nSeg, currUse, markCount, m);
    UnionAppend(live, ss, m);
  }

  /** A block without allocated segments leaves the books. */
  lemma BooksRemove(bs: seq<SegBlk>, ss: seq<SegMap>, live: SegMap, nBlk: nat, totUse: nat,
                    nSeg: nat, currUse: nat, markCount: nat, k: nat)
    requires Books(bs, ss, live, nBlk, totUse, nSeg, currUse, markCount)
    requires k < |bs| == |ss| && Vacant(ss[k])
    ensures nBlk > 0 && totUse >= bs[k].len
    ensures Books(RemoveAt(bs, k), RemoveAt(ss, k), live, nBlk - 1, totUse - bs[k].len, nSeg, currUse, markCount)
  {
    VacantIs(ss[k]);
    TotLenRemove(bs, k);
    CountsRemove(ss, nSeg, currUse, markCount, k);
    UnionIs(live, ss);
    LiveAllRemove(ss, k);
    UnionIs(live, RemoveAt(ss, k));
  }

  /** A segment is allocated, or gets other flags, in the k-th block. */
  lemma BooksSet(bs: seq<SegBlk>, ss: seq<SegMap>, live: SegMap, nBlk: nat, totUse: nat,
                 nSeg: nat, currUse: nat, markCount: nat, k: nat, m: SegMap, a: nat, s: Seg)
    requires Books(bs, ss, live, nBlk, totUse, nSeg, currUse, markCount)
    requires k < |ss| && Live(m) == Live(ss[k])[a := s]
    requires forall j | 0 <= j < |ss| && j != k :: a !in Live(ss[j])
    ensures a in Live(ss[k]) <==> a in live
    ensures a in live ==> live[a] == ss[k][a]
    ensures a in live && s.len == live[a].len ==>
              var marks := markCount + (if s.mark then 1 else 0) - (if live[a].mark then 1 else 0);
              marks >= 0 && Books(bs, ss[k := m], live[a := s], nBlk, totUse, nSeg, currUse, marks)
    ensures a !in live && !s.mark ==>
              Books(bs, ss[k := m], live[a := s], nBlk, totUse, nSeg + 1, currUse + s.len, markCount)
  {
    CountsSet(ss, nSeg, currUse, markCount, k, m, a, s);
    UnionIs(live, ss);
    LiveAllHas(ss, a);
    LiveAllOnly(ss, k, a);
    LiveAllSet(ss, k, m, a, s);
    UnionIs(live[a := s], ss[k := m]);
  }

  /** A segment of the k-th block is freed. */
  lemma BooksDrop(bs: seq<SegBlk>, ss: seq<SegMap>, live: SegMap, nBlk: nat, totUse: nat,
                  nSeg: nat, currUse: nat, markCount: nat, k: nat, m: SegMap, a: nat)
    requires Books(bs, ss, live, nBlk, totUse, nSeg, currUse, markCount)
    requires k < |ss| && a in Live(ss[k]) && Live(m) == Live(ss[k]) - {a} && !ss[k][a].mark
    requires forall j | 0 <= j < |ss| && j != k :: a !in Live(ss[j])
    ensures a in live && live[a] == ss[k][a] && nSeg > 0 && currUse >= ss[k][a].len
    ensures Books(bs, ss[k := m], live - {a}, nBlk, totUse, nSeg - 1, currUse - ss[k][a].len, markCount)
  {
    CountsDrop(ss, nSeg, currUse, markCount, k, m, a);
    UnionIs(live, ss);
    LiveAllHas(ss, a);
    LiveAllOnly(ss, k, a);
    LiveAllDrop(ss, k, m, a);
    UnionIs(live - {a}, ss[k := m]);
  }

  /** The segment at a was carved off in the k-th block: the books after it is entered. */
  lemma BooksEnter(bs: seq<SegBlk>, ss: seq<SegMap>, live: SegMap, nBlk: nat, totUse: nat,
                   nSeg: nat, currUse: nat, markCount: nat, k: nat, m: SegMap, a: nat, len: nat)
    requires Books(bs, ss, live, nBlk, totUse, nSeg, currUse, markCount)
    requires AllSeparate(bs) && k < |bs| == |ss| && BlocksOk(bs, ss[k := m])
    requires Live(m) == Live(ss[k])[a := Seg(len, true, false, false)] && a !in Live(ss[k])
    ensures a !in live && 0 < bs[k].data <= a && a + len <= bs[k].End()
    ensures Books(bs, ss[k := m], live[a := Seg(len, true, false, false)], nBlk, totUse,
                  nSeg + 1, currUse + len, markCount)
  {
    assert BlockAt(bs, ss[k := m], k);
    assert a in Live(m) && Inside(m, bs[k].data, bs[k].End(), a);
    ViewsApart(bs, ss[k := m], k, a);
    assert forall j | 0 <= j < |ss| && j != k :: ss[k := m][j] == ss[j];
    BooksSet(bs, ss, live, nBlk, totUse, nSeg, currUse, markCount, k, m, a, Seg(len, true, false, false));
  }

  /** The last segment of the k-th block is freed and the block leaves. */
  lemma BooksDropLast(bs: seq<SegBlk>, ss: seq<SegMap>, live: SegMap, nBlk: nat, totUse: nat,
                      nSeg: nat, currUse: nat, markCount: nat, k: nat, a: nat)
    requires Books(bs, ss, live, nBlk, totUse, nSeg, currUse, markCount)
    requires k < |bs| == |ss| && Live(ss[k]).Keys == {a} && !ss[k][a].mark
    requires forall j | 0 <= j < |ss| && j != k :: a !in Live(ss[j])
    ensures a in live && live[a] == ss[k][a] && nSeg > 0 && currUse >= ss[k][a].len
    ensures nBlk > 0 && totUse >= bs[k].len
    ensures Books(RemoveAt(bs, k), RemoveAt(ss, k), live - {a}, nBlk - 1, totUse - bs[k].len,
                  nSeg - 1, currUse - ss[k][a].len, markCount)
  {
    assert Live(map[]) == map[] && Live(ss[k]) - {a} == map[];
    BooksDrop(bs, ss, live, nBlk, totUse, nSeg, currUse, markCount, k, map[], a);
    var tt := ss[k := map[]];
    VacantIs(map[]);
    BooksRemove(bs, tt, live - {a}, nBlk, totUse, nSeg - 1, currUse - ss[k][a].len, markCount, k);
    assert RemoveAt(tt, k) == RemoveAt(ss, k);
  }

  lemma OnlyOne(l: SegMap, a: nat)
    requires a in l
    ensures |l| <= 1 ==> l.Keys == {a}
    ensures l.Keys == {a} ==> |l| == 1
  {
    assert |l.Keys| == |l|;
    assert |l.Keys - {a}| == |l| - 1;
    if |l| <= 1 {
      assert l.Keys - {a} == {};
    }
  }

  /** An address inside the h-th block is live when it is allocated there. */
  lemma LiveHere(bs: seq<SegBlk>, ss: seq<SegMap>, live: SegMap, h: nat, a: nat)
    requires BlocksOk(bs, ss) && AllSeparate(bs) && IsUnion(live, ss)
    requires h < |bs| && bs[h].data <= a < bs[h].End()
    ensures a in live <==> a in Live(ss[h])
    ensures a in live ==> live[a] == ss[h][a]
    ensures forall b | b in bs && b.data <= a < b.End() :: b == bs[h]
  {
    ViewsApart(bs, ss, h, a);
    UnionIs(live, ss);
    LiveAllOnly(ss, h, a);
    forall b | b in bs && b.data <= a < b.End() ensures b == bs[h] {
      var j: nat :| j < |bs| && bs[j] == b;
      assert j < h ==> Separate(bs[j], bs[h]);
      assert h < j ==> Separate(bs[h], bs[j]);
    }
  }

  /** The flags of a live segment are those of its descriptor word. */
  lemma FlagsHere(bs: seq<SegBlk>, ss: seq<SegMap>, h: nat, a: nat)
    requires BlocksOk(bs, ss) && h < |bs| && a in Live(ss[h])
    ensures bs[h].data <= a < bs[h].End()
    ensures Has(bs[h].mem[a - bs[h].data], ALLOC_FLAG)
    ensures Has(bs[h].mem[a - bs[h].data], GC_FLAG) == ss[h][a].gc
    ensures Has(bs[h].mem[a - bs[h].data], MARK_FLAG) == ss[h][a].mark
  {
    assert BlockAt(bs, ss, h);
    bs[h].DescriptorAt(a);
  }

  /** The descriptor word of a live segment. */
  lemma WordHere(bs: seq<SegBlk>, ss: seq<SegMap>, h: nat, a: nat)
    requires BlocksOk(bs, ss) && h < |bs| && a in Live(ss[h])
    ensures bs[h].data <= a < bs[h].End() && SegOk(ss[h][a])
    ensures bs[h].mem[a - bs[h].data] == Word(ss[h][a])
    ensures Has(Word(ss[h][a]), ALLOC_FLAG) && Has(Word(ss[h][a]), GC_FLAG) == ss[h][a].gc
  {
    assert BlockAt(bs, ss, h);
    bs[h].DescriptorAt(a);
  }

  // ---- Sweeping ----

  lemma BooksSweep(bs: seq<SegBlk>, ss: seq<SegMap>, live: SegMap, nBlk: nat, totUse: nat,
                   nSeg: nat, currUse: nat, markCount: nat, k: nat, m: SegMap,
                   n: nat, n': nat, max: nat, h: Haul) returns (now: SegMap)
    requires Books(bs, ss, live, nBlk, totUse, nSeg, currUse, markCount) && k < |ss|
    requires Done(ss[k], n, m, n', max, h)
    ensures nSeg >= h.released && currUse >= h.freed && markCount >= h.unmarked
    ensures Books(bs, ss[k := m], now, nBlk, totUse, nSeg - h.released, currUse - h.freed,
                  markCount - h.unmarked)
    ensures live == map[] ==> now == map[]
  {
    DoneFacts(ss[k], n, m, n', max, h);
    UnionIs(live, ss);
    StillNothing(ss, k, m);
    CountsSweep(ss, nSeg, currUse, markCount, k, m, h);
    now := LiveAll(ss[k := m]);
    UnionIs(now, ss[k := m]);
  }

  lemma AllApart(bs: seq<SegBlk>, ss: seq<SegMap>)
    requires BlocksOk(bs, ss) && AllSeparate(bs)
    ensures Apart2(ss)
  {
    forall i: nat, j: nat | i < |ss| && j < |ss| && i != j ensures ViewApart(ss[i], ss[j]) {
      assert BlockAt(bs, ss, i);
      forall a | a in Live(ss[i]) ensures a !in Live(ss[j]) {
        assert Inside(ss[i], bs[i].data, bs[i].End(), a);
        ViewsApart(bs, ss, i, a);
      }
    }
  }

  /** What leaves is left empty. */
  lemma LeavesEmpty(m: SegMap, n: nat)
    requires Recount(m, n) == 0 && |Live(m)| <= n
    ensures Swept(Live(m)) == map[]
  {
    var l := Live(m);
    SweptBytes(l);
    if l != map[] {
      assert |Swept(l)| == 0;
    }
  }

  /** A sweep that began with the blocks ss is over when it comes to the p-th: what it has
      collected amounts to a new block, and no marks are left before. */
  ghost predicate Enough(ss: seq<SegMap>, p: nat, blkLen: nat)
    requires p <= |ss|
  {
    Collected(ss[p..]) >= blkLen && Total(Marks, ss[..p]) == 0
  }

  /** The sweep ends with the first block, from the tail, at which it is over. */
  ghost predicate StopsAt(ss: seq<SegMap>, p: nat, blkLen: nat) {
    && p <= |ss|
    && (forall q: nat {:trigger Enough(ss, q, blkLen)} | p < q < |ss| :: !Enough(ss, q, blkLen))
    && (p > 0 ==> p < |ss| && Enough(ss, p, blkLen))
  }

  /** The blocks before a sweep: their segments, words, counts of allocated segments and bounds;
      and what is to become of them: their counts after the sweep, and at which the sweep may
      end. */
  datatype Was = Was(bs: seq<SegBlk>, ss: seq<SegMap>, ws: seq<seq<nat>>, ns: seq<nat>, ms: seq<nat>,
                     left: seq<int>, ends: seq<bool>) {
    ghost predicate Ok() {
      |bs| == |ss| == |ws| == |ns| == |ms| == |left| == |ends|
    }

    /** The forecast is right. */
    ghost predicate Foretold(blkLen: nat)
      requires Ok()
    {
      forall i: nat {:trigger ForetoldAt(i, blkLen)} | i < |bs| :: ForetoldAt(i, blkLen)
    }

    ghost predicate ForetoldAt(i: nat, blkLen: nat)
      requires Ok() && i < |bs|
    {
      && left[i] == Recount(ss[i], ns[i])
      && (ends[i] <==> Enough(ss, i, blkLen))
    }

    /** The sweep stops at p. */
    ghost predicate Stops(p: nat)
      requires Ok()
    {
      p <= |bs| && (forall i: nat | p < i < |bs| :: !ends[i]) && (p > 0 ==> p < |bs| && ends[p])
    }

    lemma StopsForetold(p: nat, blkLen: nat)
      requires Ok() && Foretold(blkLen) && Stops(p)
      ensures StopsAt(ss, p, blkLen)
    {
      forall i: nat | i < |bs| ensures ends[i] <==> Enough(ss, i, blkLen) {
        assert ForetoldAt(i, blkLen);
      }
    }
  }

  /** A sweep that stopped at the stop-th block, had let go of empty ones from q on, and collected
      nFree bytes; and one of its blocks. */
  datatype Ending = Ending(was: Was, stop: nat, q: nat, nFree: nat, i: nat) {
    ghost predicate Ok(blkLen: nat) {
      && was.Ok() && i < |was.bs| && was.Stops(stop) && was.Foretold(blkLen)
      && q == (if stop < |was.bs| && was.ends[stop] then stop + 1 else stop)
    }
  }

  lemma Forecast(bs: seq<SegBlk>, ss: seq<SegMap>, ws: seq<seq<nat>>, ns: seq<nat>, ms: seq<nat>, blkLen: nat)
    returns (was: Was)
    requires |bs| == |ss| == |ws| == |ns| == |ms|
    ensures was.Ok() && was.Foretold(blkLen)
    ensures was.bs == bs && was.ss == ss && was.ws == ws && was.ns == ns && was.ms == ms
  {
    was := Was(bs, ss, ws, ns, ms, seq(|bs|, i requires 0 <= i < |bs| => Recount(ss[i], ns[i])),
               seq(|bs|, i requires 0 <= i < |bs| => Enough(ss, i, blkLen)));
    forall i: nat | i < |bs| ensures was.ForetoldAt(i, blkLen) {
    }
  }

  // ---- The current block after a sweep ----

  /** What the sweep of the blocks ss, left with the counts left, had collected when it last met
      a block that stays, having dealt with the blocks from p on (prevN_Free). */
  ghost function LastCount(ss: seq<SegMap>, left: seq<int>, p: nat): nat
    requires |left| == |ss|
    decreases |ss| - p
  {
    if p >= |ss| then 0 else if left[p] != 0 then Collected(ss[p..]) else LastCount(ss, left, p + 1)
  }

  /** The sweep makes the i-th block the current one. */
  ghost predicate MovesTo(ss: seq<SegMap>, left: seq<int>, i: nat)
    requires i < |ss| == |left|
  {
    left[i] != 0 && Collected(ss[i..]) != LastCount(ss, left, i + 1)
  }

  /** Something was collected in the g-th block, and the blocks behind the i-th up to it leave. */
  ghost predicate GainUpTo(ss: seq<SegMap>, left: seq<int>, i: nat, g: nat)
    requires |left| == |ss|
  {
    i <= g < |ss| && HaulOf(ss[g]).freed > 0 && forall j | i < j <= g :: left[j] == 0
  }

  /** The same, where the gain is in a block behind the i-th. */
  ghost predicate GainBehind(ss: seq<SegMap>, left: seq<int>, i: nat, g: nat)
    requires |left| == |ss|
  {
    i + 1 < |ss| && left[i + 1] == 0 && GainUpTo(ss, left, i + 1, g)
  }

  /** A block that stays becomes the current one if and only if something was collected in it or
      in the blocks behind it up to the next one that stays. */
  lemma {:induction false} MovesWhen(ss: seq<SegMap>, left: seq<int>, i: nat)
    requires i < |ss| == |left|
    ensures Collected(ss[i..]) != LastCount(ss, left, i + 1) <==> exists g: nat :: GainUpTo(ss, left, i, g)
    ensures MovesTo(ss, left, i) <==> left[i] != 0 && exists g: nat :: GainUpTo(ss, left, i, g)
    decreases |ss| - i
  {
    assert ss[i..][0] == ss[i] && ss[i..][1..] == ss[i + 1..];
    if HaulOf(ss[i]).freed > 0 {
      assert GainUpTo(ss, left, i, i);
      LastCountBound(ss, left, i + 1);
    } else {
      forall g: nat ensures GainUpTo(ss, left, i, g) <==> GainBehind(ss, left, i, g) {
        GainFurther(ss, left, i, g);
      }
      if i + 1 < |ss| && left[i + 1] == 0 {
        var n := i + 1;
        MovesWhen(ss, left, n);
        if g: nat :| GainUpTo(ss, left, n, g) {
          assert GainBehind(ss, left, i, g);
        }
      }
    }
  }

  lemma GainFurther(ss: seq<SegMap>, left: seq<int>, i: nat, g: nat)
    requires i < |ss| == |left| && HaulOf(ss[i]).freed == 0
    ensures GainUpTo(ss, left, i, g) <==> GainBehind(ss, left, i, g)
  {
  }

  lemma {:induction false} LastCountBound(ss: seq<SegMap>, left: seq<int>, p: nat)
    requires |left| == |ss| && p <= |ss|
    ensures LastCount(ss, left, p) <= Collected(ss[p..])
    decreases |ss| - p
  {
    if p < |ss| {
      assert ss[p..][0] == ss[p] && ss[p..][1..] == ss[p + 1..];
      LastCountBound(ss, left, p + 1);
    }
  }

  /** The first block from p on that the sweep makes current: the last one to be it, as the sweep
      goes backwards. */
  ghost function LastMove(ss: seq<SegMap>, left: seq<int>, p: nat): (i: nat)
    requires p <= |ss| == |left|
    ensures p <= i <= |ss| && (i < |ss| ==> MovesTo(ss, left, i))
    ensures forall j | p <= j < i :: !MovesTo(ss, left, j)
    decreases |ss| - p
  {
    if p == |ss| || MovesTo(ss, left, p) then p else LastMove(ss, left, p + 1)
  }

  ghost function Head(bs: seq<SegBlk>): SegBlk? {
    if bs == [] then null else bs[0]
  }

  /** The current block after the sweep of the blocks bs from p on, which leaves the blocks now,
      when it was cur before: the last block that the sweep made current, else cur, or the head
      when cur has left. */
  ghost function CurrentAfter(bs: seq<SegBlk>, ss: seq<SegMap>, left: seq<int>, p: nat, cur: SegBlk?,
                              now: seq<SegBlk>): SegBlk?
    requires p <= |bs| == |ss| == |left|
  {
    var i := LastMove(ss, left, p);
    if i < |bs| then bs[i] else if cur == null || cur in now then cur else Head(now)
  }

  /** One more block was swept. */
  lemma CurrentStep(bs: seq<SegBlk>, ss: seq<SegMap>, left: seq<int>, k: nat, cur0: SegBlk?, cur: SegBlk?,
                    cur': SegBlk?, now: seq<SegBlk>, now': seq<SegBlk>)
    requires k < |bs| == |ss| == |left| && AllSeparate(bs) && AllSeparate(now)
    requires cur == CurrentAfter(bs, ss, left, k + 1, cur0, now)
    requires k < |now| && now[k] == bs[k] && now' == if left[k] != 0 then now else RemoveAt(now, k)
    requires cur' == if left[k] == 0 then (if cur == bs[k] then Head(now') else cur)
                     else if MovesTo(ss, left, k) then bs[k] else cur
    ensures cur' == CurrentAfter(bs, ss, left, k, cur0, now')
  {
    if left[k] == 0 {
      DistinctFrom(bs, k);
      RemoveAtHas(now, k);
      RemovedApart(now, k);
    }
  }

  /** How the i-th block has fared when the sweep has dealt with the blocks from p on, has
      let go of empty ones from q on, and has left the blocks now. */
  ghost predicate SweptSoFar(was: Was, now: seq<SegBlk>, p: nat, q: nat, i: nat)
    requires was.Ok() && i < |was.bs|
    reads Mems(was.bs), (set b | b in was.bs)`nAllocSeg, (set b | b in was.bs)`maxFreeSegLen
  {
    var b, m := was.bs[i], was.ss[i];
    && (i < p ==> b.mem[..] == was.ws[i] && b.nAllocSeg == was.ns[i] && b.maxFreeSegLen == was.ms[i])
    && (i >= p && b in now ==> SameData(Swept(Live(m)), b.data, was.ws[i], b.mem[..]))
    && (i >= p && b in now ==> SweptBound(m, b.maxFreeSegLen))
    && (i >= p && b in now ==> b.nAllocSeg == was.left[i])
    && (b !in now <==> i >= q && was.left[i] == 0)
  }

  /** The i-th block has fared as it should, and so has the sweep as a whole: the blocks are
      now, with segments ss, and marks segments are marked. */
  ghost predicate CourseAt(was: Was, now: seq<SegBlk>, ss: seq<SegMap>, marks: nat, p: nat, q: nat, nFree: nat, i: nat)
    reads Mems(was.bs), (set b | b in was.bs)`nAllocSeg, (set b | b in was.bs)`maxFreeSegLen
  {
    && was.Ok() && AllSeparate(was.bs) && Apart2(was.ss)
    && p <= |was.bs| && p <= |now| && now[..p] == was.bs[..p]
    && Progress(was.ss, ss, p, nFree, marks)
    && (forall b {:trigger b in now} | b in now :: b in was.bs)
    && (i < |was.bs| ==> SweptSoFar(was, now, p, q, i))
  }

  lemma SweptBoth(ss: seq<SegMap>, p: nat, i: nat, live: SegMap, lo: nat, w: seq<nat>, w': seq<nat>)
    requires p <= i < |ss| && Apart2(ss) && live == LiveAll(ss[..p]) + Swept(LiveAll(ss[p..]))
    requires SameData(Swept(Live(ss[i])), lo, w, w')
    ensures SameData(Both(ss[i], live), lo, w, w')
  {
    var l, m := Swept(Live(ss[i])), Both(ss[i], live);
    forall a: nat, j: nat | a in m && m[a].alloc && j < |w| ensures Kept(m, lo, a, w, w', j) {
      SweptSurvivor(ss, p, i, live, a);
      assert Kept(l, lo, a, w, w', j);
    }
  }
}
