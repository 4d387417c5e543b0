/** The segments of one block, as a map from the address of each segment to what its
    descriptor says; and the pure facts behind splitting, freeing and coalescing. */
module SegMaps {
  import opened Descriptors

  type SegMap = map<nat, Seg>

  ghost predicate IsFree(m: SegMap, a: nat) {
    a in m && !m[a].alloc
  }

  /** The segment at a is followed by another segment or by the end of the area. */
  ghost predicate Closed(m: SegMap, a: nat, hi: nat)
    requires a in m
  {
    a + m[a].len == hi || a + m[a].len in m
  }

  /** The segments at a and b do not overlap. */
  ghost predicate Apart(m: SegMap, a: nat, b: nat)
    requires a in m && b in m
  {
    (a < b ==> a + m[a].len <= b) && (b < a ==> b + m[b].len <= a)
  }

  /** The segment at a is sound and lies inside the area. */
  ghost predicate Inside(m: SegMap, lo: nat, hi: nat, a: nat)
    requires a in m
  {
    lo <= a && SegOk(m[a]) && a + m[a].len <= hi
  }

  ghost predicate Placed(m: SegMap, lo: nat, hi: nat) {
    lo in m && forall a {:trigger Inside(m, lo, hi, a)} | a in m :: Inside(m, lo, hi, a)
  }

  ghost predicate Contiguous(m: SegMap, hi: nat) {
    forall a {:trigger Closed(m, a, hi)} | a in m :: Closed(m, a, hi)
  }

  ghost predicate Disjoint(m: SegMap) {
    forall a, b {:trigger Apart(m, a, b)} | a in m && b in m :: Apart(m, a, b)
  }

  /** The segments tile the area [lo, hi) without gap or overlap. */
  ghost predicate Tiled(m: SegMap, lo: nat, hi: nat) {
    Placed(m, lo, hi) && Contiguous(m, hi) && Disjoint(m)
  }

  /** No two free segments are adjacent. */
  ghost predicate Coalesced(m: SegMap) {
    forall a {:trigger NoFreeAfter(m, a)} | a in m :: NoFreeAfter(m, a)
  }

  /** The segment at a is not a free one followed by a free one. */
  ghost predicate NoFreeAfter(m: SegMap, a: nat)
    requires a in m
  {
    m[a].alloc || !IsFree(m, a + m[a].len)
  }

  ghost function FreeSet(m: SegMap): (f: set<nat>) {
    set a | a in m && !m[a].alloc
  }

  /** The allocated segments. */
  ghost function Live(m: SegMap): (l: SegMap) {
    map a | a in m && m[a].alloc :: m[a]
  }

  /** q is the least address in f from a on, or NULL when there is none. */
  ghost predicate IsNext(f: set<nat>, a: nat, q: nat) {
    if q == NULL then forall p | p in f :: p < a
    else q in f && a <= q && forall p | p in f && a <= p :: q <= p
  }

  // ---- A coalesced tiling is determined by its allocated segments ----

  lemma {:induction false} SameFrom(m: SegMap, n: SegMap, lo: nat, hi: nat, a: nat, p: nat)
    requires Tiled(m, lo, hi) && Coalesced(m)
    requires Tiled(n, lo, hi) && Coalesced(n)
    requires Live(m) == Live(n)
    requires a in m && a in n && a <= p && p in m
    ensures p in n && n[p] == m[p]
    decreases hi - a
  {
    SameAt(m, n, lo, hi, a);
    if p != a {
      assert Closed(m, a, hi) && Closed(n, a, hi) && Apart(m, a, p);
      assert Inside(m, lo, hi, a) && Inside(m, lo, hi, p);
      SameFrom(m, n, lo, hi, a + m[a].len, p);
    }
  }

  lemma SameAt(m: SegMap, n: SegMap, lo: nat, hi: nat, a: nat)
    requires Tiled(m, lo, hi) && Coalesced(m)
    requires Tiled(n, lo, hi) && Coalesced(n)
    requires Live(m) == Live(n)
    requires a in m && a in n
    ensures n[a] == m[a]
  {
    if a in Live(m) {
      assert Live(m)[a] == Live(n)[a];
    } else {
      assert a !in Live(n);
      assert Closed(m, a, hi) && Closed(n, a, hi) && Inside(m, lo, hi, a) && Inside(n, lo, hi, a);
      var e, f := a + m[a].len, a + n[a].len;
      assert e in n ==> Apart(n, a, e);
      assert f in m ==> Apart(m, a, f);
      assert NoFreeAfter(m, a) && NoFreeAfter(n, a);
      assert e in m ==> e in Live(m);
      assert f in n ==> f in Live(n);
    }
  }

  /** Two coalesced tilings of one area with the same allocated segments are equal: what
      is allocated fixes every free segment. */
  lemma TilingUnique(m: SegMap, n: SegMap, lo: nat, hi: nat)
    requires Tiled(m, lo, hi) && Coalesced(m)
    requires Tiled(n, lo, hi) && Coalesced(n)
    requires Live(m) == Live(n)
    ensures m == n
  {
    forall p | p in m ensures p in n && n[p] == m[p] {
      assert Inside(m, lo, hi, p);
      SameFrom(m, n, lo, hi, lo, p);
    }
    forall p | p in n ensures p in m {
      assert Inside(n, lo, hi, p);
      SameFrom(n, m, lo, hi, lo, p);
    }
  }

  // ---- Splitting a free segment ----

  /** The first len bytes of the free segment at a become an allocated segment. */
  ghost function Carve(m: SegMap, a: nat, len: nat): SegMap
    requires a in m && len <= m[a].len
  {
    var m' := m[a := Seg(len, true, false, false)];
    if len == m[a].len then m' else m'[a + len := FreeSeg(m[a].len - len)]
  }

  lemma CarveTiles(m: SegMap, lo: nat, hi: nat, a: nat, len: nat)
    requires Tiled(m, lo, hi) && Coalesced(m)
    requires IsFree(m, a) && QUANT <= len <= m[a].len && len % QUANT == 0
    ensures Tiled(Carve(m, a, len), lo, hi) && Coalesced(Carve(m, a, len))
    ensures Live(Carve(m, a, len)) == Live(m)[a := Seg(len, true, false, false)]
    ensures FreeSet(Carve(m, a, len)) ==
            if len == m[a].len then FreeSet(m) - {a} else FreeSet(m) - {a} + {a + len}
    ensures len < m[a].len ==> a + len !in m
  {
    assert a + len in m ==> Apart(m, a, a + len);
    var m' := Carve(m, a, len);
    forall p | p in m' ensures Inside(m', lo, hi, p) {
      assert Inside(m, lo, hi, a) && (p in m ==> Inside(m, lo, hi, p));
    }
    CarveContiguous(m, hi, a, len);
    CarveDisjoint(m, a, len);
    CarveCoalesced(m, a, len);
    CarveLive(m, a, len);
  }

  lemma CarveContiguous(m: SegMap, hi: nat, a: nat, len: nat)
    requires Contiguous(m, hi)
    requires IsFree(m, a) && len <= m[a].len
    ensures Contiguous(Carve(m, a, len), hi)
  {
    var m' := Carve(m, a, len);
    forall p | p in m' ensures Closed(m', p, hi) {
      assert Closed(m, a, hi);
      assert p in m ==> Closed(m, p, hi);
    }
  }

  lemma CarveDisjoint(m: SegMap, a: nat, len: nat)
    requires Disjoint(m)
    requires IsFree(m, a) && 0 < len <= m[a].len
    ensures Disjoint(Carve(m, a, len))
  {
    var m' := Carve(m, a, len);
    forall p, q | p in m' && q in m' ensures Apart(m', p, q) {
      assert p in m && q in m ==> Apart(m, p, q);
      assert p in m ==> Apart(m, p, a);
      assert q in m ==> Apart(m, q, a);
    }
  }

  lemma CarveCoalesced(m: SegMap, a: nat, len: nat)
    requires Coalesced(m) && Disjoint(m)
    requires IsFree(m, a) && 0 < len <= m[a].len
    requires len < m[a].len ==> a + len !in m
    ensures Coalesced(Carve(m, a, len))
  {
    var m' := Carve(m, a, len);
    assert NoFreeAfter(m, a);
    forall p | p in m' ensures NoFreeAfter(m', p) {
      assert p in m ==> NoFreeAfter(m, p) && Apart(m, p, a);
    }
  }

  lemma CarveLive(m: SegMap, a: nat, len: nat)
    requires IsFree(m, a) && len <= m[a].len
    requires len < m[a].len ==> a + len !in m
    ensures Live(Carve(m, a, len)) == Live(m)[a := Seg(len, true, false, false)]
    ensures FreeSet(Carve(m, a, len)) ==
            if len == m[a].len then FreeSet(m) - {a} else FreeSet(m) - {a} + {a + len}
  {
  }

  // ---- Joining a segment with its successor ----

  /** The segment at a swallows the free segment that follows it and becomes free. */
  ghost function Join(m: SegMap, a: nat): SegMap
    requires a in m && a + m[a].len in m
  {
    (m - {a + m[a].len})[a := FreeSeg(m[a].len + m[a + m[a].len].len)]
  }

  lemma JoinTiles(m: SegMap, lo: nat, hi: nat, a: nat)
    requires Tiled(m, lo, hi)
    requires IsFree(m, a) && IsFree(m, a + m[a].len)
    ensures Tiled(Join(m, a), lo, hi)
  {
    var m', n := Join(m, a), a + m[a].len;
    assert Apart(m, a, lo) && Inside(m, lo, hi, a) && Inside(m, lo, hi, n);
    forall p | p in m' ensures Inside(m', lo, hi, p) {
      assert Inside(m, lo, hi, p);
    }
    JoinContiguous(m, hi, a);
    JoinDisjoint(m, a);
  }

  lemma JoinContiguous(m: SegMap, hi: nat, a: nat)
    requires Contiguous(m, hi) && Disjoint(m)
    requires IsFree(m, a) && IsFree(m, a + m[a].len)
    requires m[a + m[a].len].len > 0
    ensures Contiguous(Join(m, a), hi)
  {
    var n := a + m[a].len;
    var m' := Join(m, a);
    forall p | p in m' ensures Closed(m', p, hi) {
      assert Closed(m, n, hi);
      assert Closed(m, p, hi) && Apart(m, p, a) && Apart(m, p, n);
    }
  }

  lemma JoinDisjoint(m: SegMap, a: nat)
    requires Disjoint(m)
    requires IsFree(m, a) && IsFree(m, a + m[a].len)
    ensures Disjoint(Join(m, a))
  {
    var n := a + m[a].len;
    var m' := Join(m, a);
    forall p, q | p in m' && q in m' ensures Apart(m', p, q) {
      assert Apart(m, p, q) && Apart(m, p, n) && Apart(m, q, n);
    }
  }

  lemma JoinLive(m: SegMap, a: nat)
    requires IsFree(m, a) && IsFree(m, a + m[a].len)
    requires m[a].len > 0
    ensures Live(Join(m, a)) == Live(m)
    ensures FreeSet(Join(m, a)) == FreeSet(m) - {a + m[a].len}
  {
  }

  // ---- Releasing an allocated segment ----

  /** The segment at a, now free, with its flags gone. */
  ghost function Opened(m: SegMap, a: nat): SegMap
    requires a in m
  {
    m[a := FreeSeg(m[a].len)]
  }

  lemma OpenedTiles(m: SegMap, lo: nat, hi: nat, a: nat)
    requires Tiled(m, lo, hi) && a in m && m[a].alloc
    ensures Tiled(Opened(m, a), lo, hi)
  {
    var m' := Opened(m, a);
    forall p | p in m' ensures Closed(m', p, hi) && Inside(m', lo, hi, p) {
      assert Closed(m, p, hi) && Inside(m, lo, hi, p);
    }
    forall p, q | p in m' && q in m' ensures Apart(m', p, q) {
      assert Apart(m, p, q);
    }
  }

  lemma OpenedLive(m: SegMap, a: nat)
    requires a in m && m[a].alloc
    ensures Live(Opened(m, a)) == Live(m) - {a}
    ensures FreeSet(Opened(m, a)) == FreeSet(m) + {a}
  {
  }

  /** prev and next are the free neighbours of address a in the free list. */
  ghost predicate Between(f: set<nat>, a: nat, prev: nat, next: nat) {
    && IsNext(f, a, next)
    && (if prev == NULL then forall p | p in f :: a <= p
        else prev in f && prev < a && forall p | p in f && p < a :: p <= prev)
  }

  ghost predicate JoinsNext(m: SegMap, a: nat, next: nat)
    requires a in m
  {
    a + m[a].len == next
  }

  ghost predicate JoinsPrev(m: SegMap, a: nat, prev: nat) {
    prev != NULL && prev in m && prev + m[prev].len == a
  }

  /** The segment at a is freed and joined with the free segment behind it, if adjacent. */
  ghost function Forward(m: SegMap, a: nat, next: nat): SegMap
    requires a in m
    requires JoinsNext(m, a, next) ==> next in m && next != a
  {
    if JoinsNext(m, a, next) then Join(Opened(m, a), a) else Opened(m, a)
  }

  /** The block after the segment at a is released between its free neighbours. */
  ghost function Released(m: SegMap, a: nat, prev: nat, next: nat): SegMap
    requires a in m
    requires JoinsNext(m, a, next) ==> next in m && next != a
    requires JoinsPrev(Forward(m, a, next), a, prev) ==> a in Forward(m, a, next)
  {
    var m2 := Forward(m, a, next);
    if JoinsPrev(m2, a, prev) then Join(m2, prev) else m2
  }

  /** The end of the area is no free segment, so the join looks at a real neighbour. */
  lemma NextIsFree(m: SegMap, lo: nat, hi: nat, a: nat, next: nat)
    requires lo > 0
    requires Tiled(m, lo, hi) && a in m && m[a].alloc
    requires IsNext(FreeSet(m), a, next) && JoinsNext(m, a, next)
    ensures next in FreeSet(m) && next != a
  {
    assert Inside(m, lo, hi, a);
  }

  lemma ForwardTiles(m: SegMap, lo: nat, hi: nat, a: nat, next: nat)
    requires lo > 0
    requires Tiled(m, lo, hi) && a in m && m[a].alloc
    requires IsNext(FreeSet(m), a, next)
    ensures JoinsNext(m, a, next) ==> next in m && next != a
    ensures Tiled(Forward(m, a, next), lo, hi) && IsFree(Forward(m, a, next), a)
    ensures Live(Forward(m, a, next)) == Live(m) - {a}
    ensures FreeSet(Forward(m, a, next)) ==
            FreeSet(m) - (if JoinsNext(m, a, next) then {next} else {}) + {a}
  {
    assert Inside(m, lo, hi, a);
    OpenedTiles(m, lo, hi, a);
    OpenedLive(m, a);
    if JoinsNext(m, a, next) {
      NextIsFree(m, lo, hi, a, next);
      JoinTiles(Opened(m, a), lo, hi, a);
      JoinLive(Opened(m, a), a);
    }
  }

  /** After the forward join only the pair (prev, a) can be two adjacent free segments. */
  lemma OpenBelow(m: SegMap, lo: nat, hi: nat, a: nat, prev: nat, next: nat)
    requires lo > 0
    requires Tiled(m, lo, hi) && Coalesced(m)
    requires a in m && m[a].alloc
    requires Between(FreeSet(m), a, prev, next)
    requires JoinsNext(m, a, next) ==> next in FreeSet(m) && next != a
    requires Tiled(Forward(m, a, next), lo, hi)
    ensures forall p {:trigger NoFreeAfter(Forward(m, a, next), p)} | p in Forward(m, a, next) ::
              NoFreeAfter(Forward(m, a, next), p) || (JoinsPrev(m, a, prev) && p == prev)
  {
    var m2 := Forward(m, a, next);
    forall p | p in m2 ensures NoFreeAfter(m2, p) || (JoinsPrev(m, a, prev) && p == prev) {
      if IsFree(m2, p) {
        FreeAfterOpen(m, lo, hi, a, prev, next, p);
      }
    }
  }

  lemma FreeAfterOpen(m: SegMap, lo: nat, hi: nat, a: nat, prev: nat, next: nat, p: nat)
    requires lo > 0
    requires Tiled(m, lo, hi) && Coalesced(m)
    requires a in m && m[a].alloc
    requires Between(FreeSet(m), a, prev, next)
    requires JoinsNext(m, a, next) ==> next in FreeSet(m) && next != a
    requires IsFree(Forward(m, a, next), p)
    ensures NoFreeAfter(Forward(m, a, next), p) || (JoinsPrev(m, a, prev) && p == prev)
  {
    var m2 := Forward(m, a, next);
    assert Inside(m, lo, hi, a) && Inside(m, lo, hi, p);
    assert next != NULL ==> next in FreeSet(m) && Apart(m, a, next) && NoFreeAfter(m, next);
    assert prev != NULL ==> prev in FreeSet(m) && Apart(m, p, prev);
    var q := p + m2[p].len;
    assert IsFree(m2, q) && q != a ==> q in FreeSet(m);
    if p != a {
      assert p in FreeSet(m) && NoFreeAfter(m, p);
    }
  }

  /** Releasing keeps the tiling maximally coalesced and takes exactly the one segment out
      of the allocated ones; the free set changes by the four neighbour cases. */
  lemma ReleasedTiles(m: SegMap, lo: nat, hi: nat, a: nat, prev: nat, next: nat)
    requires lo > 0
    requires Tiled(m, lo, hi) && Coalesced(m)
    requires a in m && m[a].alloc
    requires Between(FreeSet(m), a, prev, next)
    ensures JoinsNext(m, a, next) ==> next in m && next != a
    ensures JoinsPrev(Forward(m, a, next), a, prev) ==> a in Forward(m, a, next)
    ensures JoinsPrev(Forward(m, a, next), a, prev) == JoinsPrev(m, a, prev)
    ensures Tiled(Released(m, a, prev, next), lo, hi)
    ensures Coalesced(Released(m, a, prev, next))
    ensures Live(Released(m, a, prev, next)) == Live(m) - {a}
    ensures FreeSet(Released(m, a, prev, next)) ==
            FreeSet(m) - (if JoinsNext(m, a, next) then {next} else {})
            + (if JoinsPrev(m, a, prev) then {} else {a})
  {
    ForwardTiles(m, lo, hi, a, next);
    var m2 := Forward(m, a, next);
    assert JoinsNext(m, a, next) ==> next in FreeSet(m) by {
      if JoinsNext(m, a, next) { NextIsFree(m, lo, hi, a, next); }
    }
    OpenBelow(m, lo, hi, a, prev, next);
    PrevKept(m, a, prev, next);
    assert NULL !in m2 by {
      assert NULL in m2 ==> Inside(m2, lo, hi, NULL);
    }
    if JoinsPrev(m2, a, prev) {
      assert Inside(m2, lo, hi, prev);
      JoinTiles(m2, lo, hi, prev);
      JoinLive(m2, prev);
      JoinCoalesces(m2, prev);
    }
  }

  lemma PrevKept(m: SegMap, a: nat, prev: nat, next: nat)
    requires a in m && m[a].alloc
    requires Between(FreeSet(m), a, prev, next)
    requires JoinsNext(m, a, next) ==> next in FreeSet(m) && next != a
    ensures JoinsPrev(Forward(m, a, next), a, prev) == JoinsPrev(m, a, prev)
    ensures prev != NULL ==> IsFree(Forward(m, a, next), prev) && Forward(m, a, next)[prev] == m[prev]
  {
    assert prev != NULL ==> prev in FreeSet(m);
  }

  lemma JoinCoalesces(m: SegMap, a: nat)
    requires IsFree(m, a) && IsFree(m, a + m[a].len) && m[a].len > 0
    requires forall p {:trigger NoFreeAfter(m, p)} | p in m :: NoFreeAfter(m, p) || p == a
    ensures Coalesced(Join(m, a))
  {
    var n := a + m[a].len;
    var m' := Join(m, a);
    assert NoFreeAfter(m, n);
    forall p | p in m' ensures NoFreeAfter(m', p) {
      assert p != a ==> NoFreeAfter(m, p);
    }
  }

  // ---- Sizes and marks ----

  /** The bytes that the segments of l take up together. */
  ghost function Bytes(l: SegMap): nat {
    if l == map[] then 0 else var a :| a in l; l[a].len + Bytes(l - {a})
  }

  lemma {:induction false} BytesRemove(l: SegMap, a: nat)
    requires a in l
    ensures Bytes(l) == l[a].len + Bytes(l - {a})
    decreases |l|
  {
    var b :| b in l && Bytes(l) == l[b].len + Bytes(l - {b});
    if b != a {
      BytesRemove(l - {b}, a);
      BytesRemove(l - {a}, b);
      assert l - {b} - {a} == l - {a} - {b};
    }
  }

  /** Adding a segment, or giving one the same length again. */
  lemma BytesUpdate(l: SegMap, a: nat, s: Seg)
    ensures Bytes(map[]) == 0 && Bytes(l[a := s]) == s.len + Bytes(l) - if a in l then l[a].len else 0
  {
    BytesRemove(l[a := s], a);
    assert l[a := s] - {a} == l - {a};
    if a in l {
      BytesRemove(l, a);
    } else {
      assert l - {a} == l;
    }
  }

  ghost function Marked(l: SegMap): set<nat> {
    set a | a in l && l[a].mark
  }

  /** Collectable and not marked: what a sweep releases. */
  ghost predicate Garbage(s: Seg) {
    s.gc && !s.mark
  }

  /** What a sweep leaves of the segments l: no garbage, and no marks. */
  ghost function Swept(l: SegMap): SegMap {
    map a | a in l && !Garbage(l[a]) :: l[a].(mark := false)
  }

  /** Segment by segment: one stays if it is not collectable or is marked, without the mark. */
  lemma SweptIs(l: SegMap, a: nat)
    ensures a in Swept(l) <==> a in l && (l[a].gc ==> l[a].mark)
    ensures a in Swept(l) ==> Swept(l)[a] == Seg(l[a].len, l[a].alloc, l[a].gc, false)
  {
  }

  /** A sweep of l that has come up to address d. */
  ghost function SweptBelow(l: SegMap, d: nat): SegMap {
    map a | a in l && !(a < d && Garbage(l[a])) :: if a < d then l[a].(mark := false) else l[a]
  }

  /** One step of the sweep: the segment at d is dealt with. */
  lemma SweptStep(l: SegMap, m: SegMap, d: nat)
    requires Live(m) == SweptBelow(l, d) && Disjoint(m) && d in m && m[d].len > 0
    ensures SweptBelow(l, d + m[d].len) ==
            if !m[d].alloc then Live(m)
            else if Garbage(m[d]) then Live(m) - {d}
            else Live(m)[d := m[d].(mark := false)]
  {
    var e := d + m[d].len;
    assert m[d].alloc ==> d in Live(m) && Live(m)[d] == SweptBelow(l, d)[d];
    assert !m[d].alloc ==> d !in Live(m);
    forall a | a in l ensures a < e <==> a < d || a == d {
      if a >= d {
        assert a in SweptBelow(l, d) && a in m && Apart(m, d, a);
      }
    }
    var s := if !m[d].alloc then Live(m)
             else if Garbage(m[d]) then Live(m) - {d}
             else Live(m)[d := m[d].(mark := false)];
    SweptKeys(l, m, d, e, s);
  }

  lemma SweptKeys(l: SegMap, m: SegMap, d: nat, e: nat, s: SegMap)
    requires Live(m) == SweptBelow(l, d) && d in m && d < e
    requires forall a | a in l :: a < e <==> a < d || a == d
    requires !m[d].alloc ==> d !in l
    requires s == if !m[d].alloc then Live(m)
                  else if Garbage(m[d]) then Live(m) - {d}
                  else Live(m)[d := m[d].(mark := false)]
    ensures SweptBelow(l, e) == s
  {
    var t := SweptBelow(l, e);
    assert m[d].alloc ==> d in Live(m) && d in SweptBelow(l, d) && d in l && l[d] == m[d];
    forall a ensures a in t <==> a in s {
      assert a in Live(m) <==> a in SweptBelow(l, d);
    }
    forall a | a in t ensures t[a] == s[a] {
      assert a in Live(m) && Live(m)[a] == SweptBelow(l, d)[a];
    }
  }

  /** Nothing allocated lies between the end of the released segment and the end of the
      free segment that it ended up in. */
  lemma SweptSkip(l: SegMap, m: SegMap, d: nat, e: nat)
    requires Live(m) == SweptBelow(l, e) && Disjoint(m) && IsFree(m, d)
    requires d < e <= d + m[d].len
    ensures Live(m) == SweptBelow(l, d + m[d].len)
  {
    var e' := d + m[d].len;
    forall a | a in l ensures a < e <==> a < e' {
      assert a >= e ==> a in SweptBelow(l, e) && a in Live(m) && a in m;
      assert a in m ==> Apart(m, d, a);
    }
    assert SweptBelow(l, e) == SweptBelow(l, e');
  }

  lemma SweptBounds(l: SegMap, lo: nat, hi: nat)
    requires forall a | a in l :: lo <= a < hi
    ensures SweptBelow(l, lo) == l && SweptBelow(l, hi) == Swept(l)
  {
  }

  lemma CountRemove(l: SegMap, a: nat)
    requires a in l
    ensures |l - {a}| == |l| - 1
    ensures |Marked(l - {a})| == |Marked(l)| - if l[a].mark then 1 else 0
  {
    assert (l - {a}).Keys == l.Keys - {a};
    assert Marked(l - {a}) == Marked(l) - {a};
  }

  lemma CountUpdate(l: SegMap, a: nat, s: Seg)
    ensures |l[a := s]| == |l| + if a in l then 0 else 1
    ensures |Marked(l[a := s])| == |Marked(l)| + (if s.mark then 1 else 0) - (if a in l && l[a].mark then 1 else 0)
  {
    CountRemove(l[a := s], a);
    assert l[a := s] - {a} == l - {a};
    if a in l {
      CountRemove(l, a);
    } else {
      assert l - {a} == l;
    }
  }

  /** lv == SweptBelow(l, d), address by address. */
  ghost predicate SweptTo(l: SegMap, lv: SegMap, d: nat) {
    forall a {:trigger SweptAt(l, lv, d, a)} :: SweptAt(l, lv, d, a)
  }

  ghost predicate SweptAt(l: SegMap, lv: SegMap, d: nat, a: nat) {
    && (a in lv <==> a in l && !(a < d && Garbage(l[a])))
    && (a in lv ==> lv[a] == if a < d then l[a].(mark := false) else l[a])
  }

  lemma SweptToIs(l: SegMap, lv: SegMap, d: nat)
    ensures SweptTo(l, lv, d) <==> lv == SweptBelow(l, d)
  {
    if SweptTo(l, lv, d) {
      var t := SweptBelow(l, d);
      forall a ensures (a in lv <==> a in t) && (a in lv ==> lv[a] == t[a]) {
        assert SweptAt(l, lv, d, a);
      }
      assert lv == t;
    }
  }

  /** The books of a sweep that began with the allocated segments l, has come up to d and
      left m: what was released and how many marks were cleared. */
  ghost predicate Tally(l: SegMap, m: SegMap, d: nat, freed: nat, released: nat, unmarked: nat) {
    && SweptTo(l, Live(m), d)
    && freed + Bytes(Live(m)) == Bytes(l)
    && released + |Live(m)| == |l|
    && unmarked + |Marked(Live(m))| == |Marked(l)|
  }

  lemma TallyKeep(l: SegMap, m: SegMap, d: nat, freed: nat, released: nat, unmarked: nat)
    requires Tally(l, m, d, freed, released, unmarked) && Disjoint(m)
    requires d in m && !m[d].gc && !m[d].mark && m[d].len > 0
    ensures Tally(l, m, d + m[d].len, freed, released, unmarked)
  {
    SweptToIs(l, Live(m), d);
    SweptStep(l, m, d);
    assert m[d].(mark := false) == m[d];
    assert m[d].alloc ==> Live(m)[d := m[d]] == Live(m);
    SweptToIs(l, Live(m), d + m[d].len);
  }

  lemma TallyMark(l: SegMap, m: SegMap, d: nat, freed: nat, released: nat, unmarked: nat)
    requires Tally(l, m, d, freed, released, unmarked) && Disjoint(m)
    requires d in m && m[d].alloc && m[d].mark && m[d].len > 0
    ensures Tally(l, m[d := m[d].(mark := false)], d + m[d].len, freed, released, unmarked + 1)
  {
    var t := m[d].(mark := false);
    SweptToIs(l, Live(m), d);
    SweptStep(l, m, d);
    CountUpdate(Live(m), d, t);
    BytesUpdate(Live(m), d, t);
    assert Live(m[d := t]) == Live(m)[d := t];
    SweptToIs(l, Live(m[d := t]), d + m[d].len);
  }

  /** m' is m after the segment at d0 was released into the free segment at d. */
  lemma TallyRelease(l: SegMap, m: SegMap, m': SegMap, d0: nat, d: nat, freed: nat, released: nat, unmarked: nat)
    requires Tally(l, m, d0, freed, released, unmarked) && Disjoint(m) && Disjoint(m')
    requires d0 in m && m[d0].alloc && Garbage(m[d0]) && m[d0].len > 0
    requires Live(m') == Live(m) - {d0}
    requires IsFree(m', d) && d <= d0 && d0 + m[d0].len <= d + m'[d].len
    ensures Tally(l, m', d + m'[d].len, freed + m[d0].len, released + 1, unmarked)
  {
    SweptToIs(l, Live(m), d0);
    SweptStep(l, m, d0);
    CountRemove(Live(m), d0);
    BytesRemove(Live(m), d0);
    SweptSkip(l, m', d, d0 + m[d0].len);
    SweptToIs(l, Live(m'), d + m'[d].len);
  }

  lemma TallyStart(l: SegMap, m: SegMap, lo: nat, hi: nat)
    requires Placed(m, lo, hi) && l == Live(m)
    ensures Tally(l, m, lo, 0, 0, 0)
  {
    LiveInside(m, lo, hi);
    SweptBounds(l, lo, hi);
    SweptToIs(l, l, lo);
  }

  lemma TallyDone(l: SegMap, m: SegMap, m': SegMap, lo: nat, hi: nat, freed: nat, released: nat, unmarked: nat)
    requires Placed(m, lo, hi) && l == Live(m)
    requires Tally(l, m', hi, freed, released, unmarked)
    ensures Live(m') == Swept(l) && Marked(Live(m')) == {}
    ensures freed + Bytes(Live(m')) == Bytes(l) && released + |Live(m')| == |l| && unmarked == |Marked(l)|
  {
    LiveInside(m, lo, hi);
    SweptBounds(l, lo, hi);
    SweptToIs(l, Live(m'), hi);
    assert Marked(Swept(l)) == {};
  }

  lemma LiveInside(m: SegMap, lo: nat, hi: nat)
    requires Placed(m, lo, hi)
    ensures forall a | a in Live(m) :: lo <= a < hi
  {
    forall a | a in Live(m) ensures lo <= a < hi {
      assert Inside(m, lo, hi, a);
    }
  }
}
