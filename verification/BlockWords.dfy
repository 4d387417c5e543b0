/** The words of a block's data area: what it means that they hold given segments and
    their free list, and what carving and releasing a segment does to them. All on values:
    lo is the address of the area, w its words, hd the head of the free list. */
module BlockWords {
  import opened Descriptors
  import opened SegMaps
  import opened FreeLists

  /** The descriptor words say what the segments are, but for the segment at skip. */
  ghost predicate Encoded(m: SegMap, lo: nat, skip: nat, w: seq<nat>) {
    forall a {:trigger Says(m, lo, a, w)} | a in m && a != skip :: Says(m, lo, a, w)
  }

  ghost predicate Says(m: SegMap, lo: nat, a: nat, w: seq<nat>)
    requires a in m
  {
    lo <= a < lo + |w| && w[a - lo] == Word(m[a])
  }

  /** The words of a block hold the segments m and their free list; the descriptor at skip
      is not looked at. */
  ghost predicate WellFormed(m: SegMap, lo: nat, hi: nat, skip: nat, hd: nat, w: seq<nat>) {
    && 0 < lo && |w| == hi - lo
    && Tiled(m, lo, hi)
    && Coalesced(m)
    && Encoded(m, lo, skip, w)
    && Linked(FreeSet(m), lo, hd, w)
  }

  /** Every word inside the data of an allocated segment of m is the same in w and w'. */
  ghost predicate SameData(m: SegMap, lo: nat, w: seq<nat>, w': seq<nat>) {
    && |w| == |w'|
    && forall a: nat, i: nat {:trigger Kept(m, lo, a, w, w', i)} | a in m && m[a].alloc && i < |w| ::
         Kept(m, lo, a, w, w', i)
  }

  /** If word i lies in the data of the segment at a, it is the same in w and w'. */
  ghost predicate Kept(m: SegMap, lo: nat, a: nat, w: seq<nat>, w': seq<nat>, i: nat)
    requires a in m && i < |w| == |w'|
  {
    a < lo + i < a + m[a].len ==> w[i] == w'[i]
  }

  lemma Quanta(a: nat, b: nat)
    requires a % QUANT == 0 && b % QUANT == 0 && a < b
    ensures a + QUANT <= b
  {
  }

  lemma Singleton(f: set<nat>, a: nat)
    requires a in f && |f| == 1
    ensures f == {a}
  {
    assert |f - {a}| == 0;
  }

  /** The words of a block that is one free segment. */
  lemma WholeWellFormed(lo: nat, n: nat, w: seq<nat>)
    requires 0 < lo && QUANT <= n == |w| && n % QUANT == 0 && w[0] == n && w[DESCR] == NULL
    ensures var m := map[lo := FreeSeg(n)];
            WellFormed(m, lo, lo + n, NULL, lo, w) && FreeSet(m) == {lo} && Live(m) == map[]
  {
    var m := map[lo := FreeSeg(n)];
    assert FreeSet(m) == {lo} && Live(m) == map[];
    assert Link(w, lo, lo) == NULL;
  }

  // ---- The words after a segment has been carved off ----

  /** w' differs from w at most in the given cells. */
  ghost predicate Touched(lo: nat, w: seq<nat>, w': seq<nat>, cells: set<nat>) {
    |w'| == |w| && forall i: nat | i < |w| :: lo + i in cells || w'[i] == w[i]
  }

  /** Descriptor and link words of distinct segments never coincide. */
  lemma CellsApart(m: SegMap, lo: nat, hi: nat, a: nat, b: nat)
    requires Tiled(m, lo, hi) && a in m && b in m
    ensures a + DESCR != b
    ensures lo <= a && a + m[a].len <= hi && QUANT <= m[a].len
    ensures a != b ==> a + m[a].len <= b || b + m[b].len <= a
  {
    assert Apart(m, a, b) && Inside(m, lo, hi, a);
  }

  /** Writing inside free segments leaves the data of allocated segments alone. */
  lemma DataKept(m: SegMap, lo: nat, hi: nat, w: seq<nat>, w': seq<nat>, cells: set<nat>)
    requires Tiled(m, lo, hi) && |w| == hi - lo
    requires Touched(lo, w, w', cells)
    requires forall c | c in cells :: exists a: nat :: IsFree(m, a) && a <= c < a + m[a].len
    ensures SameData(m, lo, w, w')
  {
    forall a: nat, i: nat | a in m && m[a].alloc && i < |w| ensures Kept(m, lo, a, w, w', i) {
      if a < lo + i < a + m[a].len && lo + i in cells {
        var b: nat :| IsFree(m, b) && b <= lo + i < b + m[b].len;
        CellsApart(m, lo, hi, a, b);
      }
    }
  }

  /** The cells that taking len bytes off the free segment at a writes to. */
  ghost function TakeCells(m: SegMap, prev: nat, a: nat, len: nat): set<nat>
    requires a in m
  {
    {a} + (if len < m[a].len then {a + len, a + len + DESCR} else {}) + (if prev != NULL then {prev + DESCR} else {})
  }

  /** The words and the head after the first len bytes of the free segment at a are taken. */
  ghost predicate Taken(m: SegMap, lo: nat, hd: nat, w: seq<nat>, hd': nat, w': seq<nat>,
                        prev: nat, a: nat, len: nat)
  {
    && IsFree(m, a) && QUANT <= len <= m[a].len && len % QUANT == 0
    && HasLink(w, lo, a) && (len < m[a].len ==> HasLink(w, lo, a + len))
    && Touched(lo, w, w', TakeCells(m, prev, a, len))
    && w'[a - lo] == Word(Seg(len, true, false, false))
    && (len < m[a].len ==> w'[a + len - lo] == m[a].len - len && Link(w', lo, a + len) == Link(w, lo, a))
    && var q := if len < m[a].len then a + len else Link(w, lo, a);
       if prev == NULL then hd' == q else hd' == hd && HasLink(w, lo, prev) && Link(w', lo, prev) == q
  }

  lemma TakenWords(m: SegMap, lo: nat, hd: nat, w: seq<nat>, hd': nat, w': seq<nat>,
                   prev: nat, a: nat, len: nat)
    requires IsFree(m, a) && QUANT <= len <= m[a].len && len % QUANT == 0
    requires HasLink(w, lo, a) && (len < m[a].len ==> HasLink(w, lo, a + len))
    requires prev != NULL ==> HasLink(w, lo, prev) && prev + QUANT <= a
    requires var w1 := w[a - lo := Word(Seg(len, true, false, false))];
             var q := if len < m[a].len then a + len else w[a + DESCR - lo];
             var w2 := if len < m[a].len
                       then w1[a + len - lo := m[a].len - len][a + len + DESCR - lo := w[a + DESCR - lo]]
                       else w1;
             if prev == NULL then hd' == q && w' == w2
             else hd' == hd && w' == w2[prev + DESCR - lo := q]
    ensures Taken(m, lo, hd, w, hd', w', prev, a, len)
  {
  }

  /** Taking no bytes writes to every word what it held. */
  lemma UntakenWords(lo: nat, hd: nat, w: seq<nat>, hd': nat, w': seq<nat>, prev: nat, a: nat, len: nat, v: nat)
    requires HasLink(w, lo, a) && w[a - lo] == len
    requires if prev == NULL then hd == a else HasLink(w, lo, prev) && Link(w, lo, prev) == a
    requires var w2 := w[a - lo := v][a - lo := len][a + DESCR - lo := w[a + DESCR - lo]];
             if prev == NULL then hd' == a && w' == w2 else hd' == hd && w' == w2[prev + DESCR - lo := a]
    ensures hd' == hd && w' == w
  {
  }

  lemma TakenEncodes(m: SegMap, lo: nat, hi: nat, hd: nat, w: seq<nat>, hd': nat, w': seq<nat>,
                     prev: nat, a: nat, len: nat)
    requires Tiled(m, lo, hi) && |w| == hi - lo
    requires Encoded(m, lo, NULL, w)
    requires prev != NULL ==> IsFree(m, prev)
    requires Taken(m, lo, hd, w, hd', w', prev, a, len)
    ensures Encoded(Carve(m, a, len), lo, NULL, w')
  {
    var m' := Carve(m, a, len);
    forall p | p in m' && p != NULL ensures Says(m', lo, p, w') {
      if p in m && p != a {
        TakenElsewhere(m, lo, hi, w, w', prev, a, len, p);
      }
    }
  }

  /** The descriptors of the other segments are not written. */
  lemma TakenElsewhere(m: SegMap, lo: nat, hi: nat, w: seq<nat>, w': seq<nat>, prev: nat, a: nat, len: nat, p: nat)
    requires Tiled(m, lo, hi) && |w| == hi - lo
    requires Encoded(m, lo, NULL, w)
    requires prev != NULL ==> IsFree(m, prev)
    requires IsFree(m, a) && QUANT <= len <= m[a].len && len % QUANT == 0
    requires Touched(lo, w, w', TakeCells(m, prev, a, len))
    requires p in m && p != a && p != NULL
    ensures p != a + len || len == m[a].len
    ensures lo <= p < lo + |w| && w'[p - lo] == Word(m[p])
  {
    assert Says(m, lo, p, w);
    CellsApart(m, lo, hi, a, p);
    CellsApart(m, lo, hi, p, a);
    if prev != NULL { CellsApart(m, lo, hi, prev, p); }
    assert Inside(m, lo, hi, a) && Inside(m, lo, hi, p);
    assert lo + (p - lo) !in TakeCells(m, prev, a, len);
  }

  lemma TakenLinks(m: SegMap, lo: nat, hi: nat, hd: nat, w: seq<nat>, hd': nat, w': seq<nat>,
                   prev: nat, a: nat, len: nat)
    requires lo > 0 && Tiled(m, lo, hi) && |w| == hi - lo
    requires Linked(FreeSet(m), lo, hd, w) && IsPrev(FreeSet(m), lo, hd, w, prev, a)
    requires Taken(m, lo, hd, w, hd', w', prev, a, len)
    ensures Linked(if len == m[a].len then FreeSet(m) - {a} else FreeSet(m) - {a} + {a + len}, lo, hd', w')
  {
    var f := FreeSet(m);
    var q := if len < m[a].len then a + len else Link(w, lo, a);
    assert a in f;
    forall p | p in f - {a} && p != prev ensures LinkKept(w, w', lo, p) {
      assert LinkOk(f, lo, w, p);
      CellsApart(m, lo, hi, a, p);
      CellsApart(m, lo, hi, p, a);
      assert lo + (p + DESCR - lo) !in TakeCells(m, prev, a, len);
    }
    assert Redirected(f - {a}, lo, hd, w, hd', w', prev, q);
    CellsApart(m, lo, hi, a, a);
    if len == m[a].len {
      ListRemove(f, lo, hd, w, hd', w', prev, a);
    } else {
      assert a + len in m ==> Apart(m, a, a + len);
      var n := Link(w, lo, a);
      assert LinkOk(f, lo, w, a);
      assert n != NULL ==> Apart(m, a, n);
      ListReplace(f, lo, hd, w, hd', w', prev, a, a + len);
    }
  }

  /** Taking len bytes off a free segment keeps the block well formed, allocates exactly
      these, and touches no allocated data. */
  lemma TakenWellFormed(m: SegMap, lo: nat, hi: nat, hd: nat, w: seq<nat>, hd': nat, w': seq<nat>,
                        prev: nat, a: nat, len: nat)
    requires WellFormed(m, lo, hi, NULL, hd, w)
    requires IsPrev(FreeSet(m), lo, hd, w, prev, a)
    requires Taken(m, lo, hd, w, hd', w', prev, a, len)
    ensures WellFormed(Carve(m, a, len), lo, hi, NULL, hd', w')
    ensures SameData(m, lo, w, w')
  {
    CarveTiles(m, lo, hi, a, len);
    TakenEncodes(m, lo, hi, hd, w, hd', w', prev, a, len);
    TakenLinks(m, lo, hi, hd, w, hd', w', prev, a, len);
    assert Inside(m, lo, hi, a);
    if prev != NULL {
      assert Inside(m, lo, hi, prev);
      assert IsFree(m, prev) && prev <= prev + DESCR < prev + m[prev].len;
    }
    if len < m[a].len { Quanta(len, m[a].len); }
    DataKept(m, lo, hi, w, w', TakeCells(m, prev, a, len));
  }

  /** A bound on the free segments stays one, also where it is reset. */
  lemma TakenBounded(m: SegMap, a: nat, len: nat, n: nat, max: nat, max': nat)
    requires IsFree(m, a) && 0 < len <= m[a].len
    requires n == |FreeSet(m)| - (if len == m[a].len then 1 else 0)
    requires max' == if len == m[a].len then (if n == 0 then 0 else max) else if n == 1 then m[a].len - len else max
    requires forall p | p in FreeSet(m) :: m[p].len <= max
    requires FreeSet(Carve(m, a, len)) ==
             if len == m[a].len then FreeSet(m) - {a} else FreeSet(m) - {a} + {a + len}
    ensures forall p | p in FreeSet(Carve(m, a, len)) :: Carve(m, a, len)[p].len <= max'
  {
    var f := FreeSet(m);
    assert a in f;
    if |f| == 1 { Singleton(f, a); }
  }

  // ---- The words after a segment has been released ----

  /** The length and the link of the free segment that the released one ends up in, from
      the released segment on. */
  ghost function FreedLen(m: SegMap, a: nat, next: nat): nat
    requires a in m && (JoinsNext(m, a, next) ==> next in m)
  {
    m[a].len + if JoinsNext(m, a, next) then m[next].len else 0
  }

  ghost function FreedLink(m: SegMap, lo: nat, w: seq<nat>, a: nat, next: nat): nat
    requires a in m
  {
    if JoinsNext(m, a, next) then Link(w, lo, next) else next
  }

  /** The words and the head after the segment at a is released between prev and next. */
  ghost predicate Freed(m: SegMap, lo: nat, hd: nat, w: seq<nat>, hd': nat, w': seq<nat>,
                        prev: nat, next: nat, a: nat)
  {
    && a in m && (JoinsNext(m, a, next) ==> next in m)
    && HasLink(w, lo, a) && (prev != NULL ==> HasLink(w, lo, prev))
    && Touched(lo, w, w', {a, a + DESCR} + if prev != NULL then {prev, prev + DESCR} else {})
    && if JoinsPrev(m, a, prev)
       then hd' == hd && w'[prev - lo] == m[prev].len + FreedLen(m, a, next)
            && Link(w', lo, prev) == FreedLink(m, lo, w, a, next)
       else w'[a - lo] == FreedLen(m, a, next) && Link(w', lo, a) == FreedLink(m, lo, w, a, next)
            && if prev == NULL then hd' == a
               else hd' == hd && Link(w', lo, prev) == a && w'[prev - lo] == w[prev - lo]
  }

  /** The words after the released segment is joined with the free one behind it. */
  ghost function Forwarded(m: SegMap, lo: nat, w: seq<nat>, next: nat, a: nat): (w': seq<nat>)
    requires a in m && HasLink(w, lo, a)
    requires JoinsNext(m, a, next) ==> next in m
    ensures |w'| == |w|
  {
    var q := FreedLink(m, lo, w, a, next);
    if JoinsNext(m, a, next) then w[a - lo := FreedLen(m, a, next)][a + DESCR - lo := q] else w[a + DESCR - lo := q]
  }

  /** The writes of a release, one after the other; w1 are the words half way. */
  lemma FreedWords(m: SegMap, lo: nat, hd: nat, w: seq<nat>, w1: seq<nat>, hd': nat, w': seq<nat>,
                   prev: nat, next: nat, a: nat)
    requires a in m && HasLink(w, lo, a) && w[a - lo] == m[a].len
    requires next != NULL ==> next in m && HasLink(w, lo, next)
    requires JoinsNext(m, a, next) ==> next != NULL
    requires prev != NULL ==> prev in m && HasLink(w, lo, prev) && prev + QUANT <= a
    requires var w0 := Forwarded(m, lo, w, next, a);
             w1 == w0 || (prev != NULL && w1 == w0[prev + DESCR - lo := a])
    requires if JoinsPrev(m, a, prev)
             then hd' == hd
                  && w' == w1[prev - lo := m[prev].len + w1[a - lo]][prev + DESCR - lo := w1[a + DESCR - lo]]
             else if prev != NULL then hd' == hd && w' == w1[prev + DESCR - lo := a]
             else hd' == a && w' == w1
    ensures Freed(m, lo, hd, w, hd', w', prev, next, a)
  {
  }

  /** Where the released segment ends up. */
  lemma ReleasedAt(m: SegMap, a: nat, prev: nat, next: nat)
    requires a in m && m[a].len > 0
    requires JoinsNext(m, a, next) ==> next in m && next != a
    requires JoinsPrev(m, a, prev) ==> prev != a && prev != next
    ensures JoinsPrev(Forward(m, a, next), a, prev) ==> a in Forward(m, a, next)
    ensures JoinsPrev(Forward(m, a, next), a, prev) == JoinsPrev(m, a, prev)
    ensures Released(m, a, prev, next) ==
            (var m' := if JoinsNext(m, a, next) then m - {next} else m;
             if JoinsPrev(m, a, prev) then (m' - {a})[prev := FreeSeg(m[prev].len + FreedLen(m, a, next))]
             else m'[a := FreeSeg(FreedLen(m, a, next))])
  {
  }

  lemma FreedEncodes(m: SegMap, lo: nat, hi: nat, hd: nat, w: seq<nat>, hd': nat, w': seq<nat>,
                     prev: nat, next: nat, a: nat)
    requires lo > 0 && Tiled(m, lo, hi) && |w| == hi - lo
    requires Encoded(m, lo, a, w)
    requires a in m && m[a].alloc
    requires Between(FreeSet(m), a, prev, next)
    requires Freed(m, lo, hd, w, hd', w', prev, next, a)
    requires JoinsNext(m, a, next) ==> next != a
    requires JoinsPrev(Forward(m, a, next), a, prev) ==> a in Forward(m, a, next)
    ensures Encoded(Released(m, a, prev, next), lo, NULL, w')
  {
    assert prev != NULL ==> prev in FreeSet(m);
    assert Inside(m, lo, hi, a);
    ReleasedAt(m, a, prev, next);
    var m' := Released(m, a, prev, next);
    forall p | p in m' && p != NULL ensures Says(m', lo, p, w') {
      if p != a && p != prev {
        FreedElsewhere(m, lo, hi, w, w', prev, a, p);
      }
      if prev != NULL {
        assert Says(m, lo, prev, w);
      }
    }
  }

  /** The descriptors of the other segments are not written. */
  lemma FreedElsewhere(m: SegMap, lo: nat, hi: nat, w: seq<nat>, w': seq<nat>, prev: nat, a: nat, p: nat)
    requires Tiled(m, lo, hi) && |w| == hi - lo
    requires Encoded(m, lo, a, w)
    requires a in m && (prev != NULL ==> prev in m)
    requires Touched(lo, w, w', {a, a + DESCR} + if prev != NULL then {prev, prev + DESCR} else {})
    requires p in m && p != a && p != prev && p != NULL
    ensures lo <= p < lo + |w| && w'[p - lo] == Word(m[p])
  {
    assert Says(m, lo, p, w);
    CellsApart(m, lo, hi, a, p);
    if prev != NULL { CellsApart(m, lo, hi, prev, p); }
    assert lo + (p - lo) == p;
  }

  /** The links of the other free segments are not written. */
  lemma FreedOtherLinks(m: SegMap, lo: nat, hi: nat, w: seq<nat>, w': seq<nat>, prev: nat, a: nat, p: nat)
    requires Tiled(m, lo, hi) && |w| == hi - lo
    requires a in m && (prev != NULL ==> prev in m)
    requires Touched(lo, w, w', {a, a + DESCR} + if prev != NULL then {prev, prev + DESCR} else {})
    requires p in m && p != a && p != prev
    ensures LinkKept(w, w', lo, p)
  {
    CellsApart(m, lo, hi, p, a);
    CellsApart(m, lo, hi, a, p);
    if prev != NULL { CellsApart(m, lo, hi, prev, p); CellsApart(m, lo, hi, p, prev); }
    assert lo + (p + DESCR - lo) == p + DESCR;
  }

  /** The free neighbours of an address are neighbours in the list. */
  lemma BetweenIsPrev(f: set<nat>, lo: nat, hd: nat, w: seq<nat>, prev: nat, next: nat, a: nat)
    requires lo > 0 && Linked(f, lo, hd, w) && Between(f, a, prev, next) && a !in f && lo <= a
    requires next != NULL
    ensures IsPrev(f, lo, hd, w, prev, next)
  {
    if prev != NULL {
      assert LinkOk(f, lo, w, prev);
    }
  }

  lemma FreedLinks(m: SegMap, lo: nat, hi: nat, hd: nat, w: seq<nat>, hd': nat, w': seq<nat>,
                   prev: nat, next: nat, a: nat)
    requires lo > 0 && Tiled(m, lo, hi) && |w| == hi - lo
    requires Linked(FreeSet(m), lo, hd, w)
    requires a in m && m[a].alloc
    requires Between(FreeSet(m), a, prev, next)
    requires Freed(m, lo, hd, w, hd', w', prev, next, a)
    requires JoinsNext(m, a, next) ==> next in FreeSet(m)
    ensures Linked(FreeSet(m) - (if JoinsNext(m, a, next) then {next} else {})
                   + (if JoinsPrev(m, a, prev) then {} else {a}), lo, hd', w')
  {
    var f := FreeSet(m);
    assert prev != NULL ==> prev in f;
    assert Inside(m, lo, hi, a);
    forall p | p in f && p != prev ensures LinkKept(w, w', lo, p) {
      FreedOtherLinks(m, lo, hi, w, w', prev, a, p);
    }
    if JoinsNext(m, a, next) {
      BetweenIsPrev(f, lo, hd, w, prev, next, a);
      assert LinkOk(f, lo, w, next);
      if JoinsPrev(m, a, prev) {
        ListRemove(f, lo, hd, w, hd', w', prev, next);
        assert f - {next} + {} == f - {next};
      } else {
        ListReplace(f, lo, hd, w, hd', w', prev, next, a);
      }
    } else if JoinsPrev(m, a, prev) {
      assert LinkOk(f, lo, w, prev);
      ListSame(f, lo, hd, w, w', prev, next, a);
      assert f - {} + {} == f;
    } else {
      ListInsert(f, lo, hd, w, hd', w', prev, next, a);
      assert f - {} + {a} == f + {a};
    }
  }

  /** Joining with the previous segment alone leaves the list as it was. */
  lemma ListSame(f: set<nat>, lo: nat, hd: nat, w: seq<nat>, w': seq<nat>, prev: nat, next: nat, a: nat)
    requires Linked(f, lo, hd, w) && Between(f, a, prev, next) && a !in f && prev != NULL
    requires |w'| == |w| && Link(w', lo, prev) == next
    requires forall p {:trigger LinkKept(w, w', lo, p)} | p in f && p != prev :: LinkKept(w, w', lo, p)
    ensures Linked(f, lo, hd, w')
  {
    forall p | p in f ensures LinkOk(f, lo, w', p) {
      assert LinkOk(f, lo, w, p);
      assert p != prev ==> LinkKept(w, w', lo, p);
    }
  }

  /** Releasing a segment keeps the block well formed, takes exactly that segment out of
      the allocated ones, and touches no data of the others. */
  lemma FreedWellFormed(m: SegMap, lo: nat, hi: nat, hd: nat, w: seq<nat>, hd': nat, w': seq<nat>,
                        prev: nat, next: nat, a: nat)
    requires a in m && m[a].alloc
    requires WellFormed(m, lo, hi, a, hd, w)
    requires Between(FreeSet(m), a, prev, next)
    requires Freed(m, lo, hd, w, hd', w', prev, next, a)
    ensures JoinsNext(m, a, next) ==> next in m && next != a
    ensures JoinsPrev(Forward(m, a, next), a, prev) ==> a in Forward(m, a, next)
    ensures WellFormed(Released(m, a, prev, next), lo, hi, NULL, hd', w')
    ensures SameData(m - {a}, lo, w, w')
  {
    ReleasedTiles(m, lo, hi, a, prev, next);
    if JoinsNext(m, a, next) { NextIsFree(m, lo, hi, a, next); }
    FreedEncodes(m, lo, hi, hd, w, hd', w', prev, next, a);
    FreedLinks(m, lo, hi, hd, w, hd', w', prev, next, a);
    FreedData(m, lo, hi, w, w', prev, a);
  }

  lemma FreedData(m: SegMap, lo: nat, hi: nat, w: seq<nat>, w': seq<nat>, prev: nat, a: nat)
    requires Tiled(m, lo, hi) && |w| == hi - lo
    requires a in m && (prev != NULL ==> IsFree(m, prev))
    requires Touched(lo, w, w', {a, a + DESCR} + if prev != NULL then {prev, prev + DESCR} else {})
    ensures SameData(m - {a}, lo, w, w')
  {
    forall b: nat, i: nat | b in m - {a} && m[b].alloc && i < |w| ensures Kept(m - {a}, lo, b, w, w', i) {
      CellsApart(m, lo, hi, a, b);
      CellsApart(m, lo, hi, b, a);
      if prev != NULL { CellsApart(m, lo, hi, prev, b); CellsApart(m, lo, hi, b, prev); }
    }
  }

  lemma ReleasedCount(f: set<nat>, jn: bool, jp: bool, next: nat, a: nat)
    requires a !in f && (jn ==> next in f)
    ensures |f - (if jn then {next} else {}) + (if jp then {} else {a})| ==
            |f| - (if jn then 1 else 0) + (if jp then 0 else 1)
  {
    var g := f - if jn then {next} else {};
    assert |g| == |f| - if jn then 1 else 0;
    assert g + {} == g;
  }

  /** The free neighbours are different segments. */
  lemma NeighboursDiffer(m: SegMap, lo: nat, hi: nat, prev: nat, next: nat, a: nat)
    requires lo > 0 && Tiled(m, lo, hi) && a in m && m[a].alloc
    requires Between(FreeSet(m), a, prev, next)
    ensures m[a].len > 0 && lo <= a
    ensures prev != NULL ==> prev in FreeSet(m) && prev < a
    ensures JoinsNext(m, a, next) ==> next in FreeSet(m) && next > a
  {
    assert Inside(m, lo, hi, a);
    if JoinsNext(m, a, next) { NextIsFree(m, lo, hi, a, next); }
  }

  /** All that a release does to a block. */
  lemma FreedSummary(m: SegMap, lo: nat, hi: nat, hd: nat, w: seq<nat>, hd': nat, w': seq<nat>,
                     prev: nat, next: nat, a: nat)
    requires a in m && m[a].alloc
    requires WellFormed(m, lo, hi, a, hd, w)
    requires Between(FreeSet(m), a, prev, next)
    requires Freed(m, lo, hd, w, hd', w', prev, next, a)
    ensures JoinsNext(m, a, next) ==> next in FreeSet(m) && next != a
    ensures JoinsPrev(Forward(m, a, next), a, prev) ==> a in Forward(m, a, next)
    ensures WellFormed(Released(m, a, prev, next), lo, hi, NULL, hd', w')
    ensures Live(Released(m, a, prev, next)) == Live(m) - {a}
    ensures |FreeSet(Released(m, a, prev, next))| ==
            |FreeSet(m)| - (if JoinsNext(m, a, next) then 1 else 0) + (if JoinsPrev(m, a, prev) then 0 else 1)
    ensures var into := if JoinsPrev(m, a, prev) then prev else a;
            && into in Released(m, a, prev, next)
            && Released(m, a, prev, next)[into] ==
               FreeSeg(FreedLen(m, a, next) + if JoinsPrev(m, a, prev) then m[prev].len else 0)
    ensures SameData(m - {a}, lo, w, w')
  {
    NeighboursDiffer(m, lo, hi, prev, next, a);
    FreedWellFormed(m, lo, hi, hd, w, hd', w', prev, next, a);
    ReleasedTiles(m, lo, hi, a, prev, next);
    ReleasedCount(FreeSet(m), JoinsNext(m, a, next), JoinsPrev(m, a, prev), next, a);
    ReleasedAt(m, a, prev, next);
  }

  // ---- Changing the flags of an allocated segment ----

  /** The same segment with other flags. */
  ghost predicate Retag(s: Seg, t: Seg) {
    s.alloc && t.alloc && s.len == t.len && SegOk(t)
  }

  lemma RetagWellFormed(m: SegMap, lo: nat, hi: nat, hd: nat, w: seq<nat>, a: nat, t: Seg)
    requires WellFormed(m, lo, hi, NULL, hd, w)
    requires a in m && Retag(m[a], t)
    ensures lo <= a < hi
    ensures WellFormed(m[a := t], lo, hi, NULL, hd, w[a - lo := Word(t)])
    ensures Live(m[a := t]) == Live(m)[a := t]
    ensures FreeSet(m[a := t]) == FreeSet(m)
    ensures SameData(m, lo, w, w[a - lo := Word(t)])
  {
    var m', w' := m[a := t], w[a - lo := Word(t)];
    assert Inside(m, lo, hi, a);
    RetagTiles(m, lo, hi, a, t);
    assert FreeSet(m') == FreeSet(m);
    forall p | p in m' && p != NULL ensures Says(m', lo, p, w') {
      assert Says(m, lo, p, w);
    }
    forall p | p in FreeSet(m) ensures LinkOk(FreeSet(m), lo, w', p) {
      assert LinkOk(FreeSet(m), lo, w, p);
      CellsApart(m, lo, hi, p, a);
    }
    forall b: nat, i: nat | b in m && m[b].alloc && i < |w| ensures Kept(m, lo, b, w, w', i) {
      CellsApart(m, lo, hi, a, b);
    }
  }

  lemma RetagTiles(m: SegMap, lo: nat, hi: nat, a: nat, t: Seg)
    requires Tiled(m, lo, hi) && Coalesced(m)
    requires a in m && Retag(m[a], t)
    ensures Tiled(m[a := t], lo, hi) && Coalesced(m[a := t])
  {
    var m' := m[a := t];
    forall p | p in m' ensures Inside(m', lo, hi, p) && Closed(m', p, hi) {
      assert Inside(m, lo, hi, p) && Closed(m, p, hi);
    }
    forall p, q | p in m' && q in m' ensures Apart(m', p, q) {
      assert Apart(m, p, q);
    }
    RetagCoalesced(m, a, t);
  }

  lemma RetagCoalesced(m: SegMap, a: nat, t: Seg)
    requires Coalesced(m) && a in m && Retag(m[a], t)
    ensures Coalesced(m[a := t])
  {
    var m' := m[a := t];
    forall p | p in m' ensures NoFreeAfter(m', p) {
      assert NoFreeAfter(m, p);
      assert IsFree(m', p + m[p].len) ==> IsFree(m, p + m[p].len);
    }
  }

  lemma SameDataSame(m: SegMap, lo: nat, w: seq<nat>)
    ensures SameData(m, lo, w, w)
  {
    forall a: nat, i: nat | a in m && m[a].alloc && i < |w| ensures Kept(m, lo, a, w, w, i) {
    }
  }

  /** Unchanged data over two steps, for the segments present in both. */
  lemma SameDataStep(l: SegMap, m: SegMap, l': SegMap, lo: nat, w: seq<nat>, w': seq<nat>, w'': seq<nat>)
    requires SameData(l, lo, w, w') && SameData(m, lo, w', w'')
    requires forall a | a in l' :: a in l && l[a].alloc && a in m && m[a].alloc && l[a].len == l'[a].len == m[a].len
    ensures SameData(l', lo, w, w'')
  {
    forall a: nat, i: nat | a in l' && l'[a].alloc && i < |w| ensures Kept(l', lo, a, w, w'', i) {
      assert Kept(l, lo, a, w, w', i) && Kept(m, lo, a, w', w'', i);
    }
  }

  /** Only the allocated segments of m matter. */
  lemma SameDataLive(m: SegMap, l: SegMap, lo: nat, w: seq<nat>, w': seq<nat>)
    requires SameData(l, lo, w, w')
    requires forall a | a in m && m[a].alloc :: a in l && l[a] == m[a]
    ensures SameData(m, lo, w, w')
  {
    forall a: nat, i: nat | a in m && m[a].alloc && i < |w| ensures Kept(m, lo, a, w, w', i) {
      assert Kept(l, lo, a, w, w', i);
    }
  }

  /** Writing another word over the descriptor at a breaks the block in that place only. */
  lemma OpenedDescriptor(m: SegMap, lo: nat, hi: nat, hd: nat, w: seq<nat>, a: nat, w': seq<nat>)
    requires WellFormed(m, lo, hi, NULL, hd, w)
    requires a in m && m[a].alloc && lo <= a < hi && |w'| == |w|
    requires forall i: nat | i < |w| && i != a - lo :: w'[i] == w[i]
    ensures WellFormed(m, lo, hi, a, hd, w')
    ensures SameData(m, lo, w, w')
  {
    forall p | p in m && p != a ensures Says(m, lo, p, w') {
      assert lo > 0 && Inside(m, lo, hi, p) && Says(m, lo, p, w);
    }
    forall p | p in FreeSet(m) ensures LinkOk(FreeSet(m), lo, w', p) {
      assert LinkOk(FreeSet(m), lo, w, p);
      CellsApart(m, lo, hi, p, a);
    }
    forall b: nat, i: nat | b in m && m[b].alloc && i < |w| ensures Kept(m, lo, b, w, w', i) {
      CellsApart(m, lo, hi, a, b);
    }
  }

  /** A word inside the data of an allocated segment can be anything. */
  lemma StoreWellFormed(m: SegMap, lo: nat, hi: nat, hd: nat, w: seq<nat>, a: nat, x: nat, v: nat)
    requires WellFormed(m, lo, hi, NULL, hd, w) && a in m && m[a].alloc
    requires a + DESCR <= x && x + DESCR <= a + m[a].len
    ensures lo <= x < hi
    ensures WellFormed(m, lo, hi, NULL, hd, w[x - lo := v])
    ensures SameData(m - {a}, lo, w, w[x - lo := v])
  {
    assert Inside(m, lo, hi, a);
    var w' := w[x - lo := v];
    forall p | p in m && p != NULL ensures Says(m, lo, p, w') {
      assert Says(m, lo, p, w);
      CellsApart(m, lo, hi, p, a);
    }
    forall p | p in FreeSet(m) ensures LinkOk(FreeSet(m), lo, w', p) {
      assert LinkOk(FreeSet(m), lo, w, p);
      CellsApart(m, lo, hi, p, a);
      CellsApart(m, lo, hi, a, p);
    }
    forall b: nat, i: nat | b in m - {a} && m[b].alloc && i < |w| ensures Kept(m - {a}, lo, b, w, w', i) {
      CellsApart(m, lo, hi, a, b);
    }
  }
}
