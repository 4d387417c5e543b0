/** The bound on free segments that a sweep leaves in a block. A sweep makes one free segment
    of each run of free segments and garbage, but the new bound takes only some of the runs
    into account: those the sweep sees. All on values. */
module SweepBounds {
  import opened Descriptors
  import opened SegMaps
  import opened BlockWords

  /** Free already, or to be freed by the sweep. */
  ghost predicate Loose(s: Seg) {
    !s.alloc || Garbage(s)
  }

  ghost function Waste(m: SegMap): set<nat> {
    set a | a in m && Garbage(m[a])
  }

  /** If the segment at a begins in [p, q), it is loose and ends there too; if it ends at p or
      begins at q, it is not loose. */
  ghost predicate RunAt(m: SegMap, p: nat, q: nat, a: nat)
    requires a in m
  {
    && (p <= a < q ==> Loose(m[a]) && a + m[a].len <= q)
    && (a + m[a].len == p || a == q ==> !Loose(m[a]))
  }

  ghost predicate EndsAt(m: SegMap, a: nat, q: nat) {
    a in m && a + m[a].len == q
  }

  /** A run of m from p to q: a stretch of loose segments that is as long as can be. */
  ghost predicate Run(m: SegMap, p: nat, q: nat) {
    && p < q && p in m
    && (exists a {:trigger EndsAt(m, a, q)} :: EndsAt(m, a, q))
    && (forall a {:trigger RunAt(m, p, q, a)} | a in m :: RunAt(m, p, q, a))
  }

  // ---- What is seen of a run ----

  ghost predicate Above(g: set<nat>, p: nat) {
    exists x :: x in g && p < x
  }

  ghost predicate Two(g: set<nat>, p: nat, q: nat) {
    exists x, y :: x in g && y in g && p <= x < y < q
  }

  ghost predicate Least(g: set<nat>, p: nat) {
    p in g && forall x | x in g :: p <= x
  }

  /** f are the segments that were free before, g those that are released. The sweep sees a
      run [p, q) when it begins with a free segment and anything above p is released, when two
      of its segments are released, or when nothing was free and the first release is at p. */
  ghost predicate Seen(f: set<nat>, g: set<nat>, p: nat, q: nat) {
    (p in f && Above(g, p)) || Two(g, p, q) || (f == {} && Least(g, p))
  }

  ghost predicate SeenRun(m: SegMap, p: nat, q: nat) {
    Run(m, p, q) && Seen(FreeSet(m), Waste(m), p, q)
  }

  /** max is the length of the longest run of m that is seen, 0 if there is none. */
  ghost predicate SweptBound(m: SegMap, max: nat) {
    && (forall p: nat, q: nat {:trigger SeenRun(m, p, q)} :: SeenRun(m, p, q) ==> q - p <= max)
    && (max == 0 || exists p: nat, q: nat {:trigger SeenRun(m, p, q)} :: SeenRun(m, p, q) && q - p == max)
  }

  /** There is no run in m, or one of the longest is seen. */
  ghost predicate LongestSeen(m: SegMap) {
    || (forall p: nat, q: nat {:trigger Run(m, p, q)} :: !Run(m, p, q))
    || (exists p: nat, q: nat {:trigger SeenRun(m, p, q)} :: SeenRun(m, p, q) && NoneLonger(m, q - p))
  }

  ghost predicate NoneLonger(m: SegMap, n: int) {
    forall p: nat, q: nat {:trigger Run(m, p, q)} :: Run(m, p, q) ==> q - p <= n
  }

  /** A sweep that releases nothing sees nothing. */
  lemma IdleBound(m: SegMap, max: nat)
    requires SweptBound(m, max) && Waste(m) == {}
    ensures max == 0
  {
    assert forall p: nat, q: nat :: !SeenRun(m, p, q);
  }

  // ---- The runs of a block are the free segments that its sweep leaves ----

  /** Every segment but the first one borders on the end of another. */
  lemma {:induction false} EndBefore(m: SegMap, lo: nat, hi: nat, a: nat, p: nat) returns (b: nat)
    requires Tiled(m, lo, hi) && a in m && p in m && a < p
    ensures EndsAt(m, b, p)
    decreases p - a
  {
    assert Apart(m, a, p) && Closed(m, a, hi) && Inside(m, lo, hi, a) && Inside(m, lo, hi, p);
    b := a;
    if a + m[a].len != p {
      b := EndBefore(m, lo, hi, a + m[a].len, p);
    }
  }

  /** m' is what a sweep leaves of m. */
  ghost predicate Cleared(m: SegMap, m': SegMap, lo: nat, hi: nat) {
    Tiled(m, lo, hi) && Tiled(m', lo, hi) && Coalesced(m') && Live(m') == Swept(Live(m))
  }

  /** The segments that stay are the same before and after. */
  lemma Stays(m: SegMap, m': SegMap, lo: nat, hi: nat, a: nat)
    requires Cleared(m, m', lo, hi)
    ensures (a in m && !Loose(m[a])) <==> (a in m' && m'[a].alloc)
    ensures a in m && !Loose(m[a]) ==> m'[a].len == m[a].len
  {
    assert a in Live(m') <==> a in Swept(Live(m));
    assert a in Live(m') ==> Live(m')[a] == Swept(Live(m))[a];
  }

  lemma FreeIsRun(m: SegMap, m': SegMap, lo: nat, hi: nat, p: nat)
    requires Cleared(m, m', lo, hi) && IsFree(m', p)
    ensures Run(m, p, p + m'[p].len)
  {
    var q := p + m'[p].len;
    assert Inside(m', lo, hi, p) && Closed(m', p, hi) && NoFreeAfter(m', p);
    Stays(m, m', lo, hi, p);
    Stays(m, m', lo, hi, q);
    StartsIn(m, m', lo, hi, p);
    forall a | a in m ensures RunAt(m, p, q, a) {
      LooseInside(m, m', lo, hi, p, a);
    }
    if q in m {
      var b := EndBefore(m, lo, hi, p, q);
    } else {
      var b := LastOne(m, lo, hi, p);
    }
  }

  /** Where a free segment begins afterwards, one began before. */
  lemma StartsIn(m: SegMap, m': SegMap, lo: nat, hi: nat, p: nat)
    requires Cleared(m, m', lo, hi) && IsFree(m', p)
    ensures p in m
  {
    assert Inside(m', lo, hi, p);
    if p != lo {
      var b := EndBefore(m', lo, hi, lo, p);
      assert NoFreeAfter(m', b);
      Stays(m, m', lo, hi, b);
      assert Closed(m, b, hi);
    }
  }

  lemma LooseInside(m: SegMap, m': SegMap, lo: nat, hi: nat, p: nat, a: nat)
    requires Cleared(m, m', lo, hi) && IsFree(m', p) && p in m && a in m
    ensures RunAt(m, p, p + m'[p].len, a)
  {
    var q := p + m'[p].len;
    assert Inside(m', lo, hi, p) && Closed(m', p, hi) && NoFreeAfter(m', p);
    assert Inside(m, lo, hi, a) && Inside(m, lo, hi, p);
    Stays(m, m', lo, hi, a);
    Stays(m, m', lo, hi, q);
    if a in m' { assert Apart(m', p, a); }
    if q in m { assert Apart(m, a, q); }
    if a + m[a].len == p && Loose(m[a]) {
      NoLooseBefore(m, m', lo, hi, p, a);
    }
  }

  lemma NoLooseBefore(m: SegMap, m': SegMap, lo: nat, hi: nat, p: nat, a: nat)
    requires Cleared(m, m', lo, hi) && IsFree(m', p) && p in m
    requires a in m && a + m[a].len == p
    ensures !Loose(m[a])
  {
    assert Inside(m, lo, hi, a) && Inside(m', lo, hi, p);
    var b := EndBefore(m', lo, hi, lo, p);
    assert NoFreeAfter(m', b) && Inside(m', lo, hi, b);
    Stays(m, m', lo, hi, b);
    assert Apart(m, a, b);
  }

  lemma {:induction false} LastOne(m: SegMap, lo: nat, hi: nat, a: nat) returns (b: nat)
    requires Tiled(m, lo, hi) && a in m
    ensures EndsAt(m, b, hi)
    decreases hi - a
  {
    assert Closed(m, a, hi) && Inside(m, lo, hi, a);
    b := a;
    if a + m[a].len != hi {
      assert Inside(m, lo, hi, a + m[a].len);
      b := LastOne(m, lo, hi, a + m[a].len);
    }
  }

  /** The free segments after the sweep are exactly the runs before it. */
  lemma RunsAre(m: SegMap, m': SegMap, lo: nat, hi: nat, p: nat, q: nat)
    requires Cleared(m, m', lo, hi)
    ensures Run(m, p, q) <==> IsFree(m', p) && q == p + m'[p].len
  {
    if Run(m, p, q) {
      RunIsFree(m, m', lo, hi, p, q);
      FreeIsRun(m, m', lo, hi, p);
      SameEnd(m, lo, hi, p, q, p + m'[p].len);
    }
    if IsFree(m', p) {
      FreeIsRun(m, m', lo, hi, p);
    }
  }

  lemma RunIsFree(m: SegMap, m': SegMap, lo: nat, hi: nat, p: nat, q: nat)
    requires Cleared(m, m', lo, hi) && Run(m, p, q)
    ensures IsFree(m', p)
  {
    assert Inside(m, lo, hi, p) && RunAt(m, p, q, p);
    Stays(m, m', lo, hi, p);
    if p != lo {
      var b := EndBefore(m, lo, hi, lo, p);
      assert RunAt(m, p, q, b);
      Stays(m, m', lo, hi, b);
      assert Closed(m', b, hi);
    }
  }

  lemma SameEnd(m: SegMap, lo: nat, hi: nat, p: nat, q: nat, r: nat)
    requires Tiled(m, lo, hi) && Run(m, p, q) && Run(m, p, r)
    ensures q == r
  {
    var a :| EndsAt(m, a, q);
    var b :| EndsAt(m, b, r);
    assert Closed(m, a, hi) && Inside(m, lo, hi, a) && Closed(m, b, hi) && Inside(m, lo, hi, b);
    assert q in m ==> RunAt(m, p, r, q) && RunAt(m, p, q, q);
    assert r in m ==> RunAt(m, p, q, r) && RunAt(m, p, r, r);
  }

  // ---- The bound while the sweep goes on ----

  /** The free segment at p of m is seen, g having been released. */
  ghost predicate SeenAt(f: set<nat>, g: set<nat>, m: SegMap, p: nat) {
    p in FreeSet(m) && Seen(f, g, p, p + m[p].len)
  }

  /** max is the length of the longest free segment of m that is seen, 0 if there is none. */
  ghost predicate Topped(f: set<nat>, g: set<nat>, m: SegMap, max: nat) {
    && (forall p: nat {:trigger SeenAt(f, g, m, p)} :: SeenAt(f, g, m, p) ==> m[p].len <= max)
    && (max == 0 || exists p: nat {:trigger SeenAt(f, g, m, p)} :: SeenAt(f, g, m, p) && m[p].len == max)
  }

  /** The sweep has released g; the last of it is part of the free segment at prev. */
  ghost predicate Wake(f: set<nat>, g: set<nat>, m: SegMap, prev: nat) {
    && f !! g && FreeSet(m) <= f + g
    && if prev == NULL then g == {} && FreeSet(m) == f
       else prev in FreeSet(m) && (exists x :: x in g && prev <= x) && forall x | x in g :: x < prev + m[prev].len
  }

  /** max is max0 raised to the lengths of the free segments of m between prev and d. */
  ghost predicate Passed(m: SegMap, prev: nat, d: nat, max0: nat, max: nat) {
    && max0 <= max
    && (forall p | p in FreeSet(m) && prev < p < d :: m[p].len <= max)
    && (max == max0 || exists p :: p in FreeSet(m) && prev < p < d && m[p].len == max)
  }

  /** One more free segment, at next, is passed. */
  lemma PassNext(m: SegMap, prev0: nat, prev: nat, next: nat, max0: nat, max: nat)
    requires Passed(m, prev0, prev + 1, max0, max) && prev0 <= prev < next && next in FreeSet(m)
    requires forall p | p in FreeSet(m) :: p <= prev || next <= p
    ensures Passed(m, prev0, next + 1, max0, if m[next].len > max then m[next].len else max)
  {
    if m[next].len <= max && max != max0 {
      var p :| p in FreeSet(m) && prev0 < p < prev + 1 && m[p].len == max;
      assert p < next + 1;
    }
  }

  lemma PassEnd(m: SegMap, prev0: nat, prev: nat, d: nat, max0: nat, max: nat)
    requires Passed(m, prev0, prev + 1, max0, max) && prev < d
    requires forall p | p in FreeSet(m) :: p <= prev || d <= p
    ensures Passed(m, prev0, d, max0, max)
  {
    if max != max0 {
      var p :| p in FreeSet(m) && prev0 < p < prev + 1 && m[p].len == max;
      assert p < d;
    }
  }

  /** The free segment that the segment at a ends up in. */
  ghost function Into(m: SegMap, a: nat, prev: nat): nat {
    if JoinsPrev(m, a, prev) then prev else a
  }

  /** The free segments m' after that at a was released between those at prev and next. */
  ghost predicate Merged(m: SegMap, m': SegMap, a: nat, prev: nat, next: nat) {
    && a in m
    && FreeSet(m') == FreeSet(m) - (if JoinsNext(m, a, next) then {next} else {})
                      + (if JoinsPrev(m, a, prev) then {} else {a})
    && Into(m, a, prev) in FreeSet(m')
    && a + m[a].len <= Into(m, a, prev) + m'[Into(m, a, prev)].len
    && (forall p {:trigger m'[p]} | p in FreeSet(m') && p != Into(m, a, prev) :: p in m && m'[p].len == m[p].len)
  }

  /** Free segments before the cursor are seen because of what was released behind them. */
  lemma BeforeCursor(f: set<nat>, g: set<nat>, m: SegMap, prev: nat, p: nat)
    requires Wake(f, g, m, prev) && p in FreeSet(m) && 0 < p <= prev && p in f
    ensures SeenAt(f, g, m, p)
  {
    var x :| x in g && prev <= x;
    assert p < x;
  }

  /** Free segments behind the cursor were free before and are not seen. */
  lemma BehindCursor(f: set<nat>, g: set<nat>, m: SegMap, prev: nat, p: nat)
    requires Wake(f, g, m, prev) && Disjoint(m) && p in FreeSet(m) && prev < p
    ensures p in f && !SeenAt(f, g, m, p)
    ensures forall x | x in g :: x < p
  {
    if prev != NULL { assert Apart(m, prev, p); }
  }

  /** The first release in a block without free segments. */
  lemma FirstTop(f: set<nat>, m: SegMap, m': SegMap, d: nat)
    requires Wake(f, {}, m, NULL) && FreeSet(m) == {} && FreeSet(m') == {d}
    requires m'[d].len > 0 && d != NULL
    ensures Wake(f, {d}, m', d) && Topped(f, {d}, m', m'[d].len)
  {
    assert Least({d}, d);
    assert SeenAt(f, {d}, m', d);
  }

  /** A release between the free segments at prev and next: the cursor. */
  lemma ReleasedWake(f: set<nat>, g: set<nat>, m: SegMap, m': SegMap, prev0: nat, d: nat, prev: nat, next: nat)
    requires Wake(f, g, m, prev0) && Disjoint(m) && d in m && m[d].alloc && d !in f && prev0 < d
    requires Between(FreeSet(m), d, prev, next) && Merged(m, m', d, prev, next) && m[d].len > 0
    ensures Wake(f, g + {d}, m', Into(m, d, prev))
    ensures Into(m, d, prev) != NULL
  {
    if prev0 != NULL { assert Apart(m, prev0, d); }
    assert d in g + {d};
  }

  /** What the sweep has seen before a release it sees after it. */
  lemma SeenStays(f: set<nat>, g: set<nat>, d: nat, p: nat, q: nat)
    requires Seen(f, g, p, q) && forall x | x in g :: x < d
    ensures Seen(f, g + {d}, p, q)
  {
    assert forall x | x in g :: x in g + {d};
  }

  /** Which free segments are seen after a release, and how long they may be. */
  lemma SeenAfter(f: set<nat>, g: set<nat>, m: SegMap, m': SegMap, prev0: nat, d: nat, prev: nat, next: nat,
                  max0: nat, max1: nat, p: nat)
    requires Wake(f, g, m, prev0) && Disjoint(m) && d in m && m[d].alloc && d !in f && prev0 < d
    requires Between(FreeSet(m), d, prev, next) && Merged(m, m', d, prev, next) && m[d].len > 0
    requires Topped(f, g, m, max0) && Passed(m, prev0, d, max0, max1)
    requires FreeSet(m) != {} && NULL !in FreeSet(m)
    requires SeenAt(f, g + {d}, m', p)
    ensures p == prev == Into(m, d, prev) || m'[p].len <= max1
  {
    ReleasedWake(f, g, m, m', prev0, d, prev, next);
    assert forall x | x in g :: x < d by {
      if prev0 != NULL { assert Apart(m, prev0, d); }
    }
    if p in FreeSet(m) && p != Into(m, d, prev) {
      assert Apart(m, p, d);
      if p < d {
        if p > prev0 {
          BehindCursor(f, g, m, prev0, p);
        } else {
          SeenBefore(f, g, m, prev0, d, p);
          assert m[p].len <= max0;
        }
      } else {
        BehindCursor(f, g, m, prev0, p);
        assert forall x | x in g + {d} :: x < p;
      }
    } else if p == d {
      NotSeenAlone(f, g, m, m', prev0, d, p + m'[p].len);
    }
  }

  lemma SeenBefore(f: set<nat>, g: set<nat>, m: SegMap, prev0: nat, d: nat, p: nat)
    requires Wake(f, g, m, prev0) && p in FreeSet(m) && 0 < p <= prev0 < d && p + m[p].len <= d
    requires forall x | x in g :: x < d
    requires Seen(f, g + {d}, p, p + m[p].len)
    ensures SeenAt(f, g, m, p)
  {
    if p in f {
      BeforeCursor(f, g, m, prev0, p);
    } else if Two(g + {d}, p, p + m[p].len) {
      var x, y :| x in g + {d} && y in g + {d} && p <= x < y < p + m[p].len;
      assert x in g && y in g;
    } else {
      assert Least(g, p);
    }
  }

  lemma NotSeenAlone(f: set<nat>, g: set<nat>, m: SegMap, m': SegMap, prev0: nat, d: nat, q: nat)
    requires Wake(f, g, m, prev0) && FreeSet(m) != {} && d !in f
    requires forall x | x in g :: x < d
    ensures !Seen(f, g + {d}, d, q)
  {
    assert forall x | x in g + {d} :: x <= d;
    if f == {} {
      var x :| x in g && prev0 <= x;
      assert x in g + {d} && x < d;
    }
  }

  /** The bound after a release between the free segments at prev and next. */
  lemma ReleasedTop(f: set<nat>, g: set<nat>, m: SegMap, m': SegMap, prev0: nat, d: nat, prev: nat, next: nat,
                    max0: nat, max1: nat, max: nat)
    requires Wake(f, g, m, prev0) && Disjoint(m) && d in m && m[d].alloc && d !in f && prev0 < d
    requires Between(FreeSet(m), d, prev, next) && Merged(m, m', d, prev, next) && m[d].len > 0
    requires Topped(f, g, m, max0) && Passed(m, prev0, d, max0, max1)
    requires FreeSet(m) != {} && NULL !in FreeSet(m)
    requires var len := m'[Into(m, d, prev)].len;
             max == if JoinsPrev(m, d, prev) && len > max1 then len else max1
    requires JoinsPrev(m, d, prev) ==> m'[prev].len > m[prev].len
    ensures Topped(f, g + {d}, m', max)
  {
    forall p: nat | SeenAt(f, g + {d}, m', p) ensures m'[p].len <= max {
      SeenAfter(f, g, m, m', prev0, d, prev, next, max0, max1, p);
    }
    if max != 0 {
      var p := TopSeen(f, g, m, m', prev0, d, prev, next, max0, max1, max);
      assert SeenAt(f, g + {d}, m', p);
    }
  }

  /** A free segment that is seen and as long as the bound. */
  lemma TopSeen(f: set<nat>, g: set<nat>, m: SegMap, m': SegMap, prev0: nat, d: nat, prev: nat, next: nat,
                max0: nat, max1: nat, max: nat) returns (p: nat)
    requires Wake(f, g, m, prev0) && Disjoint(m) && d in m && m[d].alloc && d !in f && prev0 < d
    requires Between(FreeSet(m), d, prev, next) && Merged(m, m', d, prev, next) && m[d].len > 0
    requires Topped(f, g, m, max0) && Passed(m, prev0, d, max0, max1)
    requires max != 0
    requires var len := m'[Into(m, d, prev)].len;
             max == if JoinsPrev(m, d, prev) && len > max1 then len else max1
    requires JoinsPrev(m, d, prev) ==> m'[prev].len > m[prev].len
    ensures SeenAt(f, g + {d}, m', p) && m'[p].len == max
  {
    if JoinsPrev(m, d, prev) && m'[prev].len > max1 {
      p := prev;
      PrevSeen(f, g, m, prev0, d, prev, prev + m'[prev].len);
    } else if max1 == max0 {
      p :| SeenAt(f, g, m, p) && m[p].len == max0;
      assert prev0 < p ==> false by {
        if prev0 < p { BehindCursor(f, g, m, prev0, p); }
      }
      assert forall x | x in g :: x < d by {
        if prev0 != NULL { assert Apart(m, prev0, d); }
      }
      SeenStays(f, g, d, p, p + m[p].len);
    } else {
      p :| p in FreeSet(m) && prev0 < p < d && m[p].len == max1;
      BehindCursor(f, g, m, prev0, p);
      assert d in g + {d};
    }
  }

  lemma PrevSeen(f: set<nat>, g: set<nat>, m: SegMap, prev0: nat, d: nat, prev: nat, q: nat)
    requires Wake(f, g, m, prev0) && prev in FreeSet(m) && prev < d < q
    ensures Seen(f, g + {d}, prev, q)
  {
    assert d in g + {d};
    if prev in g {
      assert prev in g + {d} && prev <= prev < d < q;
    }
  }

  /** What a release does to the free segments. */
  lemma ReleasedMerged(m: SegMap, lo: nat, hi: nat, a: nat, prev: nat, next: nat)
    requires lo > 0 && Tiled(m, lo, hi) && Coalesced(m) && a in m && m[a].alloc && Between(FreeSet(m), a, prev, next)
    ensures JoinsNext(m, a, next) ==> next in m && next != a
    ensures JoinsPrev(Forward(m, a, next), a, prev) ==> a in Forward(m, a, next)
    ensures Merged(m, Released(m, a, prev, next), a, prev, next)
    ensures JoinsPrev(m, a, prev) ==> Released(m, a, prev, next)[prev].len > m[prev].len
  {
    NeighboursDiffer(m, lo, hi, prev, next, a);
    ReleasedTiles(m, lo, hi, a, prev, next);
    ReleasedAt(m, a, prev, next);
  }

  /** The segments allocated in m that are not any more in m'. */
  ghost function Gone(m: SegMap, m': SegMap): set<nat> {
    Live(m).Keys - Live(m').Keys
  }

  /** The state of the sweep of a block that had the segments m and now has m': the last
      release is part of the free segment at prev, and max is the bound so far. */
  ghost predicate OnTrack(m: SegMap, m': SegMap, prev: nat, max: nat) {
    Wake(FreeSet(m), Gone(m, m'), m', prev) && Topped(FreeSet(m), Gone(m, m'), m', max)
  }

  lemma TrackStart(m: SegMap)
    ensures OnTrack(m, m, NULL, 0)
  {
  }

  /** Without a release the free segments are the old ones. */
  lemma TrackFree(m: SegMap, m': SegMap, prev: nat, max: nat)
    requires OnTrack(m, m', prev, max)
    ensures if prev == NULL then FreeSet(m') == FreeSet(m) else FreeSet(m') != {}
  {
  }

  /** Other flags of an allocated segment make no difference. */
  lemma SameTrack(m: SegMap, m0: SegMap, m': SegMap, prev: nat, max: nat)
    requires OnTrack(m, m0, prev, max)
    requires FreeSet(m') == FreeSet(m0) && Live(m').Keys == Live(m0).Keys
    requires forall p | p in FreeSet(m0) :: m'[p] == m0[p]
    ensures OnTrack(m, m', prev, max)
  {
    assert Gone(m, m') == Gone(m, m0);
    forall p: nat ensures SeenAt(FreeSet(m), Gone(m, m0), m', p) <==> SeenAt(FreeSet(m), Gone(m, m0), m0, p) {
    }
  }

  lemma TrackFirst(m: SegMap, m0: SegMap, m': SegMap, d: nat, max0: nat)
    requires OnTrack(m, m0, NULL, max0) && FreeSet(m0) == {} && FreeSet(m') == {d}
    requires d in Live(m) && d in Live(m0) && Live(m') == Live(m0) - {d} && m'[d].len > 0 && d != NULL
    ensures OnTrack(m, m', d, m'[d].len)
  {
    assert Gone(m, m') == {d};
    FirstTop(FreeSet(m), m0, m', d);
  }

  lemma TrackRelease(m: SegMap, m0: SegMap, m': SegMap, prev0: nat, d: nat, prev: nat, next: nat,
                     max0: nat, max1: nat, max: nat)
    requires OnTrack(m, m0, prev0, max0) && Disjoint(m0)
    requires d in Live(m) && d in Live(m0) && Live(m') == Live(m0) - {d} && m0[d].len > 0 && prev0 < d
    requires Between(FreeSet(m0), d, prev, next) && Merged(m0, m', d, prev, next)
    requires Passed(m0, prev0, d, max0, max1)
    requires FreeSet(m0) != {} && NULL !in FreeSet(m0)
    requires var len := m'[Into(m0, d, prev)].len;
             max == if JoinsPrev(m0, d, prev) && len > max1 then len else max1
    requires JoinsPrev(m0, d, prev) ==> m'[prev].len > m0[prev].len
    ensures Into(m0, d, prev) != NULL && OnTrack(m, m', Into(m0, d, prev), max)
  {
    var f, g := FreeSet(m), Gone(m, m0);
    assert Gone(m, m') == g + {d};
    ReleasedWake(f, g, m0, m', prev0, d, prev, next);
    ReleasedTop(f, g, m0, m', prev0, d, prev, next, max0, max1, max);
  }

  lemma GoneIsWaste(m: SegMap, m': SegMap, lo: nat, hi: nat)
    requires Placed(m, lo, hi) && Live(m') == Swept(Live(m))
    ensures Gone(m, m') == Waste(m)
  {
    forall a | a in m ensures a in Waste(m) ==> m[a].alloc {
      assert Inside(m, lo, hi, a);
    }
  }

  // ---- The bound after the sweep ----

  /** The bound at the end of the walk, in terms of the block before the sweep. */
  lemma BoundAfter(m: SegMap, m': SegMap, lo: nat, hi: nat, prev: nat, max: nat)
    requires Cleared(m, m', lo, hi) && OnTrack(m, m', prev, max)
    ensures SweptBound(m, max)
  {
    GoneIsWaste(m, m', lo, hi);
    var f, g := FreeSet(m), Waste(m);
    forall p: nat, q: nat | SeenRun(m, p, q) ensures q - p <= max {
      RunsAre(m, m', lo, hi, p, q);
      assert SeenAt(f, g, m', p);
    }
    if max != 0 {
      var p: nat :| SeenAt(f, g, m', p) && m'[p].len == max;
      RunsAre(m, m', lo, hi, p, p + max);
      assert SeenRun(m, p, p + max);
    }
  }

  /** The bound covers all free segments after the sweep if and only if one of the longest runs
      before it is seen, or there is none. */
  lemma BoundRightWhen(m: SegMap, m': SegMap, lo: nat, hi: nat, max: nat)
    requires Cleared(m, m', lo, hi) && SweptBound(m, max)
    ensures (forall a | a in FreeSet(m') :: m'[a].len <= max) <==> LongestSeen(m)
  {
    forall p: nat, q: nat ensures Run(m, p, q) <==> IsFree(m', p) && q == p + m'[p].len {
      RunsAre(m, m', lo, hi, p, q);
    }
    if forall a | a in FreeSet(m') :: m'[a].len <= max {
      if p: nat, q: nat :| Run(m, p, q) {
        assert p in FreeSet(m') && max > 0;
        var p1: nat, q1: nat :| SeenRun(m, p1, q1) && q1 - p1 == max;
        assert NoneLonger(m, q1 - p1);
      }
    }
    if LongestSeen(m) {
      forall a | a in FreeSet(m') ensures m'[a].len <= max {
        assert Run(m, a, a + m'[a].len);
      }
    }
  }
}
