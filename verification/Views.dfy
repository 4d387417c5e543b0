/** The allocated segments of several blocks together, on values: ss holds the segments of
    each block of the block list, in order. */
module Views {
  import opened Descriptors
  import opened SegMaps
  import opened SweepBounds

  // ---- Sums over the blocks ----

  /** What the allocator counts. */
  datatype Measure = Segments | Size | Marks

  ghost function Amount(q: Measure, m: SegMap): nat {
    match q
    case Segments => |Live(m)|
    case Size => Bytes(Live(m))
    case Marks => |Marked(Live(m))|
  }

  ghost function Total(q: Measure, ss: seq<SegMap>): nat {
    if ss == [] then 0 else Amount(q, ss[0]) + Total(q, ss[1..])
  }

  lemma {:induction false} TotalUpdate(q: Measure, ss: seq<SegMap>, i: nat, m: SegMap)
    requires i < |ss|
    ensures Total(q, ss[i := m]) + Amount(q, ss[i]) == Total(q, ss) + Amount(q, m)
  {
    if i == 0 {
      assert ss[0 := m][1..] == ss[1..];
    } else {
      assert ss[i := m][1..] == ss[1..][i - 1 := m];
      TotalUpdate(q, ss[1..], i - 1, m);
    }
  }

  lemma {:induction false} TotalAppend(q: Measure, ss: seq<SegMap>, m: SegMap)
    ensures Total(q, ss + [m]) == Total(q, ss) + Amount(q, m)
  {
    if ss == [] {
      assert [] + [m] == [m] && [m][1..] == [];
    } else {
      assert (ss + [m])[1..] == ss[1..] + [m];
      TotalAppend(q, ss[1..], m);
    }
  }

  lemma {:induction false} TotalRemove(q: Measure, ss: seq<SegMap>, i: nat)
    requires i < |ss|
    ensures Total(q, ss) == Total(q, ss[..i] + ss[i + 1..]) + Amount(q, ss[i])
  {
    if i == 0 {
      assert ss[..0] + ss[1..] == ss[1..];
    } else {
      assert (ss[..i] + ss[i + 1..])[1..] == ss[1..][..i - 1] + ss[1..][i..];
      TotalRemove(q, ss[1..], i - 1);
    }
  }

  lemma {:induction false} TotalZero(q: Measure, ss: seq<SegMap>)
    ensures Total(q, ss) == 0 <==> forall i | 0 <= i < |ss| :: Amount(q, ss[i]) == 0
  {
    if ss != [] {
      TotalZero(q, ss[1..]);
      assert forall i | 1 <= i < |ss| :: ss[i] == ss[1..][i - 1];
      assert forall i | 0 <= i < |ss| - 1 :: ss[1..][i] == ss[i + 1];
    }
  }

  // ---- The union of the allocated segments ----

  ghost function LiveAll(ss: seq<SegMap>): SegMap {
    if ss == [] then map[] else Live(ss[0]) + LiveAll(ss[1..])
  }

  lemma UnionAssoc(x: SegMap, y: SegMap, z: SegMap)
    ensures x + (y + z) == (x + y) + z
  {
  }

  lemma UnionSet(x: SegMap, y: SegMap, a: nat, s: Seg)
    ensures a !in y ==> x[a := s] + y == (x + y)[a := s]
    ensures x + y[a := s] == (x + y)[a := s]
  {
  }

  lemma UnionDrop(x: SegMap, y: SegMap, a: nat)
    ensures a !in y ==> (x - {a}) + y == (x + y) - {a}
    ensures a !in x ==> x + (y - {a}) == (x + y) - {a}
  {
  }

  /** No two blocks have a segment at the same address. */
  ghost predicate Apart2(ss: seq<SegMap>) {
    forall i: nat, j: nat {:trigger ViewApart(ss[i], ss[j])} | i < |ss| && j < |ss| && i != j ::
      ViewApart(ss[i], ss[j])
  }

  ghost predicate ViewApart(m: SegMap, m': SegMap) {
    forall a | a in Live(m) :: a !in Live(m')
  }

  lemma OthersApart(ss: seq<SegMap>, i: nat, a: nat)
    requires Apart2(ss) && i < |ss| && a in Live(ss[i])
    ensures forall j: nat | j < |ss| && j != i :: a !in Live(ss[j])
  {
    forall j: nat | j < |ss| && j != i ensures a !in Live(ss[j]) {
      assert ViewApart(ss[i], ss[j]);
    }
  }

  lemma {:induction false} LiveAllHas(ss: seq<SegMap>, a: nat)
    ensures a in LiveAll(ss) <==> exists i :: 0 <= i < |ss| && a in Live(ss[i])
  {
    if ss != [] {
      LiveAllHas(ss[1..], a);
      assert forall i | 1 <= i < |ss| :: ss[i] == ss[1..][i - 1];
      assert forall i | 0 <= i < |ss| - 1 :: ss[1..][i] == ss[i + 1];
    }
  }

  /** An address that only one block uses. */
  lemma {:induction false} LiveAllOnly(ss: seq<SegMap>, i: nat, a: nat)
    requires i < |ss|
    requires forall j | 0 <= j < |ss| && j != i :: a !in Live(ss[j])
    ensures a in LiveAll(ss) <==> a in Live(ss[i])
    ensures a in Live(ss[i]) ==> LiveAll(ss)[a] == ss[i][a]
  {
    var rest := ss[1..];
    assert forall k | 0 <= k < |rest| :: rest[k] == ss[k + 1];
    LiveAllHas(rest, a);
    if i > 0 {
      LiveAllOnly(rest, i - 1, a);
    }
  }

  lemma {:induction false} LiveAllSet(ss: seq<SegMap>, i: nat, m: SegMap, a: nat, s: Seg)
    requires i < |ss| && Live(m) == Live(ss[i])[a := s]
    requires forall j | 0 <= j < |ss| && j != i :: a !in Live(ss[j])
    ensures LiveAll(ss[i := m]) == LiveAll(ss)[a := s]
  {
    var rest := ss[1..];
    assert forall k | 0 <= k < |rest| :: rest[k] == ss[k + 1];
    if i == 0 {
      assert ss[0 := m][1..] == rest;
      LiveAllHas(rest, a);
      UnionSet(Live(ss[0]), LiveAll(rest), a, s);
    } else {
      assert ss[i := m][1..] == rest[i - 1 := m];
      UnionSet(Live(ss[0]), LiveAll(rest), a, s);
      LiveAllSet(rest, i - 1, m, a, s);
    }
  }

  lemma {:induction false} LiveAllDrop(ss: seq<SegMap>, i: nat, m: SegMap, a: nat)
    requires i < |ss| && Live(m) == Live(ss[i]) - {a}
    requires forall j | 0 <= j < |ss| && j != i :: a !in Live(ss[j])
    ensures LiveAll(ss[i := m]) == LiveAll(ss) - {a}
  {
    var rest := ss[1..];
    assert forall k | 0 <= k < |rest| :: rest[k] == ss[k + 1];
    if i == 0 {
      assert ss[0 := m][1..] == rest;
      LiveAllHas(rest, a);
      UnionDrop(Live(ss[0]), LiveAll(rest), a);
    } else {
      assert ss[i := m][1..] == rest[i - 1 := m];
      UnionDrop(Live(ss[0]), LiveAll(rest), a);
      LiveAllDrop(rest, i - 1, m, a);
    }
  }

  lemma {:induction false} LiveAllRemove(ss: seq<SegMap>, i: nat)
    requires i < |ss| && Live(ss[i]) == map[]
    ensures LiveAll(ss[..i] + ss[i + 1..]) == LiveAll(ss)
  {
    if i == 0 {
      assert ss[..0] + ss[1..] == ss[1..];
    } else {
      assert (ss[..i] + ss[i + 1..])[1..] == ss[1..][..i - 1] + ss[1..][i..];
      LiveAllRemove(ss[1..], i - 1);
    }
  }

  lemma {:induction false} LiveAllAppend(ss: seq<SegMap>, tt: seq<SegMap>)
    ensures LiveAll(ss + tt) == LiveAll(ss) + LiveAll(tt)
  {
    if ss == [] {
      assert ss + tt == tt;
    } else {
      assert (ss + tt)[1..] == ss[1..] + tt;
      LiveAllAppend(ss[1..], tt);
      UnionAssoc(Live(ss[0]), LiveAll(ss[1..]), LiveAll(tt));
    }
  }

  /** Sweeping the blocks one by one sweeps their union. */
  lemma SweptSplit(ss: seq<SegMap>)
    requires Apart2(ss) && ss != []
    ensures Swept(LiveAll(ss)) == Swept(Live(ss[0])) + Swept(LiveAll(ss[1..]))
  {
    forall a | a in Live(ss[0]) ensures a !in LiveAll(ss[1..]) {
      OthersApart(ss, 0, a);
      LiveAllHas(ss[1..], a);
      assert forall k | 0 <= k < |ss| - 1 :: ss[1..][k] == ss[k + 1];
    }
  }

  /** live is the union of the allocated segments, address by address. */
  ghost predicate IsUnion(live: SegMap, ss: seq<SegMap>) {
    forall a {:trigger UnionAt(live, ss, a)} :: UnionAt(live, ss, a)
  }

  ghost predicate UnionAt(live: SegMap, ss: seq<SegMap>, a: nat) {
    && (a in live <==> a in LiveAll(ss))
    && (a in live ==> live[a] == LiveAll(ss)[a])
  }

  lemma UnionIs(live: SegMap, ss: seq<SegMap>)
    ensures IsUnion(live, ss) <==> live == LiveAll(ss)
  {
    if IsUnion(live, ss) {
      forall a ensures (a in live <==> a in LiveAll(ss)) && (a in live ==> live[a] == LiveAll(ss)[a]) {
        assert UnionAt(live, ss, a);
      }
      assert live == LiveAll(ss);
    }
  }

  /** The counters nSeg, currUse and markCount are the sums over the blocks. */
  ghost predicate Counts(ss: seq<SegMap>, nSeg: nat, currUse: nat, markCount: nat) {
    forall q {:trigger CountOk(q, ss, nSeg, currUse, markCount)} :: CountOk(q, ss, nSeg, currUse, markCount)
  }

  ghost predicate CountOk(q: Measure, ss: seq<SegMap>, nSeg: nat, currUse: nat, markCount: nat) {
    Total(q, ss) == match q
                    case Segments => nSeg
                    case Size => currUse
                    case Marks => markCount
  }

  // ---- The counters after one segment is set or dropped in one block ----

  lemma CountsSet(ss: seq<SegMap>, nSeg: nat, currUse: nat, markCount: nat, k: nat, m: SegMap, a: nat, s: Seg)
    requires Counts(ss, nSeg, currUse, markCount)
    requires k < |ss| && Live(m) == Live(ss[k])[a := s]
    ensures a !in Live(ss[k]) ==>
              Counts(ss[k := m], nSeg + 1, currUse + s.len, markCount + if s.mark then 1 else 0)
    ensures a in Live(ss[k]) && s.len == ss[k][a].len ==>
              var marks := markCount + (if s.mark then 1 else 0) - (if ss[k][a].mark then 1 else 0);
              marks >= 0 && Counts(ss[k := m], nSeg, currUse, marks)
  {
    var had, t := a in Live(ss[k]), ss[k := m];
    CountUpdate(Live(ss[k]), a, s);
    BytesUpdate(Live(ss[k]), a, s);
    var n := nSeg + if had then 0 else 1;
    var u := currUse + s.len - if had then ss[k][a].len else 0;
    var marks := markCount + (if s.mark then 1 else 0) - (if had && ss[k][a].mark then 1 else 0);
    forall q ensures Total(q, t) == (match q case Segments => n case Size => u case Marks => marks) {
      assert CountOk(q, ss, nSeg, currUse, markCount);
      TotalUpdate(q, ss, k, m);
    }
    assert Total(Size, t) >= 0 && Total(Marks, t) >= 0;
    assert Counts(t, n, u, marks);
  }

  lemma CountsDrop(ss: seq<SegMap>, nSeg: nat, currUse: nat, markCount: nat, k: nat, m: SegMap, a: nat)
    requires Counts(ss, nSeg, currUse, markCount)
    requires k < |ss| && a in Live(ss[k]) && Live(m) == Live(ss[k]) - {a} && !ss[k][a].mark
    ensures nSeg > 0 && currUse >= ss[k][a].len
    ensures Counts(ss[k := m], nSeg - 1, currUse - ss[k][a].len, markCount)
  {
    var t, len := ss[k := m], ss[k][a].len;
    CountRemove(Live(ss[k]), a);
    BytesRemove(Live(ss[k]), a);
    forall q ensures Total(q, t) == (match q case Segments => nSeg - 1 case Size => currUse - len
                                             case Marks => markCount) {
      assert CountOk(q, ss, nSeg, currUse, markCount);
      TotalUpdate(q, ss, k, m);
    }
    assert Total(Segments, t) >= 0 && Total(Size, t) >= 0;
  }

  lemma NothingLive(q: Measure, m: SegMap)
    requires Live(m) == map[]
    ensures Amount(q, m) == 0
  {
    assert Marked(map[]) == {};
  }

  /** A block without allocated segments does not count. */
  lemma CountsRemove(ss: seq<SegMap>, nSeg: nat, currUse: nat, markCount: nat, k: nat)
    requires Counts(ss, nSeg, currUse, markCount)
    requires k < |ss| && Live(ss[k]) == map[]
    ensures Counts(ss[..k] + ss[k + 1..], nSeg, currUse, markCount)
  {
    var t := ss[..k] + ss[k + 1..];
    forall q ensures CountOk(q, t, nSeg, currUse, markCount) {
      assert CountOk(q, ss, nSeg, currUse, markCount);
      NothingLive(q, ss[k]);
      TotalRemove(q, ss, k);
    }
  }

  lemma CountsAppend(ss: seq<SegMap>, nSeg: nat, currUse: nat, markCount: nat, m: SegMap)
    requires Counts(ss, nSeg, currUse, markCount) && Live(m) == map[]
    ensures Counts(ss + [m], nSeg, currUse, markCount)
  {
    var t := ss + [m];
    forall q ensures CountOk(q, t, nSeg, currUse, markCount) {
      assert CountOk(q, ss, nSeg, currUse, markCount);
      NothingLive(q, m);
      TotalAppend(q, ss, m);
    }
  }

  lemma UnionAppend(live: SegMap, ss: seq<SegMap>, m: SegMap)
    requires Live(m) == map[] && IsUnion(live, ss)
    ensures IsUnion(live, ss + [m])
  {
    UnionIs(live, ss);
    LiveAllAppend(ss, [m]);
    assert LiveAll([m]) == Live(m) + LiveAll([m][1..]);
    UnionIs(live, ss + [m]);
  }

  // ---- Sweeping ----

  /** What a sweep of one block reports: bytes and segments released, marks cleared. */
  datatype Haul = Haul(freed: nat, released: nat, unmarked: nat)

  lemma SweptBytes(l: SegMap)
    ensures Bytes(Swept(l)) <= Bytes(l) && |Swept(l)| <= |l|
    decreases |l|
  {
    if l.Keys != {} {
      var a :| a in l;
      CountRemove(l, a);
      BytesRemove(l, a);
      SweptBytes(l - {a});
      SweptWithout(l, a);
      if a in Swept(l) {
        CountRemove(Swept(l), a);
        BytesRemove(Swept(l), a);
      }
    }
  }

  lemma SweptWithout(l: SegMap, a: nat)
    requires a in l
    ensures Swept(l - {a}) == if a in Swept(l) then Swept(l) - {a} else Swept(l)
    ensures a in Swept(l) ==> Swept(l)[a].len == l[a].len
  {
  }

  ghost function HaulOf(m: SegMap): Haul {
    SweptBytes(Live(m));
    Haul(Bytes(Live(m)) - Bytes(Swept(Live(m))), |Live(m)| - |Swept(Live(m))|, |Marked(Live(m))|)
  }

  /** No segment of m is allocated. */
  ghost predicate Vacant(m: SegMap) {
    forall a {:trigger VacantAt(m, a)} :: VacantAt(m, a)
  }

  ghost predicate VacantAt(m: SegMap, a: nat) {
    a !in Live(m)
  }

  lemma VacantIs(m: SegMap)
    ensures Vacant(m) <==> Live(m) == map[]
  {
    if Live(m) != map[] {
      var a :| a in Live(m);
      assert !VacantAt(m, a);
    }
  }

  /** What is said of one block after its sweep. */
  datatype Aspect = Segs | Report | Count | Bound

  /** _nAllocSeg after the sweep of a block that had segments m and the count n: it is lowered
      once, for a first segment released when none was free, and never again. */
  ghost function Recount(m: SegMap, n: nat): int {
    n - if FreeSet(m) == {} && HaulOf(m).released > 0 then 1 else 0
  }

  /** A block with segments m and the count n is swept to the segments m', the count n' and
      the cached bound max, with the haul h. */
  ghost predicate Done(m: SegMap, n: nat, m': SegMap, n': nat, max: nat, h: Haul) {
    forall q {:trigger DoneIn(q, m, n, m', n', max, h)} :: DoneIn(q, m, n, m', n', max, h)
  }

  ghost predicate DoneIn(q: Aspect, m: SegMap, n: nat, m': SegMap, n': nat, max: nat, h: Haul) {
    match q
    case Segs => Live(m') == Swept(Live(m))
    case Report => h == HaulOf(m)
    case Count => n' == Recount(m, n)
    case Bound => SweptBound(m, max)
  }

  lemma DoneFacts(m: SegMap, n: nat, m': SegMap, n': nat, max: nat, h: Haul)
    requires Done(m, n, m', n', max, h)
    ensures Live(m') == Swept(Live(m)) && h == HaulOf(m)
    ensures n' == Recount(m, n)
    ensures SweptBound(m, max)
  {
    assert DoneIn(Segs, m, n, m', n', max, h) && DoneIn(Report, m, n, m', n', max, h);
    assert DoneIn(Count, m, n, m', n', max, h) && DoneIn(Bound, m, n, m', n', max, h);
  }

  lemma CountsSweep(ss: seq<SegMap>, nSeg: nat, currUse: nat, markCount: nat, k: nat, m: SegMap,
                    h: Haul)
    requires Counts(ss, nSeg, currUse, markCount) && k < |ss|
    requires Live(m) == Swept(Live(ss[k])) && h == HaulOf(ss[k])
    ensures nSeg >= h.released && currUse >= h.freed && markCount >= h.unmarked
    ensures Counts(ss[k := m], nSeg - h.released, currUse - h.freed, markCount - h.unmarked)
  {
    var t := ss[k := m];
    assert Marked(Live(m)) == {};
    forall q ensures Total(q, t) == (match q case Segments => nSeg - h.released case Size => currUse - h.freed
                                             case Marks => markCount - h.unmarked) {
      assert CountOk(q, ss, nSeg, currUse, markCount);
      TotalUpdate(q, ss, k, m);
    }
    assert Total(Segments, t) >= 0 && Total(Size, t) >= 0 && Total(Marks, t) >= 0;
  }

  /** Where nothing is allocated, nothing is after one block lost segments. */
  lemma StillNothing(ss: seq<SegMap>, k: nat, m: SegMap)
    requires k < |ss| && Live(m).Keys <= Live(ss[k]).Keys
    ensures LiveAll(ss) == map[] ==> LiveAll(ss[k := m]) == map[]
  {
    if LiveAll(ss) == map[] {
      var t := ss[k := m];
      forall a | a in LiveAll(t) ensures false {
        LiveAllHas(ss, a);
        LiveAllHas(t, a);
      }
    }
  }

  /** When no marks are counted, nothing is marked. */
  lemma NoMarks(ss: seq<SegMap>, live: SegMap, nSeg: nat, currUse: nat)
    requires Counts(ss, nSeg, currUse, 0) && IsUnion(live, ss) && Apart2(ss)
    ensures Marked(live) == {}
  {
    assert CountOk(Marks, ss, nSeg, currUse, 0);
    TotalZero(Marks, ss);
    UnionIs(live, ss);
    forall a | a in live ensures !live[a].mark {
      LiveAllHas(ss, a);
      var i: nat :| i < |ss| && a in Live(ss[i]);
      OthersApart(ss, i, a);
      LiveAllOnly(ss, i, a);
      assert Amount(Marks, ss[i]) == 0;
      assert a !in Marked(Live(ss[i]));
    }
  }

  /** The bytes that a sweep collects in the blocks ss. */
  ghost function Collected(ss: seq<SegMap>): nat {
    if ss == [] then 0 else HaulOf(ss[0]).freed + Collected(ss[1..])
  }

  /** What a sweep keeps account of. */
  datatype Account = Prefix | Survivors | Gain | Marking

  /** A sweep that began with the blocks ss has dealt with those from p on; the blocks are now
      ss'. It has collected nFree bytes, and marks segments are still marked. */
  ghost predicate Progress(ss: seq<SegMap>, ss': seq<SegMap>, p: nat, nFree: nat, marks: nat) {
    && p <= |ss| && p <= |ss'|
    && forall q {:trigger ProgressIn(q, ss, ss', p, nFree, marks)} :: ProgressIn(q, ss, ss', p, nFree, marks)
  }

  ghost predicate ProgressIn(q: Account, ss: seq<SegMap>, ss': seq<SegMap>, p: nat, nFree: nat, marks: nat)
    requires p <= |ss| && p <= |ss'|
  {
    match q
    case Prefix => ss'[..p] == ss[..p]
    case Survivors => LiveAll(ss'[p..]) == Swept(LiveAll(ss[p..]))
    case Gain => nFree == Collected(ss[p..])
    case Marking => marks == Total(Marks, ss[..p])
  }

  lemma ProgressFacts(ss: seq<SegMap>, ss': seq<SegMap>, p: nat, nFree: nat, marks: nat)
    requires Progress(ss, ss', p, nFree, marks)
    ensures ss'[..p] == ss[..p] && LiveAll(ss'[p..]) == Swept(LiveAll(ss[p..]))
    ensures nFree == Collected(ss[p..]) && marks == Total(Marks, ss[..p])
  {
    assert ProgressIn(Prefix, ss, ss', p, nFree, marks) && ProgressIn(Survivors, ss, ss', p, nFree, marks);
    assert ProgressIn(Gain, ss, ss', p, nFree, marks) && ProgressIn(Marking, ss, ss', p, nFree, marks);
  }

  lemma ProgressStart(ss: seq<SegMap>, nSeg: nat, currUse: nat, markCount: nat)
    requires Counts(ss, nSeg, currUse, markCount)
    ensures Progress(ss, ss, |ss|, 0, markCount)
  {
    assert CountOk(Marks, ss, nSeg, currUse, markCount);
    assert ss[..|ss|] == ss && ss[|ss|..] == [];
  }

  lemma ApartFrom(ss: seq<SegMap>, p: nat)
    requires Apart2(ss) && p <= |ss|
    ensures Apart2(ss[p..])
  {
    var t := ss[p..];
    forall i: nat, j: nat | i < |t| && j < |t| && i != j ensures ViewApart(t[i], t[j]) {
      assert t[i] == ss[p + i] && t[j] == ss[p + j];
      assert ViewApart(ss[p + i], ss[p + j]);
    }
  }

  /** The blocks from p on are swept once the p-th is, those behind it having been swept. */
  lemma SweptMore(s: SegMap, rest: seq<SegMap>, m: SegMap, rest': seq<SegMap>)
    requires Apart2([s] + rest) && Live(m) == Swept(Live(s))
    requires LiveAll(rest') == Swept(LiveAll(rest))
    ensures LiveAll([m] + rest') == Swept(LiveAll([s] + rest))
    ensures Collected([s] + rest) == HaulOf(s).freed + Collected(rest)
  {
    assert ([s] + rest)[1..] == rest && ([m] + rest')[1..] == rest';
    SweptSplit([s] + rest);
  }

  lemma CutAt<T>(s: seq<T>, s': seq<T>, p: nat, m: T)
    requires p < |s| && p < |s'| && s'[..p + 1] == s[..p + 1]
    ensures s'[p] == s[p] && s'[p := m][..p] == s[..p] && s'[p := m][p..] == [m] + s'[p + 1..]
    ensures s[p..] == [s[p]] + s[p + 1..] && s[..p + 1] == s[..p] + [s[p]]
  {
    assert s'[p] == s'[..p + 1][p] == s[p];
    assert s'[p := m][..p] == s'[..p + 1][..p] == s[..p];
  }

  /** One more block is swept. */
  lemma ProgressStep(ss: seq<SegMap>, ss': seq<SegMap>, p: nat, nFree: nat, marks: nat,
                     n: nat, m: SegMap, n': nat, max: nat, h: Haul)
    requires Progress(ss, ss', p + 1, nFree, marks) && Apart2(ss)
    requires Done(ss'[p], n, m, n', max, h) && marks >= h.unmarked
    ensures Progress(ss, ss'[p := m], p, nFree + h.freed, marks - h.unmarked)
  {
    hide Swept, LiveAll, Bytes, SweptBound;
    ProgressFacts(ss, ss', p + 1, nFree, marks);
    DoneFacts(ss'[p], n, m, n', max, h);
    CutAt(ss, ss', p, m);
    ApartFrom(ss, p);
    SweptMore(ss[p], ss[p + 1..], m, ss'[p + 1..]);
    TotalAppend(Marks, ss[..p], ss[p]);
  }

  /** An empty block among the swept ones leaves. */
  lemma ProgressDrop(ss: seq<SegMap>, ss': seq<SegMap>, p: nat, nFree: nat, marks: nat)
    requires Progress(ss, ss', p, nFree, marks) && p < |ss'| && Vacant(ss'[p])
    ensures Progress(ss, ss'[..p] + ss'[p + 1..], p, nFree, marks)
  {
    ProgressFacts(ss, ss', p, nFree, marks);
    VacantIs(ss'[p]);
    var t := ss'[..p] + ss'[p + 1..];
    assert t[..p] == ss'[..p] && t[p..] == ss'[p + 1..];
    assert ss'[p..] == [ss'[p]] + ss'[p + 1..];
    UnionEmpty(LiveAll(ss'[p + 1..]));
  }

  lemma UnionEmpty(x: SegMap)
    ensures map[] + x == x
  {
  }

  lemma ProgressEnd(ss: seq<SegMap>, ss': seq<SegMap>, p: nat, nFree: nat, marks: nat, live: SegMap)
    requires Progress(ss, ss', p, nFree, marks) && IsUnion(live, ss')
    ensures live == LiveAll(ss[..p]) + Swept(LiveAll(ss[p..]))
  {
    ProgressFacts(ss, ss', p, nFree, marks);
    UnionIs(live, ss');
    LiveAllAppend(ss'[..p], ss'[p..]);
    assert ss' == ss'[..p] + ss'[p..];
  }

  /** After a sweep down to block p, a segment of a visited block is live only if it survived. */
  lemma SweptSurvivor(ss: seq<SegMap>, p: nat, i: nat, live: SegMap, a: nat)
    requires p <= i < |ss| && Apart2(ss) && live == LiveAll(ss[..p]) + Swept(LiveAll(ss[p..]))
    requires a in Live(ss[i])
    ensures a in live <==> a in Swept(Live(ss[i]))
  {
    var t := ss[p..];
    OthersApart(ss, i, a);
    assert forall j | 0 <= j < |t| :: t[j] == ss[p + j];
    assert forall j | 0 <= j < p :: ss[..p][j] == ss[j];
    LiveAllHas(ss[..p], a);
    LiveAllOnly(t, i - p, a);
  }
}
