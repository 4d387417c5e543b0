/** The object store: a table of clusters, each a table segment of object pointers, from which
    objects are allotted at the lowest free place, and the iterator over the objects. */
module ObjStores {
  const NULL_OID := 0
  const MAX_OBJS_PER_SEG := 16384   // the tsi field has 14 bits
  const MAX_CLUSTERS := 65535       // the iterator counts clusters in 16 bits

  // ---- Object ids ----

  /** The id of the object at index tsi of the table segment of cluster ci. */
  function Oid(ci: nat, tsi: nat): (oid: nat)
    requires ci <= MAX_CLUSTERS && tsi < MAX_OBJS_PER_SEG
    ensures oid != NULL_OID
  {
    ci * 65536 + tsi * 4 + 1
  }

  function Ci(oid: nat): nat {
    oid / 65536 % 65536
  }

  function Tsi(oid: nat): nat {
    oid / 4 % 16384
  }

  lemma OidUnpacks(ci: nat, tsi: nat)
    requires ci <= MAX_CLUSTERS && tsi < MAX_OBJS_PER_SEG
    ensures Ci(Oid(ci, tsi)) == ci && Tsi(Oid(ci, tsi)) == tsi
    ensures Oid(ci, tsi) % 4 == 1 && Oid(ci, tsi) / 0x1_0000 == ci && Oid(ci, tsi) / 4 % 0x4000 == tsi
  {
    assert Oid(ci, tsi) / 65536 == ci;
    assert Oid(ci, tsi) / 4 == ci * 16384 + tsi;
  }

  /** The id is made of the bits that the source shifts together. */
  lemma OidBits(ci: bv16, tsi: bv14)
    ensures Oid(ci as nat, tsi as nat) == ((ci as bv32 << 16) | (tsi as bv32 << 2) | 1) as nat
  {
  }

  /** A 32-bit word of these fields is this number, and masking and shifting gives the fields back. */
  lemma FieldBits(ci: bv16, tsi: bv14, r: bv2)
    ensures var w := (ci as bv32 << 16) | (tsi as bv32 << 2) | r as bv32;
            && w as nat == (ci as nat) * 0x1_0000 + (tsi as nat) * 4 + r as nat
            && ((w & 0xFFFF_0000) >> 16) as nat == ci as nat && ((w & 0xFFFC) >> 2) as nat == tsi as nat
  {
  }

  /** So the fields of any number are those that the source masks and shifts out of it. */
  lemma FieldsOf(ci: nat, tsi: nat, r: nat)
    requires ci < 0x1_0000 && tsi < 0x4000 && r < 4
    ensures Ci(ci * 0x1_0000 + tsi * 4 + r) == ci && Tsi(ci * 0x1_0000 + tsi * 4 + r) == tsi
  {
    var w := ci * 0x1_0000 + tsi * 4 + r;
    assert w / 0x1_0000 == ci;
    assert w / 4 == ci * 0x4000 + tsi;
  }

  // ---- The table on values ----

  /** The object pointers of each cluster; 0 where there is none. */
  type View = seq<seq<nat>>

  ghost predicate FreeAt(v: View, ci: nat, tsi: nat) {
    ci < |v| && tsi < |v[ci]| && v[ci][tsi] == 0
  }

  ghost predicate LiveAt(v: View, ci: nat, tsi: nat) {
    ci < |v| && tsi < |v[ci]| && v[ci][tsi] != 0
  }

  /** A row of n free slots. */
  ghost function FreeRow(n: nat): (z: seq<nat>)
    ensures |z| == n && forall i | 0 <= i < n :: z[i] == 0
  {
    seq(n, i => 0)
  }

  /** The row with x at index tsi; and the table with that row. */
  ghost function Row(v: View, ci: nat, tsi: nat, x: nat): seq<nat>
    requires ci < |v| && tsi < |v[ci]|
  {
    v[ci][tsi := x]
  }

  ghost function Put(v: View, ci: nat, tsi: nat, x: nat): View
    requires ci < |v| && tsi < |v[ci]|
  {
    v[ci := Row(v, ci, tsi, x)]
  }

  /** No place before the least free one is free. */
  lemma NoneBefore(v: View, ci: nat, tsi: nat)
    requires LeastFree(v, ci, tsi)
    ensures forall t | 0 <= t < tsi :: v[ci][t] != 0
    ensures forall c, t | 0 <= c < ci && 0 <= t < |v[c]| :: v[c][t] != 0
  {
    forall t | 0 <= t < tsi ensures v[ci][t] != 0 {
      assert !FreeAt(v, ci, t);
    }
    forall c, t | 0 <= c < ci && 0 <= t < |v[c]| ensures v[c][t] != 0 {
      assert !FreeAt(v, c, t);
    }
  }

  /** The first free place of all. */
  ghost predicate LeastFree(v: View, ci: nat, tsi: nat) {
    && FreeAt(v, ci, tsi)
    && (forall c: nat, t: nat {:trigger FreeAt(v, c, t)} | FreeAt(v, c, t) :: ci < c || (ci == c && tsi <= t))
  }

  ghost function Zeros(s: seq<nat>): nat {
    if s == [] then 0 else (if s[0] == 0 then 1 else 0) + Zeros(s[1..])
  }

  lemma {:induction false} ZerosUpdate(s: seq<nat>, i: nat, x: nat)
    requires i < |s|
    ensures Zeros(s[i := x]) + (if s[i] == 0 then 1 else 0) == Zeros(s) + (if x == 0 then 1 else 0)
  {
    if i == 0 {
      assert s[0 := x][1..] == s[1..];
    } else {
      assert s[i := x][1..] == s[1..][i - 1 := x];
      ZerosUpdate(s[1..], i - 1, x);
    }
  }

  lemma {:induction false} ZerosSome(s: seq<nat>)
    ensures Zeros(s) == 0 <==> forall i | 0 <= i < |s| :: s[i] != 0
    ensures Zeros(s) <= |s|
    ensures Zeros(s) == |s| <==> forall i | 0 <= i < |s| :: s[i] == 0
  {
    if s != [] {
      ZerosSome(s[1..]);
      assert forall i | 1 <= i < |s| :: s[i] == s[1..][i - 1];
      assert forall i | 0 <= i < |s| - 1 :: s[1..][i] == s[i + 1];
    }
  }

  /** min is the index of the first 0 of s. */
  ghost predicate FirstZero(s: seq<nat>, min: int) {
    0 <= min < |s| && s[min] == 0 && forall i | 0 <= i < min :: s[i] != 0
  }

  /** The number of objects. */
  ghost function Objects(v: View): nat {
    if v == [] then 0
    else
      ZerosSome(v[0]); |v[0]| - Zeros(v[0]) + Objects(v[1..])
  }

  lemma {:induction false} ObjectsUpdate(v: View, ci: nat, s: seq<nat>)
    requires ci < |v| && |s| == |v[ci]|
    ensures Objects(v[ci := s]) + Zeros(s) == Objects(v) + Zeros(v[ci])
  {
    ZerosSome(s);
    if ci == 0 {
      assert v[0 := s][1..] == v[1..];
    } else {
      assert v[ci := s][1..] == v[1..][ci - 1 := s];
      ObjectsUpdate(v[1..], ci - 1, s);
    }
  }

  lemma {:induction false} ObjectsAppend(v: View, s: seq<nat>)
    ensures Zeros(s) <= |s| && Objects(v + [s]) == Objects(v) + |s| - Zeros(s)
  {
    ZerosSome(s);
    if v == [] {
      assert v + [s] == [s] && [s][1..] == [];
    } else {
      assert (v + [s])[1..] == v[1..] + [s];
      ObjectsAppend(v[1..], s);
    }
  }

  /** A free place is taken by an object. */
  lemma ObjectsTaken(v: View, ci: nat, tsi: nat, ptr: nat)
    requires FreeAt(v, ci, tsi) && ptr != 0
    ensures Objects(Put(v, ci, tsi, ptr)) == Objects(v) + 1
  {
    ZerosUpdate(v[ci], tsi, ptr);
    ObjectsUpdate(v, ci, Row(v, ci, tsi, ptr));
  }

  /** A new row has one object in its first slot. */
  lemma ObjectsNewRow(v: View, z: seq<nat>, ptr: nat)
    requires z != [] && ptr != 0 && forall i | 0 <= i < |z| :: z[i] == 0
    ensures Objects(v + [z[0 := ptr]]) == Objects(v) + 1
  {
    ZerosSome(z);
    ZerosUpdate(z, 0, ptr);
    ObjectsAppend(v, z[0 := ptr]);
  }

  // ---- The enumeration of the objects ----

  /** The places in use from (ci, tsi) on, in ascending order. */
  ghost function LiveFrom(v: View, ci: nat, tsi: nat): seq<(nat, nat)>
    decreases |v| - ci, (if ci < |v| then |v[ci]| else 0) - tsi
  {
    if ci >= |v| then []
    else if tsi >= |v[ci]| then LiveFrom(v, ci + 1, 0)
    else (if v[ci][tsi] != 0 then [(ci, tsi)] else []) + LiveFrom(v, ci, tsi + 1)
  }

  ghost predicate Precedes(p: (nat, nat), q: (nat, nat)) {
    p.0 < q.0 || (p.0 == q.0 && p.1 < q.1)
  }

  /** The place p is in use and does not come before (ci, tsi). */
  ghost predicate LiveSince(v: View, ci: nat, tsi: nat, p: (nat, nat)) {
    LiveAt(v, p.0, p.1) && (ci < p.0 || (ci == p.0 && tsi <= p.1))
  }

  /** It lists exactly the places in use from there on. */
  lemma {:induction false} LiveFromHas(v: View, ci: nat, tsi: nat, p: (nat, nat))
    ensures p in LiveFrom(v, ci, tsi) <==> LiveSince(v, ci, tsi, p)
    decreases |v| - ci, (if ci < |v| then |v[ci]| else 0) - tsi
  {
    hide LiveSince;
    LiveSinceEnd(v, ci, tsi, p);
    if ci < |v| {
      if tsi >= |v[ci]| {
        LiveFromHas(v, ci + 1, 0, p);
      } else {
        LiveFromHas(v, ci, tsi + 1, p);
        HeadOrRest(v, ci, tsi, p, LiveFrom(v, ci, tsi + 1));
      }
    }
  }

  /** Behind the last cluster there is nothing, and behind a row comes the next one. */
  lemma LiveSinceEnd(v: View, ci: nat, tsi: nat, p: (nat, nat))
    ensures ci >= |v| ==> !LiveSince(v, ci, tsi, p)
    ensures ci < |v| && tsi >= |v[ci]| ==> (LiveSince(v, ci, tsi, p) <==> LiveSince(v, ci + 1, 0, p))
  {
  }

  lemma HeadOrRest(v: View, ci: nat, tsi: nat, p: (nat, nat), rest: seq<(nat, nat)>)
    requires ci < |v| && tsi < |v[ci]|
    requires p in rest <==> LiveSince(v, ci, tsi + 1, p)
    ensures p in (if v[ci][tsi] != 0 then [(ci, tsi)] else []) + rest <==> LiveSince(v, ci, tsi, p)
  {
    if p.0 == ci && p.1 == tsi {
      assert p == (ci, tsi);
    }
  }

  ghost predicate Ascending(l: seq<(nat, nat)>) {
    forall i, j | 0 <= i < j < |l| :: Precedes(l[i], l[j])
  }

  /** It lists each place once, each before the next. */
  lemma {:induction false} LiveFromAscending(v: View, ci: nat, tsi: nat)
    ensures Ascending(LiveFrom(v, ci, tsi))
    decreases |v| - ci, (if ci < |v| then |v[ci]| else 0) - tsi
  {
    if ci < |v| {
      if tsi >= |v[ci]| {
        LiveFromAscending(v, ci + 1, 0);
      } else {
        LiveFromAscending(v, ci, tsi + 1);
        var rest := LiveFrom(v, ci, tsi + 1);
        forall i | 0 <= i < |rest| ensures Precedes((ci, tsi), rest[i]) {
          assert rest[i] in rest;
          LiveFromHas(v, ci, tsi + 1, rest[i]);
        }
      }
    }
  }

  lemma {:induction false} LiveFromCount(v: View, ci: nat, tsi: nat)
    requires ci < |v| ==> tsi <= |v[ci]|
    requires ci >= |v| ==> tsi == 0
    ensures ci < |v| ==> Zeros(v[ci][tsi..]) <= |v[ci]| - tsi
    ensures |LiveFrom(v, ci, tsi)| == if ci >= |v| then 0
                                      else |v[ci]| - tsi - Zeros(v[ci][tsi..]) + Objects(v[ci + 1..])
    decreases |v| - ci, (if ci < |v| then |v[ci]| else 0) - tsi
  {
    if ci < |v| {
      ZerosSome(v[ci][tsi..]);
      if tsi == |v[ci]| {
        assert v[ci][tsi..] == [];
        LiveFromCount(v, ci + 1, 0);
        if ci + 1 < |v| {
          assert v[ci + 1..][0] == v[ci + 1] && v[ci + 1..][1..] == v[ci + 2..];
          assert v[ci + 1][0..] == v[ci + 1];
        }
      } else {
        LiveFromCount(v, ci, tsi + 1);
        assert v[ci][tsi..][1..] == v[ci][tsi + 1..];
      }
    }
  }

  /** The enumeration from the start has as many members as there are objects. */
  lemma LiveCount(v: View)
    ensures |LiveFrom(v, 0, 0)| == Objects(v)
  {
    LiveFromCount(v, 0, 0);
    if v != [] {
      assert v[0][0..] == v[0];
    }
  }

  // ---- The store ----

  /** Cluster Storage Controller. */
  class Csc {
    var nFreeObj: nat        // _nFreeObj
    var minFreeIndex: int    // _minFreeIndex

    constructor (objsPerSeg: nat)
      ensures nFreeObj == objsPerSeg && minFreeIndex == 0
    {
      nFreeObj, minFreeIndex := objsPerSeg, 0;
    }
  }

  /** A cluster: its controller and its table segment. */
  datatype Cluster = Cluster(csc: Csc, tblSeg: array<nat>)

  class ObjStore {
    const objsPerSeg: nat          // _objsPerSeg
    var clustTbl: seq<Cluster>     // _clustTbl, _nClusters
    var minFreeIndex: int          // _minFreeIndex
    var nObj: nat                  // _nObj
    var maxNObj: nat               // _maxNObj
    ghost var view: View           // the object pointers

    ghost function Cscs(): set<object>
      reads `clustTbl
    {
      set c | c in clustTbl :: c.csc
    }

    ghost function Segs(): set<object>
      reads `clustTbl
    {
      set c | c in clustTbl :: c.tblSeg
    }

    /** The two clusters share nothing. */
    ghost predicate Apart(i: nat, j: nat)
      requires i < |clustTbl| && j < |clustTbl|
      reads `clustTbl
    {
      clustTbl[i].csc != clustTbl[j].csc && clustTbl[i].tblSeg != clustTbl[j].tblSeg
    }

    /** The k-th cluster: its counter is exact, and its index the least free one. Where no slot
        is free the index is negative, or 0 in a segment of one slot. */
    ghost predicate ClusterAt(k: nat)
      requires k < |clustTbl| == |view|
      reads `clustTbl, `view, Cscs(), Segs()
    {
      var c := clustTbl[k];
      && c.tblSeg[..] == view[k] && |view[k]| == objsPerSeg
      && c.csc.nFreeObj == Zeros(view[k])
      && (if Zeros(view[k]) > 0 then FirstZero(view[k], c.csc.minFreeIndex)
          else c.csc.minFreeIndex < 0 || (c.csc.minFreeIndex == 0 && objsPerSeg == 1))
    }

    /** The index of the store is that of the first cluster with a free slot. */
    ghost predicate MinOk(v: View, min: int) {
      if min < 0 then min == -1 && forall k | 0 <= k < |v| :: Zeros(v[k]) == 0
      else min < |v| && Zeros(v[min]) > 0 && forall k | 0 <= k < min :: Zeros(v[k]) == 0
    }

    ghost predicate ClustersOk()
      reads `clustTbl, `view, Cscs(), Segs()
    {
      && |clustTbl| == |view|
      && (forall k: nat {:trigger ClusterAt(k)} | k < |clustTbl| :: ClusterAt(k))
      && (forall i: nat, j: nat {:trigger Apart(i, j)} | i < j < |clustTbl| :: Apart(i, j))
    }

    /** What holds in every reachable state. */
    ghost predicate Valid()
      reads this, Cscs(), Segs()
    {
      && 0 < objsPerSeg <= MAX_OBJS_PER_SEG && |clustTbl| <= MAX_CLUSTERS
      && this !in Cscs() && this !in Segs() && ClustersOk() && MinOk(view, minFreeIndex)
      && nObj == Objects(view) && nObj <= maxNObj
    }

    constructor (objsPerSeg: nat)
      requires 0 < objsPerSeg <= MAX_OBJS_PER_SEG
      ensures Valid() && view == [] && nObj == maxNObj == 0 && this.objsPerSeg == objsPerSeg && clustTbl == []
    {
      this.objsPerSeg := objsPerSeg;
      clustTbl, view := [], [];
      minFreeIndex, nObj, maxNObj := -1, 0, 0;
    }

    /** Since the old state one cluster was added, behind the others. */
    twostate predicate GrownTable()
      reads `clustTbl
    {
      && |clustTbl| == |old(clustTbl)| + 1 && clustTbl[..|old(clustTbl)|] == old(clustTbl)
      && fresh(clustTbl[|old(clustTbl)|].csc) && fresh(clustTbl[|old(clustTbl)|].tblSeg)
    }

    /** ObjStore::resizeClusterTable, to one cluster more. */
    method AddCluster()
      requires ClustersOk() && objsPerSeg > 0
      modifies `clustTbl, `view
      ensures ClustersOk() && view == old(view) + [FreeRow(objsPerSeg)]
      ensures GrownTable()
    {
      var csc := new Csc(objsPerSeg);
      var tblSeg := new nat[objsPerSeg](i => 0);
      ghost var z := FreeRow(objsPerSeg);
      ZerosSome(z);
      ghost var was := clustTbl;
      clustTbl := clustTbl + [Cluster(csc, tblSeg)];
      view := view + [z];
      forall k: nat | k < |clustTbl| ensures ClusterAt(k) {
        assert k < |was| ==> was[k] in was && old(ClusterAt(k));
      }
      forall i: nat, j: nat | i < j < |clustTbl| ensures Apart(i, j) {
        assert j < |was| ==> old(Apart(i, j));
        assert was[i] in was;
      }
    }

    /** The next free slot after min, which is not free any more. */
    method ScanSlots(tblSeg: array<nat>, min: int, ghost s: seq<nat>, ghost x: nat) returns (next: int)
      requires 0 <= min < tblSeg.Length && FirstZero(tblSeg[..], min) && Zeros(tblSeg[..]) > 1
      requires x != 0 && s == tblSeg[..][min := x]
      ensures FirstZero(s, next)
    {
      ZerosUpdate(tblSeg[..], min, x);
      ZerosSome(s);
      next := min + 1;
      while tblSeg[next] != 0
        invariant min < next <= tblSeg.Length
        invariant forall i | min < i < next :: tblSeg[i] != 0
        invariant next < tblSeg.Length
        decreases tblSeg.Length - next
      {
        next := next + 1;
      }
    }

    /** The next cluster after min with a free slot, or -1. */
    method ScanClusters(min: int) returns (next: int)
      requires 0 <= min < |clustTbl| == |view|
      requires forall k | min < k < |clustTbl| :: clustTbl[k].csc.nFreeObj == Zeros(view[k])
      requires forall k | 0 <= k < min :: Zeros(view[k]) == 0
      ensures next == -1 || min < next < |view|
      ensures forall s: seq<nat> {:trigger view[min := s]} :: Zeros(s) == 0 ==> MinOk(view[min := s], next)
    {
      next := min;
      while true
        invariant min <= next < |view|
        invariant forall k | min < k <= next :: Zeros(view[k]) == 0
        decreases |view| - next
      {
        next := next + 1;
        if next >= |clustTbl| {
          next := -1;
          break;
        }
        if clustTbl[next].csc.nFreeObj != 0 {
          break;
        }
      }
    }

    /** Where the store says that the first free place is. */
    lemma Least()
      requires ClustersOk() && MinOk(view, minFreeIndex) && minFreeIndex >= 0
      ensures var c := clustTbl[minFreeIndex].csc;
              0 <= c.minFreeIndex < |view[minFreeIndex]| && LeastFree(view, minFreeIndex, c.minFreeIndex)
    {
      assert ClusterAt(minFreeIndex);
      forall c: nat, t: nat | FreeAt(view, c, t)
        ensures minFreeIndex < c || (minFreeIndex == c && clustTbl[minFreeIndex].csc.minFreeIndex <= t)
      {
        ZerosSome(view[c]);
      }
    }

    lemma NoneFree()
      requires MinOk(view, minFreeIndex) && minFreeIndex < 0
      ensures forall c: nat, t: nat {:trigger FreeAt(view, c, t)} :: !FreeAt(view, c, t)
    {
      forall c: nat, t: nat ensures !FreeAt(view, c, t) {
        if c < |view| { ZerosSome(view[c]); }
      }
    }

    /** The slot tsi of cluster ci, free so far, is filled; counter and index of the cluster
        have been set already. */
    method Fill(ci: nat, tsi: nat, ptr: nat, ghost was: View)
      requires ci < |clustTbl| == |view| && tsi < |view[ci]| && view == was && ptr != 0
      requires forall i: nat, j: nat {:trigger Apart(i, j)} | i < j < |clustTbl| :: Apart(i, j)
      requires forall k: nat {:trigger ClusterAt(k)} | k < |clustTbl| && k != ci :: ClusterAt(k)
      requires clustTbl[ci].tblSeg[..] == view[ci] && |view[ci]| == objsPerSeg && view[ci][tsi] == 0
      requires var c := clustTbl[ci].csc; var s := Row(view, ci, tsi, ptr);
               && c.nFreeObj == Zeros(s)
               && (if Zeros(s) > 0 then FirstZero(s, c.minFreeIndex)
                   else c.minFreeIndex < 0 || (c.minFreeIndex == 0 && objsPerSeg == 1))
      modifies `view, clustTbl[ci].tblSeg
      ensures ClustersOk() && view == Put(was, ci, tsi, ptr)
    {
      var seg := clustTbl[ci].tblSeg;
      seg[tsi] := ptr;
      view := Put(was, ci, tsi, ptr);
      assert seg[..] == Row(was, ci, tsi, ptr);
      forall k: nat | k < |clustTbl| ensures ClusterAt(k) {
        if k != ci {
          assert old(ClusterAt(k));
          assert k < ci ==> Apart(k, ci);
          assert ci < k ==> Apart(ci, k);
        }
      }
    }

    /** A place in an existing cluster is taken. */
    method TakeOld(ptr: nat) returns (ci: nat, tsi: nat)
      requires Valid() && ptr != 0 && minFreeIndex >= 0
      modifies `minFreeIndex, `view, Cscs(), Segs()
      ensures ClustersOk() && MinOk(view, minFreeIndex)
      ensures LeastFree(old(view), ci, tsi) && view == Put(old(view), ci, tsi, ptr)
    {
      Least();
      ci := minFreeIndex;
      var c := clustTbl[ci];
      assert c in clustTbl && ClusterAt(ci);
      tsi := c.csc.minFreeIndex;
      ghost var s := Row(view, ci, tsi, ptr);
      ZerosUpdate(view[ci], tsi, ptr);
      ZerosSome(view[ci]);
      c.csc.nFreeObj := c.csc.nFreeObj - 1;
      if c.csc.nFreeObj > 0 {
        c.csc.minFreeIndex := ScanSlots(c.tblSeg, tsi, s, ptr);
      } else {
        c.csc.minFreeIndex := -1;
        forall k | ci < k < |clustTbl| ensures clustTbl[k].csc.nFreeObj == Zeros(view[k]) {
          assert old(ClusterAt(k)) && Apart(ci, k);
        }
        minFreeIndex := ScanClusters(ci);
      }
      ghost var was := view;
      forall k: nat | k < |clustTbl| && k != ci ensures ClusterAt(k) {
        assert old(ClusterAt(k));
        assert k < ci ==> Apart(k, ci);
        assert ci < k ==> Apart(ci, k);
      }
      Fill(ci, tsi, ptr, was);
    }

    /** A cluster is added for the object. */
    method TakeNew(ptr: nat) returns (ci: nat)
      requires Valid() && ptr != 0 && minFreeIndex < 0
      modifies `clustTbl, `minFreeIndex, `view
      ensures ClustersOk() && MinOk(view, minFreeIndex)
      ensures GrownTable()
      ensures ci == |old(view)| && view == old(view) + [FreeRow(objsPerSeg)[0 := ptr]]
    {
      AddCluster();
      label L:
      ci := |clustTbl| - 1;
      var c := clustTbl[ci];
      assert c in clustTbl && ClusterAt(ci);
      ghost var was, s := view, Row(view, ci, 0, ptr);
      ZerosUpdate(view[ci], 0, ptr);
      ZerosSome(view[ci]);
      c.csc.nFreeObj := c.csc.nFreeObj - 1;
      if c.csc.nFreeObj > 0 {
        minFreeIndex := ci;
        c.csc.minFreeIndex := 1;
      }
      forall k: nat | k < |clustTbl| && k != ci ensures ClusterAt(k) {
        assert old@L(ClusterAt(k)) && Apart(k, ci);
      }
      Fill(ci, 0, ptr, was);
    }

    twostate lemma TableFresh()
      requires clustTbl == old(clustTbl) || GrownTable()
      ensures fresh(Cscs() - old(Cscs())) && fresh(Segs() - old(Segs()))
    {
      forall c | c in clustTbl ensures c in old(clustTbl) || (fresh(c.csc) && fresh(c.tblSeg)) {
        ghost var k :| 0 <= k < |clustTbl| && clustTbl[k] == c;
        assert k < |old(clustTbl)| ==> clustTbl[..|old(clustTbl)|][k] == c;
      }
    }

    /** ObjStore::alloc. ptr is what the storage allocator returned for the object. The object
        gets the least free place of all; where there is none, the first one of a new cluster. */
    method Alloc(ptr: nat) returns (oid: nat, ghost ci: nat, ghost tsi: nat)
      requires Valid() && ptr != 0
      requires minFreeIndex < 0 ==> |clustTbl| < MAX_CLUSTERS
      modifies this, Cscs(), Segs()
      ensures Valid() && ci < |view| <= MAX_CLUSTERS && tsi < objsPerSeg && oid == Oid(ci, tsi)
      ensures oid % 4 == 1 && oid / 0x1_0000 == ci && oid / 4 % 0x4000 == tsi
      ensures old(minFreeIndex) < 0 <==>
              forall c: nat, t: nat {:trigger FreeAt(old(view), c, t)} :: !FreeAt(old(view), c, t)
      ensures old(minFreeIndex) >= 0 ==> LeastFree(old(view), ci, tsi) && view == Put(old(view), ci, tsi, ptr)
      ensures old(minFreeIndex) >= 0 ==>
                && ci < |view| == |old(view)| && tsi < |old(view)[ci]| && view[ci] == old(view)[ci][tsi := ptr]
                && (forall c | 0 <= c < |view| && c != ci :: view[c] == old(view)[c])
                && old(view)[ci][tsi] == 0 && (forall t | 0 <= t < tsi :: old(view)[ci][t] != 0)
                && forall c, t | 0 <= c < ci && 0 <= t < |old(view)[c]| :: old(view)[c][t] != 0
      ensures old(minFreeIndex) < 0 ==>
                && ci == |old(view)| && tsi == 0
                && view == old(view) + [FreeRow(objsPerSeg)[0 := ptr]]
      ensures nObj == old(nObj) + 1 && maxNObj == if nObj > old(maxNObj) then nObj else old(maxNObj)
      ensures clustTbl == old(clustTbl) || GrownTable()
      ensures fresh(Cscs() - old(Cscs())) && fresh(Segs() - old(Segs()))
    {
      hide Objects, Zeros, GrownTable, FirstZero;
      var i, j;
      if minFreeIndex >= 0 {
        Least();
        i, j := TakeOld(ptr);
        ObjectsTaken(old(view), i, j, ptr);
      } else {
        NoneFree();
        i := TakeNew(ptr);
        j := 0;
        ObjectsNewRow(old(view), FreeRow(objsPerSeg), ptr);
      }
      assert ClusterAt(i);
      TableFresh();
      nObj := nObj + 1;
      if nObj > maxNObj {
        maxNObj := nObj;
      }
      ci, tsi := i, j;
      OidUnpacks(i, j);
      if old(minFreeIndex) >= 0 { NoneBefore(old(view), i, j); }
      oid := Oid(i, j);
    }

    /** A slot of the row of cluster ci is freed: what becomes of the first free one. */
    lemma FreedRow(ci: nat, tsi: nat, s: seq<nat>, min: int)
      requires ClustersOk() && LiveAt(view, ci, tsi)
      requires s == Row(view, ci, tsi, 0) && min == clustTbl[ci].csc.minFreeIndex
      ensures Zeros(s) == Zeros(view[ci]) + 1
      ensures FirstZero(s, if min < 0 || tsi < min then tsi else min)
      ensures Zeros(view[ci]) > 0 ==> min >= 0
    {
      assert ClusterAt(ci);
      ZerosUpdate(view[ci], tsi, 0);
      ZerosSome(view[ci]);
    }

    /** The slot is cleared in its cluster, whose counter and index follow. */
    method Vacate(ci: nat, tsi: nat)
      requires ClustersOk() && LiveAt(view, ci, tsi) && this !in Cscs() && this !in Segs()
      modifies `view, Cscs(), Segs()
      ensures ClustersOk() && view == Put(old(view), ci, tsi, 0)
    {
      var c := clustTbl[ci];
      assert c in clustTbl && ClusterAt(ci);
      ghost var s := Row(view, ci, tsi, 0);
      FreedRow(ci, tsi, s, c.csc.minFreeIndex);
      c.csc.nFreeObj := c.csc.nFreeObj + 1;
      c.tblSeg[tsi] := 0;
      if c.csc.minFreeIndex < 0 || tsi < c.csc.minFreeIndex {
        c.csc.minFreeIndex := tsi;
      }
      view := Put(view, ci, tsi, 0);
      forall k: nat | k < |clustTbl| ensures ClusterAt(k) {
        assert old(ClusterAt(k));
        assert k < ci ==> Apart(k, ci);
        assert ci < k ==> Apart(ci, k);
      }
    }

    /** ObjStore::free, of an object that is there. */
    method Free(oid: nat)
      requires Valid() && LiveAt(view, Ci(oid), Tsi(oid))
      modifies this, Cscs(), Segs()
      ensures Valid() && view == Put(old(view), Ci(oid), Tsi(oid), 0)
      ensures var ci, tsi := oid / 0x1_0000 % 0x1_0000, oid / 4 % 0x4000;
              && ci < |view| == |old(view)| && tsi < |old(view)[ci]| && view[ci] == old(view)[ci][tsi := 0]
              && forall c | 0 <= c < |view| && c != ci :: view[c] == old(view)[c]
      ensures nObj == old(nObj) - 1 && maxNObj == old(maxNObj)
      ensures FreeAt(view, Ci(oid), Tsi(oid)) && minFreeIndex >= 0
      ensures clustTbl == old(clustTbl)
    {
      var ci, tsi := Ci(oid), Tsi(oid);
      ghost var s := Row(view, ci, tsi, 0);
      FreedRow(ci, tsi, s, clustTbl[ci].csc.minFreeIndex);
      ObjectsUpdate(view, ci, s);
      Vacate(ci, tsi);
      if minFreeIndex < 0 || ci < minFreeIndex {
        minFreeIndex := ci;
      }
      nObj := nObj - 1;
    }

    /** ObjStore::lock: the object's pointer, NULL for the null id. */
    method Lock(oid: nat) returns (ptr: nat)
      requires Valid() && (oid != NULL_OID ==> Ci(oid) < |view| && Tsi(oid) < |view[Ci(oid)]|)
      ensures ptr == if oid != NULL_OID then view[Ci(oid)][Tsi(oid)] else 0
      ensures oid != 0 ==>
                var ci, tsi := oid / 0x1_0000 % 0x1_0000, oid / 4 % 0x4000;
                ci < |view| && tsi < |view[ci]| && ptr == view[ci][tsi]
    {
      if oid == NULL_OID {
        return 0;
      }
      assert ClusterAt(Ci(oid));
      ptr := clustTbl[Ci(oid)].tblSeg[Tsi(oid)];
      assert ptr == clustTbl[Ci(oid)].tblSeg[..][Tsi(oid)];
    }
  }

  /** oid is the id of the place p. */
  ghost predicate OidOf(oid: nat, p: (nat, nat)) {
    p.0 <= MAX_CLUSTERS && p.1 < MAX_OBJS_PER_SEG && oid == Oid(p.0, p.1)
  }

  /** ObjStore::Iterator. */
  class Iterator {
    const store: ObjStore   // _objStore
    var ci: nat             // _ci
    var tsi: nat            // _tsi
    var count: nat          // _count

    /** The store is as it was: what has been counted and what is to come are its objects. */
    ghost predicate Valid()
      reads this, store, store.Cscs(), store.Segs()
    {
      && this !in store.Cscs() && this !in store.Segs()
      && store.Valid() && count + |Remaining()| == store.nObj
    }

    /** The places that have not been visited. */
    ghost function Remaining(): seq<(nat, nat)>
      reads `ci, `tsi, store`view
    {
      LiveFrom(store.view, ci, tsi)
    }

    constructor (store: ObjStore)
      requires store.Valid()
      ensures Valid() && this.store == store && Remaining() == LiveFrom(store.view, 0, 0)
    {
      this.store := store;
      ci, tsi, count := 0, 0, 0;
      new;
      LiveCount(store.view);
    }

    method EndOfSequence() returns (end: bool)
      requires Valid()
      ensures end <==> Remaining() == []
    {
      end := count >= store.nObj;
    }

    /** The next object's id, and the null id after the last one. */
    method Next() returns (oid: nat)
      requires Valid()
      modifies `ci, `tsi, `count
      ensures Valid()
      ensures old(Remaining()) == [] ==> oid == NULL_OID && Remaining() == []
      ensures old(Remaining()) != [] ==>
                && OidOf(oid, old(Remaining())[0]) && Remaining() == old(Remaining())[1..]
                && oid % 4 == 1 && (oid / 0x1_0000, oid / 4 % 0x4000) == old(Remaining())[0]
    {
      hide Oid;
      ghost var all := Remaining();
      while ci < |store.clustTbl|
        invariant Valid() && Remaining() == all && count == old(count)
        decreases |store.clustTbl| - ci
      {
        assert store.ClusterAt(ci);
        ghost var c := ci;
        var tblSeg := store.clustTbl[ci].tblSeg;
        while tsi < store.objsPerSeg
          invariant ci == c && Valid() && Remaining() == all && count == old(count)
          decreases store.objsPerSeg - tsi
        {
          var t := tsi;
          tsi := tsi + 1;
          assert tblSeg[..][t] == store.view[ci][t];
          if tblSeg[t] != 0 {
            count := count + 1;
            assert all == [(ci, t)] + Remaining();
            OidUnpacks(ci, t);
            return Oid(ci, t);
          }
          assert [] + Remaining() == Remaining();
        }
        ci := ci + 1;
        tsi := 0;
      }
      oid := NULL_OID;
    }
  }

  /** From a store left as it is, the iterator yields the id of every object once, by ascending
      place, and then says that it is at the end. */
  method Enumerate(store: ObjStore) returns (oids: seq<nat>)
    requires store.Valid()
    ensures |oids| == store.nObj == |LiveFrom(store.view, 0, 0)|
    ensures forall i | 0 <= i < |oids| :: OidOf(oids[i], LiveFrom(store.view, 0, 0)[i])
  {
    hide LiveFrom, Oid;
    var it := new Iterator(store);
    ghost var all := it.Remaining();
    oids := [];
    LiveCount(store.view);
    var end := it.EndOfSequence();
    while !end
      invariant it.Valid() && it.store == store && store.Valid() && store.view == old(store.view)
      invariant end <==> it.Remaining() == []
      invariant |oids| + |it.Remaining()| == |all| && it.Remaining() == all[|oids|..]
      invariant forall i | 0 <= i < |oids| :: OidOf(oids[i], all[i])
      decreases |it.Remaining()|
    {
      var oid := it.Next();
      oids := oids + [oid];
      end := it.EndOfSequence();
    }
  }

  /** Every object's id is yielded, and no other, and none twice. */
  lemma EnumerationExact(v: View, oids: seq<nat>)
    requires |v| <= MAX_CLUSTERS && forall k | 0 <= k < |v| :: |v[k]| <= MAX_OBJS_PER_SEG
    requires |oids| == |LiveFrom(v, 0, 0)|
    requires forall i | 0 <= i < |oids| :: OidOf(oids[i], LiveFrom(v, 0, 0)[i])
    ensures forall ci: nat, tsi: nat | ci <= MAX_CLUSTERS && tsi < MAX_OBJS_PER_SEG ::
              Oid(ci, tsi) in oids <==> LiveAt(v, ci, tsi)
    ensures forall i, j | 0 <= i < j < |oids| :: oids[i] < oids[j]
  {
    var l := LiveFrom(v, 0, 0);
    LiveFromAscending(v, 0, 0);
    forall ci: nat, tsi: nat | ci <= MAX_CLUSTERS && tsi < MAX_OBJS_PER_SEG
      ensures Oid(ci, tsi) in oids <==> LiveAt(v, ci, tsi)
    {
      LiveFromHas(v, 0, 0, (ci, tsi));
      if LiveAt(v, ci, tsi) {
        var i :| 0 <= i < |l| && l[i] == (ci, tsi);
        assert oids[i] == Oid(ci, tsi);
      }
      if Oid(ci, tsi) in oids {
        var i :| 0 <= i < |oids| && oids[i] == Oid(ci, tsi);
        OidUnpacks(ci, tsi);
        OidUnpacks(l[i].0, l[i].1);
        assert l[i] in l;
      }
    }
    forall i, j | 0 <= i < j < |oids| ensures oids[i] < oids[j] {
      assert Precedes(l[i], l[j]);
    }
  }
}
