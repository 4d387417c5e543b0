/** vector<T> over segArray<T>: an array that grows by whole segments, reached through a table
    of segments. New cells hold anything. */
module Vectors {

  // ---- The split of an index into segment and offset ----

  lemma MulMonotone(a: nat, b: nat, n: nat)
    requires a <= b
    ensures a * n <= b * n
  {
  }

  /** The segment that index i lies in: i / n. */
  ghost function Seg(i: nat, n: nat): nat
    requires n > 0
  {
    if i < n then 0 else 1 + Seg(i - n, n)
  }

  /** Where in its segment index i lies: i % n. */
  ghost function Off(i: nat, n: nat): (r: nat)
    requires n > 0
    ensures r < n
  {
    if i < n then i else Off(i - n, n)
  }

  /** Segment and offset make up the index. */
  lemma {:induction false} SplitSum(i: nat, n: nat)
    requires n > 0
    ensures i == Seg(i, n) * n + Off(i, n)
  {
    if i >= n {
      SplitSum(i - n, n);
      assert Seg(i, n) * n == Seg(i - n, n) * n + n;
    }
  }

  /** They are quotient and remainder. */
  lemma SplitIs(i: nat, n: nat)
    requires n > 0
    ensures Seg(i, n) == i / n && Off(i, n) == i % n
  {
    SplitSum(i, n);
    var q, r := Seg(i, n), Off(i, n);
    assert i == i / n * n + i % n;
    if i / n < q {
      MulMonotone(i / n + 1, q, n);
    } else if i / n > q {
      MulMonotone(q + 1, i / n, n);
    }
  }

  /** Every segment and offset belong to an index. */
  lemma {:induction false} SplitOnto(q: nat, r: nat, n: nat)
    requires r < n
    ensures Seg(q * n + r, n) == q && Off(q * n + r, n) == r
  {
    if q > 0 {
      assert q * n + r - n == (q - 1) * n + r;
      MulMonotone(1, q, n);
      SplitOnto(q - 1, r, n);
    }
  }

  /** Indices of whole segments lie in these. */
  lemma {:induction false} SplitInside(i: nat, segs: nat, n: nat)
    requires n > 0
    ensures i < segs * n <==> Seg(i, n) < segs
  {
    if i >= n && segs > 0 {
      assert segs * n == (segs - 1) * n + n;
      SplitInside(i - n, segs - 1, n);
    } else if segs > 0 {
      MulMonotone(1, segs, n);
    }
  }

  /** Different indices have different splits. */
  lemma SplitInjective(i: nat, j: nat, n: nat)
    requires n > 0 && Seg(i, n) == Seg(j, n) && Off(i, n) == Off(j, n)
    ensures i == j
  {
    SplitSum(i, n);
    SplitSum(j, n);
  }

  class Vector<T(0)> {
    const nPerSeg: nat               // _nPerSeg
    var upb: nat                     // _upb, cells there are
    var segTbl: array<array?<T>>     // _segTbl, the table of segments
    ghost var segs: seq<array<T>>    // the segments
    ghost var cells: seq<T>          // the contents

    ghost predicate Valid()
      reads this, segTbl, segs
    {
      && nPerSeg > 0 && upb == |segs| * nPerSeg && |cells| == upb
      && segTbl.Length == |segs| && segTbl[..] == segs
      && (forall k: nat {:trigger SegmentOk(k)} | k < |segs| :: SegmentOk(k))
      && (forall i: nat {:trigger CellOk(i)} | i < |cells| :: CellOk(i))
    }

    ghost predicate SegmentOk(k: nat)
      requires k < |segs|
      reads `segs, `segTbl
    {
      && segs[k].Length == nPerSeg && (segs[k] as object) != segTbl
      && forall j | 0 <= j < |segs| && j != k :: segs[j] != segs[k]
    }

    ghost predicate CellOk(i: nat)
      requires i < |cells| && nPerSeg > 0
      reads `segs, `cells, segs
    {
      && Seg(i, nPerSeg) < |segs| && Off(i, nPerSeg) < segs[Seg(i, nPerSeg)].Length
      && cells[i] == segs[Seg(i, nPerSeg)][Off(i, nPerSeg)]
    }

    /** The cell that index i stands for. */
    static ghost function Cell(ss: seq<array<T>>, n: nat, i: nat): T
      requires n > 0 && i < |ss| * n && forall k | 0 <= k < |ss| :: ss[k].Length == n
      reads ss
    {
      SplitInside(i, |ss|, n);
      ss[Seg(i, n)][Off(i, n)]
    }

    constructor (nPerSeg: nat)
      requires nPerSeg > 0
      ensures Valid() && cells == [] && this.nPerSeg == nPerSeg && fresh(segTbl) && segs == []
    {
      this.nPerSeg := nPerSeg;
      upb := 0;
      segs, cells := [], [];
      segTbl := new array?<T>[0];
    }

    /** vector::get. */
    method Get(i: nat) returns (x: T)
      requires Valid() && i < |cells|
      ensures x == cells[i]
    {
      SplitIs(i, nPerSeg);
      assert CellOk(i);
      var seg := segTbl[i / nPerSeg];
      assert seg == segTbl[..][i / nPerSeg];
      x := seg[i % nPerSeg];
    }

    /** The pointers of the old table are copied. */
    method CopyTable(nReq: nat) returns (tbl: array<array?<T>>)
      requires Valid() && nReq > |segs|
      ensures fresh(tbl) && tbl.Length == nReq && tbl[..|segs|] == segs
    {
      tbl := new array?<T>[nReq];
      for i := 0 to segTbl.Length
        invariant tbl[..i] == segTbl[..i]
      {
        tbl[i] := segTbl[i];
      }
    }

    /** A table of nReq segments, of which the first are the old ones. */
    method NewTable(nReq: nat) returns (tbl: array<array?<T>>, ghost ss: seq<array<T>>)
      requires Valid() && nReq > |segs|
      ensures fresh(tbl) && tbl.Length == |ss| == nReq && tbl[..] == ss && ss[..|segs|] == segs
      ensures forall k | 0 <= k < nReq :: ss[k].Length == nPerSeg && (ss[k] as object) != tbl
      ensures forall k, j | 0 <= j < k < nReq :: ss[j] != ss[k]
      ensures forall k | |segs| <= k < nReq :: fresh(ss[k])
    {
      tbl := CopyTable(nReq);
      ss := segs;
      forall k: nat, j: nat | j < k < |segs| ensures ss[j] != ss[k] && ss[k].Length == ss[j].Length == nPerSeg {
        assert SegmentOk(k) && SegmentOk(j);
      }
      assert |segs| > 0 ==> SegmentOk(0);
      for i := segTbl.Length to nReq
        invariant |ss| == i && tbl[..i] == ss && ss[..|segs|] == segs
        invariant forall k | 0 <= k < i :: ss[k].Length == nPerSeg && (ss[k] as object) != tbl
        invariant forall k, j | 0 <= j < k < i :: ss[j] != ss[k]
        invariant forall k | |segs| <= k < i :: fresh(ss[k])
      {
        var seg := new T[nPerSeg];
        tbl[i] := seg;
        ss := ss + [seg];
      }
    }

    /** segArray::resize to more segments: the table is replaced, the old segments stay. */
    method Resize(nReq: nat)
      requires Valid() && nReq > |segs|
      modifies `segTbl, `segs, `cells, `upb
      ensures Valid() && |segs| == nReq && fresh(segTbl)
      ensures segs[..|old(segs)|] == old(segs) && forall k | |old(segs)| <= k < nReq :: fresh(segs[k])
      ensures |cells| == nReq * nPerSeg && |old(cells)| <= |cells| && cells[..|old(cells)|] == old(cells)
    {
      var tbl;
      ghost var all;
      tbl, all := NewTable(nReq);
      ghost var cs := GrownCells(all);
      segTbl := tbl;
      segs := all;
      upb := nReq * nPerSeg;
      cells := cs;
      forall i: nat | i < |cells| ensures CellOk(i) {
        assert Holds(all, cs, i);
      }
    }

    /** cs[i] is the cell that index i stands for in the segments ss. */
    ghost predicate Holds(ss: seq<array<T>>, cs: seq<T>, i: nat)
      requires nPerSeg > 0 && i < |cs|
      reads ss
    {
      && Seg(i, nPerSeg) < |ss| && Off(i, nPerSeg) < ss[Seg(i, nPerSeg)].Length
      && cs[i] == ss[Seg(i, nPerSeg)][Off(i, nPerSeg)]
    }

    /** The cells of more segments: the old ones come first. */
    lemma GrownCells(ss: seq<array<T>>) returns (cs: seq<T>)
      requires Valid() && |ss| >= |segs| && ss[..|segs|] == segs
      requires forall k | 0 <= k < |ss| :: ss[k].Length == nPerSeg
      ensures |cs| == |ss| * nPerSeg && forall i: nat {:trigger Holds(ss, cs, i)} | i < |cs| :: Holds(ss, cs, i)
      ensures |cells| <= |cs| && cs[..|cells|] == cells
    {
      var n := nPerSeg;
      cs := seq(|ss| * n, i requires 0 <= i < |ss| * n && forall k | 0 <= k < |ss| :: ss[k].Length == n
                          reads ss => Cell(ss, n, i));
      MulMonotone(|segs|, |ss|, nPerSeg);
      forall i: nat | i < |cs| ensures Holds(ss, cs, i) {
        SplitInside(i, |ss|, n);
      }
      forall i: nat | i < |cells| ensures cs[i] == cells[i] {
        assert CellOk(i) && Holds(ss, cs, i);
        assert ss[Seg(i, nPerSeg)] == ss[..|segs|][Seg(i, nPerSeg)];
      }
    }

    /** The cell at index i is overwritten. */
    method Store(i: nat, val: T)
      requires Valid() && i < |cells|
      modifies `cells, segs
      ensures Valid() && cells == old(cells)[i := val]
    {
      SplitIs(i, nPerSeg);
      var q, r := i / nPerSeg, i % nPerSeg;
      assert CellOk(i) && SegmentOk(q);
      var seg := segTbl[q];
      assert seg == segTbl[..][q];
      seg[r] := val;
      cells := cells[i := val];
      forall j: nat | j < |cells| ensures CellOk(j) {
        assert old(CellOk(j));
        Elsewhere(i, j);
      }
    }

    /** The cell of another index is another cell. */
    lemma Elsewhere(i: nat, j: nat)
      requires nPerSeg > 0 && Seg(i, nPerSeg) < |segs| && Seg(j, nPerSeg) < |segs|
      requires forall k: nat {:trigger SegmentOk(k)} | k < |segs| :: SegmentOk(k)
      ensures j != i ==> segs[Seg(j, nPerSeg)] != segs[Seg(i, nPerSeg)] || Off(j, nPerSeg) != Off(i, nPerSeg)
    {
      assert SegmentOk(Seg(i, nPerSeg));
      if Seg(j, nPerSeg) == Seg(i, nPerSeg) && Off(j, nPerSeg) == Off(i, nPerSeg) {
        SplitInjective(j, i, nPerSeg);
      }
    }

    /** vector::put: the vector grows to hold index i, by whole segments and no more than
        needed, and keeps what it held. */
    method Put(i: nat, val: T)
      requires Valid()
      modifies this, segs
      ensures Valid() && i < |cells| && cells[i] == val
      ensures |cells| >= |old(cells)| && forall j | 0 <= j < |old(cells)| && j != i :: cells[j] == old(cells)[j]
      ensures |cells| == if i < |old(cells)| then |old(cells)| else (Seg(i, nPerSeg) + 1) * nPerSeg
      ensures forall k | 0 <= k < |segs| :: segs[k] in old(segs) || fresh(segs[k])
      ensures segTbl == old(segTbl) || fresh(segTbl)
    {
      if i >= upb {
        var nReq := (i + nPerSeg) / nPerSeg;
        SplitIs(i + nPerSeg, nPerSeg);
        SplitInside(i, |segs|, nPerSeg);
        Resize(nReq);
        SplitInside(i, |segs|, nPerSeg);
        assert forall j | 0 <= j < |old(cells)| :: cells[j] == cells[..|old(cells)|][j];
        assert forall k | 0 <= k < |old(segs)| :: segs[k] == segs[..|old(segs)|][k];
      }
      Store(i, val);
    }
  }
}
