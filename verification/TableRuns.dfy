/** Runs of operations on a segment table: what they leave is what they leave on values. */
module TableRuns {
  import opened Codec
  import opened Vectors
  import opened Interning
  import opened SegmentTables

  /** One operation on a table makes of what it holds what Step says. */
  method Perform(t: SegmentTable, op: Op)
    requires t.Valid() && Fits(t.recs, op)
    modifies t, t.hashTab, t.ents, t.vec, t.vec.segs
    ensures t.Valid() && t.recs == Step(old(t.recs), op)
    ensures fresh(t.ents - old(t.ents))
    ensures forall k | 0 <= k < |t.vec.segs| :: t.vec.segs[k] in old(t.vec.segs) || fresh(t.vec.segs[k])
  {
    match op
    case Add(bytes) =>
      var hashVal := t.HashDJB2(bytes);
      var id := t.AddSegment(bytes, hashVal);
    case AddRef(id) =>
      var ok := t.AddUse(id);
    case Drop(id) =>
      var ok := t.DropSegment(id);
  }

  /** Every run of operations on a table, from an empty one on: it holds a byte string exactly while
      its adds exceed its drops, under one id, and counts them. */
  method Replay(nSlots: nat, nPerSeg: nat, ops: seq<Op>) returns (t: SegmentTable)
    requires nSlots > 0 && nPerSeg > 0 && RunFits(ops)
    ensures fresh(t) && fresh(t.hashTab) && fresh(t.ents) && fresh(t.vec) && fresh(t.vec.segs)
    ensures t.Valid() && t.recs == After(ops)
    ensures forall s: seq<Byte> {:trigger Has(t.recs, s)} :: Has(t.recs, s) <==> Balance(ops, s) > 0
    ensures forall s: seq<Byte> {:trigger RefOf(t.recs, s)} :: RefOf(t.recs, s) == Balance(ops, s)
  {
    if ops == [] {
      t := new SegmentTable(nSlots, nPerSeg);
    } else {
      t := Replay(nSlots, nPerSeg, ops[..|ops| - 1]);
      Perform(t, ops[|ops| - 1]);
    }
    forall s: seq<Byte>
      ensures RefOf(After(ops), s) == Balance(ops, s) && (Has(After(ops), s) <==> Balance(ops, s) > 0)
    {
      RunBalanced(ops, s);
    }
  }
}
