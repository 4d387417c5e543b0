/** Runs of operations on an object store: what each operation makes of the table of object
    pointers, on values, and what holds after any number of them. */
module StoreRuns {
  import opened ObjStores

  datatype Op = Take(ptr: nat) | Give(oid: nat)

  /** No place is free. */
  ghost predicate Full(v: View) {
    forall c: nat, t: nat {:trigger FreeAt(v, c, t)} :: !FreeAt(v, c, t)
  }

  ghost predicate HasLeast(v: View) {
    exists c: nat, t: nat {:trigger LeastFree(v, c, t)} :: LeastFree(v, c, t)
  }

  lemma LeastUnique(v: View, c: nat, t: nat, ci: nat, tsi: nat)
    requires LeastFree(v, c, t) && LeastFree(v, ci, tsi)
    ensures c == ci && t == tsi
  {
  }

  lemma {:induction false} LeastExists(v: View, c: nat, t: nat)
    requires FreeAt(v, c, t)
    ensures HasLeast(v)
    decreases c, t
  {
    if !LeastFree(v, c, t) {
      var c': nat, t': nat :| FreeAt(v, c', t') && (c' < c || (c' == c && t' < t));
      LeastExists(v, c', t');
    }
  }

  /** Where any place is free, one is the least. */
  lemma FullOrNot(v: View)
    ensures Full(v) <==> !HasLeast(v)
  {
    if c: nat, t: nat :| FreeAt(v, c, t) {
      LeastExists(v, c, t);
    }
  }

  /** The place that the next object gets: the least free one, or the first of a new row. */
  ghost function NextPlace(v: View): (nat, nat) {
    if HasLeast(v) then
      var c: nat, t: nat :| LeastFree(v, c, t); (c, t)
    else (|v|, 0)
  }

  /** There is room for an object, and one that is given back is there. */
  ghost predicate Allowed(v: View, op: Op) {
    match op
    case Take(ptr) => ptr != 0 && (Full(v) ==> |v| < MAX_CLUSTERS)
    case Give(oid) => LiveAt(v, Ci(oid), Tsi(oid))
  }

  /** What an operation makes of the table, whose rows have n slots. */
  ghost function Step(v: View, n: nat, op: Op): View
    requires n > 0
  {
    if !Allowed(v, op) then v
    else match op
    case Take(ptr) =>
      if HasLeast(v) then
        var (c, t) := NextPlace(v); Put(v, c, t, ptr)
      else v + [FreeRow(n)[0 := ptr]]
    case Give(oid) => Put(v, Ci(oid), Tsi(oid), 0)
  }

  /** An operation changes the number of objects by one, and touches no object but its own. */
  lemma StepObjects(v: View, n: nat, op: Op)
    requires n > 0 && Allowed(v, op)
    ensures Objects(Step(v, n, op)) == Objects(v) + if op.Take? then 1 else -1
    ensures forall c: nat, t: nat | LiveAt(v, c, t) && !(op.Give? && c == Ci(op.oid) && t == Tsi(op.oid)) ::
              LiveAt(Step(v, n, op), c, t) && Step(v, n, op)[c][t] == v[c][t]
    ensures op.Take? ==>
              var (c, t) := NextPlace(v);
              !LiveAt(v, c, t) && LiveAt(Step(v, n, op), c, t) && Step(v, n, op)[c][t] == op.ptr
  {
    match op
    case Take(ptr) =>
      if HasLeast(v) {
        var (c, t) := NextPlace(v);
        ObjectsTaken(v, c, t, ptr);
      } else {
        ObjectsNewRow(v, FreeRow(n), ptr);
      }
    case Give(oid) =>
      ZerosUpdate(v[Ci(oid)], Tsi(oid), 0);
      ObjectsUpdate(v, Ci(oid), Row(v, Ci(oid), Tsi(oid), 0));
  }

  /** The table after a run that began with an empty store. */
  ghost function After(n: nat, ops: seq<Op>): View
    requires n > 0
  {
    if ops == [] then [] else Step(After(n, ops[..|ops| - 1]), n, ops[|ops| - 1])
  }

  /** Every operation of the run finds what it needs. */
  ghost predicate RunAllowed(n: nat, ops: seq<Op>)
    requires n > 0
  {
    ops == [] || (RunAllowed(n, ops[..|ops| - 1]) && Allowed(After(n, ops[..|ops| - 1]), ops[|ops| - 1]))
  }

  /** The objects taken in a run less those given back. */
  ghost function Balance(ops: seq<Op>): int {
    if ops == [] then 0 else Balance(ops[..|ops| - 1]) + if ops[|ops| - 1].Take? then 1 else -1
  }

  /** After every run there are as many objects as were taken and not given back. */
  lemma {:induction false} RunObjects(n: nat, ops: seq<Op>)
    requires n > 0 && RunAllowed(n, ops)
    ensures Objects(After(n, ops)) == Balance(ops)
  {
    if ops != [] {
      RunObjects(n, ops[..|ops| - 1]);
      StepObjects(After(n, ops[..|ops| - 1]), n, ops[|ops| - 1]);
    }
  }

  /** One operation on a store makes of its table what Step says; an object that is taken gets the
      id of the next place. */
  method Perform(store: ObjStore, op: Op) returns (oid: nat)
    requires store.Valid() && Allowed(store.view, op)
    modifies store, store.Cscs(), store.Segs()
    ensures store.Valid() && store.view == Step(old(store.view), store.objsPerSeg, op)
    ensures op.Take? ==> OidOf(oid, NextPlace(old(store.view)))
    ensures fresh(store.Cscs() - old(store.Cscs())) && fresh(store.Segs() - old(store.Segs()))
  {
    match op
    case Take(ptr) =>
      ghost var v := store.view;
      ghost var c, t;
      if store.minFreeIndex < 0 { store.NoneFree(); }
      oid, c, t := store.Alloc(ptr);
      if HasLeast(v) {
        LeastUnique(v, NextPlace(v).0, NextPlace(v).1, c, t);
      }
    case Give(o) =>
      store.Free(o);
      oid := NULL_OID;
  }

  /** Every run of operations on a store leaves the table that it leaves on values. */
  method Replay(n: nat, ops: seq<Op>) returns (store: ObjStore)
    requires 0 < n <= MAX_OBJS_PER_SEG && RunAllowed(n, ops)
    ensures fresh(store) && fresh(store.Cscs()) && fresh(store.Segs())
    ensures store.Valid() && store.objsPerSeg == n && store.view == After(n, ops) && store.nObj == Balance(ops)
  {
    RunObjects(n, ops);
    if ops == [] {
      store := new ObjStore(n);
    } else {
      store := Replay(n, ops[..|ops| - 1]);
      var oid := Perform(store, ops[|ops| - 1]);
    }
  }
}
