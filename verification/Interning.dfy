/** The segment table on values: what each operation does to the mapping from ids to byte
    strings, hash values and reference counts. */
module Interning {
  import opened Codec

  const MAX_ID := 32767        // a SegmentId is a signed 16-bit integer
  const MAX_REF := 65535       // a reference count is an unsigned 16-bit integer

  /** hashDJB2, in 32-bit arithmetic. */
  ghost function Hash(s: seq<Byte>): (h: nat)
    ensures h < 0x1_0000_0000
  {
    if s == [] then 5381 else (Hash(s[..|s| - 1]) * 33 + s[|s| - 1]) % 0x1_0000_0000
  }

  /** Byte by byte: from 5381 on, times 33 plus the byte, in 32 bits. */
  lemma HashNext(s: seq<Byte>, b: Byte)
    ensures Hash([]) == 5381
    ensures Hash(s + [b]) == (33 * Hash(s) + b) % 0x1_0000_0000
    ensures Hash([b]) == 177573 + b
  {
    assert (s + [b])[..|s|] == s;
    assert [b][..0] == [];
  }

  datatype Rec = Rec(bytes: seq<Byte>, hash: nat, ref: nat)

  type Recs = map<nat, Rec>

  ghost predicate RecOk(m: Recs, i: nat)
    requires i in m
  {
    i < MAX_ID && 0 < |m[i].bytes| < VLU_LIMIT && m[i].hash == Hash(m[i].bytes) && 0 < m[i].ref <= MAX_REF
  }

  ghost predicate Differ(m: Recs, i: nat, j: nat)
    requires i in m && j in m
  {
    i != j ==> m[i].bytes != m[j].bytes
  }

  /** Every byte string has one id at most, and its own hash value. */
  ghost predicate Interned(m: Recs) {
    && (forall i {:trigger RecOk(m, i)} | i in m :: RecOk(m, i))
    && (forall i, j {:trigger Differ(m, i, j)} | i in m && j in m :: Differ(m, i, j))
  }

  ghost predicate Has(m: Recs, s: seq<Byte>) {
    exists i :: i in m && m[i].bytes == s
  }

  /** The least id that is not in use. */
  ghost predicate IsLowest(m: Recs, id: nat) {
    id !in m && forall i: nat | i < id :: i in m
  }

  lemma {:induction false} LowestBelow(m: Recs, n: nat) returns (id: nat)
    requires n !in m
    ensures IsLowest(m, id)
  {
    if i: nat :| i < n && i !in m {
      id := LowestBelow(m, i);
    } else {
      id := n;
    }
  }

  lemma {:induction false} Bounded(s: set<nat>) returns (n: nat)
    ensures forall i | i in s :: i < n
    decreases |s|
  {
    if s == {} {
      n := 0;
    } else {
      var x :| x in s;
      n := Bounded(s - {x});
      assert forall i | i in s :: i == x || i in s - {x};
      n := if x < n then n else x + 1;
    }
  }

  lemma LowestExists(m: Recs)
    ensures exists id: nat :: IsLowest(m, id)
  {
    var n := Bounded(m.Keys);
    var id := LowestBelow(m, n);
  }

  ghost function Lowest(m: Recs): (id: nat)
    ensures IsLowest(m, id)
  {
    LowestExists(m);
    var id: nat :| IsLowest(m, id);
    id
  }

  lemma LowestUnique(m: Recs, i: nat, j: nat)
    requires IsLowest(m, i) && IsLowest(m, j)
    ensures i == j
  {
  }

  // ---- The operations ----

  datatype Op = Add(bytes: seq<Byte>) | AddRef(id: nat) | Drop(id: nat)

  /** The id under which s is interned. */
  ghost function IdOf(m: Recs, s: seq<Byte>): (id: nat)
    requires Has(m, s)
    ensures id in m && m[id].bytes == s
  {
    var id :| id in m && m[id].bytes == s; id
  }

  ghost function Counted(m: Recs, id: nat, ref: nat): Recs
    requires id in m
  {
    m[id := m[id].(ref := ref)]
  }

  /** What an operation makes of the table; one on an id that is not in use fails, and so does
      the adding of no bytes at all, for which the allocator gives no memory. */
  ghost function Step(m: Recs, op: Op): Recs {
    match op
    case Add(s) =>
      if s == [] then m
      else if Has(m, s) then Counted(m, IdOf(m, s), m[IdOf(m, s)].ref + 1)
      else m[Lowest(m) := Rec(s, Hash(s), 1)]
    case AddRef(id) =>
      if id in m then Counted(m, id, m[id].ref + 1) else m
    case Drop(id) =>
      if id !in m then m else if m[id].ref <= 1 then m - {id} else Counted(m, id, m[id].ref - 1)
  }

  /** No counter overflows and ids do not run out. */
  ghost predicate Fits(m: Recs, op: Op) {
    match op
    case Add(s) =>
      && |s| < VLU_LIMIT
      && if s == [] then true else if Has(m, s) then m[IdOf(m, s)].ref < MAX_REF else Lowest(m) < MAX_ID
    case AddRef(id) => id in m ==> m[id].ref < MAX_REF
    case Drop(id) => true
  }

  lemma StepInterned(m: Recs, op: Op)
    requires Interned(m) && Fits(m, op)
    ensures Interned(Step(m, op))
  {
    var m' := Step(m, op);
    forall i | i in m' ensures RecOk(m', i) {
      assert i in m ==> RecOk(m, i);
    }
    forall i, j | i in m' && j in m' ensures Differ(m', i, j) {
      assert i in m && j in m ==> Differ(m, i, j);
    }
  }

  lemma SmallerInterned(m: Recs, id: nat)
    requires Interned(m) && id in m
    ensures Interned(m - {id}) && |m - {id}| == |m| - 1
  {
    var m' := m - {id};
    forall i | i in m' ensures RecOk(m', i) {
      assert RecOk(m, i);
    }
    forall i, j | i in m' && j in m' ensures Differ(m', i, j) {
      assert Differ(m, i, j);
    }
    assert m'.Keys == m.Keys - {id};
  }

  lemma IdOfUnique(m: Recs, id: nat)
    requires Interned(m) && id in m
    ensures Has(m, m[id].bytes) && IdOf(m, m[id].bytes) == id
  {
    assert Differ(m, id, IdOf(m, m[id].bytes));
  }

  /** What each operation does, entry by entry. */
  lemma StepExact(m: Recs, op: Op, id: nat)
    requires Interned(m)
    ensures op == Add([]) ==> Step(m, op) == m
    ensures op.Add? && id in m && m[id].bytes == op.bytes ==>
              Step(m, op) == m[id := Rec(op.bytes, m[id].hash, m[id].ref + 1)]
    ensures op.Add? && op.bytes != [] && (forall i | i in m :: m[i].bytes != op.bytes)
            && id !in m && (forall i: nat | i < id :: i in m) ==>
              Step(m, op) == m[id := Rec(op.bytes, Hash(op.bytes), 1)]
    ensures op == AddRef(id) ==>
              Step(m, op) == if id in m then m[id := Rec(m[id].bytes, m[id].hash, m[id].ref + 1)] else m
    ensures op == Drop(id) && id !in m ==> Step(m, op) == m
    ensures op == Drop(id) && id in m && m[id].ref == 1 ==> Step(m, op) == m - {id}
    ensures op == Drop(id) && id in m && m[id].ref > 1 ==>
              Step(m, op) == m[id := Rec(m[id].bytes, m[id].hash, m[id].ref - 1)]
  {
    if id in m {
      assert RecOk(m, id);
      IdOfUnique(m, id);
    } else if IsLowest(m, id) {
      LowestUnique(m, id, Lowest(m));
    }
  }

  // ---- Runs ----

  /** The table after a run that began with the empty table. */
  ghost function After(ops: seq<Op>): Recs {
    if ops == [] then map[] else Step(After(ops[..|ops| - 1]), ops[|ops| - 1])
  }

  ghost predicate RunFits(ops: seq<Op>) {
    ops == [] || (RunFits(ops[..|ops| - 1]) && Fits(After(ops[..|ops| - 1]), ops[|ops| - 1]))
  }

  /** By how much the operation changes the number of uses of s. */
  ghost function Delta(m: Recs, op: Op, s: seq<Byte>): int {
    match op
    case Add(t) => if s == t != [] then 1 else 0
    case AddRef(id) => if id in m && m[id].bytes == s then 1 else 0
    case Drop(id) => if id in m && m[id].bytes == s then -1 else 0
  }

  /** The adds of s in a run less the drops of it. */
  ghost function Balance(ops: seq<Op>, s: seq<Byte>): int {
    if ops == [] then 0
    else Balance(ops[..|ops| - 1], s) + Delta(After(ops[..|ops| - 1]), ops[|ops| - 1], s)
  }

  /** The reference count of s, 0 when it is not interned. */
  ghost function RefOf(m: Recs, s: seq<Byte>): nat {
    if Has(m, s) then m[IdOf(m, s)].ref else 0
  }

  lemma StepRef(m: Recs, op: Op, s: seq<Byte>)
    requires Interned(m) && Fits(m, op)
    ensures RefOf(Step(m, op), s) == RefOf(m, s) + Delta(m, op, s)
  {
    var m' := Step(m, op);
    StepInterned(m, op);
    if Has(m, s) {
      var i := IdOf(m, s);
      assert RecOk(m, i);
      if op.Drop? && op.id in m { assert Differ(m, op.id, i); }
      if op.AddRef? && op.id in m { assert Differ(m, op.id, i); }
      if op.Add? && op.bytes != [] && Has(m, op.bytes) { assert Differ(m, IdOf(m, op.bytes), i); }
      if i in m' {
        assert m'[i].bytes == s;
        IdOfUnique(m', i);
      } else {
        forall j | j in m' ensures m'[j].bytes != s {
          assert Differ(m, i, j);
        }
      }
    } else if op.Add? && op.bytes == s != [] {
      assert m'[Lowest(m)].bytes == s;
      IdOfUnique(m', Lowest(m));
    } else {
      assert forall j | j in m' :: m'[j].bytes != s;
    }
  }

  /** In every run, the reference count of a byte string is the number of its adds less that
      of its drops, and it is interned exactly while that is positive. */
  lemma {:induction false} RunBalanced(ops: seq<Op>, s: seq<Byte>)
    requires RunFits(ops)
    ensures Interned(After(ops))
    ensures RefOf(After(ops), s) == Balance(ops, s)
    ensures Has(After(ops), s) <==> Balance(ops, s) > 0
  {
    if ops != [] {
      var n := |ops| - 1;
      RunBalanced(ops[..n], s);
      StepInterned(After(ops[..n]), ops[n]);
      StepRef(After(ops[..n]), ops[n], s);
    }
    if Has(After(ops), s) {
      assert RecOk(After(ops), IdOf(After(ops), s));
    }
  }
}
