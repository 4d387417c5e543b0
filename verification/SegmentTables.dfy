/** The table of interned byte strings: entries hang in hash chains, linked both ways, and in a
    vector by id; each counts its uses. */
module SegmentTables {
  import opened Codec
  import opened Archives
  import opened Vectors
  import opened Interning
  import opened TableFormat

  class Entry {
    var next: Entry?          // _next
    var prev: Entry?          // _prev
    var refCount: nat         // _refCount
    const id: nat             // _id
    const bytes: seq<Byte>    // _segment, _len
    const hashVal: nat        // _hashVal

    constructor (id: nat, bytes: seq<Byte>, hashVal: nat, refCount: nat)
      ensures this.id == id && this.bytes == bytes && this.hashVal == hashVal && this.refCount == refCount
      ensures next == null && prev == null
    {
      this.id, this.bytes, this.hashVal, this.refCount := id, bytes, hashVal, refCount;
      next, prev := null, null;
    }

    ghost function Record(): Rec
      reads `refCount
    {
      Rec(bytes, hashVal, refCount)
    }
  }

  // ---- Hash chains ----

  ghost predicate LinkAt(c: seq<Entry>, j: nat)
    requires j < |c|
    reads (set e | e in c)`next, (set e | e in c)`prev
  {
    && c[j].next == (if j + 1 < |c| then c[j + 1] else null)
    && c[j].prev == (if j > 0 then c[j - 1] else null)
  }

  /** hd is the head of the chain c. */
  ghost predicate Linked(c: seq<Entry>, hd: Entry?)
    reads (set e | e in c)`next, (set e | e in c)`prev
  {
    && hd == (if c == [] then null else c[0])
    && forall j: nat {:trigger LinkAt(c, j)} | j < |c| :: LinkAt(c, j)
  }

  ghost predicate NoTwice(c: seq<Entry>) {
    forall i: nat, j: nat | i < j < |c| :: c[i] != c[j]
  }

  lemma StillChained(c: seq<Entry>, j: nat, x: Entry)
    requires j < |c| && x != c[j]
    ensures x in c ==> x in c[..j] + c[j + 1..]
  {
    if x in c {
      var i :| 0 <= i < |c| && c[i] == x;
      assert (c[..j] + c[j + 1..])[if i < j then i else i - 1] == x;
    }
  }

  lemma WithoutOne(c: seq<Entry>, j: nat, x: Entry)
    requires j < |c| && NoTwice(c) && x in c[..j] + c[j + 1..]
    ensures x != c[j] && x in c
  {
    var d := c[..j] + c[j + 1..];
    var i :| 0 <= i < |d| && d[i] == x;
    assert x == c[if i < j then i else i + 1];
  }

  class SegmentTable {
    const nSlots: nat              // _nSlots
    const hashTab: array<Entry?>   // _hashTab
    const vec: Vector<Entry?>      // _vec
    var count: nat                 // _count
    var minFreeId: nat             // _minFreeId
    var maxId: nat                 // _maxId
    ghost var ents: set<Entry>         // the entries
    ghost var chains: seq<seq<Entry>>  // the hash chains
    ghost var slots: seq<Entry?>       // the entries by id
    ghost var recs: Recs               // what the table holds

    /** The k-th hash chain: its entries have hash values of that slot. */
    ghost predicate ChainAt(k: nat)
      requires k < |chains| == hashTab.Length == nSlots
      reads `chains, `ents, hashTab, ents`next, ents`prev
    {
      && (forall e | e in chains[k] :: e in ents && e.hashVal % nSlots == k)
      && NoTwice(chains[k]) && Linked(chains[k], hashTab[k])
    }

    ghost predicate ChainsOk()
      reads `chains, `ents, hashTab, ents`next, ents`prev
    {
      && nSlots > 0 && |chains| == hashTab.Length == nSlots
      && forall k: nat {:trigger ChainAt(k)} | k < nSlots :: ChainAt(k)
    }

    /** Every entry is in the slot of its id and in the chain of its hash value. */
    ghost predicate EntryAt(e: Entry)
      requires nSlots > 0 && |chains| == nSlots
      reads `chains, `slots
    {
      e.id < |slots| && slots[e.id] == e && e in chains[e.hashVal % nSlots]
    }

    /** The i-th slot holds the entry of id i, and recs says so. */
    ghost predicate SlotAt(i: nat)
      requires i < |slots|
      reads `slots, `ents, `recs, ents`refCount
    {
      && (slots[i] != null ==> slots[i] in ents && slots[i].id == i)
      && (i in recs <==> slots[i] != null)
      && (i in recs ==> slots[i] != null && slots[i] in ents && recs[i] == slots[i].Record())
    }

    ghost predicate SlotsOk()
      reads `chains, `slots, `ents, `recs, ents`refCount
    {
      && nSlots > 0 && |chains| == nSlots
      && (forall e {:trigger EntryAt(e)} | e in ents :: EntryAt(e))
      && (forall i: nat {:trigger SlotAt(i)} | i < |slots| :: SlotAt(i))
      && (forall i | i in recs :: i < |slots|)
    }

    ghost predicate VecOk()
      reads `slots, vec, vec.segTbl, vec.segs
    {
      && vec.Valid() && hashTab !in vec.segs && |slots| <= |vec.cells| && vec.cells[..|slots|] == slots
    }

    /** The two views agree, and say what recs says. */
    ghost predicate Agree()
      reads this, hashTab, ents, vec, vec.segTbl, vec.segs
    {
      ChainsOk() && SlotsOk() && VecOk() && Interned(recs) && count == |recs|
    }

    /** What holds in every reachable state. */
    ghost predicate Valid()
      reads this, hashTab, ents, vec, vec.segTbl, vec.segs
    {
      && Agree() && maxId == |slots| <= MAX_ID && minFreeId <= maxId
      && forall i: nat | i < minFreeId :: i in recs
    }

    constructor (nSlots: nat, nPerSeg: nat)
      requires nSlots > 0 && nPerSeg > 0
      ensures Valid() && recs == map[] && maxId == 0 && ents == {} && vec.segs == []
      ensures fresh(hashTab) && fresh(vec) && fresh(vec.segTbl)
    {
      this.nSlots := nSlots;
      var tab := new Entry?[nSlots](i => null);
      var v := new Vector<Entry?>(nPerSeg);
      hashTab := tab;
      vec := v;
      count, minFreeId, maxId := 0, 0, 0;
      ents, chains, slots, recs := {}, seq(nSlots, i => []), [], map[];
      new;
      forall k: nat | k < nSlots ensures ChainAt(k) {
      }
    }

    /** What a table holds. */
    lemma Held()
      requires Valid()
      ensures Interned(recs) && forall i | i in recs :: i < maxId
    {
    }

    // ---- Looking up ----

    /** SegmentTable::lookUp by bytes and hash value. */
    method LookUpEntry(bytes: seq<Byte>, hashVal: nat) returns (e: Entry?)
      requires Agree() && hashVal == Hash(bytes)
      ensures e != null ==> e in ents && e.id in recs && recs[e.id].bytes == bytes == e.bytes
      ensures e == null <==> !Has(recs, bytes)
    {
      ghost var k, j := hashVal % nSlots, 0;
      e := hashTab[hashVal % nSlots];
      assert ChainAt(k);
      while e != null
        invariant j <= |chains[k]| && e == if j < |chains[k]| then chains[k][j] else null
        invariant forall i | 0 <= i < j :: chains[k][i].bytes != bytes
        decreases |chains[k]| - j
      {
        assert LinkAt(chains[k], j) && e in chains[k];
        if e.bytes == bytes {
          assert EntryAt(e) && SlotAt(e.id);
          return;
        }
        e := e.next;
        j := j + 1;
      }
      NotChained(bytes, k);
    }

    /** A byte string that the chain of its hash value does not hold is not in the table. */
    lemma NotChained(bytes: seq<Byte>, k: nat)
      requires Agree() && k == Hash(bytes) % nSlots
      requires forall i | 0 <= i < |chains[k]| :: chains[k][i].bytes != bytes
      ensures !Has(recs, bytes)
    {
      forall i | i in recs ensures recs[i].bytes != bytes {
        assert SlotAt(i) && RecOk(recs, i);
        assert EntryAt(slots[i]);
      }
    }

    /** hashDJB2. */
    method HashDJB2(bytes: seq<Byte>) returns (hash: nat)
      ensures hash == Hash(bytes)
    {
      hash := 5381;
      for i := 0 to |bytes|
        invariant hash == Hash(bytes[..i])
      {
        assert bytes[..i + 1][..i] == bytes[..i];
        hash := (hash * 32 + hash + bytes[i]) % 0x1_0000_0000;
      }
      assert bytes[..|bytes|] == bytes;
    }

    /** SegmentTable::lookUp by bytes: the id, or NULL_SEGMENT_ID. */
    method LookUp(bytes: seq<Byte>) returns (id: int)
      requires Valid()
      ensures Has(recs, bytes) ==> id == IdOf(recs, bytes)
      ensures !Has(recs, bytes) ==> id == -1
      ensures id < 0 <==> forall i | i in recs :: recs[i].bytes != bytes
      ensures id >= 0 ==> id in recs && recs[id].bytes == bytes
    {
      var hashVal := HashDJB2(bytes);
      var e := LookUpEntry(bytes, hashVal);
      if e == null {
        return -1;
      }
      IdOfUnique(recs, e.id);
      return e.id;
    }

    /** The entry of an id, or null when the id is not in use. */
    method Lock(id: nat) returns (e: Entry?)
      requires Valid()
      ensures e == null <==> id !in recs
      ensures e != null ==> e in ents && e.id == id && recs[id] == e.Record()
    {
      if id >= maxId {
        return null;
      }
      e := vec.Get(id);
      assert e == vec.cells[..|slots|][id];
      assert SlotAt(id);
    }

    // ---- Changing a hash chain ----

    /** A new entry becomes the head of its chain. */
    method Link(e: Entry)
      requires ChainsOk() && e !in ents
      modifies `chains, `ents, hashTab, ents`prev, e`next, e`prev
      ensures ChainsOk() && ents == old(ents) + {e}
      ensures chains == old(chains)[e.hashVal % nSlots := [e] + old(chains)[e.hashVal % nSlots]]
    {
      ghost var h := e.hashVal % nSlots;
      assert ChainAt(h);
      ghost var c := chains[h];
      assert c != [] ==> LinkAt(c, 0) && c[0] in c;
      var next := hashTab[e.hashVal % nSlots];
      e.next := next;
      if next != null {
        next.prev := e;
      }
      e.prev := null;
      hashTab[e.hashVal % nSlots] := e;
      chains := chains[h := [e] + c];
      ents := ents + {e};
      forall k: nat | k < nSlots ensures ChainAt(k) {
        assert old(ChainAt(k));
        forall j: nat | j < |chains[k]| ensures LinkAt(chains[k], j) {
          if k == h {
            assert j > 0 ==> old(LinkAt(c, j - 1)) && c[j - 1] in c;
          } else {
            assert old(LinkAt(chains[k], j)) && chains[k][j] in chains[k];
          }
        }
      }
    }

    /** The j-th entry of its chain is taken out. */
    method Unlink(e: Entry, ghost j: nat)
      requires ChainsOk() && j < |chains[e.hashVal % nSlots]| && chains[e.hashVal % nSlots][j] == e
      modifies `chains, `ents, hashTab, ents`prev, ents`next
      ensures ChainsOk() && ents == old(ents) - {e}
      ensures var c := old(chains)[e.hashVal % nSlots];
              chains == old(chains)[e.hashVal % nSlots := c[..j] + c[j + 1..]]
    {
      ghost var h := e.hashVal % nSlots;
      assert ChainAt(h);
      ghost var c := chains[h];
      assert LinkAt(c, j) && c[j] in c;
      assert j > 0 ==> LinkAt(c, j - 1) && c[j - 1] in c;
      assert j + 1 < |c| ==> LinkAt(c, j + 1) && c[j + 1] in c;
      if e.next != null {
        e.next.prev := e.prev;
      }
      if e.prev != null {
        e.prev.next := e.next;
      } else {
        hashTab[e.hashVal % nSlots] := e.next;
      }
      ghost var d := c[..j] + c[j + 1..];
      chains := chains[h := d];
      ents := ents - {e};
      forall k: nat | k < nSlots ensures ChainAt(k) {
        assert old(ChainAt(k));
        forall x | x in chains[k] ensures x in ents && x.hashVal % nSlots == k {
          if k == h { WithoutOne(c, j, x); }
        }
        forall i: nat | i < |chains[k]| ensures LinkAt(chains[k], i) {
          if k == h {
            ghost var i' := if i < j then i else i + 1;
            assert d[i] == c[i'] && old(LinkAt(c, i'));
          } else {
            assert old(LinkAt(chains[k], i)) && chains[k][i] in chains[k];
          }
        }
      }
    }

    // ---- Adding ----

    /** Slot id is written; the vector grows where it has to. */
    method Place(id: nat, e: Entry?)
      requires VecOk() && id <= |slots|
      modifies vec, vec.segs, `slots
      ensures VecOk() && slots == if id < |old(slots)| then old(slots)[id := e] else old(slots) + [e]
      ensures forall k | 0 <= k < |vec.segs| :: vec.segs[k] in old(vec.segs) || fresh(vec.segs[k])
    {
      vec.Put(id, e);
      ghost var was := slots;
      slots := if id < |slots| then slots[id := e] else slots + [e];
      assert forall i | 0 <= i < |was| && i != id :: vec.cells[i] == old(vec.cells)[i] == old(vec.cells)[..|was|][i];
    }

    /** A new entry goes into its chain and its slot. */
    method Attach(id: nat, e: Entry)
      requires ChainsOk() && VecOk() && e !in ents && id <= |slots|
      modifies `chains, `ents, `slots, hashTab, ents`prev, e`next, e`prev, vec, vec.segs
      ensures ChainsOk() && VecOk() && ents == old(ents) + {e}
      ensures chains == old(chains)[e.hashVal % nSlots := [e] + old(chains)[e.hashVal % nSlots]]
      ensures slots == if id < |old(slots)| then old(slots)[id := e] else old(slots) + [e]
      ensures forall k | 0 <= k < |vec.segs| :: vec.segs[k] in old(vec.segs) || fresh(vec.segs[k])
    {
      Link(e);
      Place(id, e);
    }

    /** SegmentTable::addEntry, with a byte string that is not in the table. */
    method AddEntry(id: nat, bytes: seq<Byte>, hashVal: nat, refCount: nat) returns (e: Entry)
      requires Agree() && id <= |slots| && id !in recs
      requires Interned(recs[id := Rec(bytes, hashVal, refCount)])
      modifies `chains, `ents, `slots, `recs, `count, hashTab, ents`prev, vec, vec.segs
      ensures Agree() && recs == old(recs)[id := Rec(bytes, hashVal, refCount)]
      ensures |slots| == if id < |old(slots)| then |old(slots)| else id + 1
      ensures fresh(e) && e.id == id && ents == old(ents) + {e}
      ensures forall k | 0 <= k < |vec.segs| :: vec.segs[k] in old(vec.segs) || fresh(vec.segs[k])
    {
      hide ChainAt, ChainsOk, VecOk, Interned, EntryAt;
      e := new Entry(id, bytes, hashVal, refCount);
      Attach(id, e);
      count := count + 1;
      recs := recs[id := Rec(bytes, hashVal, refCount)];
      SlotsGrown(e);
    }

    /** The new entry e has come to its chain and its slot, which was not in use. */
    twostate lemma SlotsGrown(new e: Entry)
      requires old(SlotsOk()) && e.id <= |old(slots)| && e.id !in old(recs) && e !in old(ents)
      requires ents == old(ents) + {e} && recs == old(recs)[e.id := e.Record()]
      requires chains == old(chains)[e.hashVal % nSlots := [e] + old(chains)[e.hashVal % nSlots]]
      requires slots == if e.id < |old(slots)| then old(slots)[e.id := e] else old(slots) + [e]
      requires forall x | x in old(ents) :: x.refCount == old(x.refCount)
      ensures SlotsOk()
    {
      forall i: nat | i < |slots| ensures SlotAt(i) {
        assert i < |old(slots)| ==> old(SlotAt(i));
      }
      ghost var id := e.id;
      assert id < |old(slots)| ==> old(SlotAt(id));
      forall x | x in ents ensures EntryAt(x) {
        assert x != e ==> old(EntryAt(x));
      }
    }

    /** SegmentTable::nextSegment: the lowest id that is not in use. */
    method NextSegment() returns (id: nat)
      requires Valid()
      modifies `minFreeId, `maxId
      ensures IsLowest(recs, id) && minFreeId == id + 1
      ensures maxId == if id < |slots| then |slots| else id + 1
      ensures id <= |slots|
    {
      while minFreeId < maxId
        invariant maxId == |slots| && minFreeId <= maxId
        invariant forall i: nat | i < minFreeId :: i in recs
        decreases maxId - minFreeId
      {
        var e := vec.Get(minFreeId);
        assert e == vec.cells[..|slots|][minFreeId] && SlotAt(minFreeId);
        if e == null {
          id := minFreeId;
          minFreeId := minFreeId + 1;
          return;
        }
        minFreeId := minFreeId + 1;
      }
      id := minFreeId;
      assert id !in recs;
      minFreeId := minFreeId + 1;
      maxId := maxId + 1;
    }

    /** The use of an entry is counted, up or down. */
    method Recount(e: Entry, refCount: nat)
      requires Valid() && e in ents && 0 < refCount <= MAX_REF
      modifies e`refCount, `recs
      ensures Valid() && e.id in old(recs) && recs == Counted(old(recs), e.id, refCount)
    {
      assert EntryAt(e) && SlotAt(e.id) && RecOk(recs, e.id);
      e.refCount := refCount;
      ghost var was := recs;
      recs := Counted(recs, e.id, refCount);
      forall i: nat | i < |slots| ensures SlotAt(i) {
        assert old(SlotAt(i));
        assert slots[i] == e ==> i == e.id;
      }
      forall i | i in recs ensures RecOk(recs, i) {
        assert RecOk(was, i);
      }
      forall i, j | i in recs && j in recs ensures Differ(recs, i, j) {
        assert Differ(was, i, j);
      }
      assert recs.Keys == was.Keys;
      assert ChainsOk();
    }

    /** SegmentTable::addSegment: a byte string that is in the table is used once more, and
        one that is not gets the lowest unused id. For no bytes at all there is no memory, and
        NULL_SEGMENT_ID is returned. */
    method AddSegment(bytes: seq<Byte>, hashVal: nat) returns (res: int)
      requires Valid() && hashVal == Hash(bytes) && Fits(recs, Add(bytes))
      modifies this, hashTab, ents, vec, vec.segs
      ensures Valid() && recs == Step(old(recs), Add(bytes))
      ensures if bytes == [] then res == -1 else res >= 0 && res in recs && recs[res].bytes == bytes
      ensures maxId == if res >= old(maxId) then res + 1 else old(maxId)
      ensures fresh(ents - old(ents))
      ensures forall k | 0 <= k < |vec.segs| :: vec.segs[k] in old(vec.segs) || fresh(vec.segs[k])
    {
      hide ChainAt, ChainsOk, SlotAt, EntryAt, Interned, RecOk;
      var e := LookUpEntry(bytes, hashVal);
      if e != null {
        IdOfUnique(recs, e.id);
        EntryFacts(e);
        Recount(e, e.refCount + 1);
        return e.id;
      }
      if |bytes| == 0 {
        return -1;
      }
      res := AddNew(bytes, hashVal);
    }

    /** A byte string that is not in the table gets the lowest unused id. */
    method AddNew(bytes: seq<Byte>, hashVal: nat) returns (id: nat)
      requires Valid() && hashVal == Hash(bytes) && Fits(recs, Add(bytes)) && !Has(recs, bytes) && bytes != []
      modifies this, hashTab, ents, vec, vec.segs
      ensures Valid() && recs == Step(old(recs), Add(bytes)) && id in recs && recs[id].bytes == bytes
      ensures maxId == if id >= old(maxId) then id + 1 else old(maxId)
      ensures fresh(ents - old(ents))
      ensures forall k | 0 <= k < |vec.segs| :: vec.segs[k] in old(vec.segs) || fresh(vec.segs[k])
    {
      hide ChainAt, SlotAt, EntryAt, RecOk;
      StepInterned(recs, Add(bytes));
      id := NextSegment();
      LowestUnique(recs, id, Lowest(recs));
      ghost var was := recs;
      var e := AddEntry(id, bytes, hashVal, 1);
      assert forall i: nat | i < minFreeId :: i in was || i == id;
    }

    /** SegmentTable::addSegment by id; it fails when the id is not in use. */
    method AddUse(id: nat) returns (ok: bool)
      requires Valid() && Fits(recs, AddRef(id))
      modifies `recs, ents`refCount
      ensures Valid() && ok == (id in old(recs)) && recs == Step(old(recs), AddRef(id))
    {
      var e := Lock(id);
      if e == null {
        return false;
      }
      Recount(e, e.refCount + 1);
      ok := true;
    }

    /** The j-th entry of its chain leaves it, and its slot is cleared. */
    method Detach(e: Entry, ghost j: nat)
      requires ChainsOk() && VecOk() && e in ents && e.id < |slots|
      requires j < |chains[e.hashVal % nSlots]| && chains[e.hashVal % nSlots][j] == e
      modifies `chains, `ents, `slots, hashTab, e`refCount, ents`prev, ents`next, vec, vec.segs
      ensures ChainsOk() && VecOk()
      ensures ents == old(ents) - {e} && slots == old(slots)[e.id := null]
      ensures var c := old(chains)[e.hashVal % nSlots];
              chains == old(chains)[e.hashVal % nSlots := c[..j] + c[j + 1..]]
      ensures forall k | 0 <= k < |vec.segs| :: vec.segs[k] in old(vec.segs) || fresh(vec.segs[k])
    {
      e.refCount := 0;
      Unlink(e, j);
      Place(e.id, null);
    }

    /** What the views say about an entry. */
    lemma EntryFacts(e: Entry)
      requires Agree() && e in ents
      ensures e.id < |slots| && slots[e.id] == e && e in chains[e.hashVal % nSlots]
      ensures e.id in recs && recs[e.id] == e.Record() && RecOk(recs, e.id)
    {
      assert EntryAt(e) && SlotAt(e.id) && RecOk(recs, e.id);
    }

    /** The entry goes from chain and vector. */
    method RemoveEntry(e: Entry)
      requires Agree() && e in ents
      modifies `chains, `ents, `slots, `recs, `count, hashTab, ents, vec, vec.segs
      ensures Agree() && e.id in old(recs) && recs == old(recs) - {e.id} && |slots| == |old(slots)|
      ensures ents <= old(ents)
      ensures forall k | 0 <= k < |vec.segs| :: vec.segs[k] in old(vec.segs) || fresh(vec.segs[k])
    {
      hide ChainAt, ChainsOk, VecOk, Interned;
      EntryFacts(e);
      SmallerInterned(recs, e.id);
      ghost var c := chains[e.hashVal % nSlots];
      ghost var j: nat :| j < |c| && c[j] == e;
      Detach(e, j);
      count := count - 1;
      recs := recs - {e.id};
      forall i: nat | i < |slots| ensures SlotAt(i) {
        assert old(SlotAt(i));
      }
      forall x | x in ents ensures EntryAt(x) {
        assert old(EntryAt(x));
        StillChained(c, j, x);
      }
    }

    /** SegmentTable::dropSegment; it fails when the id is not in use. With the last use the
        entry leaves chain and vector, and its id can be used again. */
    method DropSegment(id: nat) returns (ok: bool)
      requires Valid()
      modifies this, hashTab, ents, vec, vec.segs
      ensures Valid() && ok == (id in old(recs)) && recs == Step(old(recs), Drop(id)) && maxId == old(maxId)
      ensures ents <= old(ents)
      ensures forall k | 0 <= k < |vec.segs| :: vec.segs[k] in old(vec.segs) || fresh(vec.segs[k])
    {
      hide LinkAt;
      var e := Lock(id);
      if e == null {
        return false;
      }
      assert RecOk(recs, id);
      if e.refCount > 1 {
        Recount(e, e.refCount - 1);
      } else {
        RemoveEntry(e);
        if id < minFreeId {
          minFreeId := id;
        }
      }
      ok := true;
    }

    // ---- The archive ----

    method WriteEntry(archive: Archive, id: nat, e: Entry)
      requires id < VLU_LIMIT && |e.bytes| < VLU_LIMIT && e.hashVal < 0x1_0000_0000 && e.refCount < VLU_LIMIT
      modifies archive`bytes
      ensures archive.bytes == old(archive.bytes) + EncRec(id, e.Record())
      ensures var h := e.hashVal;
              archive.bytes == old(archive.bytes) + EncVLU(id) + EncVLU(|e.bytes|) + e.bytes
                               + [h % 0x100, h / 0x100 % 0x100, h / 0x1_0000 % 0x100, h / 0x100_0000]
                               + EncVLU(e.refCount)
    {
      ghost var w := archive.bytes;
      archive.InsertVLU(id);
      archive.InsertVLU(|e.bytes|);
      archive.PutBytes(e.bytes);
      archive.PutUInt32(e.hashVal);
      archive.InsertVLU(e.refCount);
      assert archive.bytes == w + EncRec(id, e.Record());
    }

    /** The i-th step of store: all is what the archive will hold in the end. */
    method StoreAt(archive: Archive, i: nat, ghost all: seq<Byte>) returns (stored: bool)
      requires Valid() && i < maxId && archive.bytes + EncFrom(recs, i, maxId) == all
      modifies archive`bytes
      ensures archive.bytes + EncFrom(recs, i + 1, maxId) == all
      ensures |Below(recs, i + 1)| == |Below(recs, i)| + if stored then 1 else 0
    {
      NextWritten(recs, i, maxId, archive.bytes, all);
      var e := Lock(i);
      stored := e != null;
      if stored {
        assert RecOk(recs, i);
        WriteEntry(archive, i, e);
      } else {
        assert archive.bytes + EncAt(recs, i) == archive.bytes;
      }
    }

    /** SegmentTable::store. ok tells that the count was right. */
    method Store(archive: Archive) returns (ok: bool)
      requires Valid()
      modifies archive`bytes
      ensures ok && |recs| < VLU_LIMIT && archive.bytes == old(archive.bytes) + Serial(recs, maxId)
    {
      hide VecOk;
      FewerThan(recs, maxId);
      BelowBounds(recs, maxId);
      ghost var w := archive.bytes;
      archive.InsertVLU(count);
      ghost var all := archive.bytes + EncFrom(recs, 0, maxId);
      assert all == w + Serial(recs, maxId);
      var archiveCount := 0;
      if count > 0 {
        for i := 0 to maxId
          invariant archiveCount == |Below(recs, i)|
          invariant archive.bytes + EncFrom(recs, i, maxId) == all
        {
          var stored := StoreAt(archive, i, all);
          if stored {
            archiveCount := archiveCount + 1;
          }
        }
      } else {
        NoneFrom(recs, 0, maxId);
      }
      ok := count == archiveCount;
    }

    /** The vector is filled up with unused slots. */
    method SkipTo(id: nat)
      requires Valid() && id <= MAX_ID
      modifies `slots, `maxId, vec, vec.segs
      ensures Valid() && maxId == if id < old(maxId) then old(maxId) else id
      ensures forall k | 0 <= k < |vec.segs| :: vec.segs[k] in old(vec.segs) || fresh(vec.segs[k])
    {
      while maxId < id
        invariant Valid() && old(maxId) <= maxId && (maxId <= id || maxId == old(maxId))
        invariant forall k | 0 <= k < |vec.segs| :: vec.segs[k] in old(vec.segs) || fresh(vec.segs[k])
        decreases id - maxId
      {
        label L:
        Place(maxId, null);
        maxId := maxId + 1;
        forall i: nat | i < |slots| ensures SlotAt(i) {
          assert i < |old@L(slots)| ==> old@L(SlotAt(i));
        }
        forall x | x in ents ensures EntryAt(x) {
          assert old@L(EntryAt(x));
        }
      }
    }

    /** What follows the id of an entry is read. */
    method ReadRec(archive: Archive, ghost r: Rec, ghost rest: seq<Byte>)
      returns (bytes: seq<Byte>, hashVal: nat, refCount: nat)
      requires |r.bytes| < VLU_LIMIT && r.hash < 0x1_0000_0000 && r.ref < VLU_LIMIT && archive.Valid()
      requires archive.Rest() == EncVLU(|r.bytes|) + (r.bytes + (EncUInt32(r.hash) + (EncVLU(r.ref) + rest)))
      modifies archive`pos
      ensures archive.Valid() && archive.Rest() == rest && Rec(bytes, hashVal, refCount) == r
    {
      ghost var tail := EncUInt32(r.hash) + (EncVLU(r.ref) + rest);
      var len := archive.ExtractKnown(|r.bytes|, r.bytes + tail);
      bytes := archive.GetBytes(len);
      assert bytes == (r.bytes + tail)[..len] == r.bytes;
      assert archive.Rest() == (r.bytes + tail)[len..] == tail;
      RoundTripUInt32(r.hash);
      hashVal := archive.GetUInt32();
      assert tail[..4] == EncUInt32(r.hash) && tail[4..] == EncVLU(r.ref) + rest;
      refCount := archive.ExtractKnown(r.ref, rest);
    }

    /** SegmentTable::load into a table that holds nothing, be it new or emptied by drops, from an
        archive that goes on with the serial form of the entries m: the table then holds m, and
        nothing more was read. */
    method Load(archive: Archive, ghost m: Recs, ghost n: nat, ghost rest: seq<Byte>)
      requires Valid() && recs == map[]
      requires Interned(m) && (forall i | i in m :: i < n) && |m| < VLU_LIMIT
      requires archive.Valid() && archive.Rest() == Serial(m, n) + rest
      modifies this, hashTab, ents, vec, vec.segs, archive`pos
      ensures Valid() && recs == m && archive.Valid() && archive.Rest() == rest
      ensures if m == map[] then maxId == old(maxId) else maxId > 0 && maxId - 1 in m
      ensures fresh(ents - old(ents))
      ensures forall k | 0 <= k < |vec.segs| :: vec.segs[k] in old(vec.segs) || fresh(vec.segs[k])
    {
      hide EncFrom, Interned;
      ghost var from := EncFrom(m, 0, n) + rest;
      Regroup(EncVLU(|m|), EncFrom(m, 0, n), rest);
      var c := archive.ExtractKnown(|m|, from);
      BelowBounds(m, n);
      assert minFreeId > 0 ==> 0 in recs;
      ghost var p := 0;
      for i := 0 to c
        invariant Valid() && minFreeId == 0 && archive.Valid()
        invariant recs == Below(m, p) && |recs| == i && (recs == map[] || p == maxId)
        invariant if i == 0 then maxId == old(maxId) else maxId > 0 && maxId - 1 in m
        invariant archive.Rest() == EncFrom(m, p, n) + rest
        invariant fresh(ents - old(ents))
        invariant forall k | 0 <= k < |vec.segs| :: vec.segs[k] in old(vec.segs) || fresh(vec.segs[k])
      {
        LoadEntry(archive, m, n, rest, p);
        p := maxId;
      }
      AllRead(m, p, n, rest);
    }

    /** One entry is read and added; those below p have been read. */
    method LoadEntry(archive: Archive, ghost m: Recs, ghost n: nat, ghost rest: seq<Byte>, ghost p: nat)
      requires Valid() && minFreeId == 0 && archive.Valid()
      requires Interned(m) && (forall i | i in m :: i < n)
      requires recs == Below(m, p) && |recs| < |m| && (recs == map[] || p == maxId)
      requires archive.Rest() == EncFrom(m, p, n) + rest
      modifies this, hashTab, ents, vec, vec.segs, archive`pos
      ensures Valid() && minFreeId == 0 && archive.Valid()
      ensures recs == Below(m, maxId) && |recs| == |old(recs)| + 1 && maxId > 0 && maxId - 1 in m
      ensures archive.Rest() == EncFrom(m, maxId, n) + rest
      ensures fresh(ents - old(ents))
      ensures forall k | 0 <= k < |vec.segs| :: vec.segs[k] in old(vec.segs) || fresh(vec.segs[k])
    {
      hide EncFrom, Interned, VecOk;
      ghost var id0, r := NextRec(m, n, p);
      ghost var more := EncFrom(m, id0 + 1, n) + rest;
      Regroup(EncRec(id0, r), EncFrom(m, id0 + 1, n), rest);
      var id := LoadId(archive, id0, r, more);
      LoadBody(archive, id, r, more);
    }

    /** The id is read and the slots before it are filled up. */
    method LoadId(archive: Archive, ghost id0: nat, ghost r: Rec, ghost rest: seq<Byte>) returns (id: nat)
      requires Valid() && id0 < MAX_ID
      requires |r.bytes| < VLU_LIMIT && r.hash < 0x1_0000_0000 && r.ref < VLU_LIMIT
      requires archive.Valid() && archive.Rest() == EncRec(id0, r) + rest
      modifies `slots, `maxId, vec, vec.segs, archive`pos
      ensures Valid() && id == id0 <= maxId && archive.Valid()
      ensures archive.Rest() == EncVLU(|r.bytes|) + (r.bytes + (EncUInt32(r.hash) + (EncVLU(r.ref) + rest)))
      ensures forall k | 0 <= k < |vec.segs| :: vec.segs[k] in old(vec.segs) || fresh(vec.segs[k])
    {
      id := ReadId(archive, id0, r, rest);
      SkipTo(id);
    }

    /** The rest of the entry is read, and the entry is added. */
    method LoadBody(archive: Archive, id: nat, ghost r: Rec, ghost rest: seq<Byte>)
      requires Valid() && id <= maxId && id < MAX_ID && (forall i | i in recs :: i < id) && Interned(recs[id := r])
      requires |r.bytes| < VLU_LIMIT && r.hash < 0x1_0000_0000 && r.ref < VLU_LIMIT && archive.Valid()
      requires archive.Rest() == EncVLU(|r.bytes|) + (r.bytes + (EncUInt32(r.hash) + (EncVLU(r.ref) + rest)))
      modifies this, hashTab, ents, vec, vec.segs, archive`pos
      ensures Valid() && maxId == id + 1 && minFreeId == old(minFreeId) && recs == old(recs)[id := r]
      ensures archive.Valid() && archive.Rest() == rest
      ensures fresh(ents - old(ents))
      ensures forall k | 0 <= k < |vec.segs| :: vec.segs[k] in old(vec.segs) || fresh(vec.segs[k])
    {
      var bytes, hashVal, refCount := ReadRec(archive, r, rest);
      AddLast(id, bytes, hashVal, refCount);
    }

    /** The unused slots from n on do not count any more. */
    ghost method Cut(n: nat)
      requires Agree() && n <= |slots| && forall i | i in recs :: i < n
      modifies `slots
      ensures Agree() && slots == old(slots)[..n]
    {
      ghost var was := slots;
      slots := slots[..n];
      forall i: nat | i < |slots| ensures SlotAt(i) {
        assert old(SlotAt(i));
      }
      forall x | x in ents ensures EntryAt(x) {
        assert old(EntryAt(x)) && old(SlotAt(x.id));
      }
      assert vec.cells[..n] == was[..n];
    }

    /** An entry is added behind all others, and the next id is the one after it. */
    method AddLast(id: nat, bytes: seq<Byte>, hashVal: nat, refCount: nat)
      requires Valid() && id <= maxId && id < MAX_ID && forall i | i in recs :: i < id
      requires Interned(recs[id := Rec(bytes, hashVal, refCount)])
      modifies this, hashTab, ents, vec, vec.segs
      ensures Valid() && maxId == id + 1 && minFreeId == old(minFreeId)
      ensures recs == old(recs)[id := Rec(bytes, hashVal, refCount)]
      ensures fresh(ents - old(ents))
      ensures forall k | 0 <= k < |vec.segs| :: vec.segs[k] in old(vec.segs) || fresh(vec.segs[k])
    {
      var e := AddEntry(id, bytes, hashVal, refCount);
      maxId := id + 1;
      Cut(id + 1);
    }

    /** The next entry that the archive holds. */
    lemma NextRec(m: Recs, n: nat, p: nat) returns (id: nat, r: Rec)
      requires Interned(m) && (forall i | i in m :: i < n)
      requires recs == Below(m, p) && |recs| < |m|
      ensures id in m && p <= id < MAX_ID && id !in recs
      ensures |r.bytes| < VLU_LIMIT && r.hash < 0x1_0000_0000 && r.ref <= MAX_REF
      ensures EncFrom(m, p, n) == EncRec(id, r) + EncFrom(m, id + 1, n)
      ensures recs[id := r] == Below(m, id + 1) && |recs[id := r]| == |recs| + 1 && Interned(recs[id := r])
    {
      MoreToCome(m, p, n);
      id := FirstFrom(m, p, n);
      BelowNext(m, p, id);
      BelowInterned(m, id + 1);
      assert RecOk(m, id);
      r := m[id];
    }

    /** The id of an entry is read. */
    method ReadId(archive: Archive, ghost id0: nat, ghost r: Rec, ghost rest: seq<Byte>) returns (id: nat)
      requires id0 < MAX_ID && |r.bytes| < VLU_LIMIT && r.hash < 0x1_0000_0000 && r.ref < VLU_LIMIT
      requires archive.Valid() && archive.Rest() == EncRec(id0, r) + rest
      modifies archive`pos
      ensures id == id0 && archive.Valid()
      ensures archive.Rest() == EncVLU(|r.bytes|) + (r.bytes + (EncUInt32(r.hash) + (EncVLU(r.ref) + rest)))
    {
      ghost var body := EncVLU(|r.bytes|) + (r.bytes + (EncUInt32(r.hash) + (EncVLU(r.ref) + rest)));
      assert EncRec(id0, r) + rest == EncVLU(id0) + body;
      id := archive.ExtractKnown(id0, body);
    }
  }

  /** A table that is stored and loaded into an empty one, with any number of slots and any
      segment size, is the same table: the same bytes, hash values and reference counts under
      the same ids. The answers of LookUp and the next id of AddSegment are functions of
      these, and so the same as well. */
  method StoreAndLoad(t: SegmentTable, nSlots: nat, nPerSeg: nat) returns (u: SegmentTable, ok: bool)
    requires t.Valid() && nSlots > 0 && nPerSeg > 0
    ensures fresh(u) && u.Valid() && u.recs == t.recs && t.Valid() && ok
    ensures fresh(u.hashTab) && fresh(u.ents) && fresh(u.vec) && fresh(u.vec.segs)
  {
    hide SegmentTable.Agree, Serial, EncFrom, Interned;
    t.Held();
    var archive := new Archive();
    ok := t.Store(archive);
    u := new SegmentTable(nSlots, nPerSeg);
    assert archive.Rest() == Serial(t.recs, t.maxId) + [];
    u.Load(archive, t.recs, t.maxId, []);
  }
  /** After that, the same byte string gets the same id in both tables, and they hold the same again:
      the next id does not depend on how far the first table had once been filled. */
  method AddToBoth(t: SegmentTable, nSlots: nat, nPerSeg: nat, bytes: seq<Byte>)
    returns (u: SegmentTable, id: int, id': int)
    requires t.Valid() && nSlots > 0 && nPerSeg > 0 && Fits(t.recs, Add(bytes))
    modifies t, t.hashTab, t.ents, t.vec, t.vec.segs
    ensures t.Valid() && u.Valid() && u.recs == t.recs == Step(old(t.recs), Add(bytes))
    ensures id == id' && if bytes == [] then id == -1 else id in t.recs && t.recs[id].bytes == bytes
  {
    hide SegmentTable.Agree, Step, Interned, Fits;
    var ok;
    u, ok := StoreAndLoad(t, nSlots, nPerSeg);
    var hashVal := u.HashDJB2(bytes);
    id' := u.AddSegment(bytes, hashVal);
    id := t.AddSegment(bytes, hashVal);
    u.Held();
    if bytes != [] {
      IdOfUnique(u.recs, id);
      IdOfUnique(u.recs, id');
    }
  }
}
