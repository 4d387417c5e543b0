/** The serial form of a segment table: the number of entries, then the entries by ascending
    id, each as id, length, bytes, hash value and reference count. */
module TableFormat {
  import opened Codec
  import opened Archives
  import opened Interning

  ghost function EncRec(id: nat, r: Rec): seq<Byte>
    requires id < VLU_LIMIT && |r.bytes| < VLU_LIMIT && r.hash < 0x1_0000_0000 && r.ref < VLU_LIMIT
  {
    EncVLU(id) + (EncVLU(|r.bytes|) + (r.bytes + (EncUInt32(r.hash) + EncVLU(r.ref))))
  }

  /** What there is under the id i. */
  ghost function EncAt(m: Recs, i: nat): seq<Byte>
    requires Interned(m)
  {
    if i in m then
      assert RecOk(m, i); EncRec(i, m[i])
    else []
  }

  /** The entries with ids from i up to n. */
  ghost function EncFrom(m: Recs, i: nat, n: nat): seq<Byte>
    requires Interned(m)
    decreases n - i
  {
    if i >= n then [] else EncAt(m, i) + EncFrom(m, i + 1, n)
  }

  ghost function Serial(m: Recs, n: nat): seq<Byte>
    requires Interned(m) && |m| < VLU_LIMIT
  {
    EncVLU(|m|) + EncFrom(m, 0, n)
  }

  /** The serial form field by field: the number of entries; then, by ascending id, each as id, length,
      bytes, hash value with the little end first, and reference count. */
  lemma SerialFields(m: Recs, i: nat, n: nat)
    requires Interned(m) && |m| < VLU_LIMIT
    ensures Serial(m, n) == EncVLU(|m|) + EncFrom(m, 0, n)
    ensures i >= n ==> EncFrom(m, i, n) == []
    ensures i < n && i !in m ==> EncFrom(m, i, n) == EncFrom(m, i + 1, n)
    ensures i < n && i in m ==>
              && i < VLU_LIMIT && |m[i].bytes| < VLU_LIMIT && m[i].ref < VLU_LIMIT && m[i].hash < 0x1_0000_0000
              && var h := m[i].hash;
                 EncFrom(m, i, n) ==
                 EncVLU(i) + EncVLU(|m[i].bytes|) + m[i].bytes
                 + [h % 0x100, h / 0x100 % 0x100, h / 0x1_0000 % 0x100, h / 0x100_0000]
                 + EncVLU(m[i].ref) + EncFrom(m, i + 1, n)
  {
    if i < n { EncStep(m, i, n); }
    if i < n && i in m {
      assert RecOk(m, i);
      var r := m[i];
      FieldsTogether(EncVLU(i), EncVLU(|r.bytes|), r.bytes, EncUInt32(r.hash), EncVLU(r.ref), EncFrom(m, i + 1, n));
    }
  }

  lemma FieldsTogether(a: seq<Byte>, b: seq<Byte>, c: seq<Byte>, d: seq<Byte>, e: seq<Byte>, f: seq<Byte>)
    ensures (a + (b + (c + (d + e)))) + f == a + b + c + d + e + f
  {
  }

  /** id is the first one from i on. */
  ghost predicate IsFirst(m: Recs, i: nat, id: nat) {
    id in m && i <= id && forall j | i <= j < id :: j !in m
  }

  lemma EncStep(m: Recs, i: nat, n: nat)
    requires Interned(m) && i < n
    ensures EncFrom(m, i, n) == EncAt(m, i) + EncFrom(m, i + 1, n)
    ensures i !in m ==> EncAt(m, i) == [] && EncFrom(m, i, n) == EncFrom(m, i + 1, n)
  {
    NothingBefore(EncFrom(m, i + 1, n));
  }

  lemma NothingBefore(s: seq<Byte>)
    ensures [] + s == s
  {
  }

  lemma {:induction false} FirstFrom(m: Recs, i: nat, n: nat) returns (id: nat)
    requires Interned(m) && exists j :: j in m && i <= j < n
    ensures IsFirst(m, i, id) && id < n
    ensures EncFrom(m, i, n) == EncAt(m, id) + EncFrom(m, id + 1, n)
    decreases n - i
  {
    hide EncAt;
    EncStep(m, i, n);
    if i in m {
      id := i;
    } else {
      id := FirstFrom(m, i + 1, n);
    }
  }

  lemma {:induction false} NoneFrom(m: Recs, i: nat, n: nat)
    requires Interned(m) && forall j | j in m :: !(i <= j < n)
    ensures EncFrom(m, i, n) == []
    decreases n - i
  {
    if i < n {
      NoneFrom(m, i + 1, n);
    }
  }

  /** The entries with ids below n. */
  ghost function Below(m: Recs, n: nat): Recs {
    map i | i in m && i < n :: m[i]
  }

  lemma BelowNext(m: Recs, i: nat, id: nat)
    requires IsFirst(m, i, id)
    ensures Below(m, id + 1) == Below(m, i)[id := m[id]]
    ensures id !in Below(m, i) && |Below(m, id + 1)| == |Below(m, i)| + 1
  {
    assert Below(m, id + 1) == Below(m, i)[id := m[id]];
    assert Below(m, id + 1).Keys == Below(m, i).Keys + {id};
  }

  /** Where not all entries lie below i, there is another one from i on. */
  lemma MoreToCome(m: Recs, i: nat, n: nat)
    requires forall j | j in m :: j < n
    ensures |Below(m, i)| <= |m|
    ensures |Below(m, i)| < |m| ==> exists j :: j in m && i <= j < n
    ensures |Below(m, i)| == |m| ==> Below(m, i) == m
  {
    var b := Below(m, i);
    assert b.Keys <= m.Keys;
    SubsetSize(b.Keys, m.Keys);
    if forall j | j in m :: j < i {
      assert b == m;
    } else {
      var j :| j in m && j >= i;
      assert i <= j < n;
      SubsetSize(b.Keys, m.Keys - {j});
    }
  }

  lemma {:induction false} SubsetSize<T>(s: set<T>, t: set<T>)
    requires s <= t
    ensures |s| <= |t|
    ensures |s| == |t| ==> s == t
  {
    if s != {} {
      var x :| x in s;
      SubsetSize(s - {x}, t - {x});
    }
  }

  ghost function Range(n: nat): (s: set<nat>)
    ensures |s| == n && forall i: nat :: i in s <==> i < n
  {
    if n == 0 then {} else Range(n - 1) + {n - 1}
  }

  lemma FewerThan(m: Recs, n: nat)
    requires forall i | i in m :: i < n
    ensures |m| <= n
  {
    SubsetSize(m.Keys, Range(n));
    assert |m.Keys| == |m|;
  }

  /** The i-th step of a writer: what is written and what is to come make up the whole. */
  lemma NextWritten(m: Recs, i: nat, n: nat, w: seq<Byte>, all: seq<Byte>)
    requires Interned(m) && i < n && w + EncFrom(m, i, n) == all
    ensures (w + EncAt(m, i)) + EncFrom(m, i + 1, n) == all
    ensures |Below(m, i + 1)| == |Below(m, i)| + if i in m then 1 else 0
  {
    EncStep(m, i, n);
    Regroup(w, EncAt(m, i), EncFrom(m, i + 1, n));
    if i in m {
      BelowNext(m, i, i);
    } else {
      assert Below(m, i + 1) == Below(m, i);
    }
  }

  lemma BelowBounds(m: Recs, n: nat)
    requires forall i | i in m :: i < n
    ensures Below(m, 0) == map[] && Below(m, n) == m
  {
  }

  lemma BelowInterned(m: Recs, n: nat)
    requires Interned(m)
    ensures Interned(Below(m, n))
  {
    var b := Below(m, n);
    forall i | i in b ensures RecOk(b, i) {
      assert RecOk(m, i);
    }
    forall i, j | i in b && j in b ensures Differ(b, i, j) {
      assert Differ(m, i, j);
    }
  }

  lemma AllRead(m: Recs, i: nat, n: nat, rest: seq<Byte>)
    requires Interned(m) && (forall j | j in m :: j < n) && |Below(m, i)| == |m|
    ensures Below(m, i) == m && EncFrom(m, i, n) + rest == rest
  {
    MoreToCome(m, i, n);
    assert forall j | j in m :: j in Below(m, i);
    NoneFrom(m, i, n);
  }
}
