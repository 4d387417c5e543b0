/** The address-ordered free list of a block: a singly linked list threaded through the
    words w of its data area [lo, lo + |w|). The link of the free segment at a is the word
    at a + DESCR. */
module FreeLists {
  import opened Descriptors
  import opened SegMaps

  ghost predicate HasLink(w: seq<nat>, lo: nat, a: nat) {
    lo <= a && a + DESCR < lo + |w|
  }

  /** The word at the link of the segment at a. */
  ghost function Link(w: seq<nat>, lo: nat, a: nat): nat {
    if HasLink(w, lo, a) then w[a + DESCR - lo] else NULL
  }

  ghost predicate LinkOk(f: set<nat>, lo: nat, w: seq<nat>, a: nat) {
    HasLink(w, lo, a) && IsNext(f, a + 1, Link(w, lo, a))
  }

  /** The head is the first address in f and every link names the next one. */
  ghost predicate Linked(f: set<nat>, lo: nat, hd: nat, w: seq<nat>) {
    && IsNext(f, lo, hd)
    && forall a {:trigger LinkOk(f, lo, w, a)} | a in f :: LinkOk(f, lo, w, a)
  }

  // ---- Following the links ----

  /** The addresses met when the links are followed from q upwards. */
  ghost function Chain(lo: nat, w: seq<nat>, q: nat): seq<nat>
    decreases lo + |w| - q
  {
    if q == NULL || !HasLink(w, lo, q) then []
    else [q] + if Link(w, lo, q) <= q then [] else Chain(lo, w, Link(w, lo, q))
  }

  ghost predicate Ascending(s: seq<nat>) {
    forall i, j | 0 <= i < j < |s| :: s[i] < s[j]
  }

  /** The links followed from the first entry on: exactly the entries, in ascending order. */
  lemma {:induction false} ChainIsList(f: set<nat>, lo: nat, w: seq<nat>, a: nat, q: nat)
    requires 0 < lo && IsNext(f, a, q)
    requires forall p {:trigger LinkOk(f, lo, w, p)} | p in f :: LinkOk(f, lo, w, p)
    ensures Ascending(Chain(lo, w, q))
    ensures forall p :: p in Chain(lo, w, q) <==> p in f && a <= p
    decreases lo + |w| - q
  {
    if q != NULL {
      assert LinkOk(f, lo, w, q);
      var n := Link(w, lo, q);
      if n != NULL {
        var c := Chain(lo, w, n);
        ChainIsList(f, lo, w, q + 1, n);
        AscendingCons(q, c);
        assert Chain(lo, w, q) == [q] + c;
        NextThen(f, a, q, c);
      } else {
        assert Chain(lo, w, q) == [q];
      }
    }
  }

  lemma NextThen(f: set<nat>, a: nat, q: nat, c: seq<nat>)
    requires q != NULL && IsNext(f, a, q)
    requires forall p :: p in c <==> p in f && q + 1 <= p
    ensures forall p :: p in [q] + c <==> p in f && a <= p
  {
  }

  lemma AscendingCons(q: nat, s: seq<nat>)
    requires Ascending(s) && forall p | p in s :: q < p
    ensures Ascending([q] + s)
  {
    assert forall i | 0 <= i < |s| :: s[i] in s;
  }

  lemma {:induction false} AscendingCount(s: seq<nat>, f: set<nat>)
    requires Ascending(s) && forall p :: p in s <==> p in f
    ensures |s| == |f|
    decreases |s|
  {
    if s == [] {
      assert f == {} by {
        assert forall p | p in f :: p in s;
      }
    } else {
      var t := s[1..];
      assert s == [s[0]] + t;
      forall p ensures p in t <==> p in f - {s[0]} {
        if p in t {
          var i :| 0 <= i < |t| && t[i] == p;
          assert s[i + 1] == p && p in s;
        }
        assert p in f - {s[0]} ==> p in s;
      }
      AscendingCount(t, f - {s[0]});
      assert s[0] in s;
    }
  }

  // ---- Neighbours in the list ----

  /** prev is the entry before a, or NULL when a is the first one. */
  ghost predicate IsPrev(f: set<nat>, lo: nat, hd: nat, w: seq<nat>, prev: nat, a: nat) {
    if prev == NULL then hd == a
    else prev in f && prev < a && HasLink(w, lo, prev) && Link(w, lo, prev) == a
  }

  ghost predicate LinkKept(w: seq<nat>, w': seq<nat>, lo: nat, p: nat) {
    HasLink(w, lo, p) && Link(w', lo, p) == Link(w, lo, p)
  }

  /** The pointer that led past prev now leads to q; all other links of f are as before. */
  ghost predicate Redirected(f: set<nat>, lo: nat, hd: nat, w: seq<nat>, hd': nat, w': seq<nat>,
                             prev: nat, q: nat) {
    && |w'| == |w|
    && (forall p {:trigger LinkKept(w, w', lo, p)} | p in f && p != prev :: LinkKept(w, w', lo, p))
    && (if prev == NULL then hd' == q
        else hd' == hd && HasLink(w, lo, prev) && Link(w', lo, prev) == q)
  }

  // ---- Removing an entry ----

  lemma ListRemove(f: set<nat>, lo: nat, hd: nat, w: seq<nat>, hd': nat, w': seq<nat>, prev: nat, a: nat)
    requires lo > 0 && a > 0
    requires Linked(f, lo, hd, w) && a in f && IsPrev(f, lo, hd, w, prev, a)
    requires Redirected(f - {a}, lo, hd, w, hd', w', prev, Link(w, lo, a))
    ensures Linked(f - {a}, lo, hd', w')
  {
    var g, q := f - {a}, Link(w, lo, a);
    assert LinkOk(f, lo, w, a);
    PrevIsLast(f, lo, hd, w, prev, a);
    NextRemoved(f, lo, hd, a, q);
    forall p | p in g ensures LinkOk(g, lo, w', p) {
      assert LinkOk(f, lo, w, p);
      NextRemoved(f, p + 1, Link(w, lo, p), a, q);
      assert p != prev ==> LinkKept(w, w', lo, p);
    }
  }

  /** Removing a redirects to q the one search that ended at a. */
  lemma NextRemoved(f: set<nat>, x: nat, y: nat, a: nat, q: nat)
    requires IsNext(f, x, y) && a in f && a > 0 && IsNext(f, a + 1, q)
    ensures IsNext(f - {a}, x, if y == a then q else y)
  {
  }

  /** The entry before a is the last one below it, and no other link names a. */
  lemma PrevIsLast(f: set<nat>, lo: nat, hd: nat, w: seq<nat>, prev: nat, a: nat)
    requires a in f && a > 0 && lo > 0
    requires Linked(f, lo, hd, w) && IsPrev(f, lo, hd, w, prev, a)
    ensures forall p | p in f && p < a :: p <= prev
    ensures forall p | p in f && Link(w, lo, p) == a :: p == prev
    ensures prev != NULL ==> hd != a
  {
    assert prev != NULL ==> LinkOk(f, lo, w, prev);
    forall p | p in f ensures lo <= p && (p < a ==> p <= prev) && (Link(w, lo, p) == a ==> p == prev) {
      assert LinkOk(f, lo, w, p);
    }
  }

  // ---- Replacing an entry ----

  lemma ListReplace(f: set<nat>, lo: nat, hd: nat, w: seq<nat>, hd': nat, w': seq<nat>,
                    prev: nat, a: nat, b: nat)
    requires lo > 0 && a > 0
    requires Linked(f, lo, hd, w) && a in f && IsPrev(f, lo, hd, w, prev, a)
    requires HasLink(w, lo, b) && prev < b && b !in f - {a}
    requires Link(w, lo, a) == NULL || b < Link(w, lo, a)
    requires Redirected(f - {a}, lo, hd, w, hd', w', prev, b)
    requires Link(w', lo, b) == Link(w, lo, a)
    ensures Linked(f - {a} + {b}, lo, hd', w')
  {
    var g, q := f - {a} + {b}, Link(w, lo, a);
    assert LinkOk(f, lo, w, a);
    PrevIsLast(f, lo, hd, w, prev, a);
    NextReplaced(f, lo, hd, a, b, q, prev);
    NextOfNew(f, a, b, q, prev);
    forall p | p in g ensures LinkOk(g, lo, w', p) {
      if p != b {
        assert LinkOk(f, lo, w, p);
        NextReplaced(f, p + 1, Link(w, lo, p), a, b, q, prev);
        assert p != prev ==> LinkKept(w, w', lo, p);
      }
    }
  }

  lemma NextOfNew(f: set<nat>, a: nat, b: nat, q: nat, prev: nat)
    requires a in f && IsNext(f, a + 1, q)
    requires (q == NULL || b < q) && prev < b
    requires forall p | p in f && p < a :: p <= prev
    ensures IsNext(f - {a} + {b}, b + 1, q)
  {
  }

  /** Replacing a by b redirects to b the one search that ended at a. */
  lemma NextReplaced(f: set<nat>, x: nat, y: nat, a: nat, b: nat, q: nat, prev: nat)
    requires IsNext(f, x, y) && a in f && a > 0 && IsNext(f, a + 1, q)
    requires (q == NULL || b < q) && prev < b && b !in f - {a}
    requires forall p | p in f && p < a :: p <= prev
    requires x <= a <==> x <= b
    ensures IsNext(f - {a} + {b}, x, if y == a then b else y)
  {
  }

  // ---- Inserting an entry ----

  lemma ListInsert(f: set<nat>, lo: nat, hd: nat, w: seq<nat>, hd': nat, w': seq<nat>,
                   prev: nat, next: nat, a: nat)
    requires lo > 0 && a > 0
    requires Linked(f, lo, hd, w) && Between(f, a, prev, next)
    requires HasLink(w, lo, a) && a !in f
    requires Redirected(f, lo, hd, w, hd', w', prev, a)
    requires Link(w', lo, a) == next
    ensures Linked(f + {a}, lo, hd', w')
  {
    var g := f + {a};
    assert prev != NULL ==> LinkOk(f, lo, w, prev);
    NextInserted(f, lo, hd, a, prev, next);
    assert IsNext(g, a + 1, next);
    forall p | p in g ensures LinkOk(g, lo, w', p) {
      if p != a {
        assert LinkOk(f, lo, w, p);
        NextInserted(f, p + 1, Link(w, lo, p), a, prev, next);
        assert p != prev ==> LinkKept(w, w', lo, p);
      }
    }
  }

  /** Inserting a redirects to a the searches that start after prev and reach next. */
  lemma NextInserted(f: set<nat>, x: nat, y: nat, a: nat, prev: nat, next: nat)
    requires IsNext(f, x, y) && Between(f, a, prev, next) && a > 0 && x > 0
    ensures IsNext(f + {a}, x, if prev < x <= a then a else y)
  {
  }
}
