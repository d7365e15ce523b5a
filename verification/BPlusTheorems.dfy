/** What the invariant of the index says about the tree as a whole. */
module BPlusTheorems {
  import opened BPlusState
  import opened BPlusInsertSteps
  import opened BPlusDeleteSteps
  import opened BPlusInsertRefine

  // ---- occupancy gives a minimum size ----

  /** The entries with keys in [a, b). */
  ghost function EntriesIn(s: St, a: int, b: int): set<Entry> {
    set e | e in Contents(s) && a <= e.key < b
  }

  ghost function Pow(b: nat, e: nat): nat {
    if e == 0 then 1 else b * Pow(b, e - 1)
  }

  lemma {:induction false} PowNotZero(b: nat, h: nat)
    requires b >= 1
    ensures Pow(b, h) >= 1
  {
    if h > 0 {
      PowNotZero(b, h - 1);
    }
  }

  /** The least number of entries under a page of height `h` away from the root. */
  ghost function Least(c: Cfg, h: nat): nat
    requires c.Ok()
  {
    if h == 0 then c.leafMax / 2 else Times(c.internalMax / 2, Least(c, h - 1))
  }

  ghost function Times(n: nat, x: nat): nat {
    if n == 0 then 0 else x + Times(n - 1, x)
  }

  lemma {:induction false} TimesIs(n: nat, x: nat)
    ensures Times(n, x) == n * x
  {
    if n > 0 {
      TimesIs(n - 1, x);
    }
  }

  lemma {:induction false} TimesMono(n: nat, m: nat, x: nat)
    requires n <= m
    ensures Times(n, x) <= Times(m, x)
  {
    if n < m {
      TimesMono(n, m - 1, x);
    }
  }

  /** In closed form: half a leaf times half an internal node per level. */
  lemma {:induction false} LeastIs(c: Cfg, h: nat)
    requires c.Ok()
    ensures Least(c, h) == Pow(c.internalMax / 2, h) * (c.leafMax / 2)
  {
    if h > 0 {
      LeastIs(c, h - 1);
      TimesIs(c.internalMax / 2, Least(c, h - 1));
      PowStep(c.internalMax / 2, h, c.leafMax / 2);
    }
  }

  lemma PowStep(b: nat, e: nat, x: nat)
    requires e > 0
    ensures Pow(b, e) * x == b * (Pow(b, e - 1) * x)
  {
  }

  lemma EntriesSplit(s: St, a: int, m: int, b: int)
    requires a <= m <= b
    ensures |EntriesIn(s, a, b)| == |EntriesIn(s, a, m)| + |EntriesIn(s, m, b)|
  {
    assert EntriesIn(s, a, b) == EntriesIn(s, a, m) + EntriesIn(s, m, b);
    assert EntriesIn(s, a, m) !! EntriesIn(s, m, b);
  }

  /** Distinct items of a sequence make a set of the same size. */
  lemma {:induction false} DistinctCount(es: seq<Entry>)
    requires Sorted(es)
    ensures |set e | e in es| == |es|
  {
    if es != [] {
      var n := |es| - 1;
      DistinctCount(es[..n]);
      assert es == es[..n] + [es[n]];
      assert (set e | e in es) == (set e | e in es[..n]) + {es[n]};
      assert es[n] !in es[..n];
    }
  }

  lemma LeafCount(c: Cfg, s: St, p: int)
    requires Struct(c, s, -1, -1) && p in s.pages && s.pages[p].Leaf?
    ensures |EntriesIn(s, s.g[p].lo, s.g[p].hi)| >= |s.pages[p].entries|
  {
    var es := s.pages[p].entries;
    assert LeafAt(es, s.g[p].lo, s.g[p].hi);
    DistinctCount(es);
    var all := set e | e in es;
    assert all <= EntriesIn(s, s.g[p].lo, s.g[p].hi);
    SubsetSize(all, EntriesIn(s, s.g[p].lo, s.g[p].hi));
  }

  lemma SubsetSize(a: set<Entry>, b: set<Entry>)
    requires a <= b
    ensures |a| <= |b|
  {
    assert b == a + (b - a);
  }

  /** If every child of `q` covers at least `least` entries, `j` of them cover `j` times as many. */
  lemma {:induction false} KidsCount(c: Cfg, s: St, q: int, j: nat, least: nat)
    requires Struct(c, s, -1, -1) && q in s.pages && s.pages[q].Internal? && j <= |s.pages[q].kids|
    requires forall k :: k in s.pages && s.pages[k].parent == q ==> |EntriesIn(s, s.g[k].lo, s.g[k].hi)| >= least
    ensures |EntriesIn(s, s.g[q].lo, Sep(s.pages[q].kids, s.g[q].lo, s.g[q].hi, j))| >= Times(j, least)
  {
    if j > 0 {
      var ks, lo, hi := s.pages[q].kids, s.g[q].lo, s.g[q].hi;
      KidsCount(c, s, q, j - 1, least);
      assert |EntriesIn(s, Sep(ks, lo, hi, j - 1), Sep(ks, lo, hi, j))| >= least by {
        assert KidsAt(c, s, -1, -1, q) && KidAt(c, s, -1, -1, q, j - 1);
      }
      SepsLe(c, s, q, 0, j - 1);
      SepsLe(c, s, q, j - 1, j);
      EntriesSplit(s, lo, Sep(ks, lo, hi, j - 1), Sep(ks, lo, hi, j));
    }
  }

  lemma KidsTotal(c: Cfg, s: St, q: int, n: nat, least: nat)
    requires Struct(c, s, -1, -1) && q in s.pages && s.pages[q].Internal? && n <= |s.pages[q].kids|
    requires forall k :: k in s.pages && s.pages[k].parent == q ==> |EntriesIn(s, s.g[k].lo, s.g[k].hi)| >= least
    ensures |EntriesIn(s, s.g[q].lo, s.g[q].hi)| >= Times(n, least)
  {
    var m := |s.pages[q].kids|;
    assert KidsAt(c, s, -1, -1, q);
    KidsCount(c, s, q, m, least);
    TimesMono(n, m, least);
  }

  /** Away from the root a page of height `h` covers at least `Least(h)` entries. */
  lemma {:induction false} NodeCount(c: Cfg, s: St, p: int)
    requires Struct(c, s, -1, -1) && OccOk(c, s, -1) && p in s.pages && p != s.root
    ensures |EntriesIn(s, s.g[p].lo, s.g[p].hi)| >= Least(c, s.g[p].ht)
    decreases s.g[p].ht
  {
    assert SizeOk(c, s.pages[p], false);
    if s.pages[p].Leaf? {
      LeafCount(c, s, p);
    } else {
      ChildrenCount(c, s, p);
      KidsTotal(c, s, p, c.internalMax / 2, Least(c, s.g[p].ht - 1));
    }
  }

  lemma {:induction false} ChildrenCount(c: Cfg, s: St, q: int)
    requires Struct(c, s, -1, -1) && OccOk(c, s, -1) && q in s.pages && s.pages[q].Internal?
    ensures forall k :: k in s.pages && s.pages[k].parent == q ==> |EntriesIn(s, s.g[k].lo, s.g[k].hi)| >= Least(c, s.g[q].ht - 1)
    decreases s.g[q].ht, 0
  {
    forall k | k in s.pages && s.pages[k].parent == q
      ensures |EntriesIn(s, s.g[k].lo, s.g[k].hi)| >= Least(c, s.g[q].ht - 1)
    {
      RootIsNoChild(c, s, k);
      var i := InParent(c, s, k);
      NodeCount(c, s, k);
    }
  }

  lemma RootIsNoChild(c: Cfg, s: St, p: int)
    requires Struct(c, s, -1, -1) && p in s.pages && s.pages[p].parent in s.pages
    ensures p != s.root
  {
  }

  lemma TwiceLeast(c: Cfg, h: nat)
    requires c.Ok()
    ensures Times(2, Least(c, h)) == 2 * (Pow(c.internalMax / 2, h) * (c.leafMax / 2))
  {
    LeastIs(c, h);
    TimesIs(2, Least(c, h));
  }

  /** A tree with internal levels holds at least twice the least content of a child of the root. */
  lemma MinimumSize(c: Cfg, s: St)
    requires Inv(c, s) && s.root != -1 && s.g[s.root].ht >= 1
    ensures |Contents(s)| >= 2 * (Pow(c.internalMax / 2, s.g[s.root].ht - 1) * (c.leafMax / 2))
  {
    var h := s.g[s.root].ht - 1;
    TwoChildren(c, s, s.root);
    SubsetSize(EntriesIn(s, 0, c.limit), Contents(s));
    TwiceLeast(c, h);
  }

  lemma TwoChildren(c: Cfg, s: St, q: int)
    requires Struct(c, s, -1, -1) && OccOk(c, s, -1) && q in s.pages && s.g[q].ht >= 1
    ensures |EntriesIn(s, s.g[q].lo, s.g[q].hi)| >= Times(2, Least(c, s.g[q].ht - 1))
  {
    assert SizeOk(c, s.pages[q], q == s.root);
    ChildrenCount(c, s, q);
    KidsTotal(c, s, q, 2, Least(c, s.g[q].ht - 1));
  }

  // ---- the key stored in slot 0 ----

  /** The ignored slot-0 key of a non-root internal node is the key beside its pointer in the parent. */
  lemma SlotZeroKey(c: Cfg, s: St, p: int) returns (i: int)
    requires Inv(c, s) && p in s.pages && p != s.root && s.pages[p].Internal?
    ensures var q := s.pages[p].parent;
      && q in s.pages && s.pages[q].Internal? && 0 <= i < |s.pages[q].kids| && s.pages[q].kids[i].page == p
      && |s.pages[p].kids| > 0 && s.pages[p].kids[0].key == s.pages[q].kids[i].key
  {
    i := InParent(c, s, p);
    assert KidsAt(c, s, -1, -1, p) && KidAt(c, s, -1, -1, p, 0);
  }

  /** An internal node left with one child is looked up by its slot-0 key. On the left spine that key
      is all zero bytes, and the lookup finds the node exactly when the zero key sorts below the
      parent's first separator; everywhere else it always finds it. */
  lemma SingleChildLookup(c: Cfg, s: St, p: int, i: int, j: int)
    requires 0 <= c.zero < c.limit
    requires Struct(c, s, -1, -1) && p in s.pages && p != s.root && s.pages[p].Internal?
    requires var q := s.pages[p].parent; q in s.pages && s.pages[q].Internal? && 0 <= i < |s.pages[q].kids| && 0 <= j < |s.pages[q].kids| && s.pages[q].kids[i].page == p
    requires forall x :: 1 <= x <= j ==> s.pages[s.pages[p].parent].kids[x].key <= Slot(c, s.g[p].lo)
    requires forall x :: j < x < |s.pages[s.pages[p].parent].kids| ==> Slot(c, s.g[p].lo) < s.pages[s.pages[p].parent].kids[x].key
    ensures s.g[p].lo > 0 ==> j == i
    ensures s.g[p].lo == 0 ==> (j == i <==> |s.pages[s.pages[p].parent].kids| == 1 || c.zero < s.pages[s.pages[p].parent].kids[1].key)
  {
    var q := s.pages[p].parent;
    var ks, lo, hi := s.pages[q].kids, s.g[q].lo, s.g[q].hi;
    assert KidsAt(c, s, -1, -1, q) && KidAt(c, s, -1, -1, q, i) && KidAt(c, s, -1, -1, q, j);
    SepsLe(c, s, q, 0, i);
    SepsLe(c, s, q, i + 1, |ks|);
    if s.g[p].lo > 0 {
      LookupChild(c, s, q, j, s.g[p].lo);
      Unique(c, s, ks[j].page, p, s.g[p].lo);
      KidUnique(c, s, q, i, j);
    }
  }
}
