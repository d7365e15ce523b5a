/** How many pages an index takes up, and when a file has room for one more entry. */
module BPlusCapacity {
  import opened BPlusState
  import opened BPlusInsertSteps
  import opened BPlusDeleteSteps
  import opened BPlusContents
  import opened BPlusRefine
  import opened BPlusInsertRefine
  import opened BPlusTheorems

  // ---- a tree has fewer pages than entries ----

  /** The pages below height `h` whose intervals start in [a, b). */
  ghost function PagesIn(s: St, a: int, b: int, h: int): set<int>
    requires s.g.Keys == s.pages.Keys
  {
    set p | p in s.pages && a <= s.g[p].lo < b && s.g[p].ht < h
  }

  lemma PagesSplit(s: St, a: int, m: int, b: int, h: int)
    requires s.g.Keys == s.pages.Keys && a <= m <= b
    ensures |PagesIn(s, a, b, h)| == |PagesIn(s, a, m, h)| + |PagesIn(s, m, b, h)|
  {
    assert PagesIn(s, a, b, h) == PagesIn(s, a, m, h) + PagesIn(s, m, b, h);
    assert PagesIn(s, a, m, h) !! PagesIn(s, m, b, h);
  }

  lemma NoPages(s: St, a: int, b: int)
    requires s.g.Keys == s.pages.Keys
    ensures |PagesIn(s, a, b, 0)| == 0
  {
    assert forall p :: p !in PagesIn(s, a, b, 0);
  }

  lemma AllPages(c: Cfg, s: St)
    requires Struct(c, s, -1, -1)
    ensures |PagesIn(s, 0, c.limit, s.g[s.root].ht + 1)| == |s.pages|
  {
    assert forall p :: p in s.pages ==> s.g[p].ht <= s.g[s.root].ht;
    assert forall p :: p in PagesIn(s, 0, c.limit, s.g[s.root].ht + 1) <==> p in s.pages.Keys;
    assert PagesIn(s, 0, c.limit, s.g[s.root].ht + 1) == s.pages.Keys;
  }

  /** At its own height a page is alone in its interval. */
  lemma OwnPage(c: Cfg, s: St, p: int)
    requires Struct(c, s, -1, -1) && p in s.pages
    ensures |PagesIn(s, s.g[p].lo, s.g[p].hi, s.g[p].ht + 1)| == |PagesIn(s, s.g[p].lo, s.g[p].hi, s.g[p].ht)| + 1
  {
    var lo, hi, h := s.g[p].lo, s.g[p].hi, s.g[p].ht;
    forall x | x in PagesIn(s, lo, hi, h + 1) && s.g[x].ht == h
      ensures x == p
    {
      Unique(c, s, x, p, s.g[x].lo);
    }
    assert PagesIn(s, lo, hi, h + 1) == PagesIn(s, lo, hi, h) + {p};
  }

  /** The pages under `p`, itself included, are fewer than the entries under it. */
  ghost predicate Fewer(s: St, p: int)
    requires s.g.Keys == s.pages.Keys && p in s.pages
  {
    |PagesIn(s, s.g[p].lo, s.g[p].hi, s.g[p].ht + 1)| < |EntriesIn(s, s.g[p].lo, s.g[p].hi)|
  }

  /** If that holds of every child of `q`, the first `j` of them leave a surplus of `j`. */
  lemma {:induction false} KidsPages(c: Cfg, s: St, q: int, j: nat)
    requires Struct(c, s, -1, -1) && q in s.pages && s.pages[q].Internal? && j <= |s.pages[q].kids|
    requires forall k :: k in s.pages && s.pages[k].parent == q ==> Fewer(s, k)
    ensures var b := Sep(s.pages[q].kids, s.g[q].lo, s.g[q].hi, j);
      |PagesIn(s, s.g[q].lo, b, s.g[q].ht)| + j <= |EntriesIn(s, s.g[q].lo, b)|
  {
    var ks, lo, hi := s.pages[q].kids, s.g[q].lo, s.g[q].hi;
    if j == 0 {
      assert PagesIn(s, lo, lo, s.g[q].ht) == {};
    } else {
      var a, b := Sep(ks, lo, hi, j - 1), Sep(ks, lo, hi, j);
      KidsPages(c, s, q, j - 1);
      assert |PagesIn(s, a, b, s.g[q].ht)| < |EntriesIn(s, a, b)| by {
        assert KidsAt(c, s, -1, -1, q) && KidAt(c, s, -1, -1, q, j - 1);
        assert Fewer(s, ks[j - 1].page);
      }
      SepsLe(c, s, q, 0, j - 1);
      SepsLe(c, s, q, j - 1, j);
      PagesSplit(s, lo, a, b, s.g[q].ht);
      EntriesSplit(s, lo, a, b);
    }
  }

  lemma {:induction false} ChildrenFewer(c: Cfg, s: St, q: int)
    requires Struct(c, s, -1, -1) && OccOk(c, s, -1) && q in s.pages && s.pages[q].Internal?
    ensures forall k :: k in s.pages && s.pages[k].parent == q ==> Fewer(s, k)
    decreases s.g[q].ht, 0
  {
    forall k | k in s.pages && s.pages[k].parent == q
      ensures Fewer(s, k)
    {
      RootIsNoChild(c, s, k);
      var i := InParent(c, s, k);
      NodeFewer(c, s, k);
    }
  }

  /** Away from the root: a leaf has two entries or more, an internal node three children or more. */
  lemma {:induction false} NodeFewer(c: Cfg, s: St, p: int)
    requires Struct(c, s, -1, -1) && OccOk(c, s, -1) && p in s.pages && p != s.root
    ensures Fewer(s, p)
    decreases s.g[p].ht, 1
  {
    assert SizeOk(c, s.pages[p], false);
    OwnPage(c, s, p);
    if s.pages[p].Leaf? {
      LeafCount(c, s, p);
      NoPages(s, s.g[p].lo, s.g[p].hi);
    } else {
      ChildrenFewer(c, s, p);
      assert KidsAt(c, s, -1, -1, p);
      KidsPages(c, s, p, |s.pages[p].kids|);
    }
  }

  /** A tree has no more pages than entries, and fewer unless it is empty or has one page with one entry. */
  lemma PagesBound(c: Cfg, s: St)
    requires Inv(c, s)
    ensures |s.pages| <= |Contents(s)| && (|s.pages| == |Contents(s)| ==> |s.pages| <= 1)
  {
    if s.root != -1 {
      var q := s.root;
      OwnPage(c, s, q);
      AllPages(c, s);
      assert SizeOk(c, s.pages[q], true);
      SubsetSize(EntriesIn(s, 0, c.limit), Contents(s));
      if s.pages[q].Leaf? {
        NoPages(s, 0, c.limit);
        LeafCount(c, s, q);
      } else {
        ChildrenFewer(c, s, q);
        assert KidsAt(c, s, -1, -1, q);
        KidsPages(c, s, q, |s.pages[q].kids|);
      }
    }
  }

  // ---- what an insertion adds ----

  lemma {:induction false} FreshPage(keys: set<int>, from: int) returns (r: int)
    ensures r >= from && r !in keys
    decreases |keys|
  {
    if from !in keys {
      r := from;
    } else {
      r := FreshPage(keys - {from}, from + 1);
    }
  }

  /** Finishing a pending split leads to a tree with the same entries, and as many more pages as the
      split still needs. */
  lemma {:induction false} PendingFinishes(c: Cfg, s: St, l: int, n: int) returns (t: St)
    requires Struct(c, s, l, n) && l != -1 && OccOk(c, s, -1) && SizeOk(c, s.pages[l], false)
    ensures Inv(c, t) && Contents(t) == Contents(s) && |t.pages| == |s.pages| + NeedAbove(c, s, l)
    decreases s.g[s.root].ht - s.g[l].ht
  {
    if l == s.root {
      var r := FreshPage(s.pages.Keys, 2);
      NewRootDone(c, s, l, n, r);
      t := NewRoot(c, s, l, n, r);
      assert t.pages.Keys == s.pages.Keys + {r};
    } else {
      var j := PendingPosition(c, s, l, n);
      var q := s.pages[l].parent;
      ParentHeight(c, s, l, n, j);
      ParentFits(c, s, l, n, j);
      if |s.pages[q].kids| < c.internalMax {
        AddChildDone(c, s, l, n, j);
        t := AddChild(s, l, n, j);
        assert t.pages.Keys == s.pages.Keys;
      } else {
        var n2, s2 := SplitAbove(c, s, l, n, j);
        t := PendingFinishes(c, s2, q, n2);
      }
    }
  }

  /** The split of a full parent. */
  lemma SplitAbove(c: Cfg, s: St, l: int, n: int, j: int) returns (n2: int, s2: St)
    requires CanAdd(c, s, l, n, j) && OccOk(c, s, -1) && |s.pages[s.pages[l].parent].kids| == c.internalMax
    ensures var q := s.pages[l].parent;
      && Struct(c, s2, q, n2) && q != -1 && OccOk(c, s2, -1) && SizeOk(c, s2.pages[q], false) && Contents(s2) == Contents(s)
      && |s2.pages| == |s.pages| + 1 && 1 + NeedAbove(c, s2, q) == NeedAbove(c, s, l)
      && s2.g[s2.root].ht - s2.g[q].ht < s.g[s.root].ht - s.g[l].ht
  {
    var q := s.pages[l].parent;
    n2 := FreshPage(s.pages.Keys, 2);
    SplitNotEmpty(s, q, n, s.g[n].lo, j, n2);
    var pages := SplitAndInsert(s, q, n, s.g[n].lo, j, n2);
    s2 := St(pages, s.root, CutSpans(s.g, q, n2, pages[n2].kids[0].key));
    FullParentDone(c, s, l, n, j, n2, s2);
    assert s2.pages.Keys == s.pages.Keys + {n2};
  }

  /** Splitting a full leaf around a new entry and finishing the split. */
  lemma FullLeafFinishes(c: Cfg, s: St, p: int, i: int, e: Entry) returns (t: St)
    requires Inv(c, s) && Covers(s, p, e.key) && !HasKey(s, e.key)
    requires |s.pages[p].entries| == c.leafMax && Belongs(s.pages[p].entries, i, e.key)
    ensures Inv(c, t) && Contents(t) == Contents(s) + {e} && |t.pages| == |s.pages| + Need(c, s, p)
  {
    var n := FreshPage(s.pages.Keys, 2);
    InLeaf(c, s, p, e.key);
    LeafSplitNotEmpty(s, p, i, e, n);
    var pages := SplitLeafAndInsert(s, p, i, e, n);
    var s2 := St(pages, s.root, CutSpans(s.g, p, n, pages[n].entries[0].key));
    FullLeafDone(c, s, p, i, e, n, s2);
    assert s2.pages.Keys == s.pages.Keys + {n};
    t := PendingFinishes(c, s2, p, n);
  }

  /** A sorted leaf has a place for every key. */
  lemma {:induction false} PlaceFor(es: seq<Entry>, key: int) returns (i: int)
    requires Sorted(es)
    ensures Belongs(es, i, key)
  {
    if es == [] || es[|es| - 1].key < key {
      i := |es|;
    } else {
      i := PlaceFor(es[..|es| - 1], key);
    }
  }

  /** With the pages that inserting a new key takes, a tree of more than one page has no more pages than it
      has entries before the insertion. */
  lemma NeedBound(c: Cfg, s: St, p: int, e: Entry)
    requires Inv(c, s) && Covers(s, p, e.key) && !HasKey(s, e.key)
    ensures |s.pages| + Need(c, s, p) <= |Contents(s)|
  {
    if |s.pages[p].entries| < c.leafMax {
      PagesBound(c, s);
    } else {
      assert SizeOk(c, s.pages[p], p == s.root) && LeafAt(s.pages[p].entries, s.g[p].lo, s.g[p].hi);
      var i := PlaceFor(s.pages[p].entries, e.key);
      var t := FullLeafFinishes(c, s, p, i, e);
      PagesBound(c, t);
      assert e !in Contents(s);
    }
  }

  /** A file whose bitmap leaves `room` pages to the tree has room for a new entry while there are no
      more than `room` of them. */
  lemma RoomForNext(c: Cfg, s: St, e: Entry, room: int)
    requires Inv(c, s) && !HasKey(s, e.key) && room >= 1 && room >= |Contents(s)|
    ensures EnoughAt(c, s, room - |s.pages|, e.key)
  {
    if s.root != -1 {
      forall p | Covers(s, p, e.key)
        ensures room - |s.pages| >= Need(c, s, p)
      {
        NeedBound(c, s, p, e);
      }
    }
  }
}
