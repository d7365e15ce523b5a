/** The pages of an index as one tree: paths from the root. */
module BPlusPaths {
  import opened BPlusState
  import opened BPlusInsertSteps
  import opened BPlusDeleteSteps
  import opened BPlusRefine

  /** `q` holds a pointer to `p`. */
  ghost predicate Edge(s: St, q: int, p: int) {
    q in s.pages && s.pages[q].Internal? && exists i :: 0 <= i < |s.pages[q].kids| && s.pages[q].kids[i].page == p
  }

  /** A way down the child pointers from the root to `p`. */
  ghost predicate Path(s: St, path: seq<int>, p: int) {
    && |path| >= 1 && path[0] == s.root && path[|path| - 1] == p
    && forall i :: 0 < i < |path| ==> Edge(s, path[i - 1], path[i])
  }

  lemma EdgeDown(c: Cfg, s: St, q: int, p: int)
    requires Struct(c, s, -1, -1) && Edge(s, q, p)
    ensures p in s.pages && s.pages[p].parent == q && s.g[q].ht == s.g[p].ht + 1 && p != s.root
  {
    var i :| 0 <= i < |s.pages[q].kids| && s.pages[q].kids[i].page == p;
    assert KidsAt(c, s, -1, -1, q) && KidAt(c, s, -1, -1, q, i);
  }

  /** Every allocated page of the index is reachable from the root. */
  lemma {:induction false} Reachable(c: Cfg, s: St, p: int) returns (path: seq<int>)
    requires Struct(c, s, -1, -1) && p in s.pages
    ensures Path(s, path, p)
    decreases s.g[s.root].ht - s.g[p].ht
  {
    if p == s.root {
      path := [p];
    } else {
      assert UpAt(c, s, p);
      var q := s.pages[p].parent;
      var k := Kid(Slot(c, s.g[p].lo), p);
      assert k in s.pages[q].kids;
      assert Edge(s, q, p);
      EdgeDown(c, s, q, p);
      var above := Reachable(c, s, q);
      path := above + [p];
    }
  }

  /** There is only one way down to a page, and its length is fixed by the page's height: the pages
      form a tree whose leaves, at height 0, are all equally deep. */
  lemma {:induction false} OnePath(c: Cfg, s: St, p: int, a: seq<int>, b: seq<int>)
    requires Struct(c, s, -1, -1) && Path(s, a, p) && Path(s, b, p)
    ensures a == b && p in s.pages && |a| == s.g[s.root].ht - s.g[p].ht + 1
    decreases |a|
  {
    var n, m := |a| - 1, |b| - 1;
    if n > 0 {
      EdgeDown(c, s, a[n - 1], p);
    }
    if m > 0 {
      EdgeDown(c, s, b[m - 1], p);
    }
    if n > 0 {
      assert Path(s, a[..n], a[n - 1]) && Path(s, b[..m], b[m - 1]);
      OnePath(c, s, a[n - 1], a[..n], b[..m]);
      assert a == a[..n] + [p] && b == b[..m] + [p];
    }
  }

  /** All leaves lie equally deep below the root. */
  lemma LeavesLevel(c: Cfg, s: St, p: int, a: seq<int>, q: int, b: seq<int>)
    requires Struct(c, s, -1, -1) && Path(s, a, p) && Path(s, b, q)
    requires p in s.pages && s.pages[p].Leaf? && q in s.pages && s.pages[q].Leaf?
    ensures |a| == |b| == s.g[s.root].ht + 1
  {
    OnePath(c, s, p, a, a);
    OnePath(c, s, q, b, b);
  }

  /** The pages of the index are exactly the pages reachable from the root. */
  lemma ReachableAll(c: Cfg, s: St)
    requires Struct(c, s, -1, -1)
    ensures forall p :: p in s.pages <==> exists path :: Path(s, path, p)
  {
    forall p | p in s.pages
      ensures exists path :: Path(s, path, p)
    {
      var path := Reachable(c, s, p);
    }
    forall p, path | Path(s, path, p)
      ensures p in s.pages
    {
      OnePath(c, s, p, path, path);
    }
  }

  // ---- a split left pending ----

  /** No other page at the height of a pending right half covers a key of it. */
  lemma OthersApart(c: Cfg, s: St, l: int, n: int, p: int, key: int)
    requires Struct(c, s, l, n) && l != -1 && p in s.pages && p != n && s.g[p].ht == s.g[n].ht
    requires s.g[n].lo <= key < s.g[n].hi
    ensures !(s.g[p].lo <= key < s.g[p].hi)
  {
    if l != s.root && s.g[p].lo <= key < s.g[p].hi {
      var j := PendingSlot(c, s, l, n);
      AddChildOk(c, s, l, n, j);
      Unique(c, AddChild(s, l, n, j), p, n, key);
    }
  }

  /** Child pointers do not lead to a pending right half, nor to a page below it. */
  lemma {:induction false} Unreached(c: Cfg, s: St, l: int, n: int, path: seq<int>, p: int, key: int)
    requires Struct(c, s, l, n) && l != -1 && Path(s, path, p) && s.g[n].lo <= key < s.g[n].hi
    ensures p in s.pages && p != n && (s.g[p].ht <= s.g[n].ht ==> !(s.g[p].lo <= key < s.g[p].hi))
    decreases |path|
  {
    var m := |path| - 1;
    if m > 0 {
      var x := path[m - 1];
      assert Path(s, path[..m], x) && Edge(s, x, p);
      Unreached(c, s, l, n, path[..m], x, key);
      PendingEdge(c, s, l, n, x, p);
    }
    if s.g[p].ht == s.g[n].ht {
      OthersApart(c, s, l, n, p, key);
    }
  }

  /** A child of a node, while the split (l, n) is pending. */
  lemma PendingEdge(c: Cfg, s: St, l: int, n: int, q: int, p: int)
    requires Struct(c, s, l, n) && Edge(s, q, p)
    ensures p in s.pages && p != n && s.g[q].ht == s.g[p].ht + 1 && s.g[q].lo <= s.g[p].lo && (p != l ==> s.g[p].hi <= s.g[q].hi)
  {
    var ks := s.pages[q].kids;
    var i :| 0 <= i < |ks| && ks[i].page == p;
    assert KidsAt(c, s, l, n, q) && KidAt(c, s, l, n, q, i);
    SepsBetween(ks, s.g[q].lo, s.g[q].hi, i);
  }

  lemma SepsBetween(ks: seq<Kid>, lo: int, hi: int, i: int)
    requires SepsOk(ks, lo, hi) && 0 <= i < |ks|
    ensures lo <= Sep(ks, lo, hi, i) && Sep(ks, lo, hi, i + 1) <= hi
  {
    assert i > 0 ==> Sep(ks, lo, hi, 0) < Sep(ks, lo, hi, i);
    assert i + 1 < |ks| ==> Sep(ks, lo, hi, i + 1) < Sep(ks, lo, hi, |ks|);
  }

  /** While a split is pending, the entries in the interval of its right half are in the tree but
      child pointers lead to none of them: lookups no longer find them. */
  lemma LostEntries(c: Cfg, s: St, l: int, n: int, e: Entry, path: seq<int>, p: int)
    requires Struct(c, s, l, n) && l != -1 && s.g[n].lo <= e.key < s.g[n].hi
    requires Path(s, path, p) && p in s.pages && s.pages[p].Leaf?
    ensures e !in s.pages[p].entries
  {
    Unreached(c, s, l, n, path, p, e.key);
    assert LeafAt(s.pages[p].entries, s.g[p].lo, s.g[p].hi);
  }
}
