/** The structural steps of a deletion and the clauses of the invariant they keep. */
module BPlusDeleteSteps {
  import opened BPlusState
  import opened BPlusInsertSteps

  /** Two pages of one height never cover the same key. */
  lemma {:induction false} Unique(c: Cfg, s: St, p: int, q: int, k: int)
    requires Struct(c, s, -1, -1) && p in s.pages && q in s.pages && s.g[p].ht == s.g[q].ht
    requires s.g[p].lo <= k < s.g[p].hi && s.g[q].lo <= k < s.g[q].hi
    ensures p == q
    decreases s.g[s.root].ht - s.g[p].ht
  {
    if p != s.root && q != s.root {
      var i := InParent(c, s, p);
      var j := InParent(c, s, q);
      Unique(c, s, s.pages[p].parent, s.pages[q].parent, k);
      var (a, b) := if i < j then (i, j) else (j, i);
      SepsLe(c, s, s.pages[p].parent, if a < b then a + 1 else a, b);
    }
  }

  lemma SepsLe(c: Cfg, s: St, q: int, i: int, j: int)
    requires Struct(c, s, -1, -1) && q in s.pages && s.pages[q].Internal? && 0 <= i <= j <= |s.pages[q].kids|
    ensures Sep(s.pages[q].kids, s.g[q].lo, s.g[q].hi, i) <= Sep(s.pages[q].kids, s.g[q].lo, s.g[q].hi, j)
  {
    assert KidsAt(c, s, -1, -1, q);
  }

  /** The slot of a page in its parent, and what the slot says about it. */
  lemma InParent(c: Cfg, s: St, p: int) returns (i: int)
    requires Struct(c, s, -1, -1) && p in s.pages && p != s.root
    ensures var q := s.pages[p].parent;
      && q in s.pages && s.pages[q].Internal? && 0 <= i < |s.pages[q].kids|
      && s.pages[q].kids[i] == Kid(Slot(c, s.g[p].lo), p)
      && s.g[p].lo == Sep(s.pages[q].kids, s.g[q].lo, s.g[q].hi, i)
      && s.g[p].hi == Sep(s.pages[q].kids, s.g[q].lo, s.g[q].hi, i + 1)
      && s.g[q].lo <= s.g[p].lo && s.g[p].hi <= s.g[q].hi
      && s.g[p].ht + 1 == s.g[q].ht <= s.g[s.root].ht
  {
    assert UpAt(c, s, p);
    var q := s.pages[p].parent;
    i :| 0 <= i < |s.pages[q].kids| && s.pages[q].kids[i] == Kid(Slot(c, s.g[p].lo), p);
    assert KidsAt(c, s, -1, -1, q);
    assert KidAt(c, s, -1, -1, q, i);
    SepsLe(c, s, q, 0, i);
    SepsLe(c, s, q, i + 1, |s.pages[q].kids|);
  }

  function RemoveKid(ks: seq<Kid>, i: int): seq<Kid>
    requires 0 <= i < |ks|
  {
    ks[..i] + ks[i + 1..]
  }

  lemma RemoveKidSeps(ks: seq<Kid>, lo: int, hi: int, i: int)
    requires SepsOk(ks, lo, hi) && 1 <= i < |ks|
    ensures SepsOk(RemoveKid(ks, i), lo, hi)
    ensures forall x :: 0 <= x < |ks| ==>
      Sep(RemoveKid(ks, i), lo, hi, x) == Sep(ks, lo, hi, if x < i then x else x + 1)
  {
    var ks' := RemoveKid(ks, i);
    forall x | 0 <= x < |ks|
      ensures Sep(ks', lo, hi, x) == Sep(ks, lo, hi, if x < i then x else x + 1)
    {
      if i <= x < |ks'| {
        assert ks'[x] == ks[x + 1];
      }
    }
    forall a, b | 0 <= a < b <= |ks'|
      ensures Sep(ks', lo, hi, a) < Sep(ks', lo, hi, b)
    {
      assert Sep(ks, lo, hi, if a < i then a else a + 1) < Sep(ks, lo, hi, if b < i then b else b + 1);
    }
  }

  /** Page `l` takes over the interval of its right neighbour `r`, which goes away. */
  ghost function MergeSpans(g: map<int, Span>, l: int, r: int): map<int, Span>
    requires l in g && r in g
  {
    map x | x in g && x != r :: if x == l then Span(g[l].lo, g[r].hi, g[l].ht) else g[x]
  }

  /** Children `i - 1` and `i` of `q` are leaves; the right one is emptied into the left one. */
  ghost function MergeLeaf(s: St, q: int, i: int): St
    requires q in s.pages && s.pages[q].Internal? && 1 <= i < |s.pages[q].kids|
    requires var l, r := s.pages[q].kids[i - 1].page, s.pages[q].kids[i].page;
      l in s.pages && r in s.pages && l in s.g && r in s.g && s.pages[l].Leaf? && s.pages[r].Leaf?
  {
    var l, r := s.pages[q].kids[i - 1].page, s.pages[q].kids[i].page;
    var left, right := s.pages[l], s.pages[r];
    St(map x | x in s.pages && x != r ::
         if x == q then s.pages[q].(kids := RemoveKid(s.pages[q].kids, i))
         else if x == l then Leaf(left.parent, right.next, left.entries + right.entries)
         else s.pages[x],
       s.root, MergeSpans(s.g, l, r))
  }

  ghost predicate CanMerge(c: Cfg, s: St, q: int, i: int, leaf: bool) {
    && Struct(c, s, -1, -1) && q in s.pages && s.pages[q].Internal? && 1 <= i < |s.pages[q].kids|
    && s.pages[q].kids[i - 1].page in s.pages && s.pages[q].kids[i].page in s.pages
    && s.pages[s.pages[q].kids[i - 1].page].Leaf? == leaf && s.pages[s.pages[q].kids[i].page].Leaf? == leaf
  }

  /** The two siblings in terms of their spans. */
  lemma Siblings(c: Cfg, s: St, q: int, i: int)
    requires Struct(c, s, -1, -1) && q in s.pages && s.pages[q].Internal? && 1 <= i < |s.pages[q].kids|
    ensures var l, r := s.pages[q].kids[i - 1].page, s.pages[q].kids[i].page;
      && l in s.pages && r in s.pages && l != r && q != l && q != r && r != s.root && l != s.root
      && s.pages[l].parent == q && s.pages[r].parent == q
      && s.g[l].hi == s.g[r].lo && s.g[l].ht == s.g[r].ht && s.g[l].ht + 1 == s.g[q].ht
      && s.pages[q].kids[i - 1].key == Slot(c, s.g[l].lo) && s.pages[q].kids[i].key == s.g[r].lo
      && KidsAt(c, s, -1, -1, q)
  {
    assert KidsAt(c, s, -1, -1, q);
    assert KidAt(c, s, -1, -1, q, i - 1) && KidAt(c, s, -1, -1, q, i);
  }

  /** The parent of two merged siblings, whatever else the merge moved. */
  lemma MergeParent(c: Cfg, s: St, s': St, q: int, i: int)
    requires s.g.Keys == s.pages.Keys && s'.g.Keys == s'.pages.Keys
    requires q in s.pages && s.pages[q].Internal? && KidsAt(c, s, -1, -1, q) && 1 <= i < |s.pages[q].kids|
    requires q in s'.pages && s'.pages[q].Internal? && s'.pages[q].kids == RemoveKid(s.pages[q].kids, i) && s'.g[q] == s.g[q]
    requires forall y :: 0 <= y < |s.pages[q].kids| && y != i - 1 && y != i ==> SameKid(s, -1, -1, s', -1, -1, s.pages[q].kids[y].page)
    requires var l, r := s.pages[q].kids[i - 1].page, s.pages[q].kids[i].page;
      l in s.pages && r in s.pages && l in s'.pages && s'.pages[l].parent == q && s'.g[l] == Span(s.g[l].lo, s.g[r].hi, s.g[l].ht)
    ensures KidsAt(c, s', -1, -1, q)
  {
    var ks := s.pages[q].kids;
    RemoveKidSeps(ks, s.g[q].lo, s.g[q].hi, i);
    assert KidAt(c, s, -1, -1, q, i);
    forall x | 0 <= x < |s'.pages[q].kids|
      ensures KidAt(c, s', -1, -1, q, x)
    {
      var y := if x < i then x else x + 1;
      assert KidAt(c, s, -1, -1, q, y);
      assert s'.pages[q].kids[x] == ks[y];
      assert y != i - 1 ==> SameKid(s, -1, -1, s', -1, -1, ks[y].page);
    }
  }

  /** Two distinct sibling pages of `q`, at slots `i - 1` and `i`. */
  ghost predicate Pair(s: St, q: int, i: int, l: int, r: int) {
    && s.g.Keys == s.pages.Keys && q in s.pages && l in s.pages && r in s.pages && l != r && q != l && q != r
    && s.pages[q].Internal? && 1 <= i < |s.pages[q].kids|
    && s.pages[q].kids[i - 1].page == l && s.pages[q].kids[i].page == r
    && s.pages[l].parent == q && s.pages[r].parent == q && s.g[l].ht == s.g[r].ht
  }

  lemma MergeLeafKids(c: Cfg, s: St, q: int, i: int)
    requires CanMerge(c, s, q, i, true)
    ensures var s' := MergeLeaf(s, q, i); s'.g.Keys == s'.pages.Keys && KidsOk(c, s', -1, -1)
  {
    var s' := MergeLeaf(s, q, i);
    var ks := s.pages[q].kids;
    Siblings(c, s, q, i);
    forall y | 0 <= y < |ks| && y != i - 1 && y != i
      ensures SameKid(s, -1, -1, s', -1, -1, ks[y].page)
    {
      OtherSibling(c, s, q, i, y);
    }
    MergeParent(c, s, s', q, i);
    forall x | x in s'.pages && s'.pages[x].Internal? && x != q
      ensures KidsAt(c, s', -1, -1, x)
    {
      assert KidsAt(c, s, -1, -1, x);
      forall j | 0 <= j < |s.pages[x].kids|
        ensures SameKid(s, -1, -1, s', -1, -1, s.pages[x].kids[j].page)
      {
        assert KidAt(c, s, -1, -1, x, j);
      }
      KidsFrame(c, s, -1, -1, s', -1, -1, x);
    }
  }

  lemma OtherSibling(c: Cfg, s: St, q: int, i: int, y: int)
    requires s.g.Keys == s.pages.Keys && q in s.pages && s.pages[q].Internal? && KidsAt(c, s, -1, -1, q)
    requires 1 <= i < |s.pages[q].kids| && 0 <= y < |s.pages[q].kids| && y != i - 1 && y != i
    ensures var k := s.pages[q].kids[y].page;
      && k != s.pages[q].kids[i - 1].page && k != s.pages[q].kids[i].page
      && k in s.pages && s.pages[k].parent == q && s.g[k].ht + 1 == s.g[q].ht
  {
    assert KidAt(c, s, -1, -1, q, y);
    if s.pages[q].kids[y].page == s.pages[q].kids[i].page {
      KidUnique(c, s, q, y, i);
    }
    if s.pages[q].kids[y].page == s.pages[q].kids[i - 1].page {
      KidUnique(c, s, q, y, i - 1);
    }
  }

  lemma RemoveKidKeeps(ks: seq<Kid>, i: int, k: Kid)
    requires 0 <= i < |ks| && k in ks && k != ks[i]
    ensures k in RemoveKid(ks, i)
  {
    var j :| 0 <= j < |ks| && ks[j] == k;
    assert RemoveKid(ks, i)[if j < i then j else j - 1] == k;
  }

  lemma MergeLeafTop(c: Cfg, s: St, q: int, i: int)
    requires CanMerge(c, s, q, i, true)
    ensures var s' := MergeLeaf(s, q, i); DomOk(c, s') && TopOk(c, s', -1, -1)
  {
    Siblings(c, s, q, i);
  }

  lemma MergeLeafUp(c: Cfg, s: St, q: int, i: int)
    requires CanMerge(c, s, q, i, true)
    ensures var s' := MergeLeaf(s, q, i); s'.g.Keys == s'.pages.Keys && UpOk(c, s', -1)
  {
    var s' := MergeLeaf(s, q, i);
    Siblings(c, s, q, i);
    forall x | x in s'.pages && x != s'.root
      ensures UpAt(c, s', x)
    {
      assert UpAt(c, s, x);
      if s.pages[x].parent == q {
        RemoveKidKeeps(s.pages[q].kids, i, Kid(Slot(c, s.g[x].lo), x));
      }
    }
  }

  lemma LeafAtConcat(a: seq<Entry>, b: seq<Entry>, lo: int, mid: int, hi: int)
    requires LeafAt(a, lo, mid) && LeafAt(b, mid, hi) && lo <= mid <= hi
    ensures LeafAt(a + b, lo, hi)
  {
  }

  lemma MergeLeafEntries(c: Cfg, s: St, q: int, i: int)
    requires CanMerge(c, s, q, i, true)
    ensures var s' := MergeLeaf(s, q, i); s'.g.Keys == s'.pages.Keys && LeavesOk(s')
  {
    Siblings(c, s, q, i);
    var l, r := s.pages[q].kids[i - 1].page, s.pages[q].kids[i].page;
    LeafAtConcat(s.pages[l].entries, s.pages[r].entries, s.g[l].lo, s.g[r].lo, s.g[r].hi);
  }

  lemma MergeLeafChain(c: Cfg, s: St, q: int, i: int)
    requires CanMerge(c, s, q, i, true)
    ensures var s' := MergeLeaf(s, q, i); s'.g.Keys == s'.pages.Keys && ChainOk(c, s')
  {
    var s' := MergeLeaf(s, q, i);
    Siblings(c, s, q, i);
    var l, r := s.pages[q].kids[i - 1].page, s.pages[q].kids[i].page;
    assert ChainAt(c, s, r);
    forall x | x in s'.pages && s'.pages[x].Leaf?
      ensures ChainAt(c, s', x)
    {
      assert ChainAt(c, s, x);
      if x != l && s.pages[x].next == r {
        Unique(c, s, x, l, s.g[r].lo - 1);
      }
    }
  }

  /** Merging two leaves keeps the tree well formed. */
  lemma MergeLeafOk(c: Cfg, s: St, q: int, i: int)
    requires CanMerge(c, s, q, i, true)
    ensures Struct(c, MergeLeaf(s, q, i), -1, -1)
  {
    MergeLeafTop(c, s, q, i);
    MergeLeafUp(c, s, q, i);
    MergeLeafKids(c, s, q, i);
    MergeLeafEntries(c, s, q, i);
    MergeLeafChain(c, s, q, i);
  }

  /** Children `i - 1` and `i` of `q` are internal; the right one is emptied into the left one,
      its slot-0 key becoming an ordinary separator. */
  ghost function MergeInternal(s: St, q: int, i: int): St
    requires q in s.pages && s.pages[q].Internal? && 1 <= i < |s.pages[q].kids|
    requires var l, r := s.pages[q].kids[i - 1].page, s.pages[q].kids[i].page;
      l in s.pages && r in s.pages && l in s.g && r in s.g && s.pages[l].Internal? && s.pages[r].Internal?
  {
    var l, r := s.pages[q].kids[i - 1].page, s.pages[q].kids[i].page;
    St(map x | x in s.pages && x != r ::
         if x == q then s.pages[q].(kids := RemoveKid(s.pages[q].kids, i))
         else if x == l then s.pages[l].(kids := s.pages[l].kids + s.pages[r].kids)
         else if HasKid(s.pages[r].kids, x) then s.pages[x].(parent := l)
         else s.pages[x],
       s.root, MergeSpans(s.g, l, r))
  }

  /** Two adjacent separator sequences join if slot 0 of the right one holds the boundary. */
  lemma JoinSeps(a: seq<Kid>, b: seq<Kid>, lo: int, mid: int, hi: int)
    requires SepsOk(a, lo, mid) && SepsOk(b, mid, hi) && b[0].key == mid
    ensures SepsOk(a + b, lo, hi)
    ensures forall i :: 0 <= i <= |a| ==> Sep(a + b, lo, hi, i) == Sep(a, lo, mid, i)
    ensures forall i :: 0 <= i <= |b| ==> Sep(a + b, lo, hi, |a| + i) == Sep(b, mid, hi, i)
  {
    assert forall i :: 0 <= i <= |a| ==> Sep(a + b, lo, hi, i) == Sep(a, lo, mid, i);
    assert forall i :: 0 <= i <= |b| ==> Sep(a + b, lo, hi, |a| + i) == Sep(b, mid, hi, i);
    forall i, j | 0 <= i < j <= |a + b|
      ensures Sep(a + b, lo, hi, i) < Sep(a + b, lo, hi, j)
    {
      if j <= |a| {
        assert Sep(a, lo, mid, i) < Sep(a, lo, mid, j);
      } else {
        assert Sep(a + b, lo, hi, j) == Sep(b, mid, hi, j - |a|);
        if i >= |a| {
          assert Sep(a + b, lo, hi, i) == Sep(b, mid, hi, i - |a|);
        } else {
          assert Sep(a, lo, mid, i) < Sep(a, lo, mid, |a|) == Sep(b, mid, hi, 0) < Sep(b, mid, hi, j - |a|);
        }
      }
    }
  }

  lemma MergeInternalParent(c: Cfg, s: St, q: int, i: int)
    requires CanMerge(c, s, q, i, false)
    ensures var s' := MergeInternal(s, q, i); s'.g.Keys == s'.pages.Keys && q in s'.pages && KidsAt(c, s', -1, -1, q)
  {
    var s' := MergeInternal(s, q, i);
    var ks := s.pages[q].kids;
    Siblings(c, s, q, i);
    assert KidsAt(c, s, -1, -1, ks[i].page);
    MovedKids(c, s, ks[i].page, 0);
    assert s.pages[ks[i].page].kids[0..] == s.pages[ks[i].page].kids;
    forall y | 0 <= y < |ks| && y != i - 1 && y != i
      ensures SameKid(s, -1, -1, s', -1, -1, ks[y].page)
    {
      OtherSibling(c, s, q, i, y);
    }
    MergeParent(c, s, s', q, i);
  }

  lemma MergeInternalLeftSeps(c: Cfg, s: St, q: int, i: int)
    requires CanMerge(c, s, q, i, false)
    ensures var l, r := s.pages[q].kids[i - 1].page, s.pages[q].kids[i].page;
      var a, b, lo, mid, hi := s.pages[l].kids, s.pages[r].kids, s.g[l].lo, s.g[r].lo, s.g[r].hi;
      && SepsOk(a + b, lo, hi)
      && (forall x :: 0 <= x <= |a| ==> Sep(a + b, lo, hi, x) == Sep(a, lo, mid, x))
      && (forall x :: 0 <= x <= |b| ==> Sep(a + b, lo, hi, |a| + x) == Sep(b, mid, hi, x))
  {
    Siblings(c, s, q, i);
    var l, r := s.pages[q].kids[i - 1].page, s.pages[q].kids[i].page;
    assert KidsAt(c, s, -1, -1, l) && KidsAt(c, s, -1, -1, r);
    assert KidAt(c, s, -1, -1, r, 0);
    JoinSeps(s.pages[l].kids, s.pages[r].kids, s.g[l].lo, s.g[r].lo, s.g[r].hi);
  }

  lemma MergeInternalLeftKid(c: Cfg, s: St, q: int, i: int, x: int)
    requires CanMerge(c, s, q, i, false)
    requires 0 <= x < |s.pages[s.pages[q].kids[i - 1].page].kids| + |s.pages[s.pages[q].kids[i].page].kids|
    ensures var s' := MergeInternal(s, q, i); var l := s.pages[q].kids[i - 1].page;
      s'.g.Keys == s'.pages.Keys && l in s'.pages && s'.pages[l].Internal? && x < |s'.pages[l].kids| && KidAt(c, s', -1, -1, l, x)
  {
    Siblings(c, s, q, i);
    MergeInternalLeftSeps(c, s, q, i);
    var l, r := s.pages[q].kids[i - 1].page, s.pages[q].kids[i].page;
    var n := |s.pages[l].kids|;
    var k := (s.pages[l].kids + s.pages[r].kids)[x];
    assert KidsAt(c, s, -1, -1, l) && KidsAt(c, s, -1, -1, r);
    if x < n {
      assert KidAt(c, s, -1, -1, l, x);
      NotMoved(c, s, r, k.page);
    } else {
      assert KidAt(c, s, -1, -1, r, x - n);
      assert HasKid(s.pages[r].kids, k.page);
    }
  }

  lemma MergeInternalLeft(c: Cfg, s: St, q: int, i: int)
    requires CanMerge(c, s, q, i, false)
    ensures var s' := MergeInternal(s, q, i); var l := s.pages[q].kids[i - 1].page;
      s'.g.Keys == s'.pages.Keys && l in s'.pages && s'.pages[l].Internal? && KidsAt(c, s', -1, -1, l)
  {
    var s' := MergeInternal(s, q, i);
    Siblings(c, s, q, i);
    MergeInternalLeftSeps(c, s, q, i);
    var l := s.pages[q].kids[i - 1].page;
    forall x | 0 <= x < |s'.pages[l].kids|
      ensures KidAt(c, s', -1, -1, l, x)
    {
      MergeInternalLeftKid(c, s, q, i, x);
    }
  }

  lemma MergeInternalOther(c: Cfg, s: St, q: int, i: int, x: int)
    requires CanMerge(c, s, q, i, false)
    requires x in s.pages && s.pages[x].Internal? && x != q && x != s.pages[q].kids[i - 1].page && x != s.pages[q].kids[i].page
    ensures var s' := MergeInternal(s, q, i); s'.g.Keys == s'.pages.Keys && s'.pages[x].Internal? && KidsAt(c, s', -1, -1, x)
  {
    var s' := MergeInternal(s, q, i);
    Siblings(c, s, q, i);
    var r := s.pages[q].kids[i].page;
    assert KidsAt(c, s, -1, -1, x) && KidsAt(c, s, -1, -1, r);
    MovedKids(c, s, r, 0);
    assert s.pages[r].kids[0..] == s.pages[r].kids;
    forall j | 0 <= j < |s.pages[x].kids|
      ensures SameKid(s, -1, -1, s', -1, -1, s.pages[x].kids[j].page)
    {
      assert KidAt(c, s, -1, -1, x, j);
    }
    KidsFrame(c, s, -1, -1, s', -1, -1, x);
  }

  lemma MergeInternalUpAt(c: Cfg, s: St, q: int, i: int, x: int)
    requires CanMerge(c, s, q, i, false)
    requires x in s.pages && x != s.root && x != s.pages[q].kids[i].page
    ensures UpAt(c, MergeInternal(s, q, i), x)
  {
    var s' := MergeInternal(s, q, i);
    Siblings(c, s, q, i);
    var l, r := s.pages[q].kids[i - 1].page, s.pages[q].kids[i].page;
    var j := InParent(c, s, x);
    var k := Kid(Slot(c, s.g[x].lo), x);
    assert s'.g[x].lo == s.g[x].lo;
    if s.pages[x].parent == r {
      assert HasKid(s.pages[r].kids, x);
      assert (s.pages[l].kids + s.pages[r].kids)[|s.pages[l].kids| + j] == k;
    } else {
      NotMoved(c, s, r, x);
      assert s'.pages[x].parent == s.pages[x].parent;
      if s.pages[x].parent == q {
        RemoveKidKeeps(s.pages[q].kids, i, k);
      } else if s.pages[x].parent == l {
        assert (s.pages[l].kids + s.pages[r].kids)[j] == k;
      }
    }
  }

  lemma NotMoved(c: Cfg, s: St, r: int, x: int)
    requires Struct(c, s, -1, -1) && r in s.pages && s.pages[r].Internal? && x in s.pages && s.pages[x].parent != r
    ensures !HasKid(s.pages[r].kids, x)
  {
    assert KidsAt(c, s, -1, -1, r);
    forall j | 0 <= j < |s.pages[r].kids|
      ensures s.pages[r].kids[j].page != x
    {
      assert KidAt(c, s, -1, -1, r, j);
    }
  }

  lemma MergeInternalUp(c: Cfg, s: St, q: int, i: int)
    requires CanMerge(c, s, q, i, false)
    ensures var s' := MergeInternal(s, q, i); s'.g.Keys == s'.pages.Keys && UpOk(c, s', -1)
  {
    var s' := MergeInternal(s, q, i);
    forall x | x in s'.pages && x != s'.root
      ensures UpAt(c, s', x)
    {
      MergeInternalUpAt(c, s, q, i, x);
    }
  }

  lemma MergeInternalTop(c: Cfg, s: St, q: int, i: int)
    requires CanMerge(c, s, q, i, false)
    ensures var s' := MergeInternal(s, q, i); DomOk(c, s') && TopOk(c, s', -1, -1)
  {
    Siblings(c, s, q, i);
    var r := s.pages[q].kids[i].page;
    NotMoved(c, s, r, s.root);
  }

  lemma MergeInternalLeaves(c: Cfg, s: St, q: int, i: int)
    requires CanMerge(c, s, q, i, false)
    ensures var s' := MergeInternal(s, q, i); s'.g.Keys == s'.pages.Keys && LeavesOk(s') && ChainOk(c, s')
  {
    Siblings(c, s, q, i);
    LeavesFrame(c, s, MergeInternal(s, q, i));
  }

  /** Merging two internal nodes keeps the tree well formed. */
  lemma MergeInternalOk(c: Cfg, s: St, q: int, i: int)
    requires CanMerge(c, s, q, i, false)
    ensures Struct(c, MergeInternal(s, q, i), -1, -1)
  {
    var s' := MergeInternal(s, q, i);
    MergeInternalTop(c, s, q, i);
    MergeInternalLeaves(c, s, q, i);
    MergeInternalParent(c, s, q, i);
    MergeInternalLeft(c, s, q, i);
    MergeInternalUp(c, s, q, i);
    forall x | x in s'.pages && s'.pages[x].Internal?
      ensures KidsAt(c, s', -1, -1, x)
    {
      if x != q && x != s.pages[q].kids[i - 1].page {
        MergeInternalOther(c, s, q, i, x);
      }
    }
  }

  /** A root left with a single child gives way to that child. */
  ghost function CollapseRoot(s: St): St
    requires s.root in s.pages && s.pages[s.root].Internal? && |s.pages[s.root].kids| >= 1
  {
    var k := s.pages[s.root].kids[0].page;
    St(map x | x in s.pages && x != s.root :: if x == k then s.pages[x].(parent := -1) else s.pages[x],
       k, map x | x in s.g && x != s.root :: s.g[x])
  }

  ghost predicate CanCollapse(c: Cfg, s: St) {
    Struct(c, s, -1, -1) && s.pages[s.root].Internal? && |s.pages[s.root].kids| == 1
  }

  lemma CollapseTop(c: Cfg, s: St)
    requires CanCollapse(c, s)
    ensures var s' := CollapseRoot(s); DomOk(c, s') && TopOk(c, s', -1, -1)
  {
    var s' := CollapseRoot(s);
    assert KidsAt(c, s, -1, -1, s.root) && KidAt(c, s, -1, -1, s.root, 0);
    forall p | p in s'.pages && p != s'.root
      ensures s'.g[p].ht < s'.g[s'.root].ht
    {
      var i := InParent(c, s, p);
    }
  }

  lemma CollapseKids(c: Cfg, s: St)
    requires CanCollapse(c, s)
    ensures var s' := CollapseRoot(s); s'.g.Keys == s'.pages.Keys && KidsOk(c, s', -1, -1)
  {
    var s' := CollapseRoot(s);
    assert KidsAt(c, s, -1, -1, s.root) && KidAt(c, s, -1, -1, s.root, 0);
    forall x | x in s'.pages && s'.pages[x].Internal?
      ensures KidsAt(c, s', -1, -1, x)
    {
      assert KidsAt(c, s, -1, -1, x);
      forall j | 0 <= j < |s.pages[x].kids|
        ensures SameKid(s, -1, -1, s', -1, -1, s.pages[x].kids[j].page)
      {
        assert KidAt(c, s, -1, -1, x, j);
      }
      KidsFrame(c, s, -1, -1, s', -1, -1, x);
    }
  }

  lemma CollapseUp(c: Cfg, s: St)
    requires CanCollapse(c, s)
    ensures var s' := CollapseRoot(s); s'.g.Keys == s'.pages.Keys && UpOk(c, s', -1)
  {
    var s' := CollapseRoot(s);
    forall x | x in s'.pages && x != s'.root
      ensures UpAt(c, s', x)
    {
      var i := InParent(c, s, x);
    }
  }

  /** Losing a level keeps the tree well formed. */
  lemma CollapseOk(c: Cfg, s: St)
    requires CanCollapse(c, s)
    ensures Struct(c, CollapseRoot(s), -1, -1)
  {
    CollapseTop(c, s);
    CollapseKids(c, s);
    CollapseUp(c, s);
    assert KidsAt(c, s, -1, -1, s.root) && KidAt(c, s, -1, -1, s.root, 0);
    LeavesFrame(c, s, CollapseRoot(s));
  }
}
