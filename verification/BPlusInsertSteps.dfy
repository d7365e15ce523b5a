/** The structural steps of an insertion and the clauses of the invariant they keep. */
module BPlusInsertSteps {
  import opened BPlusState

  function InsertKid(ks: seq<Kid>, j: int, k: Kid): seq<Kid>
    requires 0 <= j <= |ks|
  {
    ks[..j] + [k] + ks[j..]
  }

  /** The pending right half `n` enters its parent at slot `j`. */
  ghost function AddChild(s: St, l: int, n: int, j: int): St
    requires l in s.pages && n in s.pages && n in s.g
    requires var q := s.pages[l].parent; q in s.pages && s.pages[q].Internal? && 0 <= j <= |s.pages[q].kids|
  {
    var q := s.pages[l].parent;
    var ks := InsertKid(s.pages[q].kids, j, Kid(s.g[n].lo, n));
    s.(pages := s.pages[q := s.pages[q].(kids := ks)][n := s.pages[n].(parent := q)])
  }

  ghost predicate CanAdd(c: Cfg, s: St, l: int, n: int, j: int) {
    && Struct(c, s, l, n) && l != -1 && l != s.root
    && var q := s.pages[l].parent;
    && q in s.pages && s.pages[q].Internal? && q != n && q != l
    && 1 <= j <= |s.pages[q].kids| && s.pages[q].kids[j - 1] == Kid(Slot(c, s.g[l].lo), l)
  }


  /** Inserting a key between two neighbouring separators keeps them sorted. */
  lemma InsertKidSeps(ks: seq<Kid>, lo: int, hi: int, j: int, k: Kid)
    requires SepsOk(ks, lo, hi) && 1 <= j <= |ks|
    requires Sep(ks, lo, hi, j - 1) < k.key < Sep(ks, lo, hi, j)
    ensures SepsOk(InsertKid(ks, j, k), lo, hi)
    ensures forall i :: 0 <= i <= |ks| + 1 ==>
      Sep(InsertKid(ks, j, k), lo, hi, i) ==
        if i < j then Sep(ks, lo, hi, i) else if i == j then k.key else Sep(ks, lo, hi, i - 1)
  {
    var ks' := InsertKid(ks, j, k);
    forall i | 0 <= i <= |ks| + 1
      ensures Sep(ks', lo, hi, i) ==
        if i < j then Sep(ks, lo, hi, i) else if i == j then k.key else Sep(ks, lo, hi, i - 1)
    {
      if j < i <= |ks| {
        assert ks'[i] == ks[i - 1];
      }
    }
    forall a, b | 0 <= a < b <= |ks'|
      ensures Sep(ks', lo, hi, a) < Sep(ks', lo, hi, b)
    {
      assert Sep(ks, lo, hi, if a < j then a else a - 1) <= Sep(ks, lo, hi, if b <= j then b else b - 1);
    }
  }

  lemma AddChildKidsParent(c: Cfg, s: St, l: int, n: int, j: int)
    requires DomOk(c, s) && PendOk(s, l, n) && l != -1
    requires var q := s.pages[l].parent;
      && q in s.pages && s.pages[q].Internal? && KidsAt(c, s, l, n, q) && q != n
      && 1 <= j <= |s.pages[q].kids| && s.pages[q].kids[j - 1].page == l
    ensures KidsAt(c, AddChild(s, l, n, j), -1, -1, s.pages[l].parent)
  {
    var q := s.pages[l].parent;
    var ks := s.pages[q].kids;
    var s' := AddChild(s, l, n, j);
    var ks' := s'.pages[q].kids;
    assert KidAt(c, s, l, n, q, j - 1);
    InsertKidSeps(ks, s.g[q].lo, s.g[q].hi, j, Kid(s.g[n].lo, n));
    forall i | 0 <= i < |ks'|
      ensures KidAt(c, s', -1, -1, q, i)
    {
      if i < j {
        assert KidAt(c, s, l, n, q, i);
      } else if i > j {
        assert KidAt(c, s, l, n, q, i - 1);
      }
    }
  }

  /** A node whose children and own span did not change still partitions its interval. */
  lemma KidsFrame(c: Cfg, s: St, l: int, n: int, s': St, l': int, n': int, p: int)
    requires s.g.Keys == s.pages.Keys && PendOk(s, l, n)
    requires s'.g.Keys == s'.pages.Keys && PendOk(s', l', n')
    requires p in s.pages && s.pages[p].Internal? && KidsAt(c, s, l, n, p)
    requires p in s'.pages && s'.pages[p].Internal? && s'.pages[p].kids == s.pages[p].kids && s'.g[p] == s.g[p]
    requires forall i :: 0 <= i < |s.pages[p].kids| ==> SameKid(s, l, n, s', l', n', s.pages[p].kids[i].page)
    ensures KidsAt(c, s', l', n', p)
  {
    forall i | 0 <= i < |s'.pages[p].kids|
      ensures KidAt(c, s', l', n', p, i)
    {
      assert KidAt(c, s, l, n, p, i);
      assert SameKid(s, l, n, s', l', n', s.pages[p].kids[i].page);
    }
  }

  ghost predicate SameKid(s: St, l: int, n: int, s': St, l': int, n': int, k: int)
    requires s.g.Keys == s.pages.Keys && PendOk(s, l, n)
    requires s'.g.Keys == s'.pages.Keys && PendOk(s', l', n')
  {
    k in s.pages ==>
      && k in s'.pages && k != n' && s'.pages[k].parent == s.pages[k].parent
      && s'.g[k].lo == s.g[k].lo && s'.g[k].ht == s.g[k].ht
      && HiX(s', l', n', k) == HiX(s, l, n, k)
  }

  lemma AddChildKids(c: Cfg, s: St, l: int, n: int, j: int)
    requires CanAdd(c, s, l, n, j)
    ensures KidsOk(c, AddChild(s, l, n, j), -1, -1)
  {
    var s' := AddChild(s, l, n, j);
    var q := s.pages[l].parent;
    assert KidsAt(c, s, l, n, q);
    assert KidAt(c, s, l, n, q, j - 1);
    AddChildKidsParent(c, s, l, n, j);
    forall p | p in s'.pages && s'.pages[p].Internal? && p != q
      ensures KidsAt(c, s', -1, -1, p)
    {
      assert KidsAt(c, s, l, n, p);
      forall i | 0 <= i < |s.pages[p].kids|
        ensures SameKid(s, l, n, s', -1, -1, s.pages[p].kids[i].page)
      {
        assert KidAt(c, s, l, n, p, i);
      }
      KidsFrame(c, s, l, n, s', -1, -1, p);
    }
  }

  lemma AddChildUp(c: Cfg, s: St, l: int, n: int, j: int)
    requires CanAdd(c, s, l, n, j)
    ensures UpOk(c, AddChild(s, l, n, j), -1)
  {
    var s' := AddChild(s, l, n, j);
    var q := s.pages[l].parent;
    var ks := s.pages[q].kids;
    var ks' := s'.pages[q].kids;
    assert KidsAt(c, s, l, n, q) && KidAt(c, s, l, n, q, j - 1);
    assert forall k :: k in ks ==> k in ks';
    assert ks'[j] == Kid(s.g[n].lo, n);
    forall p | p in s'.pages && p != s'.root
      ensures UpAt(c, s', p)
    {
      if p != n {
        assert UpAt(c, s, p);
      }
    }
  }

  /** Steps that leave every leaf's entries, link and span alone keep both leaf clauses. */
  lemma LeavesFrame(c: Cfg, s: St, s': St)
    requires s.g.Keys == s.pages.Keys && LeavesOk(s) && ChainOk(c, s) && s'.g.Keys == s'.pages.Keys
    requires forall p :: p in s'.pages && s'.pages[p].Leaf? ==> p in s.pages
    requires forall p :: p in s.pages && s.pages[p].Leaf? ==> p in s'.pages && SameLeaf(s.pages[p], s'.pages[p]) && s'.g[p] == s.g[p]
    requires forall p :: p in s.pages && p in s'.pages ==> SameLeaf(s.pages[p], s'.pages[p])
    ensures LeavesOk(s') && ChainOk(c, s')
  {
    forall p | p in s'.pages && s'.pages[p].Leaf?
      ensures LeafAt(s'.pages[p].entries, s'.g[p].lo, s'.g[p].hi) && ChainAt(c, s', p)
    {
      assert SameLeaf(s.pages[p], s'.pages[p]);
      assert ChainAt(c, s, p);
    }
  }

  ghost predicate SameLeaf(a: Node, b: Node) {
    (a.Leaf? <==> b.Leaf?) && (a.Leaf? ==> a.entries == b.entries && a.next == b.next)
  }

  lemma AddChildTop(c: Cfg, s: St, l: int, n: int, j: int)
    requires CanAdd(c, s, l, n, j)
    ensures var s' := AddChild(s, l, n, j);
      DomOk(c, s') && TopOk(c, s', -1, -1) && LeavesOk(s') && ChainOk(c, s')
  {
    LeavesFrame(c, s, AddChild(s, l, n, j));
  }

  /** The parent takes in the pending half: the whole tree is well formed again. */
  lemma AddChildOk(c: Cfg, s: St, l: int, n: int, j: int)
    requires CanAdd(c, s, l, n, j)
    ensures Struct(c, AddChild(s, l, n, j), -1, -1)
  {
    AddChildTop(c, s, l, n, j);
    AddChildKids(c, s, l, n, j);
    AddChildUp(c, s, l, n, j);
  }

  /** The pending halves of the old root become the two children of a new root `r`. */
  ghost function NewRoot(c: Cfg, s: St, l: int, n: int, r: int): St
    requires l in s.pages && n in s.pages && l in s.g && n in s.g
  {
    St(s.pages[l := s.pages[l].(parent := r)][n := s.pages[n].(parent := r)]
         [r := Internal(-1, [Kid(c.zero, l), Kid(s.g[n].lo, n)])],
       r, s.g[r := Span(0, c.limit, s.g[l].ht + 1)])
  }

  lemma NewRootKids(c: Cfg, s: St, l: int, n: int, r: int)
    requires Struct(c, s, l, n) && l == s.root && r !in s.pages && r >= 2
    ensures KidsOk(c, NewRoot(c, s, l, n, r), -1, -1)
  {
    var s' := NewRoot(c, s, l, n, r);
    assert KidAt(c, s', -1, -1, r, 0) && KidAt(c, s', -1, -1, r, 1);
    forall p | p in s'.pages && s'.pages[p].Internal? && p != r
      ensures KidsAt(c, s', -1, -1, p)
    {
      assert KidsAt(c, s, l, n, p);
      forall i | 0 <= i < |s.pages[p].kids|
        ensures SameKid(s, l, n, s', -1, -1, s.pages[p].kids[i].page)
      {
        assert KidAt(c, s, l, n, p, i);
      }
      KidsFrame(c, s, l, n, s', -1, -1, p);
    }
  }

  lemma NewRootUp(c: Cfg, s: St, l: int, n: int, r: int)
    requires Struct(c, s, l, n) && l == s.root && r !in s.pages && r >= 2
    ensures UpOk(c, NewRoot(c, s, l, n, r), -1)
  {
    var s' := NewRoot(c, s, l, n, r);
    assert s'.pages[r].kids[0] == Kid(c.zero, l) && s'.pages[r].kids[1] == Kid(s.g[n].lo, n);
    forall p | p in s'.pages && p != s'.root
      ensures UpAt(c, s', p)
    {
      if p != n && p != l {
        assert UpAt(c, s, p);
      }
    }
  }

  lemma NewRootTop(c: Cfg, s: St, l: int, n: int, r: int)
    requires Struct(c, s, l, n) && l == s.root && r !in s.pages && r >= 2
    ensures var s' := NewRoot(c, s, l, n, r); DomOk(c, s') && TopOk(c, s', -1, -1)
  {
  }

  lemma NewRootLeaves(c: Cfg, s: St, l: int, n: int, r: int)
    requires Struct(c, s, l, n) && l == s.root && r !in s.pages && r >= 2
    ensures var s' := NewRoot(c, s, l, n, r); LeavesOk(s') && ChainOk(c, s')
  {
    LeavesFrame(c, s, NewRoot(c, s, l, n, r));
  }

  /** Growing the tree by one level keeps it well formed. */
  lemma NewRootOk(c: Cfg, s: St, l: int, n: int, r: int)
    requires Struct(c, s, l, n) && l == s.root && r !in s.pages && r >= 2
    ensures Struct(c, NewRoot(c, s, l, n, r), -1, -1)
  {
    NewRootKids(c, s, l, n, r);
    NewRootTop(c, s, l, n, r);
    NewRootUp(c, s, l, n, r);
    NewRootLeaves(c, s, l, n, r);
  }

  /** Leaf `p` is cut at `m`; the right half moves to the fresh page `n`. */
  ghost function SplitLeaf(s: St, p: int, m: int, n: int): St
    requires p in s.pages && s.pages[p].Leaf? && p in s.g && 0 <= m < |s.pages[p].entries|
  {
    var nd := s.pages[p];
    var key := nd.entries[m].key;
    St(s.pages[p := Leaf(nd.parent, n, nd.entries[..m])][n := Leaf(nd.parent, nd.next, nd.entries[m..])],
       s.root, s.g[p := Span(s.g[p].lo, key, 0)][n := Span(key, s.g[p].hi, 0)])
  }

  ghost predicate CanSplitLeaf(c: Cfg, s: St, p: int, m: int, n: int) {
    && Struct(c, s, -1, -1) && p in s.pages && s.pages[p].Leaf?
    && 1 <= m < |s.pages[p].entries| && n !in s.pages && n >= 2
  }

  lemma SplitLeafKids(c: Cfg, s: St, p: int, m: int, n: int)
    requires CanSplitLeaf(c, s, p, m, n)
    ensures var s' := SplitLeaf(s, p, m, n);
      DomOk(c, s') && PendOk(s', p, n) && TopOk(c, s', p, n) && KidsOk(c, s', p, n)
  {
    var s' := SplitLeaf(s, p, m, n);
    assert LeafAt(s.pages[p].entries, s.g[p].lo, s.g[p].hi);
    assert s.pages[p].entries[0].key < s.pages[p].entries[m].key;
    forall x | x in s'.pages && s'.pages[x].Internal?
      ensures KidsAt(c, s', p, n, x)
    {
      assert KidsAt(c, s, -1, -1, x);
      forall i | 0 <= i < |s.pages[x].kids|
        ensures SameKid(s, -1, -1, s', p, n, s.pages[x].kids[i].page)
      {
        assert KidAt(c, s, -1, -1, x, i);
      }
      KidsFrame(c, s, -1, -1, s', p, n, x);
    }
  }

  lemma SplitLeafLeaves(c: Cfg, s: St, p: int, m: int, n: int)
    requires CanSplitLeaf(c, s, p, m, n)
    ensures var s' := SplitLeaf(s, p, m, n); LeavesOk(s') && ChainOk(c, s')
  {
    var s' := SplitLeaf(s, p, m, n);
    assert LeafAt(s.pages[p].entries, s.g[p].lo, s.g[p].hi);
    assert ChainAt(c, s, p);
    assert LeafAt(s'.pages[p].entries, s'.g[p].lo, s'.g[p].hi);
    assert LeafAt(s'.pages[n].entries, s'.g[n].lo, s'.g[n].hi);
    forall x | x in s'.pages && s'.pages[x].Leaf?
      ensures ChainAt(c, s', x)
    {
      if x != p && x != n {
        assert ChainAt(c, s, x);
      }
    }
  }

  /** Splitting a leaf leaves a well-formed tree with one half pending. */
  lemma SplitLeafOk(c: Cfg, s: St, p: int, m: int, n: int)
    requires CanSplitLeaf(c, s, p, m, n)
    ensures Struct(c, SplitLeaf(s, p, m, n), p, n)
  {
    SplitLeafKids(c, s, p, m, n);
    SplitLeafLeaves(c, s, p, m, n);
    var s' := SplitLeaf(s, p, m, n);
    forall x | x in s'.pages && x != s'.root && x != n
      ensures UpAt(c, s', x)
    {
      assert UpAt(c, s, x);
    }
  }

  ghost predicate HasKid(ks: seq<Kid>, p: int) {
    exists i :: 0 <= i < |ks| && ks[i].page == p
  }

  /** Every child listed in `ks` gets `p` as its parent. */
  ghost function Reparent(pages: map<int, Node>, ks: seq<Kid>, p: int): map<int, Node> {
    map x | x in pages :: if HasKid(ks, x) then pages[x].(parent := p) else pages[x]
  }

  /** Internal node `q` is cut at `m`; the right children move to the fresh page `n`. */
  ghost function SplitInternal(s: St, q: int, m: int, n: int): St
    requires q in s.pages && s.pages[q].Internal? && q in s.g && 0 <= m < |s.pages[q].kids|
  {
    var nd := s.pages[q];
    var key := nd.kids[m].key;
    St(Reparent(s.pages, nd.kids[m..], n)[q := Internal(nd.parent, nd.kids[..m])][n := Internal(nd.parent, nd.kids[m..])],
       s.root, s.g[q := Span(s.g[q].lo, key, s.g[q].ht)][n := Span(key, s.g[q].hi, s.g[q].ht)])
  }

  ghost predicate CanSplitInternal(c: Cfg, s: St, q: int, m: int, n: int) {
    && Struct(c, s, -1, -1) && q in s.pages && s.pages[q].Internal?
    && 1 <= m < |s.pages[q].kids| && n !in s.pages && n >= 2
  }

  /** Cutting a separator sequence leaves two separator sequences. */
  lemma CutSeps(ks: seq<Kid>, lo: int, hi: int, m: int)
    requires SepsOk(ks, lo, hi) && 1 <= m < |ks|
    ensures SepsOk(ks[..m], lo, ks[m].key) && SepsOk(ks[m..], ks[m].key, hi) && lo < ks[m].key < hi
    ensures forall i :: 0 <= i <= m ==> Sep(ks[..m], lo, ks[m].key, i) == Sep(ks, lo, hi, i)
    ensures forall i :: 0 <= i <= |ks| - m ==> Sep(ks[m..], ks[m].key, hi, i) == Sep(ks, lo, hi, m + i)
  {
    var key := ks[m].key;
    assert forall i :: 0 <= i <= m ==> Sep(ks[..m], lo, key, i) == Sep(ks, lo, hi, i);
    assert forall i :: 0 <= i <= |ks| - m ==> Sep(ks[m..], key, hi, i) == Sep(ks, lo, hi, m + i);
    assert Sep(ks, lo, hi, 0) < Sep(ks, lo, hi, m) < Sep(ks, lo, hi, |ks|);
  }

  /** A page is a child of at most one slot of one node. */
  lemma KidUnique(c: Cfg, s: St, q: int, i: int, j: int)
    requires s.g.Keys == s.pages.Keys && q in s.pages && s.pages[q].Internal? && KidsAt(c, s, -1, -1, q)
    requires 0 <= i < |s.pages[q].kids| && 0 <= j < |s.pages[q].kids|
    requires s.pages[q].kids[i].page == s.pages[q].kids[j].page
    ensures i == j
  {
    assert KidAt(c, s, -1, -1, q, i) && KidAt(c, s, -1, -1, q, j);
  }

  /** Exactly the children from slot `m` on are moved by a cut at `m`. */
  lemma MovedKids(c: Cfg, s: St, q: int, m: int)
    requires s.g.Keys == s.pages.Keys && q in s.pages && s.pages[q].Internal? && KidsAt(c, s, -1, -1, q)
    requires 0 <= m <= |s.pages[q].kids|
    ensures var ks := s.pages[q].kids; forall i :: 0 <= i < |ks| ==> (HasKid(ks[m..], ks[i].page) <==> i >= m)
    ensures forall x :: x in s.pages && HasKid(s.pages[q].kids[m..], x) ==> s.pages[x].parent == q
  {
    var ks := s.pages[q].kids;
    forall i | 0 <= i < |ks|
      ensures HasKid(ks[m..], ks[i].page) <==> i >= m
    {
      if i >= m {
        assert ks[m..][i - m] == ks[i];
      } else if HasKid(ks[m..], ks[i].page) {
        var j :| 0 <= j < |ks[m..]| && ks[m..][j].page == ks[i].page;
        KidUnique(c, s, q, i, m + j);
      }
    }
    forall x | x in s.pages && HasKid(ks[m..], x)
      ensures s.pages[x].parent == q
    {
      var j :| 0 <= j < |ks[m..]| && ks[m..][j].page == x;
      assert KidAt(c, s, -1, -1, q, m + j);
    }
  }

  lemma SplitInternalTop(c: Cfg, s: St, q: int, m: int, n: int)
    requires CanSplitInternal(c, s, q, m, n)
    ensures var s' := SplitInternal(s, q, m, n); DomOk(c, s') && PendOk(s', q, n) && TopOk(c, s', q, n)
  {
    assert KidsAt(c, s, -1, -1, q);
    CutSeps(s.pages[q].kids, s.g[q].lo, s.g[q].hi, m);
    MovedKids(c, s, q, m);
  }

  lemma SplitInternalLeft(c: Cfg, s: St, q: int, m: int, n: int)
    requires CanSplitInternal(c, s, q, m, n)
    ensures var s' := SplitInternal(s, q, m, n); s'.g.Keys == s'.pages.Keys && PendOk(s', q, n) && KidsAt(c, s', q, n, q)
  {
    var s' := SplitInternal(s, q, m, n);
    assert KidsAt(c, s, -1, -1, q);
    CutSeps(s.pages[q].kids, s.g[q].lo, s.g[q].hi, m);
    MovedKids(c, s, q, m);
    forall i | 0 <= i < m
      ensures KidAt(c, s', q, n, q, i)
    {
      assert KidAt(c, s, -1, -1, q, i);
    }
  }

  lemma SplitInternalRight(c: Cfg, s: St, q: int, m: int, n: int)
    requires CanSplitInternal(c, s, q, m, n)
    ensures var s' := SplitInternal(s, q, m, n); s'.g.Keys == s'.pages.Keys && PendOk(s', q, n) && KidsAt(c, s', q, n, n)
  {
    var s' := SplitInternal(s, q, m, n);
    assert KidsAt(c, s, -1, -1, q);
    CutSeps(s.pages[q].kids, s.g[q].lo, s.g[q].hi, m);
    MovedKids(c, s, q, m);
    forall i | 0 <= i < |s.pages[q].kids| - m
      ensures KidAt(c, s', q, n, n, i)
    {
      assert KidAt(c, s, -1, -1, q, m + i);
    }
  }

  lemma SplitInternalOther(c: Cfg, s: St, q: int, m: int, n: int, x: int)
    requires CanSplitInternal(c, s, q, m, n)
    requires x in s.pages && s.pages[x].Internal? && x != q
    ensures var s' := SplitInternal(s, q, m, n);
      s'.g.Keys == s'.pages.Keys && PendOk(s', q, n) && s'.pages[x].Internal? && KidsAt(c, s', q, n, x)
  {
    var s' := SplitInternal(s, q, m, n);
    assert KidsAt(c, s, -1, -1, q) && KidsAt(c, s, -1, -1, x);
    MovedKids(c, s, q, m);
    forall i | 0 <= i < |s.pages[x].kids|
      ensures SameKid(s, -1, -1, s', q, n, s.pages[x].kids[i].page)
    {
      assert KidAt(c, s, -1, -1, x, i);
    }
    KidsFrame(c, s, -1, -1, s', q, n, x);
  }

  lemma SplitInternalUp(c: Cfg, s: St, q: int, m: int, n: int)
    requires CanSplitInternal(c, s, q, m, n)
    ensures var s' := SplitInternal(s, q, m, n); s'.g.Keys == s'.pages.Keys && UpOk(c, s', n)
  {
    var s' := SplitInternal(s, q, m, n);
    var ks := s.pages[q].kids;
    assert KidsAt(c, s, -1, -1, q);
    MovedKids(c, s, q, m);
    forall x | x in s'.pages && x != s'.root && x != n
      ensures UpAt(c, s', x)
    {
      assert UpAt(c, s, x);
      if s.pages[x].parent == q {
        var i :| 0 <= i < |ks| && ks[i] == Kid(Slot(c, s.g[x].lo), x);
        assert if i < m then ks[..m][i] == ks[i] else ks[m..][i - m] == ks[i];
        assert x != q by { assert KidAt(c, s, -1, -1, q, i); }
      }
    }
  }

  /** Splitting an internal node leaves a well-formed tree with one half pending. */
  lemma SplitInternalOk(c: Cfg, s: St, q: int, m: int, n: int)
    requires CanSplitInternal(c, s, q, m, n)
    ensures Struct(c, SplitInternal(s, q, m, n), q, n)
  {
    var s' := SplitInternal(s, q, m, n);
    SplitInternalTop(c, s, q, m, n);
    SplitInternalLeft(c, s, q, m, n);
    SplitInternalRight(c, s, q, m, n);
    SplitInternalUp(c, s, q, m, n);
    forall x | x in s'.pages && s'.pages[x].Internal?
      ensures KidsAt(c, s', q, n, x)
    {
      if x != q && x != n {
        SplitInternalOther(c, s, q, m, n, x);
      }
    }
    SplitInternalLeaves(c, s, q, m, n);
  }

  lemma SplitInternalLeaves(c: Cfg, s: St, q: int, m: int, n: int)
    requires CanSplitInternal(c, s, q, m, n)
    ensures var s' := SplitInternal(s, q, m, n); s'.g.Keys == s'.pages.Keys && LeavesOk(s') && ChainOk(c, s')
  {
    LeavesFrame(c, s, SplitInternal(s, q, m, n));
  }

  /** Leaf `p` gets new entries. */
  ghost function SetEntries(s: St, p: int, es: seq<Entry>): St
    requires p in s.pages && s.pages[p].Leaf?
  {
    s.(pages := s.pages[p := s.pages[p].(entries := es)])
  }

  /** Changing the entries of a leaf within its interval keeps the tree well formed. */
  lemma SetEntriesOk(c: Cfg, s: St, p: int, es: seq<Entry>)
    requires Struct(c, s, -1, -1) && p in s.pages && s.pages[p].Leaf? && LeafAt(es, s.g[p].lo, s.g[p].hi)
    ensures Struct(c, SetEntries(s, p, es), -1, -1)
  {
    var s' := SetEntries(s, p, es);
    forall x | x in s'.pages && s'.pages[x].Internal?
      ensures KidsAt(c, s', -1, -1, x)
    {
      assert KidsAt(c, s, -1, -1, x);
      forall i | 0 <= i < |s.pages[x].kids|
        ensures SameKid(s, -1, -1, s', -1, -1, s.pages[x].kids[i].page)
      {
        assert KidAt(c, s, -1, -1, x, i);
      }
      KidsFrame(c, s, -1, -1, s', -1, -1, x);
    }
    SetEntriesUp(c, s, p, es);
  }

  lemma SetEntriesUp(c: Cfg, s: St, p: int, es: seq<Entry>)
    requires Struct(c, s, -1, -1) && p in s.pages && s.pages[p].Leaf?
    ensures var s' := SetEntries(s, p, es); UpOk(c, s', -1) && ChainOk(c, s')
  {
    var s' := SetEntries(s, p, es);
    forall x | x in s'.pages && x != s'.root
      ensures UpAt(c, s', x)
    {
      assert UpAt(c, s, x);
    }
    forall x | x in s'.pages && s'.pages[x].Leaf?
      ensures ChainAt(c, s', x)
    {
      assert ChainAt(c, s, x);
    }
  }

  /** The tree of one leaf, as `create_new_tree` builds it. */
  ghost function Single(c: Cfg, r: int, e: Entry): St {
    St(map[r := Leaf(-1, -1, [e])], r, map[r := Span(0, c.limit, 0)])
  }

  lemma SingleOk(c: Cfg, r: int, e: Entry)
    requires c.Ok() && r >= 2 && 0 <= e.key < c.limit
    ensures Inv(c, Single(c, r, e)) && Contents(Single(c, r, e)) == {e}
  {
    var s := Single(c, r, e);
    assert ChainAt(c, s, r);
    assert e in s.pages[r].entries;
  }
}
