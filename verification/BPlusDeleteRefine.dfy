/** What one deletion step of the index code achieves, occupancy included. */
module BPlusDeleteRefine {
  import opened BPlusState
  import opened BPlusInsertSteps
  import opened BPlusDeleteSteps
  import opened BPlusContents
  import opened BPlusRefine
  import opened BPlusInsertRefine
  import opened BPlusSearch
  import opened BPlusDrops

  /** A page that has just lost one item: at most one below the occupancy floor. */
  ghost predicate Deficit(c: Cfg, nd: Node, isRoot: bool) {
    match nd
    case Leaf(_, _, es) => (if isRoot then 0 else c.leafMax / 2 - 1) <= |es| <= c.leafMax
    case Internal(_, ks) => (if isRoot then 1 else c.internalMax / 2 - 1) <= |ks| <= c.internalMax
  }

  /** Well formed, with at most page `p` one item short. */
  ghost predicate Short(c: Cfg, s: St, p: int) {
    Struct(c, s, -1, -1) && p in s.pages && OccOk(c, s, p) && Deficit(c, s.pages[p], p == s.root)
  }

  /** The last key stored in a node. */
  function LastKey(nd: Node): int
    requires SizeOf(nd) > 0
  {
    match nd
    case Leaf(_, _, es) => es[|es| - 1].key
    case Internal(_, ks) => ks[|ks| - 1].key
  }

  lemma EnoughAlready(c: Cfg, s: St, p: int)
    requires Short(c, s, p) && SizeOk(c, s.pages[p], p == s.root)
    ensures Inv(c, s)
  {
  }

  /** The occupancy floor away from the root leaves something to look up: a leaf keeps an entry,
      an internal node a key beyond the ignored slot 0. */
  lemma LastKeyInside(c: Cfg, s: St, p: int)
    requires Short(c, s, p) && p != s.root
    ensures SizeOf(s.pages[p]) >= (if s.pages[p].Leaf? then 1 else 2)
    ensures s.g[p].lo <= LastKey(s.pages[p]) < s.g[p].hi
  {
    if s.pages[p].Leaf? {
      assert LeafAt(s.pages[p].entries, s.g[p].lo, s.g[p].hi);
    } else {
      var ks := s.pages[p].kids;
      assert KidsAt(c, s, -1, -1, p);
      assert Sep(ks, s.g[p].lo, s.g[p].hi, 0) < Sep(ks, s.g[p].lo, s.g[p].hi, |ks| - 1) < Sep(ks, s.g[p].lo, s.g[p].hi, |ks|);
    }
  }

  /** Looking up a node's last key in its parent finds the node itself. */
  lemma LookupSelf(c: Cfg, s: St, p: int, i: int)
    requires Short(c, s, p) && p != s.root
    requires var q := s.pages[p].parent; q in s.pages && s.pages[q].Internal? && 0 <= i < |s.pages[q].kids|
    requires SizeOf(s.pages[p]) > 0
    requires forall x :: 1 <= x <= i ==> s.pages[s.pages[p].parent].kids[x].key <= LastKey(s.pages[p])
    requires forall x :: i < x < |s.pages[s.pages[p].parent].kids| ==> LastKey(s.pages[p]) < s.pages[s.pages[p].parent].kids[x].key
    ensures s.pages[s.pages[p].parent].kids[i].page == p
  {
    var q := s.pages[p].parent;
    LastKeyInside(c, s, p);
    var j := InParent(c, s, p);
    var key := LastKey(s.pages[p]);
    LookupChild(c, s, q, i, key);
    Unique(c, s, s.pages[q].kids[i].page, p, key);
  }

  lemma ParentOfShort(c: Cfg, s: St, p: int)
    requires Short(c, s, p) && p != s.root
    ensures var q := s.pages[p].parent;
      && q in s.pages && q != p && s.pages[q].Internal? && |s.pages[q].kids| >= 2
      && KeysFromOne(c, s.pages[q].kids) && s.g[q].ht == s.g[p].ht + 1 <= s.g[s.root].ht
      && KidsAt(c, s, -1, -1, q) && SizeOk(c, s.pages[q], q == s.root)
  {
    var j := InParent(c, s, p);
    var q := s.pages[p].parent;
    KidsSorted(c, s, -1, -1, q);
    assert SizeOk(c, s.pages[q], q == s.root);
  }

  /** Two children of `q` have been merged: `q` may be short, and it is now up to `q` what else goes. */
  ghost predicate MergedBelow(c: Cfg, s: St, s': St, q: int) {
    && s.g.Keys == s.pages.Keys && q in s.pages && s.root in s.pages && SizeOf(s.pages[q]) >= 1
    && Short(c, s', q) && Contents(s') == Contents(s)
    && s'.root == s.root && s'.g[q] == s.g[q] && s'.g[s.root] == s.g[s.root]
    && SizeOf(s'.pages[q]) == SizeOf(s.pages[q]) - 1
    && DropsAt(c, s', q, SizeOf(s'.pages[q])) == DropsAt(c, s, q, SizeOf(s.pages[q]) - 1)
  }

  /** Two siblings that fit in one page are merged; the parent may now be short. */
  lemma MergeLeafDone(c: Cfg, s: St, p: int, q: int, i: int)
    requires Short(c, s, p) && p != s.root && CanMerge(c, s, q, i, true)
    requires p == s.pages[q].kids[i - 1].page || p == s.pages[q].kids[i].page
    requires |s.pages[s.pages[q].kids[i - 1].page].entries| + |s.pages[s.pages[q].kids[i].page].entries| <= c.leafMax
    ensures MergedBelow(c, s, MergeLeaf(s, q, i), q)
  {
    Siblings(c, s, q, i);
    MergeLeafOk(c, s, q, i);
    MergeLeafContents(c, s, q, i);
    MergeLeafDrops(c, s, q, i, s.pages[q].kids[i - 1].page, s.pages[q].kids[i].page, |s.pages[q].kids| - 1);
    MergeLeafOcc(c, s, p, q, i, s.pages[q].kids[i - 1].page, s.pages[q].kids[i].page);
  }

  lemma MergeLeafOcc(c: Cfg, s: St, p: int, q: int, i: int, l: int, r: int)
    requires Pair(s, q, i, l, r) && s.pages[l].Leaf? && s.pages[r].Leaf? && l != s.root && r != s.root && (p == l || p == r)
    requires c.Ok() && OccOk(c, s, p) && Deficit(c, s.pages[p], false)
    requires |s.pages[l].entries| + |s.pages[r].entries| <= c.leafMax
    ensures var s' := MergeLeaf(s, q, i); q in s'.pages && OccOk(c, s', q) && Deficit(c, s'.pages[q], q == s'.root)
  {
    var s' := MergeLeaf(s, q, i);
    assert SizeOk(c, s.pages[q], q == s.root) && SizeOk(c, s.pages[if p == l then r else l], false);
    forall x | x in s'.pages && x != q
      ensures SizeOk(c, s'.pages[x], x == s'.root)
    {
      if x != l {
        assert SizeOk(c, s.pages[x], x == s.root);
      }
    }
  }

  /** A merge below `q` does not change what happens at `q` and above. */
  lemma MergeLeafDrops(c: Cfg, s: St, q: int, i: int, l: int, r: int, size: int)
    requires Pair(s, q, i, l, r) && s.pages[l].Leaf? && s.pages[r].Leaf? && s.g[l].ht < s.g[q].ht
    requires s.root in s.pages && s.root != r && size == |s.pages[q].kids| - 1
    ensures var s' := MergeLeaf(s, q, i);
      && s'.g.Keys == s'.pages.Keys && q in s'.pages && s'.root in s'.pages
      && SizeOf(s'.pages[q]) == size && DropsAt(c, s', q, size) == DropsAt(c, s, q, size)
  {
    DropsFrame(c, s, MergeLeaf(s, q, i), q, size);
  }

  lemma MergeInternalDrops(c: Cfg, s: St, q: int, i: int, l: int, r: int, size: int)
    requires Pair(s, q, i, l, r) && s.pages[l].Internal? && s.pages[r].Internal? && s.g[l].ht < s.g[q].ht
    requires s.root in s.pages && s.root != r && size == |s.pages[q].kids| - 1
    requires forall x :: HasKid(s.pages[r].kids, x) && x in s.pages ==> s.g[x].ht < s.g[q].ht
    ensures var s' := MergeInternal(s, q, i);
      && s'.g.Keys == s'.pages.Keys && q in s'.pages && s'.root in s'.pages
      && SizeOf(s'.pages[q]) == size && DropsAt(c, s', q, size) == DropsAt(c, s, q, size)
  {
    DropsFrame(c, s, MergeInternal(s, q, i), q, size);
  }

  /** Grandchildren lie lower. */
  lemma KidsLower(c: Cfg, s: St, r: int)
    requires Struct(c, s, -1, -1) && r in s.pages && s.pages[r].Internal?
    ensures forall x :: HasKid(s.pages[r].kids, x) ==> x in s.g && s.g[x].ht < s.g[r].ht
  {
    assert KidsAt(c, s, -1, -1, r);
    forall x | HasKid(s.pages[r].kids, x)
      ensures x in s.g && s.g[x].ht < s.g[r].ht
    {
      var j :| 0 <= j < |s.pages[r].kids| && s.pages[r].kids[j].page == x;
      assert KidAt(c, s, -1, -1, r, j);
    }
  }

  lemma MergeInternalDone(c: Cfg, s: St, p: int, q: int, i: int)
    requires Short(c, s, p) && p != s.root && CanMerge(c, s, q, i, false)
    requires p == s.pages[q].kids[i - 1].page || p == s.pages[q].kids[i].page
    requires |s.pages[s.pages[q].kids[i - 1].page].kids| + |s.pages[s.pages[q].kids[i].page].kids| <= c.internalMax
    ensures MergedBelow(c, s, MergeInternal(s, q, i), q)
  {
    Siblings(c, s, q, i);
    MergeInternalOk(c, s, q, i);
    MergeInternalContents(c, s, q, i);
    KidsLower(c, s, s.pages[q].kids[i].page);
    MergeInternalDrops(c, s, q, i, s.pages[q].kids[i - 1].page, s.pages[q].kids[i].page, |s.pages[q].kids| - 1);
    MergeInternalOcc(c, s, p, q, i, s.pages[q].kids[i - 1].page, s.pages[q].kids[i].page);
  }

  lemma MergeInternalOcc(c: Cfg, s: St, p: int, q: int, i: int, l: int, r: int)
    requires Pair(s, q, i, l, r) && s.pages[l].Internal? && s.pages[r].Internal? && l != s.root && r != s.root && (p == l || p == r)
    requires c.Ok() && OccOk(c, s, p) && Deficit(c, s.pages[p], false)
    requires |s.pages[l].kids| + |s.pages[r].kids| <= c.internalMax
    ensures var s' := MergeInternal(s, q, i); q in s'.pages && OccOk(c, s', q) && Deficit(c, s'.pages[q], q == s'.root)
  {
    var s' := MergeInternal(s, q, i);
    assert SizeOk(c, s.pages[q], q == s.root) && SizeOk(c, s.pages[if p == l then r else l], false);
    forall x | x in s'.pages && x != q
      ensures SizeOk(c, s'.pages[x], x == s'.root)
    {
      if x != l {
        assert SizeOk(c, s.pages[x], x == s.root);
      }
    }
  }

  /** Two siblings that do not fit in one page: moving one entry repairs the short one and
      leaves the other above the floor. */
  lemma ShiftLeafDone(c: Cfg, s: St, p: int, q: int, i: int, m: int)
    requires Short(c, s, p) && p != s.root && CanMerge(c, s, q, i, true)
    requires SizeOf(s.pages[p]) < c.leafMax - c.leafMax / 2
    requires var l, r := s.pages[q].kids[i - 1].page, s.pages[q].kids[i].page;
      && |s.pages[l].entries| + |s.pages[r].entries| > c.leafMax
      && ((p == l && m == |s.pages[l].entries| + 1) || (p == r && m == |s.pages[l].entries| - 1))
    ensures 1 <= m < |s.pages[s.pages[q].kids[i - 1].page].entries| + |s.pages[s.pages[q].kids[i].page].entries|
    ensures Inv(c, ShiftLeaf(s, q, i, m)) && Contents(ShiftLeaf(s, q, i, m)) == Contents(s)
  {
    Siblings(c, s, q, i);
    var l, r := s.pages[q].kids[i - 1].page, s.pages[q].kids[i].page;
    assert SizeOk(c, s.pages[if p == l then r else l], false);
    ShiftLeafOk(c, s, q, i, m);
    ShiftLeafOcc(c, s, p, q, i, l, r, m);
  }

  lemma ShiftLeafOcc(c: Cfg, s: St, p: int, q: int, i: int, l: int, r: int, m: int)
    requires Pair(s, q, i, l, r) && s.pages[l].Leaf? && s.pages[r].Leaf? && l != s.root && r != s.root && (p == l || p == r) && c.Ok() && OccOk(c, s, p)
    requires Deficit(c, s.pages[p], false) && SizeOf(s.pages[p]) < c.leafMax - c.leafMax / 2
    requires |s.pages[l].entries| + |s.pages[r].entries| > c.leafMax
    requires (p == l && m == |s.pages[l].entries| + 1) || (p == r && m == |s.pages[l].entries| - 1)
    requires 1 <= m < |s.pages[l].entries| + |s.pages[r].entries|
    ensures OccOk(c, ShiftLeaf(s, q, i, m), -1)
  {
    var s' := ShiftLeaf(s, q, i, m);
    assert SizeOk(c, s.pages[if p == l then r else l], false);
    forall x | x in s'.pages
      ensures SizeOk(c, s'.pages[x], x == s'.root)
    {
      if x != l && x != r {
        assert SizeOk(c, s.pages[x], x == s.root);
      }
    }
  }

  lemma ShiftInternalDone(c: Cfg, s: St, p: int, q: int, i: int, m: int)
    requires Short(c, s, p) && p != s.root && CanMerge(c, s, q, i, false)
    requires SizeOf(s.pages[p]) < c.internalMax - c.internalMax / 2
    requires var l, r := s.pages[q].kids[i - 1].page, s.pages[q].kids[i].page;
      && |s.pages[l].kids| + |s.pages[r].kids| > c.internalMax
      && ((p == l && m == |s.pages[l].kids| + 1) || (p == r && m == |s.pages[l].kids| - 1))
    ensures 1 <= m < |s.pages[s.pages[q].kids[i - 1].page].kids| + |s.pages[s.pages[q].kids[i].page].kids|
    ensures Inv(c, ShiftInternal(s, q, i, m)) && Contents(ShiftInternal(s, q, i, m)) == Contents(s)
  {
    Siblings(c, s, q, i);
    var l, r := s.pages[q].kids[i - 1].page, s.pages[q].kids[i].page;
    assert SizeOk(c, s.pages[if p == l then r else l], false);
    ShiftInternalOk(c, s, q, i, m);
    ShiftInternalOcc(c, s, p, q, i, l, r, m);
  }

  lemma ShiftInternalOcc(c: Cfg, s: St, p: int, q: int, i: int, l: int, r: int, m: int)
    requires Pair(s, q, i, l, r) && s.pages[l].Internal? && s.pages[r].Internal? && l != s.root && r != s.root && (p == l || p == r) && c.Ok() && OccOk(c, s, p)
    requires Deficit(c, s.pages[p], false) && SizeOf(s.pages[p]) < c.internalMax - c.internalMax / 2
    requires |s.pages[l].kids| + |s.pages[r].kids| > c.internalMax
    requires (p == l && m == |s.pages[l].kids| + 1) || (p == r && m == |s.pages[l].kids| - 1)
    requires 1 <= m < |s.pages[l].kids| + |s.pages[r].kids|
    ensures OccOk(c, ShiftInternal(s, q, i, m), -1)
  {
    var s' := ShiftInternal(s, q, i, m);
    assert SizeOk(c, s.pages[if p == l then r else l], false);
    forall x | x in s'.pages
      ensures SizeOk(c, s'.pages[x], x == s'.root)
    {
      if x != l && x != r {
        assert SizeOk(c, s.pages[x], x == s.root);
      }
    }
  }

  /** An internal root with one child left is replaced by that child. */
  lemma CollapseDone(c: Cfg, s: St)
    requires Short(c, s, s.root) && s.pages[s.root].Internal? && |s.pages[s.root].kids| == 1
    ensures Inv(c, CollapseRoot(s)) && Contents(CollapseRoot(s)) == Contents(s)
    ensures s.pages[s.root].kids[0].page in s.pages && s.pages[s.root].kids[0].page != s.root && s.root >= 2
  {
    CollapseOk(c, s);
    CollapseContents(c, s);
    assert KidsAt(c, s, -1, -1, s.root) && KidAt(c, s, -1, -1, s.root, 0);
    var s' := CollapseRoot(s);
    forall x | x in s'.pages
      ensures SizeOk(c, s'.pages[x], x == s'.root)
    {
      assert SizeOk(c, s.pages[x], x == s.root);
    }
  }

  /** A root leaf without entries is the only page. */
  lemma EmptyRoot(c: Cfg, s: St, p: int)
    requires Short(c, s, p) && p == s.root && s.pages[p].Leaf? && s.pages[p].entries == []
    ensures s.pages.Keys == {p} && Contents(s) == {} && p >= 2
  {
    assert forall p :: p in s.pages ==> p == s.root;
  }

  /** Removing an entry leaves the tree well formed with its leaf possibly short. */
  lemma RemoveLeafDone(c: Cfg, s: St, p: int, i: int)
    requires Inv(c, s) && p in s.pages && s.pages[p].Leaf? && 0 <= i < |s.pages[p].entries|
    ensures var s' := SetEntries(s, p, RemoveEntryAt(s.pages[p].entries, i)); var size := |s.pages[p].entries| - 1;
      && Short(c, s', p) && Contents(s') == Contents(s) - {s.pages[p].entries[i]}
      && SizeOf(s'.pages[p]) == size && DropsAt(c, s', p, size) == DropsAt(c, s, p, size)
  {
    RemoveLeafContents(c, s, p, i);
    var s' := SetEntries(s, p, RemoveEntryAt(s.pages[p].entries, i));
    DropsFrame(c, s, s', p, |s.pages[p].entries| - 1);
    assert SizeOk(c, s.pages[p], p == s.root);
    forall x | x in s'.pages && x != p
      ensures SizeOk(c, s'.pages[x], x == s'.root)
    {
      assert SizeOk(c, s.pages[x], x == s.root);
    }
  }

  /** `coalesce` on leaves, page by page. */
  lemma MergeLeafPagesIs(s: St, q: int, i: int, l: int, r: int)
    requires Pair(s, q, i, l, r) && s.pages[l].Leaf? && s.pages[r].Leaf?
    ensures var left, right := s.pages[l], s.pages[r];
      s.pages[q := s.pages[q].(kids := RemoveKid(s.pages[q].kids, i))]
             [l := left.(next := right.next, entries := left.entries + right.entries)][r := right.(entries := [])] - {r}
      == MergeLeaf(s, q, i).pages
  {
  }

  /** `coalesce` on internal nodes, page by page. */
  lemma MergeInternalPagesIs(s: St, q: int, i: int, l: int, r: int)
    requires Pair(s, q, i, l, r) && s.pages[l].Internal? && s.pages[r].Internal?
    requires !HasKid(s.pages[r].kids, q) && !HasKid(s.pages[r].kids, l) && !HasKid(s.pages[r].kids, r)
    ensures var left, right := s.pages[l], s.pages[r];
      Reparent(s.pages[q := s.pages[q].(kids := RemoveKid(s.pages[q].kids, i))], right.kids, l)
             [l := left.(kids := left.kids + right.kids)][r := right.(kids := [])] - {r}
      == MergeInternal(s, q, i).pages
  {
  }

  lemma SiblingKidsApart(c: Cfg, s: St, q: int, i: int)
    requires CanMerge(c, s, q, i, false)
    ensures var l, r := s.pages[q].kids[i - 1].page, s.pages[q].kids[i].page;
      && Pair(s, q, i, l, r)
      && !HasKid(s.pages[r].kids, q) && !HasKid(s.pages[r].kids, l) && !HasKid(s.pages[r].kids, r)
      && (forall x :: 0 <= x < |s.pages[r].kids| ==> s.pages[r].kids[x].page in s.pages)
      && (forall x :: 0 <= x < |s.pages[l].kids| ==> s.pages[l].kids[x].page in s.pages)
  {
    Siblings(c, s, q, i);
    SiblingKids(c, s, q, i);
    var l, r := s.pages[q].kids[i - 1].page, s.pages[q].kids[i].page;
    var all := s.pages[l].kids + s.pages[r].kids;
    forall x | 0 <= x < |s.pages[r].kids|
      ensures var k := s.pages[r].kids[x].page; k in s.pages && k != q && k != l && k != r
    {
      assert all[|s.pages[l].kids| + x] == s.pages[r].kids[x];
    }
    forall x | 0 <= x < |s.pages[l].kids|
      ensures s.pages[l].kids[x].page in s.pages
    {
      assert all[x] == s.pages[l].kids[x];
    }
  }

  /** `redistribute` on leaves, page by page: one entry crosses the boundary. */
  lemma ShiftLeafPagesIs(s: St, q: int, i: int, l: int, r: int)
    requires Pair(s, q, i, l, r) && s.pages[l].Leaf? && s.pages[r].Leaf?
    ensures var a, b := s.pages[l].entries, s.pages[r].entries;
      |b| >= 2 ==> s.pages[l := s.pages[l].(entries := a + [b[0]])][r := s.pages[r].(entries := b[1..])]
                          [q := s.pages[q].(kids := s.pages[q].kids[i := Kid(b[1].key, r)])]
                   == ShiftLeaf(s, q, i, |a| + 1).pages && (a + b)[|a| + 1].key == b[1].key
    ensures var a, b := s.pages[l].entries, s.pages[r].entries;
      |a| >= 1 ==> s.pages[r := s.pages[r].(entries := [a[|a| - 1]] + b)][l := s.pages[l].(entries := a[..|a| - 1])]
                          [q := s.pages[q].(kids := s.pages[q].kids[i := Kid(a[|a| - 1].key, r)])]
                   == ShiftLeaf(s, q, i, |a| - 1).pages && (a + b)[|a| - 1].key == a[|a| - 1].key
  {
    var a, b := s.pages[l].entries, s.pages[r].entries;
    if |b| >= 2 {
      assert (a + b)[..|a| + 1] == a + [b[0]] && (a + b)[|a| + 1..] == b[1..];
    }
    if |a| >= 1 {
      assert (a + b)[..|a| - 1] == a[..|a| - 1] && (a + b)[|a| - 1..] == [a[|a| - 1]] + b;
    }
  }

  /** The children of `r` are pages apart from the three involved, and `r` is their parent. */
  ghost predicate KidsApart(s: St, q: int, l: int, r: int)
    requires r in s.pages && s.pages[r].Internal?
  {
    var b := s.pages[r].kids;
    && (forall x :: x in s.pages && HasKid(b, x) ==> s.pages[x].parent == r)
    && !HasKid(b, q) && !HasKid(b, l) && !HasKid(b, r)
  }

  ghost predicate CanMoveFirst(s: St, q: int, i: int, l: int, r: int) {
    && Pair(s, q, i, l, r) && s.pages[l].Internal? && s.pages[r].Internal? && KidsApart(s, q, l, r)
    && |s.pages[r].kids| >= 2
    && var k := s.pages[r].kids[0].page;
    && k in s.pages && k != q && k != l && k != r
    && (forall x :: 1 <= x < |s.pages[r].kids| ==> s.pages[r].kids[x].page != k)
  }

  ghost predicate CanMoveLast(s: St, q: int, i: int, l: int, r: int) {
    && Pair(s, q, i, l, r) && s.pages[l].Internal? && s.pages[r].Internal? && KidsApart(s, q, l, r)
    && |s.pages[l].kids| >= 1
    && var k := s.pages[l].kids[|s.pages[l].kids| - 1].page;
    && k in s.pages && k != q && k != l && k != r
  }

  /** `redistribute` from the right internal sibling, page by page: its first child crosses over. */
  ghost function FirstKidMoved(s: St, q: int, i: int, l: int, r: int): St
    requires CanMoveFirst(s, q, i, l, r)
  {
    var a, b := s.pages[l].kids, s.pages[r].kids;
    var k := b[0].page;
    St(s.pages[l := s.pages[l].(kids := a + [b[0]])][k := s.pages[k].(parent := l)][r := s.pages[r].(kids := b[1..])]
              [q := s.pages[q].(kids := s.pages[q].kids[i := Kid(b[1].key, r)])],
       s.root, ShiftSpans(s.g, l, r, b[1].key))
  }

  lemma ShiftInternalFirstIs(s: St, q: int, i: int, l: int, r: int)
    requires CanMoveFirst(s, q, i, l, r)
    ensures FirstKidMoved(s, q, i, l, r) == ShiftInternal(s, q, i, |s.pages[l].kids| + 1)
  {
    var a, b := s.pages[l].kids, s.pages[r].kids;
    var k := b[0].page;
    assert (a + b)[..|a| + 1] == a + [b[0]] && (a + b)[|a| + 1..] == b[1..];
    forall x
      ensures HasKid(b, x) <==> x == k || HasKid(b[1..], x)
    {
      if HasKid(b, x) && x != k {
        var y :| 0 <= y < |b| && b[y].page == x;
        assert b[1..][y - 1] == b[y];
      }
    }
  }

  /** `redistribute` from the left internal sibling, page by page: its last child crosses over. */
  ghost function LastKidMoved(s: St, q: int, i: int, l: int, r: int): St
    requires CanMoveLast(s, q, i, l, r)
  {
    var a, b := s.pages[l].kids, s.pages[r].kids;
    var k := a[|a| - 1];
    St(s.pages[k.page := s.pages[k.page].(parent := r)][r := s.pages[r].(kids := [k] + b)][l := s.pages[l].(kids := a[..|a| - 1])]
              [q := s.pages[q].(kids := s.pages[q].kids[i := Kid(k.key, r)])],
       s.root, ShiftSpans(s.g, l, r, k.key))
  }

  lemma ShiftInternalLastIs(s: St, q: int, i: int, l: int, r: int)
    requires CanMoveLast(s, q, i, l, r)
    ensures LastKidMoved(s, q, i, l, r) == ShiftInternal(s, q, i, |s.pages[l].kids| - 1)
  {
    var a, b := s.pages[l].kids, s.pages[r].kids;
    var last := a[|a| - 1];
    assert (a + b)[..|a| - 1] == a[..|a| - 1] && (a + b)[|a| - 1..] == [last] + b;
    forall x
      ensures HasKid([last] + b, x) <==> x == last.page || HasKid(b, x)
    {
      assert ([last] + b)[0] == last;
      if HasKid(b, x) {
        var y :| 0 <= y < |b| && b[y].page == x;
        assert ([last] + b)[y + 1] == b[y];
      }
    }
  }

  /** What the two lemmas above need to know about the siblings' children. */
  lemma CrossingKids(c: Cfg, s: St, q: int, i: int)
    requires CanMerge(c, s, q, i, false)
    ensures var l, r := s.pages[q].kids[i - 1].page, s.pages[q].kids[i].page; var a, b := s.pages[l].kids, s.pages[r].kids;
      && (forall x :: x in s.pages && HasKid(b, x) ==> s.pages[x].parent == r)
      && (|b| >= 1 ==> b[0].page in s.pages && b[0].page != q && b[0].page != l && b[0].page != r)
      && (forall x :: 1 <= x < |b| ==> b[x].page != b[0].page)
      && (|a| >= 1 ==> a[|a| - 1].page in s.pages && a[|a| - 1].page != q && a[|a| - 1].page != l && a[|a| - 1].page != r)
  {
    SiblingKids(c, s, q, i);
    var l, r := s.pages[q].kids[i - 1].page, s.pages[q].kids[i].page;
    var a, b := s.pages[l].kids, s.pages[r].kids;
    assert KidsAt(c, s, -1, -1, r);
    MovedKids(c, s, r, 0);
    assert b[0..] == b;
    forall x | 1 <= x < |b|
      ensures b[x].page != b[0].page
    {
      if b[x].page == b[0].page {
        KidUnique(c, s, r, x, 0);
      }
    }
    assert (a + b)[|a|] == b[0];
    if |a| >= 1 {
      assert (a + b)[|a| - 1] == a[|a| - 1];
    }
  }

  /** `p` is short, sits at slot `index` of its parent `q`, and `nb` is the sibling the code picks:
      the right one for slot 0, the left one otherwise. */
  ghost predicate Neighbours(c: Cfg, s: St, p: int, q: int, index: int, nb: int) {
    && Short(c, s, p) && p != s.root && q == s.pages[p].parent
    && q in s.pages && s.pages[q].Internal? && 0 <= index < |s.pages[q].kids| && |s.pages[q].kids| >= 2
    && s.pages[q].kids[index].page == p
    && nb == s.pages[q].kids[if index == 0 then 1 else index - 1].page
  }

  /** The two pages as a left and a right sibling. */
  lemma NeighbourPair(c: Cfg, s: St, p: int, q: int, index: int, nb: int)
    requires Neighbours(c, s, p, q, index, nb)
    ensures var (i, l, r) := if index == 0 then (1, p, nb) else (index, nb, p);
      && Pair(s, q, i, l, r) && CanMerge(c, s, q, i, s.pages[p].Leaf?) && (s.pages[nb].Leaf? <==> s.pages[p].Leaf?)
      && nb != s.root && SizeOk(c, s.pages[nb], false) && SizeOf(s.pages[p]) >= 1
      && s.g[q].ht == s.g[p].ht + 1 && s.g[q].ht <= s.g[s.root].ht && r >= 2
  {
    var i := if index == 0 then 1 else index;
    Siblings(c, s, q, i);
    ParentOfShort(c, s, p);
    LastKeyInside(c, s, p);
    assert SizeOk(c, s.pages[nb], nb == s.root);
  }

  lemma CanBorrowFirst(c: Cfg, s: St, q: int, i: int, l: int, r: int)
    requires CanMerge(c, s, q, i, false) && l == s.pages[q].kids[i - 1].page && r == s.pages[q].kids[i].page && |s.pages[r].kids| >= 2
    ensures CanMoveFirst(s, q, i, l, r)
  {
    CrossingKids(c, s, q, i);
    SiblingKidsApart(c, s, q, i);
  }

  lemma CanBorrowLast(c: Cfg, s: St, q: int, i: int, l: int, r: int)
    requires CanMerge(c, s, q, i, false) && l == s.pages[q].kids[i - 1].page && r == s.pages[q].kids[i].page && |s.pages[l].kids| >= 1
    ensures CanMoveLast(s, q, i, l, r)
  {
    CrossingKids(c, s, q, i);
    SiblingKidsApart(c, s, q, i);
  }

  /** What borrowing the first child of the right sibling achieves. */
  lemma BorrowFirst(c: Cfg, s: St, p: int, q: int, i: int, nb: int) returns (after: St)
    requires Neighbours(c, s, p, q, i - 1, nb) && i == 1 && s.pages[p].Internal? && nb in s.pages && s.pages[nb].Internal?
    requires |s.pages[p].kids| < c.internalMax - c.internalMax / 2 && |s.pages[p].kids| + |s.pages[nb].kids| > c.internalMax
    ensures CanMoveFirst(s, q, i, p, nb)
    ensures after == FirstKidMoved(s, q, i, p, nb)
    ensures Inv(c, after) && Contents(after) == Contents(s)
  {
    NeighbourPair(c, s, p, q, i - 1, nb);
    var m := |s.pages[p].kids| + 1;
    ShiftInternalDone(c, s, p, q, i, m);
    CanBorrowFirst(c, s, q, i, p, nb);
    ShiftInternalFirstIs(s, q, i, p, nb);
    after := ShiftInternal(s, q, i, m);
  }

  /** What borrowing the first entry of the right leaf achieves. */
  lemma BorrowFirstEntry(c: Cfg, s: St, p: int, q: int, nb: int, m: int) returns (after: St)
    requires Neighbours(c, s, p, q, 0, nb) && s.pages[p].Leaf? && nb in s.pages && s.pages[nb].Leaf? && m == |s.pages[p].entries| + 1
    requires |s.pages[p].entries| < c.leafMax - c.leafMax / 2 && |s.pages[p].entries| + |s.pages[nb].entries| > c.leafMax
    ensures Pair(s, q, 1, p, nb) && |s.pages[nb].entries| >= 2
    ensures 0 <= m < |s.pages[p].entries| + |s.pages[nb].entries|
    ensures after == ShiftLeaf(s, q, 1, m) && Inv(c, after) && Contents(after) == Contents(s)
  {
    NeighbourPair(c, s, p, q, 0, nb);
    ShiftLeafDone(c, s, p, q, 1, m);
    after := ShiftLeaf(s, q, 1, m);
  }

  /** What borrowing the last entry of the left leaf achieves. */
  lemma BorrowLastEntry(c: Cfg, s: St, p: int, q: int, index: int, nb: int, m: int) returns (after: St)
    requires Neighbours(c, s, p, q, index, nb) && index > 0 && s.pages[p].Leaf? && nb in s.pages && s.pages[nb].Leaf?
    requires m == |s.pages[nb].entries| - 1
    requires |s.pages[p].entries| < c.leafMax - c.leafMax / 2 && |s.pages[p].entries| + |s.pages[nb].entries| > c.leafMax
    ensures Pair(s, q, index, nb, p) && |s.pages[nb].entries| >= 1
    ensures 0 <= m < |s.pages[nb].entries| + |s.pages[p].entries|
    ensures after == ShiftLeaf(s, q, index, m) && Inv(c, after) && Contents(after) == Contents(s)
  {
    NeighbourPair(c, s, p, q, index, nb);
    ShiftLeafDone(c, s, p, q, index, m);
    after := ShiftLeaf(s, q, index, m);
  }

  /** What borrowing the last child of the left sibling achieves. */
  lemma BorrowLast(c: Cfg, s: St, p: int, q: int, index: int, nb: int) returns (after: St)
    requires Neighbours(c, s, p, q, index, nb) && index > 0 && s.pages[p].Internal? && nb in s.pages && s.pages[nb].Internal?
    requires |s.pages[p].kids| < c.internalMax - c.internalMax / 2 && |s.pages[p].kids| + |s.pages[nb].kids| > c.internalMax
    ensures CanMoveLast(s, q, index, nb, p)
    ensures after == LastKidMoved(s, q, index, nb, p)
    ensures Inv(c, after) && Contents(after) == Contents(s)
  {
    NeighbourPair(c, s, p, q, index, nb);
    var m := |s.pages[nb].kids| - 1;
    ShiftInternalDone(c, s, p, q, index, m);
    CanBorrowLast(c, s, q, index, nb, p);
    ShiftInternalLastIs(s, q, index, nb, p);
    after := ShiftInternal(s, q, index, m);
  }

  /** `adjust_root` at an internal root, page by page. */
  lemma CollapsePagesIs(s: St)
    requires s.root in s.pages && s.pages[s.root].Internal? && |s.pages[s.root].kids| >= 1
    requires s.pages[s.root].kids[0].page in s.pages && s.pages[s.root].kids[0].page != s.root
    ensures var k := s.pages[s.root].kids[0].page;
      s.pages[k := s.pages[k].(parent := -1)] - {s.root} == CollapseRoot(s).pages
  {
  }

  /** Where `coalesce_or_redistribute` stops without touching anything, occupancy is in order. */
  lemma FullEnough(c: Cfg, s: St, p: int)
    requires Short(c, s, p)
    requires SizeOf(s.pages[p]) >= MaxOf(c, s.pages[p]) - MaxOf(c, s.pages[p]) / 2 || (p == s.root && SizeOf(s.pages[p]) > 1)
    ensures Inv(c, s)
  {
    EnoughAlready(c, s, p);
  }

  lemma RootIsParentless(c: Cfg, s: St, p: int)
    requires Struct(c, s, -1, -1) && p in s.pages && s.pages[p].parent != -1
    ensures p != s.root
  {
  }

  lemma RootHasNoParent(c: Cfg, s: St, p: int)
    requires Struct(c, s, -1, -1) && p in s.pages && s.pages[p].parent == -1
    ensures p == s.root
  {
    assert p == s.root || UpAt(c, s, p);
  }

  /** The entry found in a leaf is the only one in the tree with its key. */
  lemma EntryAt(c: Cfg, s: St, p: int, pos: int)
    requires Struct(c, s, -1, -1) && p in s.pages && s.pages[p].Leaf? && 0 <= pos < |s.pages[p].entries|
    ensures s.pages[p].entries[pos] in Contents(s)
    ensures forall e :: e in Contents(s) && e.key == s.pages[p].entries[pos].key ==> e == s.pages[p].entries[pos]
  {
    var f := s.pages[p].entries[pos];
    assert f in s.pages[p].entries;
    forall e | e in Contents(s) && e.key == f.key
      ensures e == f
    {
      KeyUnique(c, s, e, f);
    }
  }

  /** One level of a deletion: nothing is disposed of when an item is borrowed, and the right sibling
      and whatever its parent then needs when two nodes are merged. */
  lemma DropsStep(c: Cfg, s: St, p: int, q: int, index: int, nb: int)
    requires Neighbours(c, s, p, q, index, nb) && nb in s.pages
    requires SizeOf(s.pages[p]) < MaxOf(c, s.pages[p]) - MaxOf(c, s.pages[p]) / 2
    ensures DropsAt(c, s, p, SizeOf(s.pages[p])) ==
      if SizeOf(s.pages[p]) + SizeOf(s.pages[nb]) > MaxOf(c, s.pages[p]) then {}
      else {if index == 0 then nb else p} + DropsAt(c, s, q, |s.pages[q].kids| - 1)
  {
    NeighbourPair(c, s, p, q, index, nb);
    OnlySlot(c, s, p, q, index);
    assert q >= 2 && IsSibling(s, p, nb);
  }

  lemma OnlySlot(c: Cfg, s: St, p: int, q: int, index: int)
    requires Struct(c, s, -1, -1) && q in s.pages && s.pages[q].Internal? && 0 <= index < |s.pages[q].kids| && s.pages[q].kids[index].page == p
    ensures SlotIn(s.pages[q].kids, p) == index
  {
    KidUnique(c, s, q, SlotIn(s.pages[q].kids, p), index);
  }

  /** The pages a deletion disposes of are those of the leaf that holds the key. */
  lemma DropsOf(c: Cfg, s: St, p: int, key: int)
    requires Struct(c, s, -1, -1) && Covers(s, p, key) && HasKey(s, key)
    ensures Drops(c, s, key) == DropsAt(c, s, p, |s.pages[p].entries| - 1)
  {
    forall x | Covers(s, x, key)
      ensures x == p
    {
      CoversUnique(c, s, x, p, key);
    }
  }

  lemma DropsInTree(c: Cfg, s: St, key: int)
    requires Inv(c, s)
    ensures forall x :: x in Drops(c, s, key) ==> x >= 2 && x in s.pages
  {
    if HasKey(s, key) && s.root in s.pages && exists p :: Covers(s, p, key) {
      var p :| Covers(s, p, key) && Drops(c, s, key) == DropsAt(c, s, p, |s.pages[p].entries| - 1);
      DropsIn(c, s, p, |s.pages[p].entries| - 1);
    }
  }

  lemma NothingDropped(c: Cfg, s: St, key: int)
    requires s.g.Keys == s.pages.Keys && !HasKey(s, key)
    ensures Drops(c, s, key) == {} && s.pages.Keys - Drops(c, s, key) == s.pages.Keys
  {
  }

  /** What `adjust_root` disposes of. */
  lemma RootDrops(c: Cfg, s: St, p: int)
    requires Short(c, s, p) && p == s.root && SizeOf(s.pages[p]) < MaxOf(c, s.pages[p]) - MaxOf(c, s.pages[p]) / 2
    ensures DropsAt(c, s, p, SizeOf(s.pages[p])) ==
      if SizeOf(s.pages[p]) > 1 || (s.pages[p].Leaf? && SizeOf(s.pages[p]) > 0) then {} else {p}
  {
  }
}
