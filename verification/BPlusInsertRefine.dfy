/** What one insertion step of the index code achieves, occupancy and page demand included. */
module BPlusInsertRefine {
  import opened BPlusState
  import opened BPlusInsertSteps
  import opened BPlusDeleteSteps
  import opened BPlusContents
  import opened BPlusRefine
  import opened BPlusSearch

  lemma KidsSorted(c: Cfg, s: St, l: int, n: int, q: int)
    requires c.Ok() && DomOk(c, s) && PendOk(s, l, n) && q in s.pages && s.pages[q].Internal? && KidsAt(c, s, l, n, q)
    ensures KeysFromOne(c, s.pages[q].kids)
  {
    var ks, lo, hi := s.pages[q].kids, s.g[q].lo, s.g[q].hi;
    forall i | 1 <= i < |ks|
      ensures 0 <= ks[i].key < c.limit
    {
      assert Sep(ks, lo, hi, 0) < Sep(ks, lo, hi, i) < Sep(ks, lo, hi, |ks|);
    }
    forall i, j | 1 <= i < j < |ks|
      ensures ks[i].key < ks[j].key
    {
      assert Sep(ks, lo, hi, i) < Sep(ks, lo, hi, j);
    }
  }

  /** Slot `j` is where a child starting at `key` goes. */
  ghost predicate KidBelongs(ks: seq<Kid>, j: int, key: int) {
    && 1 <= j <= |ks|
    && (forall x :: 1 <= x < j ==> ks[x].key < key)
    && (forall x :: j <= x < |ks| ==> key < ks[x].key)
  }

  lemma SamePosition(ks: seq<Kid>, key: int, j: int, pos: int)
    requires KidBelongs(ks, j, key) && 1 <= pos <= |ks|
    requires forall x :: 1 <= x < pos ==> ks[x].key < key
    requires forall x :: pos <= x < |ks| ==> key <= ks[x].key
    ensures pos == j
  {
    var atPos := if pos < |ks| then ks[pos].key else key;
    var atJ := if j < |ks| then ks[j].key else key;
  }

  /** The slot at which a pending half enters its parent, as the lookup will see it. */
  lemma PendingPosition(c: Cfg, s: St, l: int, n: int) returns (j: int)
    requires Struct(c, s, l, n) && l != -1 && l != s.root
    ensures CanAdd(c, s, l, n, j) && KidBelongs(s.pages[s.pages[l].parent].kids, j, s.g[n].lo)
    ensures KeysFromOne(c, s.pages[s.pages[l].parent].kids) && 0 <= s.g[n].lo < c.limit
  {
    j := PendingSlot(c, s, l, n);
    PendingKey(c, s, l, n, j);
    KidsSorted(c, s, l, n, s.pages[l].parent);
  }

  /** The child a lookup picks covers the key. */
  lemma LookupChild(c: Cfg, s: St, q: int, i: int, key: int)
    requires Struct(c, s, -1, -1) && q in s.pages && s.pages[q].Internal? && s.g[q].lo <= key < s.g[q].hi
    requires 0 <= i < |s.pages[q].kids|
    requires forall x :: 1 <= x <= i ==> s.pages[q].kids[x].key <= key
    requires forall x :: i < x < |s.pages[q].kids| ==> key < s.pages[q].kids[x].key
    ensures var k := s.pages[q].kids[i].page;
      k in s.pages && s.g[k].lo <= key < s.g[k].hi && s.g[k].ht + 1 == s.g[q].ht && s.pages[k].parent == q
  {
    assert KidsAt(c, s, -1, -1, q) && KidAt(c, s, -1, -1, q, i);
  }

  /** Pages a split at `p` still has to allocate above: one per full ancestor, and one more for
      a new root if even the root is full. */
  ghost function NeedAbove(c: Cfg, s: St, p: int): nat
    requires s.g.Keys == s.pages.Keys && p in s.pages && s.root in s.pages
    decreases s.g[s.root].ht - s.g[p].ht
  {
    if p == s.root then 1
    else
      var q := s.pages[p].parent;
      if q in s.pages && s.pages[q].Internal? && s.g[p].ht < s.g[q].ht <= s.g[s.root].ht && |s.pages[q].kids| >= c.internalMax
      then 1 + NeedAbove(c, s, q) else 0
  }

  /** Pages an insertion into leaf `p` allocates. */
  ghost function Need(c: Cfg, s: St, p: int): nat
    requires s.g.Keys == s.pages.Keys && p in s.pages && s.root in s.pages && s.pages[p].Leaf?
  {
    if |s.pages[p].entries| < c.leafMax then 0 else 1 + NeedAbove(c, s, p)
  }

  /** Only the pages above `p` matter for the demand. */
  lemma {:induction false} NeedFrame(c: Cfg, s: St, s': St, p: int, p': int)
    requires s.g.Keys == s.pages.Keys && s'.g.Keys == s'.pages.Keys && s'.root == s.root && s.root in s.pages && s.root in s'.pages
    requires p in s.pages && p' in s'.pages && s'.pages[p'].parent == s.pages[p].parent && s'.g[p'].ht == s.g[p].ht
    requires (p == s.root) == (p' == s.root)
    requires forall x :: x in s.pages && s.g[x].ht > s.g[p].ht ==>
      x in s'.pages && s'.g[x].ht == s.g[x].ht && s'.pages[x] == s.pages[x]
    requires forall x :: x in s'.pages && s'.g[x].ht > s.g[p].ht ==> x in s.pages && s.g[x].ht == s'.g[x].ht
    requires s'.g[s.root].ht == s.g[s.root].ht
    ensures NeedAbove(c, s', p') == NeedAbove(c, s, p)
    decreases s.g[s.root].ht - s.g[p].ht
  {
    if p != s.root {
      var q := s.pages[p].parent;
      if q in s.pages && s.pages[q].Internal? && s.g[p].ht < s.g[q].ht <= s.g[s.root].ht && |s.pages[q].kids| >= c.internalMax {
        NeedFrame(c, s, s', q, q);
      }
    }
  }

  /** A parent with room takes in the pending half. */
  lemma AddChildDone(c: Cfg, s: St, l: int, n: int, j: int)
    requires CanAdd(c, s, l, n, j) && OccOk(c, s, -1) && |s.pages[s.pages[l].parent].kids| < c.internalMax
    ensures Inv(c, AddChild(s, l, n, j)) && Contents(AddChild(s, l, n, j)) == Contents(s)
  {
    AddChildOk(c, s, l, n, j);
    AddChildContents(c, s, l, n, j);
    AddChildOcc(c, s, l, n, j);
  }

  lemma AddChildOcc(c: Cfg, s: St, l: int, n: int, j: int)
    requires CanAdd(c, s, l, n, j) && OccOk(c, s, -1)
    ensures OccOk(c, AddChild(s, l, n, j), s.pages[l].parent)
    ensures |s.pages[s.pages[l].parent].kids| < c.internalMax ==> OccOk(c, AddChild(s, l, n, j), -1)
  {
    var s' := AddChild(s, l, n, j);
    forall p | p in s'.pages && p != s.pages[l].parent
      ensures SizeOk(c, s'.pages[p], p == s'.root)
    {
      assert SizeOk(c, s.pages[p], p == s.root);
    }
    assert SizeOk(c, s.pages[s.pages[l].parent], s.pages[l].parent == s.root);
  }

  lemma NewRootDone(c: Cfg, s: St, l: int, n: int, r: int)
    requires Struct(c, s, l, n) && l == s.root && r !in s.pages && r >= 2 && OccOk(c, s, l) && SizeOk(c, s.pages[l], false)
    ensures Inv(c, NewRoot(c, s, l, n, r)) && Contents(NewRoot(c, s, l, n, r)) == Contents(s)
  {
    NewRootOk(c, s, l, n, r);
    NewRootContents(c, s, l, n, r);
    var s' := NewRoot(c, s, l, n, r);
    forall p | p in s'.pages
      ensures SizeOk(c, s'.pages[p], p == s'.root)
    {
      if p != r && p != l {
        assert SizeOk(c, s.pages[p], p == s.root);
      }
    }
  }

  /** A full parent is split around the new child; the split is now pending one level up. */
  lemma SplitAndInsertDone(c: Cfg, s: St, l: int, n: int, j: int, n2: int, s2: St)
    requires CanAdd(c, s, l, n, j) && OccOk(c, s, -1) && n2 !in s.pages && n2 >= 2
    requires |s.pages[s.pages[l].parent].kids| == c.internalMax
    requires s2 == SplitInternal(AddChild(s, l, n, j), s.pages[l].parent, if j > c.internalMax / 2 then c.internalMax / 2 else c.internalMax / 2 + 1, n2)
    ensures var q := s.pages[l].parent;
      Struct(c, s2, q, n2) && OccOk(c, s2, -1) && SizeOk(c, s2.pages[q], false) && Contents(s2) == Contents(s)
      && s2.pages[n2].Internal? && s2.pages[n2].kids != [] && s2.pages[n2].kids[0].key == s2.g[n2].lo
      && NeedAbove(c, s2, q) == NeedAbove(c, s, q)
  {
    var q := s.pages[l].parent;
    var m := if j > c.internalMax / 2 then c.internalMax / 2 else c.internalMax / 2 + 1;
    AddChildOk(c, s, l, n, j);
    AddChildContents(c, s, l, n, j);
    AddChildOcc(c, s, l, n, j);
    var s1 := AddChild(s, l, n, j);
    SplitInternalOk(c, s1, q, m, n2);
    SplitInternalContents(c, s1, q, m, n2);
    SplitInternalOcc(c, s1, q, m, n2);
    AddChildNeed(c, s, l, n, j);
    SplitInternalNeed(c, s1, q, m, n2);
  }

  lemma SplitInternalOcc(c: Cfg, s: St, q: int, m: int, n: int)
    requires CanSplitInternal(c, s, q, m, n) && OccOk(c, s, q)
    requires c.internalMax / 2 <= m <= c.internalMax && c.internalMax / 2 <= |s.pages[q].kids| - m <= c.internalMax
    ensures var s' := SplitInternal(s, q, m, n); OccOk(c, s', -1) && SizeOk(c, s'.pages[q], false)
  {
    var s' := SplitInternal(s, q, m, n);
    forall p | p in s'.pages
      ensures SizeOk(c, s'.pages[p], p == s'.root)
    {
      if p != q && p != n {
        assert SizeOk(c, s.pages[p], p == s.root);
      }
    }
  }

  lemma AddChildNeed(c: Cfg, s: St, l: int, n: int, j: int)
    requires CanAdd(c, s, l, n, j)
    ensures var s' := AddChild(s, l, n, j); NeedAbove(c, s', s.pages[l].parent) == NeedAbove(c, s, s.pages[l].parent)
  {
    var q := s.pages[l].parent;
    assert KidsAt(c, s, l, n, q) && KidAt(c, s, l, n, q, j - 1);
    NeedFrame(c, s, AddChild(s, l, n, j), q, q);
  }

  lemma SplitInternalNeed(c: Cfg, s: St, q: int, m: int, n: int)
    requires CanSplitInternal(c, s, q, m, n)
    ensures var s' := SplitInternal(s, q, m, n); s'.g.Keys == s'.pages.Keys && NeedAbove(c, s', q) == NeedAbove(c, s, q)
  {
    var s' := SplitInternal(s, q, m, n);
    assert KidsAt(c, s, -1, -1, q);
    MovedKids(c, s, q, m);
    forall x | x in s.pages && s.g[x].ht >= s.g[q].ht
      ensures !HasKid(s.pages[q].kids[m..], x)
    {
      NotMovedUp(c, s, q, m, x);
    }
    NeedFrame(c, s, s', q, q);
  }

  lemma NotMovedUp(c: Cfg, s: St, q: int, m: int, x: int)
    requires s.g.Keys == s.pages.Keys && q in s.pages && s.pages[q].Internal? && KidsAt(c, s, -1, -1, q)
    requires 0 <= m <= |s.pages[q].kids| && x in s.pages && s.g[x].ht >= s.g[q].ht
    ensures !HasKid(s.pages[q].kids[m..], x)
  {
    forall i | m <= i < |s.pages[q].kids|
      ensures s.pages[q].kids[i].page != x
    {
      assert KidAt(c, s, -1, -1, q, i);
    }
  }

  /** The two halves of a split leaf once the new entry is in. */
  ghost function SplitLeafAndInsert(s: St, p: int, i: int, e: Entry, n: int): map<int, Node>
    requires p in s.pages && s.pages[p].Leaf? && 0 <= i <= |s.pages[p].entries|
  {
    var nd := s.pages[p];
    var m := |nd.entries| / 2;
    var left, right := nd.entries[..m], nd.entries[m..];
    if i < m then s.pages[p := Leaf(nd.parent, n, InsertEntryAt(left, i, e))][n := Leaf(nd.parent, nd.next, right)]
    else s.pages[p := Leaf(nd.parent, n, left)][n := Leaf(nd.parent, nd.next, InsertEntryAt(right, i - m, e))]
  }

  lemma LeafSplitNotEmpty(s: St, p: int, i: int, e: Entry, n: int)
    requires p in s.pages && s.pages[p].Leaf? && 0 <= i <= |s.pages[p].entries| && |s.pages[p].entries| >= 2 && n !in s.pages
    ensures var pages := SplitLeafAndInsert(s, p, i, e, n); n in pages && pages[n].Leaf? && pages[n].entries != []
  {
  }

  lemma SplitLeafAndInsertIs(s: St, p: int, i: int, e: Entry, n: int)
    requires p in s.pages && s.pages[p].Leaf? && p in s.g && 0 <= i <= |s.pages[p].entries| && |s.pages[p].entries| >= 2
    ensures var es := s.pages[p].entries; var m := |es| / 2;
      SplitLeafAndInsert(s, p, i, e, n) == SplitLeaf(SetEntries(s, p, InsertEntryAt(es, i, e)), p, if i < m then m + 1 else m, n).pages
  {
    var es := s.pages[p].entries;
    var m := |es| / 2;
    var es' := InsertEntryAt(es, i, e);
    if i < m {
      assert es'[..m + 1] == InsertEntryAt(es[..m], i, e) && es'[m + 1..] == es[m..];
    } else {
      assert es'[..m] == es[..m] && es'[m..] == InsertEntryAt(es[m..], i - m, e);
    }
  }

  lemma SplitLeafNeed(c: Cfg, s: St, p: int, es: seq<Entry>, m: int, n: int)
    requires Struct(c, s, -1, -1) && p in s.pages && s.pages[p].Leaf? && 0 <= m < |es| && n !in s.pages
    ensures var s' := SplitLeaf(SetEntries(s, p, es), p, m, n);
      s'.g.Keys == s'.pages.Keys && NeedAbove(c, s', p) == NeedAbove(c, s, p)
  {
    NeedFrame(c, s, SplitLeaf(SetEntries(s, p, es), p, m, n), p, p);
  }

  lemma SplitLeafOcc(c: Cfg, s: St, p: int, es: seq<Entry>, m: int, n: int)
    requires c.Ok() && p in s.pages && s.pages[p].Leaf? && p in s.g && n !in s.pages && n != s.root && OccOk(c, s, -1) && p != -1
    requires c.leafMax / 2 <= m < |es| && m <= c.leafMax && c.leafMax / 2 <= |es| - m <= c.leafMax
    ensures var s' := SplitLeaf(SetEntries(s, p, es), p, m, n); OccOk(c, s', -1) && SizeOk(c, s'.pages[p], false)
  {
    var s' := SplitLeaf(SetEntries(s, p, es), p, m, n);
    forall x | x in s'.pages && x != -1
      ensures SizeOk(c, s'.pages[x], x == s'.root)
    {
      if x != p && x != n {
        assert SizeOk(c, s.pages[x], x == s.root);
      }
    }
  }

  /** A full leaf is split around the new entry; the split is pending one level up. */
  lemma SplitLeafAndInsertDone(c: Cfg, s: St, p: int, i: int, e: Entry, n: int, s2: St)
    requires Inv(c, s) && p in s.pages && s.pages[p].Leaf? && s.g[p].lo <= e.key < s.g[p].hi
    requires |s.pages[p].entries| == c.leafMax && Belongs(s.pages[p].entries, i, e.key)
    requires i < |s.pages[p].entries| ==> s.pages[p].entries[i].key != e.key
    requires s2 == SplitLeaf(SetEntries(s, p, InsertEntryAt(s.pages[p].entries, i, e)), p, if i < c.leafMax / 2 then c.leafMax / 2 + 1 else c.leafMax / 2, n)
    requires n !in s.pages && n >= 2
    ensures Struct(c, s2, p, n) && OccOk(c, s2, -1) && SizeOk(c, s2.pages[p], false) && Contents(s2) == Contents(s) + {e}
    ensures s2.pages[n].Leaf? && s2.pages[n].entries != [] && s2.pages[n].entries[0].key == s2.g[n].lo
    ensures NeedAbove(c, s2, p) == NeedAbove(c, s, p)
  {
    var es' := InsertEntryAt(s.pages[p].entries, i, e);
    var m := if i < c.leafMax / 2 then c.leafMax / 2 + 1 else c.leafMax / 2;
    InsertLeafContents(c, s, p, i, e);
    SplitLeafOk(c, SetEntries(s, p, es'), p, m, n);
    SplitLeafContents(SetEntries(s, p, es'), p, m, n);
    SplitLeafOcc(c, s, p, es', m, n);
    SplitLeafNeed(c, s, p, es', m, n);
  }

  /** A leaf with room takes the new entry. */
  lemma InsertLeafDone(c: Cfg, s: St, p: int, i: int, e: Entry)
    requires Inv(c, s) && p in s.pages && s.pages[p].Leaf? && s.g[p].lo <= e.key < s.g[p].hi
    requires |s.pages[p].entries| < c.leafMax && Belongs(s.pages[p].entries, i, e.key)
    requires i < |s.pages[p].entries| ==> s.pages[p].entries[i].key != e.key
    ensures var s' := SetEntries(s, p, InsertEntryAt(s.pages[p].entries, i, e));
      Inv(c, s') && Contents(s') == Contents(s) + {e}
  {
    InsertLeafContents(c, s, p, i, e);
    var s' := SetEntries(s, p, InsertEntryAt(s.pages[p].entries, i, e));
    forall x | x in s'.pages
      ensures SizeOk(c, s'.pages[x], x == s'.root)
    {
      assert SizeOk(c, s.pages[x], x == s.root);
    }
  }

  /** After a cut at `m`, the lookup in the half that takes the new child finds its slot. */
  lemma HalfPosition(c: Cfg, ks: seq<Kid>, j: int, m: int, key: int)
    requires KidBelongs(ks, j, key) && 1 <= m < |ks| && KeysFromOne(c, ks)
    ensures j > m <==> key > ks[m].key
    ensures j > m ==> KidBelongs(ks[m..], j - m, key) && KeysFromOne(c, ks[m..])
    ensures j <= m ==> KidBelongs(ks[..m], j, key) && KeysFromOne(c, ks[..m])
  {
  }

  lemma ReparentStep(pages: map<int, Node>, ks: seq<Kid>, i: int, p: int)
    requires 0 <= i < |ks| && ks[i].page in pages
    ensures var r := Reparent(pages, ks[..i], p);
      r[ks[i].page := r[ks[i].page].(parent := p)] == Reparent(pages, ks[..i + 1], p)
  {
    forall x
      ensures HasKid(ks[..i + 1], x) <==> HasKid(ks[..i], x) || x == ks[i].page
    {
      if HasKid(ks[..i], x) {
        var y :| 0 <= y < i && ks[..i][y].page == x;
        assert ks[..i + 1][y].page == x;
      }
      assert ks[..i + 1][i] == ks[i];
    }
  }

  /** The spans after the split of `q`: the right half takes over from `key` on. */
  ghost function CutSpans(g: map<int, Span>, q: int, n: int, key: int): map<int, Span>
    requires q in g
  {
    g[q := Span(g[q].lo, key, g[q].ht)][n := Span(key, g[q].hi, g[q].ht)]
  }

  /** `s2` is `s` after the full parent `q` has been split and the child `n` entered. */
  ghost predicate ParentSplit(s: St, s2: St, q: int, n: int, key: int, j: int, n2: int) {
    && q in s.pages && s.pages[q].Internal? && n in s.pages && 1 <= j <= |s.pages[q].kids| && q in s.g
    && s2.root == s.root && s2.pages == SplitAndInsert(s, q, n, key, j, n2)
    && n2 in s2.pages && s2.pages[n2].Internal? && s2.pages[n2].kids != []
    && s2.g == CutSpans(s.g, q, n2, s2.pages[n2].kids[0].key)
  }

  /** `s2` is `s` after the full leaf `p` has been split around the entry `e`. */
  ghost predicate LeafSplit(s: St, s2: St, p: int, i: int, e: Entry, n: int) {
    && p in s.pages && s.pages[p].Leaf? && 0 <= i <= |s.pages[p].entries| && p in s.g
    && s2.root == s.root && s2.pages == SplitLeafAndInsert(s, p, i, e, n)
    && n in s2.pages && s2.pages[n].Leaf? && s2.pages[n].entries != []
    && s2.g == CutSpans(s.g, p, n, s2.pages[n].entries[0].key)
  }

  /** One round of `insert_entry_into_parent` at a full parent: the same problem one level up,
      with one page less to allocate. */
  lemma FullParentDone(c: Cfg, s: St, l: int, n: int, j: int, n2: int, s2: St)
    requires CanAdd(c, s, l, n, j) && OccOk(c, s, -1) && n2 !in s.pages && n2 >= 2
    requires |s.pages[s.pages[l].parent].kids| == c.internalMax
    requires ParentSplit(s, s2, s.pages[l].parent, n, s.g[n].lo, j, n2)
    ensures var q := s.pages[l].parent;
      && Struct(c, s2, q, n2) && OccOk(c, s2, -1) && SizeOk(c, s2.pages[q], false) && Contents(s2) == Contents(s)
      && s2.pages[n2].kids[0].key == s2.g[n2].lo
      && NeedAbove(c, s2, q) == NeedAbove(c, s, q) && NeedAbove(c, s, l) == 1 + NeedAbove(c, s, q)
      && s2.g[s2.root].ht - s2.g[q].ht < s.g[s.root].ht - s.g[l].ht
  {
    FullParentIs(c, s, l, n, j, n2, s2);
    SplitAndInsertDone(c, s, l, n, j, n2, s2);
    ParentHeight(c, s, l, n, j);
  }

  lemma FullParentIs(c: Cfg, s: St, l: int, n: int, j: int, n2: int, s2: St)
    requires CanAdd(c, s, l, n, j) && n2 !in s.pages && n2 >= 2
    requires |s.pages[s.pages[l].parent].kids| == c.internalMax
    requires var q := s.pages[l].parent;
      && s2.root == s.root && s2.pages == SplitAndInsert(s, q, n, s.g[n].lo, j, n2)
      && n2 in s2.pages && s2.pages[n2].Internal? && s2.pages[n2].kids != [] && s2.g == CutSpans(s.g, q, n2, s2.pages[n2].kids[0].key)
    ensures s2 == SplitInternal(AddChild(s, l, n, j), s.pages[l].parent, if j > c.internalMax / 2 then c.internalMax / 2 else c.internalMax / 2 + 1, n2)
  {
    SplitAndInsertIs(c, s, l, n, j, n2);
  }

  lemma ParentHeight(c: Cfg, s: St, l: int, n: int, j: int)
    requires CanAdd(c, s, l, n, j)
    ensures var q := s.pages[l].parent;
      s.g[q].ht == s.g[l].ht + 1 && s.g[q].ht <= s.g[s.root].ht
      && NeedAbove(c, s, l) == if |s.pages[q].kids| >= c.internalMax then 1 + NeedAbove(c, s, q) else 0
  {
    var q := s.pages[l].parent;
    assert KidsAt(c, s, l, n, q) && KidAt(c, s, l, n, q, j - 1);
  }

  /** The pages a node points to exist. */
  lemma KidPages(c: Cfg, s: St, l: int, n: int, q: int)
    requires s.g.Keys == s.pages.Keys && PendOk(s, l, n) && q in s.pages && s.pages[q].Internal? && KidsAt(c, s, l, n, q)
    ensures forall i :: 0 <= i < |s.pages[q].kids| ==> s.pages[q].kids[i].page in s.pages
  {
    forall i | 0 <= i < |s.pages[q].kids|
      ensures s.pages[q].kids[i].page in s.pages
    {
      assert KidAt(c, s, l, n, q, i);
    }
  }

  lemma RootHasNoParent(c: Cfg, s: St, l: int, n: int)
    requires Struct(c, s, l, n) && l != -1 && s.pages[l].parent == -1
    ensures l == s.root
  {
    assert l == s.root || UpAt(c, s, l);
  }

  lemma ParentFits(c: Cfg, s: St, l: int, n: int, j: int)
    requires CanAdd(c, s, l, n, j) && OccOk(c, s, -1)
    ensures |s.pages[s.pages[l].parent].kids| <= c.internalMax
  {
    assert SizeOk(c, s.pages[s.pages[l].parent], s.pages[l].parent == s.root);
  }

  /** The leaf that covers a key is unique, so the page demand of a key is well defined. */
  lemma CoversUnique(c: Cfg, s: St, p: int, q: int, key: int)
    requires Struct(c, s, -1, -1) && Covers(s, p, key) && Covers(s, q, key)
    ensures p == q
  {
    Unique(c, s, p, q, key);
  }

  /** The key of the new entry is in the tree exactly when the covering leaf holds it. */
  lemma InLeaf(c: Cfg, s: St, p: int, key: int)
    requires Struct(c, s, -1, -1) && Covers(s, p, key)
    ensures HasKey(s, key) <==> (exists e :: e in s.pages[p].entries && e.key == key)
    ensures KeysIn(c, s.pages[p].entries)
  {
    assert LeafAt(s.pages[p].entries, s.g[p].lo, s.g[p].hi);
    forall e | e in Contents(s) && e.key == key
      ensures e in s.pages[p].entries
    {
      OnlyLeaf(c, s, p, e);
    }
    forall e | e in s.pages[p].entries
      ensures e in Contents(s)
    {
      assert e in s.pages[p].entries;
    }
  }

  /** The pages after a full leaf has been split around the new entry, with the cut in the spans. */
  lemma FullLeafDone(c: Cfg, s: St, p: int, i: int, e: Entry, n: int, s2: St)
    requires Inv(c, s) && p in s.pages && s.pages[p].Leaf? && s.g[p].lo <= e.key < s.g[p].hi
    requires |s.pages[p].entries| == c.leafMax && Belongs(s.pages[p].entries, i, e.key)
    requires i < |s.pages[p].entries| ==> s.pages[p].entries[i].key != e.key
    requires n !in s.pages && n >= 2
    requires LeafSplit(s, s2, p, i, e, n)
    ensures Struct(c, s2, p, n) && OccOk(c, s2, -1) && SizeOk(c, s2.pages[p], false) && Contents(s2) == Contents(s) + {e}
    ensures s2.pages[n].entries[0].key == s2.g[n].lo && NeedAbove(c, s2, p) == NeedAbove(c, s, p)
  {
    SplitLeafAndInsertIs(s, p, i, e, n);
    var m := if i < c.leafMax / 2 then c.leafMax / 2 + 1 else c.leafMax / 2;
    var s3 := SplitLeaf(SetEntries(s, p, InsertEntryAt(s.pages[p].entries, i, e)), p, m, n);
    assert s.g[p].ht == 0;
    assert s3 == s2;
    SplitLeafAndInsertDone(c, s, p, i, e, n, s2);
  }

  lemma OneCovers(c: Cfg, s: St, p: int, key: int)
    requires Struct(c, s, -1, -1) && Covers(s, p, key)
    ensures forall q :: Covers(s, q, key) ==> q == p
  {
    forall q | Covers(s, q, key)
      ensures q == p
    {
      CoversUnique(c, s, p, q, key);
    }
  }

  /** Every page has a span, the root included. */
  ghost predicate WellKeyed(s: St) {
    s.g.Keys == s.pages.Keys && s.root in s.pages
  }

  /** With `free` free pages there are enough to insert `key`: none are needed if the leaf has room,
      otherwise one for each node that is split and one for a new root. */
  ghost predicate EnoughAt(c: Cfg, s: St, free: int, key: int) {
    if s.root == -1 then free >= 1 else forall p :: Covers(s, p, key) && WellKeyed(s) ==> free >= Need(c, s, p)
  }

  /** Inserting `key` takes `used` pages. */
  ghost predicate UsedAt(c: Cfg, s: St, used: int, key: int) {
    if s.root == -1 then used == 1 else forall p :: Covers(s, p, key) && WellKeyed(s) ==> used == Need(c, s, p)
  }
}
