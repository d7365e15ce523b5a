/** The page-by-page updates the index code performs, related to the structural steps. */
module BPlusRefine {
  import opened BPlusState
  import opened BPlusInsertSteps
  import opened BPlusDeleteSteps
  import opened BPlusContents

  /** The slot at which a pending half enters its parent. */
  lemma PendingSlot(c: Cfg, s: St, l: int, n: int) returns (j: int)
    requires Struct(c, s, l, n) && l != -1 && l != s.root
    ensures CanAdd(c, s, l, n, j)
  {
    assert UpAt(c, s, l);
    var q := s.pages[l].parent;
    var i :| 0 <= i < |s.pages[q].kids| && s.pages[q].kids[i] == Kid(Slot(c, s.g[l].lo), l);
    j := i + 1;
    assert KidsAt(c, s, l, n, q) && KidAt(c, s, l, n, q, i);
  }

  /** The pending key falls strictly between the separators around that slot. */
  lemma PendingKey(c: Cfg, s: St, l: int, n: int, j: int)
    requires CanAdd(c, s, l, n, j)
    ensures var q := s.pages[l].parent; var ks := s.pages[q].kids; var key := s.g[n].lo;
      && (forall x :: 1 <= x < j ==> ks[x].key < key)
      && (forall x :: j <= x < |ks| ==> key < ks[x].key)
      && q != n && q != l && KidsAt(c, s, l, n, q)
  {
    var q := s.pages[l].parent;
    var ks, lo, hi := s.pages[q].kids, s.g[q].lo, s.g[q].hi;
    assert KidsAt(c, s, l, n, q) && KidAt(c, s, l, n, q, j - 1);
    assert Sep(ks, lo, hi, j - 1) < s.g[n].lo < Sep(ks, lo, hi, j);
    forall x | 1 <= x < |ks|
      ensures if x < j then ks[x].key < s.g[n].lo else s.g[n].lo < ks[x].key
    {
      assert ks[x].key == Sep(ks, lo, hi, x);
      assert if x < j then Sep(ks, lo, hi, x) <= Sep(ks, lo, hi, j - 1) else Sep(ks, lo, hi, j) <= Sep(ks, lo, hi, x);
    }
  }

  /** The page store after `split` has moved the right half of `q`'s children to page `n`. */
  ghost function CutPages(pages: map<int, Node>, q: int, n: int): map<int, Node>
    requires q in pages && pages[q].Internal?
  {
    var ks := pages[q].kids;
    var m := |ks| / 2;
    Reparent(pages, ks[m..], n)[q := pages[q].(kids := ks[..m])][n := Internal(pages[q].parent, ks[m..])]
  }

  /** `split` first creates the empty right page, then moves the children, then fills it. */
  lemma CutPagesIs(pages: map<int, Node>, q: int, n: int)
    requires q in pages && pages[q].Internal? && n !in pages
    ensures var ks := pages[q].kids; var m := |ks| / 2; var nd := pages[q];
      && Reparent(pages[n := Internal(nd.parent, [])], ks[m..], n)[q := nd.(kids := ks[..m])][n := Internal(nd.parent, ks[m..])]
         == CutPages(pages, q, n)
      && CutPages(pages, q, n).Keys == pages.Keys + {n}
  {
  }

  /** The page store after a full parent `q` has been split at `m` and the pending half `n`
      has been put into one of its halves. */
  ghost function SplitAndInsert(s: St, q: int, n: int, key: int, j: int, n2: int): map<int, Node>
    requires q in s.pages && s.pages[q].Internal? && n in s.pages && 1 <= j <= |s.pages[q].kids|
  {
    var ks := s.pages[q].kids;
    var m := |ks| / 2;
    var par := s.pages[q].parent;
    var base := CutPages(s.pages, q, n2);
    if j > m then base[n2 := Internal(par, InsertKid(ks[m..], j - m, Kid(key, n)))][n := s.pages[n].(parent := n2)]
    else base[q := Internal(par, InsertKid(ks[..m], j, Kid(key, n)))][n := s.pages[n].(parent := q)]
  }

  lemma SplitNotEmpty(s: St, q: int, n: int, key: int, j: int, n2: int)
    requires q in s.pages && s.pages[q].Internal? && n in s.pages && n != q && n2 !in s.pages && 1 <= j <= |s.pages[q].kids|
    requires |s.pages[q].kids| >= 2
    ensures var pages := SplitAndInsert(s, q, n, key, j, n2); n2 in pages && pages[n2].Internal? && pages[n2].kids != []
  {
  }

  /** Entering the new child in the half it belongs to, read off the split page store. */
  lemma EnterHalfIs(s: St, q: int, n: int, key: int, j: int, n2: int)
    requires q in s.pages && s.pages[q].Internal? && n in s.pages && n != q && n2 !in s.pages && 1 <= j <= |s.pages[q].kids|
    ensures var b := CutPages(s.pages, q, n2); var ks := s.pages[q].kids; var m := |ks| / 2;
      && q in b && n2 in b && n in b && b[q].Internal? && b[n2].Internal? && b[q].kids == ks[..m] && b[n2].kids == ks[m..]
      && SplitAndInsert(s, q, n, key, j, n2) ==
        if j > m then b[n2 := b[n2].(kids := InsertKid(ks[m..], j - m, Kid(key, n)))][n := b[n].(parent := n2)]
        else b[q := b[q].(kids := InsertKid(ks[..m], j, Kid(key, n)))][n := b[n].(parent := q)]
  {
  }

  lemma InsertThenCut(ks: seq<Kid>, j: int, m: int, k: Kid)
    requires 0 <= j <= |ks| && 0 <= m <= |ks|
    ensures j > m ==> InsertKid(ks, j, k)[..m] == ks[..m] && InsertKid(ks, j, k)[m..] == InsertKid(ks[m..], j - m, k)
    ensures j <= m ==> InsertKid(ks, j, k)[..m + 1] == InsertKid(ks[..m], j, k) && InsertKid(ks, j, k)[m + 1..] == ks[m..]
  {
    if j > m {
      assert InsertKid(ks, j, k)[m..] == InsertKid(ks[m..], j - m, k);
    } else {
      assert InsertKid(ks, j, k)[..m + 1] == InsertKid(ks[..m], j, k);
      assert InsertKid(ks, j, k)[m + 1..] == ks[m..];
    }
  }

  lemma HasKidInsert(ks: seq<Kid>, j: int, k: Kid, x: int)
    requires 0 <= j <= |ks|
    ensures HasKid(InsertKid(ks, j, k), x) <==> HasKid(ks, x) || x == k.page
  {
    var ks' := InsertKid(ks, j, k);
    assert ks'[j] == k;
    if HasKid(ks, x) {
      var i :| 0 <= i < |ks| && ks[i].page == x;
      assert ks'[if i < j then i else i + 1] == ks[i];
    }
    if HasKid(ks', x) && x != k.page {
      var i :| 0 <= i < |ks'| && ks'[i].page == x;
      assert ks'[i] == if i < j then ks[i] else ks[i - 1];
    }
  }

  lemma InsertRight(s: St, q: int, l: int, n: int, j: int, n2: int)
    requires l in s.pages && n in s.pages && q in s.pages && s.pages[q].Internal? && s.pages[l].parent == q
    requires q != n && n2 !in s.pages && n in s.g && q in s.g
    requires var ks := s.pages[q].kids; var m := |ks| / 2; 2 <= |ks| && m < j <= |ks| && !HasKid(ks[m..], n)
    ensures SplitAndInsert(s, q, n, s.g[n].lo, j, n2) == SplitInternal(AddChild(s, l, n, j), q, |s.pages[q].kids| / 2, n2).pages
  {
    var ks := s.pages[q].kids;
    var m := |ks| / 2;
    var k := Kid(s.g[n].lo, n);
    InsertThenCut(ks, j, m, k);
    forall x
      ensures HasKid(InsertKid(ks[m..], j - m, k), x) <==> HasKid(ks[m..], x) || x == n
    {
      HasKidInsert(ks[m..], j - m, k, x);
    }
  }

  lemma InsertLeft(s: St, q: int, l: int, n: int, j: int, n2: int)
    requires l in s.pages && n in s.pages && q in s.pages && s.pages[q].Internal? && s.pages[l].parent == q
    requires q != n && n2 !in s.pages && n in s.g && q in s.g
    requires var ks := s.pages[q].kids; var m := |ks| / 2; 2 <= |ks| && 1 <= j <= m && !HasKid(ks[m..], n)
    ensures SplitAndInsert(s, q, n, s.g[n].lo, j, n2) == SplitInternal(AddChild(s, l, n, j), q, |s.pages[q].kids| / 2 + 1, n2).pages
  {
    var ks := s.pages[q].kids;
    InsertThenCut(ks, j, |ks| / 2, Kid(s.g[n].lo, n));
  }

  /** Splitting a full parent and then inserting is the same as inserting into the overfull
      parent and then cutting it one slot later if the new child went left. */
  lemma SplitAndInsertIs(c: Cfg, s: St, l: int, n: int, j: int, n2: int)
    requires CanAdd(c, s, l, n, j) && n2 !in s.pages && n2 >= 2
    requires |s.pages[s.pages[l].parent].kids| >= 2
    ensures var q := s.pages[l].parent; var m := |s.pages[q].kids| / 2;
      SplitAndInsert(s, q, n, s.g[n].lo, j, n2) == SplitInternal(AddChild(s, l, n, j), q, if j > m then m else m + 1, n2).pages
  {
    var q := s.pages[l].parent;
    PendingNoKid(c, s, l, n);
    if j > |s.pages[q].kids| / 2 {
      InsertRight(s, q, l, n, j, n2);
    } else {
      InsertLeft(s, q, l, n, j, n2);
    }
  }

  lemma PendingNoKid(c: Cfg, s: St, l: int, n: int)
    requires DomOk(c, s) && PendOk(s, l, n) && l != -1 && KidsOk(c, s, l, n)
    ensures forall q, m :: q in s.pages && s.pages[q].Internal? && 0 <= m <= |s.pages[q].kids| ==> !HasKid(s.pages[q].kids[m..], n)
  {
    forall q, m | q in s.pages && s.pages[q].Internal? && 0 <= m <= |s.pages[q].kids|
      ensures !HasKid(s.pages[q].kids[m..], n)
    {
      forall i | m <= i < |s.pages[q].kids|
        ensures s.pages[q].kids[i].page != n
      {
        assert KidsAt(c, s, l, n, q) && KidAt(c, s, l, n, q, i);
      }
    }
  }

  /** The boundary between sibling leaves `i - 1` and `i` of `q` moves so that the left one
      keeps the first `m` entries. */
  ghost function ShiftLeaf(s: St, q: int, i: int, m: int): St
    requires q in s.pages && s.pages[q].Internal? && 1 <= i < |s.pages[q].kids|
    requires var l, r := s.pages[q].kids[i - 1].page, s.pages[q].kids[i].page;
      && l in s.pages && r in s.pages && l in s.g && r in s.g && s.pages[l].Leaf? && s.pages[r].Leaf?
      && 0 <= m < |s.pages[l].entries| + |s.pages[r].entries|
  {
    var l, r := s.pages[q].kids[i - 1].page, s.pages[q].kids[i].page;
    var all := s.pages[l].entries + s.pages[r].entries;
    St(s.pages[q := s.pages[q].(kids := s.pages[q].kids[i := Kid(all[m].key, r)])]
              [l := s.pages[l].(entries := all[..m])][r := s.pages[r].(entries := all[m..])],
       s.root, ShiftSpans(s.g, l, r, all[m].key))
  }

  ghost function ShiftSpans(g: map<int, Span>, l: int, r: int, key: int): map<int, Span>
    requires l in g && r in g
  {
    g[l := Span(g[l].lo, key, g[l].ht)][r := Span(key, g[r].hi, g[r].ht)]
  }

  lemma RemoveThenInsert(ks: seq<Kid>, i: int, k: Kid)
    requires 0 <= i < |ks|
    ensures InsertKid(RemoveKid(ks, i), i, k) == ks[i := k]
  {
  }

  /** The left one of two sibling leaves is chained to the right one. */
  lemma SiblingChain(c: Cfg, s: St, q: int, i: int)
    requires CanMerge(c, s, q, i, true)
    ensures s.pages[s.pages[q].kids[i - 1].page].next == s.pages[q].kids[i].page
  {
    Siblings(c, s, q, i);
    var l, r := s.pages[q].kids[i - 1].page, s.pages[q].kids[i].page;
    assert ChainAt(c, s, l);
    Unique(c, s, s.pages[l].next, r, s.g[r].lo);
  }

  lemma MergeThenSplitLeaf(s: St, q: int, i: int, m: int, l: int, r: int) returns (s2: St)
    requires Pair(s, q, i, l, r) && s.pages[l].Leaf? && s.pages[r].Leaf? && s.g[l].ht == 0 && s.pages[l].next == r
    requires 1 <= m < |s.pages[l].entries| + |s.pages[r].entries|
    ensures var s1 := MergeLeaf(s, q, i);
      && l in s1.pages && s1.pages[l].Leaf? && l in s1.g && m < |s1.pages[l].entries| && s2 == SplitLeaf(s1, l, m, r)
    ensures l in s2.pages && r in s2.pages && r in s2.g && s2.pages[l].parent == q && q in s2.pages && s2.pages[q].Internal?
    ensures s2.pages[q].kids == RemoveKid(s.pages[q].kids, i) && s2.g[l].lo == s.g[l].lo
    ensures ShiftLeaf(s, q, i, m) == AddChild(s2, l, r, i)
  {
    var all := s.pages[l].entries + s.pages[r].entries;
    s2 := SplitLeaf(MergeLeaf(s, q, i), l, m, r);
    RemoveThenInsert(s.pages[q].kids, i, Kid(all[m].key, r));
    assert s2.g == ShiftSpans(s.g, l, r, all[m].key);
  }

  lemma ShiftLeafPending(c: Cfg, s: St, q: int, i: int, m: int, l: int, r: int) returns (s2: St)
    requires CanMerge(c, s, q, i, true) && l == s.pages[q].kids[i - 1].page && r == s.pages[q].kids[i].page
    requires 1 <= m < |s.pages[l].entries| + |s.pages[r].entries|
    ensures CanAdd(c, s2, l, r, i) && Contents(s2) == Contents(s)
    ensures ShiftLeaf(s, q, i, m) == AddChild(s2, l, r, i)
  {
    Siblings(c, s, q, i);
    SiblingChain(c, s, q, i);
    assert Pair(s, q, i, l, r);
    s2 := MergeThenSplitLeaf(s, q, i, m, l, r);
    SplitMergedLeaf(c, s, q, i, m, l, r, s2);
  }

  /** Moving the boundary between two leaves keeps the tree well formed and its contents. */
  lemma ShiftLeafOk(c: Cfg, s: St, q: int, i: int, m: int)
    requires CanMerge(c, s, q, i, true)
    requires 1 <= m < |s.pages[s.pages[q].kids[i - 1].page].entries| + |s.pages[s.pages[q].kids[i].page].entries|
    ensures var s' := ShiftLeaf(s, q, i, m); Struct(c, s', -1, -1) && Contents(s') == Contents(s)
  {
    var l, r := s.pages[q].kids[i - 1].page, s.pages[q].kids[i].page;
    var s2 := ShiftLeafPending(c, s, q, i, m, l, r);
    AddChildOk(c, s2, l, r, i);
    AddChildContents(c, s2, l, r, i);
  }

  lemma SplitMergedLeaf(c: Cfg, s: St, q: int, i: int, m: int, l: int, r: int, s2: St)
    requires CanMerge(c, s, q, i, true) && Pair(s, q, i, l, r)
    requires var s1 := MergeLeaf(s, q, i);
      && l in s1.pages && s1.pages[l].Leaf? && l in s1.g && 1 <= m < |s1.pages[l].entries| && s2 == SplitLeaf(s1, l, m, r)
    ensures Struct(c, s2, l, r) && Contents(s2) == Contents(s) && s2.root == s.root
  {
    MergeLeafOk(c, s, q, i);
    MergeLeafContents(c, s, q, i);
    SplitLeafOk(c, MergeLeaf(s, q, i), l, m, r);
    SplitLeafContents(MergeLeaf(s, q, i), l, m, r);
  }

  /** The boundary between sibling internal nodes `i - 1` and `i` of `q` moves so that the left
      one keeps the first `m` children. */
  ghost function ShiftInternal(s: St, q: int, i: int, m: int): St
    requires q in s.pages && s.pages[q].Internal? && 1 <= i < |s.pages[q].kids|
    requires var l, r := s.pages[q].kids[i - 1].page, s.pages[q].kids[i].page;
      && l in s.pages && r in s.pages && l in s.g && r in s.g && s.pages[l].Internal? && s.pages[r].Internal?
      && 0 <= m < |s.pages[l].kids| + |s.pages[r].kids|
  {
    var l, r := s.pages[q].kids[i - 1].page, s.pages[q].kids[i].page;
    var all := s.pages[l].kids + s.pages[r].kids;
    St(map x | x in s.pages ::
         if x == q then s.pages[q].(kids := s.pages[q].kids[i := Kid(all[m].key, r)])
         else if x == l then s.pages[l].(kids := all[..m])
         else if x == r then s.pages[r].(kids := all[m..])
         else if HasKid(all[m..], x) then s.pages[x].(parent := r)
         else if HasKid(s.pages[r].kids, x) then s.pages[x].(parent := l)
         else s.pages[x],
       s.root, ShiftSpans(s.g, l, r, all[m].key))
  }

  lemma MergeThenSplitInternal(s: St, q: int, i: int, m: int, l: int, r: int) returns (s2: St)
    requires Pair(s, q, i, l, r) && s.pages[l].Internal? && s.pages[r].Internal?
    requires 1 <= m < |s.pages[l].kids| + |s.pages[r].kids|
    requires var all := s.pages[l].kids + s.pages[r].kids; !HasKid(all[m..], q) && !HasKid(all[m..], l)
    ensures var s1 := MergeInternal(s, q, i);
      && l in s1.pages && s1.pages[l].Internal? && l in s1.g && m < |s1.pages[l].kids| && s2 == SplitInternal(s1, l, m, r)
    ensures l in s2.pages && r in s2.pages && r in s2.g && s2.pages[l].parent == q && q in s2.pages && s2.pages[q].Internal?
    ensures s2.pages[q].kids == RemoveKid(s.pages[q].kids, i) && s2.g[l].lo == s.g[l].lo
    ensures ShiftInternal(s, q, i, m) == AddChild(s2, l, r, i)
  {
    var all := s.pages[l].kids + s.pages[r].kids;
    s2 := SplitInternal(MergeInternal(s, q, i), l, m, r);
    RemoveThenInsert(s.pages[q].kids, i, Kid(all[m].key, r));
    assert s2.g == ShiftSpans(s.g, l, r, all[m].key);
    var a := ShiftInternal(s, q, i, m).pages;
    var b := AddChild(s2, l, r, i).pages;
    forall x | x in a
      ensures x in b && a[x] == b[x]
    {
    }
  }

  lemma SplitMergedInternal(c: Cfg, s: St, q: int, i: int, m: int, l: int, r: int, s2: St)
    requires CanMerge(c, s, q, i, false) && Pair(s, q, i, l, r)
    requires var s1 := MergeInternal(s, q, i);
      && l in s1.pages && s1.pages[l].Internal? && l in s1.g && 1 <= m < |s1.pages[l].kids| && s2 == SplitInternal(s1, l, m, r)
    ensures Struct(c, s2, l, r) && s2.root == s.root && Contents(s2) == Contents(s)
  {
    MergeInternalOk(c, s, q, i);
    MergeInternalContents(c, s, q, i);
    SplitInternalOk(c, MergeInternal(s, q, i), l, m, r);
    SplitInternalContents(c, MergeInternal(s, q, i), l, m, r);
  }

  /** The children of two siblings are neither their parent nor one of the two. */
  lemma SiblingKids(c: Cfg, s: St, q: int, i: int)
    requires CanMerge(c, s, q, i, false)
    ensures var l, r := s.pages[q].kids[i - 1].page, s.pages[q].kids[i].page;
      forall x :: 0 <= x < |s.pages[l].kids + s.pages[r].kids| ==>
        var k := (s.pages[l].kids + s.pages[r].kids)[x].page;
        && k != q && k != l && k != r && k in s.pages && s.pages[k].parent == if x < |s.pages[l].kids| then l else r
  {
    Siblings(c, s, q, i);
    var l, r := s.pages[q].kids[i - 1].page, s.pages[q].kids[i].page;
    assert KidsAt(c, s, -1, -1, l) && KidsAt(c, s, -1, -1, r);
    var n := |s.pages[l].kids|;
    forall x | 0 <= x < n + |s.pages[r].kids|
      ensures var k := (s.pages[l].kids + s.pages[r].kids)[x].page;
        && k != q && k != l && k != r && k in s.pages && s.pages[k].parent == if x < n then l else r
    {
      assert if x < n then KidAt(c, s, -1, -1, l, x) else KidAt(c, s, -1, -1, r, x - n);
    }
  }

  lemma ShiftInternalPending(c: Cfg, s: St, q: int, i: int, m: int, l: int, r: int) returns (s2: St)
    requires CanMerge(c, s, q, i, false) && l == s.pages[q].kids[i - 1].page && r == s.pages[q].kids[i].page
    requires 1 <= m < |s.pages[l].kids| + |s.pages[r].kids|
    ensures CanAdd(c, s2, l, r, i) && Contents(s2) == Contents(s)
    ensures ShiftInternal(s, q, i, m) == AddChild(s2, l, r, i)
  {
    Siblings(c, s, q, i);
    SiblingKids(c, s, q, i);
    assert Pair(s, q, i, l, r);
    s2 := MergeThenSplitInternal(s, q, i, m, l, r);
    SplitMergedInternal(c, s, q, i, m, l, r, s2);
  }

  /** Moving the boundary between two internal nodes keeps the tree well formed. */
  lemma ShiftInternalOk(c: Cfg, s: St, q: int, i: int, m: int)
    requires CanMerge(c, s, q, i, false)
    requires 1 <= m < |s.pages[s.pages[q].kids[i - 1].page].kids| + |s.pages[s.pages[q].kids[i].page].kids|
    ensures var s' := ShiftInternal(s, q, i, m); Struct(c, s', -1, -1) && Contents(s') == Contents(s)
  {
    var l, r := s.pages[q].kids[i - 1].page, s.pages[q].kids[i].page;
    var s2 := ShiftInternalPending(c, s, q, i, m, l, r);
    AddChildOk(c, s2, l, r, i);
    AddChildContents(c, s2, l, r, i);
  }
}
