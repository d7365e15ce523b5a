/** What the structural steps do to the set of entries and to node occupancy. */
module BPlusContents {
  import opened BPlusState
  import opened BPlusInsertSteps
  import opened BPlusDeleteSteps

  /** Steps that leave all leaf entries alone leave the contents alone. */
  lemma SameContents(s: St, s': St)
    requires forall p :: p in s'.pages && s'.pages[p].Leaf? ==> p in s.pages
    requires forall p :: p in s.pages && s.pages[p].Leaf? ==> p in s'.pages
    requires forall p :: p in s.pages && p in s'.pages ==> SameLeaf(s.pages[p], s'.pages[p])
    ensures Contents(s') == Contents(s)
  {
    forall p, e | p in s.pages && s.pages[p].Leaf? && e in s.pages[p].entries
      ensures e in Contents(s')
    {
      assert SameLeaf(s.pages[p], s'.pages[p]);
    }
    forall p, e | p in s'.pages && s'.pages[p].Leaf? && e in s'.pages[p].entries
      ensures e in Contents(s)
    {
      assert SameLeaf(s.pages[p], s'.pages[p]);
    }
  }

  lemma SplitLeafContents(s: St, p: int, m: int, n: int)
    requires p in s.pages && s.pages[p].Leaf? && p in s.g && 0 <= m < |s.pages[p].entries| && n !in s.pages
    ensures Contents(SplitLeaf(s, p, m, n)) == Contents(s)
  {
    var s' := SplitLeaf(s, p, m, n);
    var es := s.pages[p].entries;
    assert es == es[..m] + es[m..];
    forall x, e | x in s.pages && s.pages[x].Leaf? && e in s.pages[x].entries
      ensures e in Contents(s')
    {
      if x == p {
        assert e in s'.pages[p].entries || e in s'.pages[n].entries;
      } else {
        assert e in s'.pages[x].entries;
      }
    }
    forall x, e | x in s'.pages && s'.pages[x].Leaf? && e in s'.pages[x].entries
      ensures e in Contents(s)
    {
      if x == p || x == n {
        assert e in s.pages[p].entries;
      } else {
        assert e in s.pages[x].entries;
      }
    }
  }

  lemma MergeLeafContents(c: Cfg, s: St, q: int, i: int)
    requires CanMerge(c, s, q, i, true)
    ensures Contents(MergeLeaf(s, q, i)) == Contents(s)
  {
    Siblings(c, s, q, i);
    var s' := MergeLeaf(s, q, i);
    var l, r := s.pages[q].kids[i - 1].page, s.pages[q].kids[i].page;
    forall x, e | x in s.pages && s.pages[x].Leaf? && e in s.pages[x].entries
      ensures e in Contents(s')
    {
      if x == l || x == r {
        assert e in s'.pages[l].entries;
      } else {
        assert e in s'.pages[x].entries;
      }
    }
    forall x, e | x in s'.pages && s'.pages[x].Leaf? && e in s'.pages[x].entries
      ensures e in Contents(s)
    {
      if x == l {
        assert e in s.pages[l].entries || e in s.pages[r].entries;
      } else {
        assert e in s.pages[x].entries;
      }
    }
  }

  /** An entry with key `k` can only be in the leaf that covers `k`. */
  lemma OnlyLeaf(c: Cfg, s: St, p: int, e: Entry)
    requires Struct(c, s, -1, -1) && p in s.pages && s.pages[p].Leaf? && s.g[p].lo <= e.key < s.g[p].hi
    ensures e in Contents(s) <==> e in s.pages[p].entries
  {
    if e in Contents(s) {
      var x :| x in s.pages && s.pages[x].Leaf? && e in s.pages[x].entries;
      assert LeafAt(s.pages[x].entries, s.g[x].lo, s.g[x].hi);
      Unique(c, s, x, p, e.key);
    }
  }

  /** Keys identify entries. */
  lemma KeyUnique(c: Cfg, s: St, e: Entry, f: Entry)
    requires Struct(c, s, -1, -1) && e in Contents(s) && f in Contents(s) && e.key == f.key
    ensures e == f
  {
    var x :| x in s.pages && s.pages[x].Leaf? && e in s.pages[x].entries;
    assert LeafAt(s.pages[x].entries, s.g[x].lo, s.g[x].hi);
    OnlyLeaf(c, s, x, f);
  }

  function InsertEntryAt(es: seq<Entry>, i: int, e: Entry): seq<Entry>
    requires 0 <= i <= |es|
  {
    es[..i] + [e] + es[i..]
  }

  function RemoveEntryAt(es: seq<Entry>, i: int): seq<Entry>
    requires 0 <= i < |es|
  {
    es[..i] + es[i + 1..]
  }

  /** Position `i` is where key `k` belongs in a leaf. */
  ghost predicate Belongs(es: seq<Entry>, i: int, k: int) {
    && 0 <= i <= |es|
    && (forall x :: 0 <= x < i ==> es[x].key < k)
    && (forall x :: i <= x < |es| ==> k <= es[x].key)
  }

  lemma InsertLeafContents(c: Cfg, s: St, p: int, i: int, e: Entry)
    requires Struct(c, s, -1, -1) && p in s.pages && s.pages[p].Leaf? && s.g[p].lo <= e.key < s.g[p].hi
    requires var es := s.pages[p].entries; Belongs(es, i, e.key) && (i < |es| ==> es[i].key != e.key)
    ensures var s' := SetEntries(s, p, InsertEntryAt(s.pages[p].entries, i, e));
      Struct(c, s', -1, -1) && Contents(s') == Contents(s) + {e}
  {
    var es := s.pages[p].entries;
    var es' := InsertEntryAt(es, i, e);
    var s' := SetEntries(s, p, es');
    assert LeafAt(es, s.g[p].lo, s.g[p].hi);
    InsertLeafAt(es, i, e, s.g[p].lo, s.g[p].hi);
    SetEntriesOk(c, s, p, es');
    SetEntriesContents(s, p, es', {e}, {});
  }

  lemma InsertLeafAt(es: seq<Entry>, i: int, e: Entry, lo: int, hi: int)
    requires LeafAt(es, lo, hi) && lo <= e.key < hi && Belongs(es, i, e.key) && (i < |es| ==> es[i].key != e.key)
    ensures LeafAt(InsertEntryAt(es, i, e), lo, hi)
    ensures forall x :: x in InsertEntryAt(es, i, e) <==> x in es || x == e
  {
    InsertMembers(es, i, e);
  }

  lemma InsertMembers(es: seq<Entry>, i: int, e: Entry)
    requires 0 <= i <= |es|
    ensures forall x :: x in InsertEntryAt(es, i, e) <==> x in es || x == e
  {
    assert es == es[..i] + es[i..];
  }

  lemma SetEntriesContents(s: St, p: int, es: seq<Entry>, plus: set<Entry>, minus: set<Entry>)
    requires p in s.pages && s.pages[p].Leaf?
    requires forall e :: e in es <==> (e in s.pages[p].entries || e in plus) && e !in minus
    requires forall x, e :: x in s.pages && x != p && s.pages[x].Leaf? && e in s.pages[x].entries ==> e !in minus
    ensures Contents(SetEntries(s, p, es)) == Contents(s) + plus - minus
  {
    var s' := SetEntries(s, p, es);
    forall e | e in Contents(s) + plus - minus
      ensures e in Contents(s')
    {
      if e in Contents(s) {
        var x :| x in s.pages && s.pages[x].Leaf? && e in s.pages[x].entries;
        assert e in s'.pages[x].entries;
      } else {
        assert e in s'.pages[p].entries;
      }
    }
    forall x, e | x in s'.pages && s'.pages[x].Leaf? && e in s'.pages[x].entries
      ensures e in Contents(s) + plus - minus
    {
      if x != p || e in s.pages[p].entries {
        assert e in s.pages[x].entries;
      }
    }
  }

  lemma RemoveLeafContents(c: Cfg, s: St, p: int, i: int)
    requires Struct(c, s, -1, -1) && p in s.pages && s.pages[p].Leaf? && 0 <= i < |s.pages[p].entries|
    ensures var s' := SetEntries(s, p, RemoveEntryAt(s.pages[p].entries, i));
      Struct(c, s', -1, -1) && Contents(s') == Contents(s) - {s.pages[p].entries[i]}
  {
    var es := s.pages[p].entries;
    var es' := RemoveEntryAt(es, i);
    var s' := SetEntries(s, p, es');
    assert LeafAt(es, s.g[p].lo, s.g[p].hi);
    assert LeafAt(es', s.g[p].lo, s.g[p].hi);
    SetEntriesOk(c, s, p, es');
    forall x | x in s.pages && x != p && s.pages[x].Leaf?
      ensures es[i] !in s.pages[x].entries
    {
      assert LeafAt(s.pages[x].entries, s.g[x].lo, s.g[x].hi);
      if es[i] in s.pages[x].entries {
        Unique(c, s, x, p, es[i].key);
      }
    }
    SetEntriesContents(s, p, es', {}, {es[i]});
  }

  lemma AddChildContents(c: Cfg, s: St, l: int, n: int, j: int)
    requires CanAdd(c, s, l, n, j)
    ensures Contents(AddChild(s, l, n, j)) == Contents(s)
  {
    SameContents(s, AddChild(s, l, n, j));
  }

  lemma NewRootContents(c: Cfg, s: St, l: int, n: int, r: int)
    requires Struct(c, s, l, n) && l == s.root && r !in s.pages && r >= 2
    ensures Contents(NewRoot(c, s, l, n, r)) == Contents(s)
  {
    SameContents(s, NewRoot(c, s, l, n, r));
  }

  lemma SplitInternalContents(c: Cfg, s: St, q: int, m: int, n: int)
    requires CanSplitInternal(c, s, q, m, n)
    ensures Contents(SplitInternal(s, q, m, n)) == Contents(s)
  {
    SameContents(s, SplitInternal(s, q, m, n));
  }

  lemma MergeInternalContents(c: Cfg, s: St, q: int, i: int)
    requires CanMerge(c, s, q, i, false)
    ensures Contents(MergeInternal(s, q, i)) == Contents(s)
  {
    Siblings(c, s, q, i);
    MergePairContents(s, q, i, s.pages[q].kids[i - 1].page, s.pages[q].kids[i].page);
  }

  lemma MergePairContents(s: St, q: int, i: int, l: int, r: int)
    requires Pair(s, q, i, l, r) && s.pages[l].Internal? && s.pages[r].Internal?
    ensures Contents(MergeInternal(s, q, i)) == Contents(s)
  {
    SameContents(s, MergeInternal(s, q, i));
  }

  lemma CollapseContents(c: Cfg, s: St)
    requires CanCollapse(c, s)
    ensures Contents(CollapseRoot(s)) == Contents(s)
  {
    assert KidsAt(c, s, -1, -1, s.root) && KidAt(c, s, -1, -1, s.root, 0);
    SameContents(s, CollapseRoot(s));
  }
}
