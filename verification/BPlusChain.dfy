/** The leaf chain as one sorted sequence of entries, and what `validate_tree` checks. */
module BPlusChain {
  import opened BPlusState
  import opened BPlusDeleteSteps
  import opened BPlusContents

  /** The entries met when following the leaf chain from leaf `p`. */
  ghost function ChainItems(c: Cfg, s: St, p: int): seq<Entry>
    requires Struct(c, s, -1, -1) && p in s.pages && s.pages[p].Leaf?
    decreases c.limit - s.g[p].lo
  {
    assert ChainAt(c, s, p);
    s.pages[p].entries + if s.pages[p].next == -1 then [] else ChainItems(c, s, s.pages[p].next)
  }

  /** The pages met when following the leaf chain from leaf `p`. */
  ghost function ChainPages(c: Cfg, s: St, p: int): seq<int>
    requires Struct(c, s, -1, -1) && p in s.pages && s.pages[p].Leaf?
    decreases c.limit - s.g[p].lo
  {
    assert ChainAt(c, s, p);
    [p] + if s.pages[p].next == -1 then [] else ChainPages(c, s, s.pages[p].next)
  }

  lemma SortedConcat(a: seq<Entry>, b: seq<Entry>, m: int)
    requires Sorted(a) && Sorted(b)
    requires forall i :: 0 <= i < |a| ==> a[i].key < m
    requires forall i :: 0 <= i < |b| ==> m <= b[i].key
    ensures Sorted(a + b)
  {
  }

  /** The chain is sorted from the start of the first leaf's interval on. */
  lemma {:induction false} ChainSorted(c: Cfg, s: St, p: int)
    requires Struct(c, s, -1, -1) && p in s.pages && s.pages[p].Leaf?
    ensures Sorted(ChainItems(c, s, p))
    ensures forall i :: 0 <= i < |ChainItems(c, s, p)| ==> s.g[p].lo <= ChainItems(c, s, p)[i].key
    decreases c.limit - s.g[p].lo
  {
    var es := s.pages[p].entries;
    var q := s.pages[p].next;
    assert LeafAt(es, s.g[p].lo, s.g[p].hi);
    assert ChainAt(c, s, p);
    if q != -1 {
      ChainSorted(c, s, q);
      SortedConcat(es, ChainItems(c, s, q), s.g[p].hi);
    }
  }

  /** The chain from `p` holds exactly the entries from the start of its interval on. */
  lemma {:induction false} ChainAll(c: Cfg, s: St, p: int, e: Entry)
    requires Struct(c, s, -1, -1) && p in s.pages && s.pages[p].Leaf?
    ensures e in ChainItems(c, s, p) <==> e in Contents(s) && s.g[p].lo <= e.key
    decreases c.limit - s.g[p].lo
  {
    var es := s.pages[p].entries;
    var q := s.pages[p].next;
    assert LeafAt(es, s.g[p].lo, s.g[p].hi);
    assert ChainAt(c, s, p);
    if s.g[p].lo <= e.key < s.g[p].hi {
      OnlyLeaf(c, s, p, e);
    }
    if q == -1 {
      if e in Contents(s) {
        KeyBelowLimit(c, s, e);
      }
    } else {
      ChainAll(c, s, q, e);
    }
  }

  lemma KeyBelowLimit(c: Cfg, s: St, e: Entry)
    requires Struct(c, s, -1, -1) && e in Contents(s)
    ensures 0 <= e.key < c.limit
  {
    var x :| x in s.pages && s.pages[x].Leaf? && e in s.pages[x].entries;
    assert LeafAt(s.pages[x].entries, s.g[x].lo, s.g[x].hi);
  }

  /** The chain from `p` visits exactly the leaves that start at or after `p`, once each and in
      key order. */
  lemma {:induction false} ChainLists(c: Cfg, s: St, p: int)
    requires Struct(c, s, -1, -1) && p in s.pages && s.pages[p].Leaf?
    ensures var ps := ChainPages(c, s, p);
      && (forall i :: 0 <= i < |ps| ==> ps[i] in s.pages && s.pages[ps[i]].Leaf? && s.g[p].lo <= s.g[ps[i]].lo)
      && (forall i, j :: 0 <= i < j < |ps| ==> s.g[ps[i]].hi <= s.g[ps[j]].lo)
      && (forall x :: x in s.pages && s.pages[x].Leaf? && s.g[p].lo <= s.g[x].lo ==> x in ps)
    decreases c.limit - s.g[p].lo
  {
    var q := s.pages[p].next;
    assert ChainAt(c, s, p);
    if q != -1 {
      ChainLists(c, s, q);
    }
    forall x | x in s.pages && s.pages[x].Leaf? && s.g[p].lo <= s.g[x].lo
      ensures x in ChainPages(c, s, p)
    {
      ChainReaches(c, s, p, x);
    }
  }

  /** The chain leads to every leaf that does not start before it. */
  lemma {:induction false} ChainReaches(c: Cfg, s: St, p: int, x: int)
    requires Struct(c, s, -1, -1) && p in s.pages && s.pages[p].Leaf?
    requires x in s.pages && s.pages[x].Leaf? && s.g[p].lo <= s.g[x].lo
    ensures x in ChainPages(c, s, p)
    decreases c.limit - s.g[p].lo
  {
    assert ChainAt(c, s, p);
    if s.g[x].lo < s.g[p].hi {
      Unique(c, s, x, p, s.g[x].lo);
    } else {
      ChainReaches(c, s, s.pages[p].next, x);
    }
  }

  /** From the leftmost leaf the chain lists all leaves and holds all entries. */
  lemma WholeChain(c: Cfg, s: St, p: int)
    requires Inv(c, s) && p in s.pages && s.pages[p].Leaf? && s.g[p].lo == 0
    ensures forall x :: x in s.pages && s.pages[x].Leaf? ==> x in ChainPages(c, s, p)
    ensures forall e :: e in ChainItems(c, s, p) <==> e in Contents(s)
    ensures Sorted(ChainItems(c, s, p))
  {
    ChainLists(c, s, p);
    ChainSorted(c, s, p);
    forall e
      ensures e in ChainItems(c, s, p) <==> e in Contents(s)
    {
      ChainAll(c, s, p, e);
      if e in Contents(s) {
        KeyBelowLimit(c, s, e);
      }
    }
  }

  // ---- validate_tree ----

  /** What `LeafIndexNodeHandler::validate` checks, and the order `validate_leaf_link` checks. */
  ghost predicate LeafValidates(pages: map<int, Node>, p: int)
    requires p in pages && pages[p].Leaf?
  {
    var es := pages[p].entries;
    && |es| >= 1
    && (forall i :: 1 <= i < |es| ==> es[i - 1].key < es[i].key)
    && (pages[p].parent != -1 ==>
        && pages[p].parent in pages && pages[pages[p].parent].Internal?
        && var ks := pages[pages[p].parent].kids;
          exists i :: 0 <= i < |ks| && ks[i].page == p
            && (i != 0 ==> ks[i].key <= es[0].key) && (i < |ks| - 1 ==> es[|es| - 1].key < ks[i + 1].key))
    && (pages[p].next != -1 ==>
        && pages[p].next in pages && pages[pages[p].next].Leaf? && |pages[pages[p].next].entries| >= 1
        && es[|es| - 1].key < pages[pages[p].next].entries[0].key)
  }

  /** What `InternalIndexNodeHandler::validate` checks. */
  ghost predicate InternalValidates(pages: map<int, Node>, p: int)
    requires p in pages && pages[p].Internal?
  {
    var ks := pages[p].kids;
    && |ks| >= 2
    && (forall i :: 2 <= i < |ks| ==> ks[i - 1].key < ks[i].key)
    && (forall i :: 0 <= i < |ks| ==> ks[i].page in pages && pages[ks[i].page].parent == p)
    && (pages[p].parent != -1 ==>
        && pages[p].parent in pages && pages[pages[p].parent].Internal?
        && var qs := pages[pages[p].parent].kids;
          exists i :: 0 <= i < |qs| && qs[i].page == p
            && (i != 0 ==> qs[i].key <= ks[1].key) && (i < |qs| - 1 ==> ks[|ks| - 1].key < qs[i + 1].key))
  }

  /** Every leaf passes the index's own validation. */
  lemma LeafPasses(c: Cfg, s: St, p: int)
    requires Inv(c, s) && p in s.pages && s.pages[p].Leaf?
    ensures LeafValidates(s.pages, p)
  {
    assert SizeOk(c, s.pages[p], p == s.root);
    assert LeafAt(s.pages[p].entries, s.g[p].lo, s.g[p].hi) && ChainAt(c, s, p);
    if p != s.root {
      var i := InParent(c, s, p);
      assert s.pages[s.pages[p].parent].kids[i].page == p;
    }
    var q := s.pages[p].next;
    if q != -1 {
      assert SizeOk(c, s.pages[q], q == s.root) && LeafAt(s.pages[q].entries, s.g[q].lo, s.g[q].hi);
    }
  }

  /** Every internal node passes the index's own validation. */
  lemma InternalPasses(c: Cfg, s: St, p: int)
    requires Inv(c, s) && p in s.pages && s.pages[p].Internal?
    ensures InternalValidates(s.pages, p)
  {
    var ks, lo, hi := s.pages[p].kids, s.g[p].lo, s.g[p].hi;
    assert SizeOk(c, s.pages[p], p == s.root) && KidsAt(c, s, -1, -1, p);
    forall i | 0 <= i < |ks|
      ensures ks[i].page in s.pages && s.pages[ks[i].page].parent == p
    {
      assert KidAt(c, s, -1, -1, p, i);
    }
    forall i | 2 <= i < |ks|
      ensures ks[i - 1].key < ks[i].key
    {
      assert Sep(ks, lo, hi, i - 1) < Sep(ks, lo, hi, i);
    }
    if p != s.root {
      var i := InParent(c, s, p);
      assert Sep(ks, lo, hi, 0) < Sep(ks, lo, hi, 1) && Sep(ks, lo, hi, |ks| - 1) < Sep(ks, lo, hi, |ks|);
      assert s.pages[s.pages[p].parent].kids[i].page == p;
    }
  }
}
