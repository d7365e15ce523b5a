/** The index handler: insertion and deletion over pages linked by page number. */
module BPlusTree {
  import opened BPlusState
  import opened BPlusInsertSteps
  import opened BPlusDeleteSteps
  import opened BPlusContents
  import opened BPlusRefine
  import opened BPlusInsertRefine
  import opened BPlusDrops
  import opened BPlusDeleteRefine
  import opened BPlusSearch
  import opened BufferPool

  /** Return codes. `AssertionFailed` is not one: the assertion in `free_internal` stops the process. */
  datatype Rc = Success | Empty | DuplicateKey | NotExist | NoBuf | IoErrRead | InvalidArgument | InternalError | AssertionFailed

  /** A page pinned and unpinned in between does not show. */
  lemma PinsCancel(pins: multiset<int>, l: int, n: int, r: int)
    ensures pins + multiset{r} - multiset{l} - multiset{n} - multiset{r} == pins - multiset{l} - multiset{n}
  {
  }

  lemma PinsKept(pins: multiset<int>, l: int, n: int)
    requires l != n && pins[l] > 0 && pins[n] > 0
    ensures pins - multiset{l} - multiset{n} + multiset{l, n} == pins
  {
  }

  lemma PinnedLeaf(base: multiset<int>, leaf: int)
    ensures base + multiset{leaf} - multiset{leaf} == base && (base + multiset{leaf})[leaf] > 0
  {
  }

  lemma NotThere(s: St, e: Entry)
    requires !HasKey(s, e.key)
    ensures Contents(s) + {e} != Contents(s)
  {
    assert e in Contents(s) + {e};
  }

  lemma PinsPass(pins: multiset<int>, l: int, n: int, q: int, n2: int)
    ensures pins + multiset{q} + multiset{n2} - multiset{l} - multiset{n} - multiset{q} - multiset{n2} == pins - multiset{l} - multiset{n}
  {
  }

  lemma PinsHeld(pins: multiset<int>, l: int, n: int, q: int, n2: int)
    requires l != n && pins[l] > 0 && pins[n] > 0
    ensures (pins + multiset{q} + multiset{n2})[l] > 0 && (pins + multiset{q} + multiset{n2} - multiset{l})[n] > 0
  {
  }

  lemma PinsPassed(pins: multiset<int>, l: int, n: int)
    ensures pins + multiset{n} - multiset{l} - multiset{n} == pins - multiset{l}
  {
  }

  /** The return code of an allocation. */
  function AllocCode(steady: bool, free: int): Rc {
    if !steady then IoErrRead else if free == 0 then NoBuf else Success
  }

  /** The return code of an insertion of a new key that allocates `need` pages. */
  function InsertCode(need: int, steady: bool, free: int): Rc {
    if need == 0 then Success else if !steady then IoErrRead else if free < need then NoBuf else Success
  }

  /** The allocated pages once `drops` are given back. */
  lemma PagesLeft(keys: set<int>, drops: set<int>, before: set<int>, after: set<int>)
    requires before == {0, 1} + keys && after == {0, 1} + (keys - drops)
    requires forall x :: x in drops ==> x >= 2 && x in keys
    ensures |after| == |before| - |drops|
  {
    assert forall x :: x in before <==> x in after || x in drops;
    assert before == after + drops && after !! drops;
  }

  /** Nobody holds any of these pages. */
  ghost predicate Unheld(pins: multiset<int>, xs: set<int>) {
    forall x :: x in xs ==> pins[x] == 0
  }

  lemma UnheldPlus(pins: multiset<int>, x: int, xs: set<int>)
    ensures Unheld(pins, {x} + xs) <==> pins[x] == 0 && Unheld(pins, xs)
  {
    assert Unheld(pins, {x} + xs) ==> x in {x} + xs && forall y :: y in xs ==> y in {x} + xs;
  }

  lemma MinusBoth(ks: set<int>, x: int, xs: set<int>)
    ensures ks - {x} - xs == ks - ({x} + xs)
  {
  }

  lemma PinsBack(base: multiset<int>, l: int, n: int, r: int)
    ensures base + multiset{n, r, l} - multiset{l} - multiset{n} - multiset{r} == base
  {
  }

  lemma PinsTwo(base: multiset<int>, p: int, nb: int, q: int)
    requires p != nb
    ensures var pins := base + multiset{p, q, nb};
      p in pins && nb in pins && nb in pins - multiset{p} && pins - multiset{p} - multiset{nb} == base + multiset{q}
  {
  }

  lemma PinsThree(base: multiset<int>, p: int, nb: int, q: int)
    ensures var pins := base + multiset{p, q, nb}; p in pins && nb in pins && q in pins
  {
  }

  class BplusTreeHandler {
    const c: Cfg
    const pool: FileBufferPool
    var pages: map<int, Node>   // the index pages, by page number
    var root: int               // root page number in the file header, -1 when empty
    ghost var g: map<int, Span>

    ghost function S(): St
      reads this
    {
      St(pages, root, g)
    }

    /** The allocated pages are the two header pages and the pages of the tree. */
    ghost predicate PoolOk()
      reads this, pool
    {
      pool.Valid() && pool.alloc == {0, 1} + pages.Keys
    }

    ghost predicate Valid()
      reads this, pool
    {
      PoolOk() && Inv(c, S())
    }

    /** A new index file: an empty tree behind the file header and the index header. */
    constructor Create(cfg: Cfg, bp: FileBufferPool)
      requires cfg.Ok() && bp.Valid() && bp.alloc == {0} && bp.bytes >= 1 && bp.Steady()
      modifies bp
      ensures Valid() && c == cfg && pool == bp && root == -1 && Contents(S()) == {}
      ensures pool.pins == old(bp.pins) && pool.Steady()
    {
      c, pool := cfg, bp;
      pages, root, g := map[], -1, map[];
      new;
      AllocateHeader(bp);
      assert pages.Keys == {};
    }

    /** The page of the index header comes right after that of the file header. */
    static method AllocateHeader(bp: FileBufferPool)
      requires bp.Valid() && bp.alloc == {0} && bp.Steady()
      modifies bp
      ensures bp.Valid() && bp.alloc == {0, 1} && bp.pins == old(bp.pins) && bp.Steady()
    {
      assert 1 !in bp.alloc;
      var a, header := bp.AllocatePage();
      bp.UnpinPage(header);
    }

    method FindLeaf(key: int) returns (rc: Rc, leaf: int)
      requires Valid() && 0 <= key < c.limit
      modifies pool`pins, pool`resident
      ensures Valid()
      ensures rc == if root == -1 then Empty else Success
      ensures rc == Empty ==> pool.pins == old(pool.pins)
      ensures rc == Success ==> Covers(S(), leaf, key) && pool.pins == old(pool.pins) + multiset{leaf}
    {
      if root == -1 {
        return Empty, -1;
      }
      ghost var s, base := S(), pool.pins;
      leaf := root;
      pool.GetThisPage(leaf);
      while !pages[leaf].Leaf?
        invariant PoolOk() && pool.pins == base + multiset{leaf}
        invariant leaf in s.pages && leaf in s.g && s.g[leaf].lo <= key < s.g[leaf].hi
        decreases s.g[leaf].ht
      {
        leaf := Descend(leaf, key, base, s);
      }
      rc := Success;
    }

    /** One turn of the loop of `find_leaf_internal`: from a page to the child that covers the key. */
    method Descend(p: int, key: int, ghost base: multiset<int>, ghost s: St) returns (child: int)
      requires PoolOk() && s == S() && Struct(c, s, -1, -1) && pool.pins == base + multiset{p}
      requires p in s.pages && s.pages[p].Internal? && s.g[p].lo <= key < s.g[p].hi
      modifies pool`pins, pool`resident
      ensures PoolOk() && pool.pins == base + multiset{child}
      ensures child in s.pages && child in s.g && s.g[child].lo <= key < s.g[child].hi && s.g[child].ht < s.g[p].ht
    {
      assert KidsAt(c, s, -1, -1, p);
      KidsSorted(c, s, -1, -1, p);
      var i, _ := InternalLookup(c, pages[p].kids, key);
      LookupChild(c, s, p, i, key);
      child := pages[p].kids[i].page;
      pool.UnpinPage(p);
      pool.GetThisPage(child);
    }

    /** A right half `n` of `l` is waiting to be entered in the parent under `key`. Its page has just been
        allocated, so no other page waits unreadable to be used again. */
    ghost predicate Pending(l: int, n: int, key: int)
      reads this, pool
    {
      && PoolOk() && Struct(c, S(), l, n) && l != -1 && key == g[n].lo
      && OccOk(c, S(), -1) && SizeOk(c, pages[l], false)
      && pool.pins[l] > 0 && pool.pins[n] > 0 && pool.Steady()
    }

    /** No page was free to enter the right half `n` of `l` in the parent: the split stays pending.
        Beyond `base`, the two halves are pinned only if `l` is the root. */
    ghost predicate HalfSplit(l: int, n: int, base: multiset<int>)
      reads this, pool
    {
      && PoolOk() && pool.Free() == 0 && l != -1 && Struct(c, S(), l, n) && OccOk(c, S(), -1)
      && pool.pins == base + if l == root then multiset{l, n} else multiset{}
    }

    /** A page has been taken that the tree does not have: it could not be read, and stays pinned. */
    ghost predicate PageLost(base: multiset<int>)
      reads this, pool
    {
      pool.Valid() && exists p :: p !in {0, 1} + pages.Keys && pool.alloc == {0, 1} + pages.Keys + {p} && pool.pins == base + multiset{p}
    }

    /** What a refused allocation leaves behind. */
    ghost predicate Refused(rc: Rc, base: multiset<int>)
      reads this, pool
    {
      if rc == NoBuf then PoolOk() && pool.Free() == 0 && pool.pins == base else PageLost(base)
    }

    /** A fresh page for a node. */
    method AllocateIndexPage() returns (rc: Rc, r: int)
      requires PoolOk()
      modifies pool
      ensures rc == AllocCode(old(pool.Steady()), old(pool.Free()))
      ensures rc != Success ==> Refused(rc, old(pool.pins))
      ensures rc == Success ==> pool.Valid() && r !in pages && r >= 2 && pool.alloc == {0, 1} + pages.Keys + {r}
      ensures rc == Success ==> pool.pins == old(pool.pins) + multiset{r} && pool.Free() == old(pool.Free()) - 1 && pool.Steady()
    {
      var a;
      a, r := pool.AllocatePage();
      assert a != NoneLeft ==> r !in {0, 1} + pages.Keys;
      rc := if a == Allocated then Success else if a == NoneLeft then NoBuf else IoErrRead;
    }

    method UnpinThree(l: int, n: int, q: int)
      requires pool.Valid() && l != n && n != q && q != l && pool.pins[l] > 0 && pool.pins[n] > 0 && pool.pins[q] > 0
      modifies pool`pins
      ensures pool.Valid() && pool.pins == old(pool.pins) - multiset{l} - multiset{n} - multiset{q}
    {
      pool.UnpinPage(l);
      pool.UnpinPage(n);
      pool.UnpinPage(q);
    }

    method UnpinPair(l: int, n: int)
      requires pool.Valid() && pool.pins[l] > 0 && (pool.pins - multiset{l})[n] > 0
      modifies pool`pins
      ensures pool.Valid() && pool.pins == old(pool.pins) - multiset{l} - multiset{n}
    {
      pool.UnpinPage(l);
      pool.UnpinPage(n);
    }

    /** The pins around an update of the parent `q`. */
    method FetchAndUnpin(l: int, n: int, q: int)
      requires pool.Valid() && q in pool.alloc && l != n && n != q && q != l && pool.pins[l] > 0 && pool.pins[n] > 0
      modifies pool`pins, pool`resident
      ensures pool.Valid() && pool.pins == old(pool.pins) - multiset{l} - multiset{n}
    {
      pool.GetThisPage(q);
      UnpinThree(l, n, q);
      PinsCancel(old(pool.pins), l, n, q);
    }

    /** `create_new_root` on the fresh page `r`, and the parent links of the two halves. */
    method WriteNewRoot(l: int, n: int, key: int, r: int)
      requires l in pages && n in pages && l in g && n in g && key == g[n].lo
      modifies this
      ensures S() == NewRoot(c, old(S()), l, n, r) && root == r && pages.Keys == old(pages.Keys) + {r}
    {
      pages := pages[l := pages[l].(parent := r)][n := pages[n].(parent := r)];
      pages := pages[r := Internal(-1, [Kid(c.zero, l), Kid(key, n)])];
      g := g[r := Span(0, c.limit, g[l].ht + 1)];
      root := r;
    }

    /** The split node was the root: a new root is created above the two halves. */
    method InsertNewRoot(l: int, n: int, key: int) returns (rc: Rc)
      requires PoolOk() && pool.Steady() && pool.pins[l] > 0 && pool.pins[n] > 0
      requires l in pages && n in pages && l in g && n in g && l != n && key == g[n].lo
      modifies this, pool
      ensures rc == if old(pool.Free()) == 0 then NoBuf else Success
      ensures rc == NoBuf ==> S() == old(S()) && PoolOk() && pool.pins == old(pool.pins) && pool.Free() == 0
      ensures rc == Success ==>
        && root !in old(pages) && root >= 2 && S() == NewRoot(c, old(S()), l, n, root)
        && pages.Keys == old(pages.Keys) + {root}
        && PoolOk() && pool.pins == old(pool.pins) - multiset{l} - multiset{n} && pool.Free() == old(pool.Free()) - 1
        && pool.Steady()
    {
      var r;
      rc, r := AllocateIndexPage();
      if rc == Success {
        PlaceNewRoot(l, n, key, r, old(pool.pins));
      }
    }

    method PlaceNewRoot(l: int, n: int, key: int, r: int, ghost pins: multiset<int>)
      requires l in pages && n in pages && l in g && n in g && l != n && key == g[n].lo
      requires pool.Valid() && r !in pages && pool.alloc == {0, 1} + pages.Keys + {r}
      requires pool.pins == pins + multiset{r} && pins[l] > 0 && pins[n] > 0
      modifies this, pool`pins
      ensures S() == NewRoot(c, old(S()), l, n, r) && root == r && pages.Keys == old(pages.Keys) + {r}
      ensures PoolOk() && pool.pins == pins - multiset{l} - multiset{n}
    {
      WriteNewRoot(l, n, key, r);
      UnpinThree(l, n, r);
      PinsCancel(pins, l, n, r);
    }

    /** `InternalIndexNodeHandler::insert` of child `n` into `q`, and the child's parent link. */
    method EnterKid(n: int, key: int, q: int, ghost j: int)
      requires n in pages && q != n && q in pages && pages[q].Internal?
      requires KidBelongs(pages[q].kids, j, key) && KeysFromOne(c, pages[q].kids) && 0 <= key < c.limit
      modifies `pages
      ensures pages.Keys == old(pages).Keys
      ensures var nd := old(pages)[q];
        pages == old(pages)[q := nd.(kids := InsertKid(nd.kids, j, Kid(key, n)))][n := old(pages)[n].(parent := q)]
    {
      var _, pos := InternalLookup(c, pages[q].kids, key);
      SamePosition(pages[q].kids, key, j, pos);
      WritePage(q, pages[q].(kids := InsertKid(pages[q].kids, pos, Kid(key, n))));
      WritePage(n, pages[n].(parent := q));
    }

    /** The parent `q` has room for the new child. */
    method InsertIntoRoomyParent(l: int, n: int, key: int, q: int, ghost s: St)
      requires s == S() && Struct(c, s, l, n) && l != -1 && key == s.g[n].lo && OccOk(c, s, -1)
      requires l != s.root && q == s.pages[l].parent
      requires q in s.pages && s.pages[q].Internal? && |s.pages[q].kids| < c.internalMax
      modifies `pages
      ensures Inv(c, S()) && root == s.root && Contents(S()) == Contents(s) && pages.Keys == s.pages.Keys
    {
      ghost var j := PendingPosition(c, s, l, n);
      AddChildDone(c, s, l, n, j);
      EnterKid(n, key, q, j);
      assert S() == AddChild(s, l, n, j);
    }

    method SetParent(k: int, p: int)
      requires PoolOk() && k in pages
      modifies `pages, pool`pins, pool`resident
      ensures pages == old(pages)[k := old(pages)[k].(parent := p)] && pages.Keys == old(pages).Keys
      ensures PoolOk() && pool.pins == old(pool.pins)
    {
      pool.GetThisPage(k);
      pages := pages[k := pages[k].(parent := p)];
      pool.UnpinPage(k);
    }

    /** The loop of `copy_from`: every child in `ks` gets `p` as its parent. */
    method SetParents(ks: seq<Kid>, p: int)
      requires PoolOk() && forall i :: 0 <= i < |ks| ==> ks[i].page in pages
      modifies `pages, pool`pins, pool`resident
      ensures pages == Reparent(old(pages), ks, p) && pages.Keys == old(pages).Keys
      ensures PoolOk() && pool.pins == old(pool.pins)
    {
      ghost var before := pages;
      var i := 0;
      assert pages == Reparent(before, ks[..0], p);
      while i < |ks|
        invariant 0 <= i <= |ks| && pages == Reparent(before, ks[..i], p) && pages.Keys == before.Keys
        invariant PoolOk() && pool.pins == old(pool.pins)
      {
        ReparentStep(before, ks, i, p);
        SetParent(ks[i].page, p);
        i := i + 1;
      }
      assert ks[..|ks|] == ks;
    }

    method WritePage(p: int, nd: Node)
      requires p in pages
      modifies `pages
      ensures pages == old(pages)[p := nd] && pages.Keys == old(pages).Keys
    {
      pages := pages[p := nd];
    }

    /** `allocate_page` and `init_empty` for a node. */
    method NewPage(nd: Node) returns (rc: Rc, n: int)
      requires PoolOk()
      modifies `pages, pool
      ensures rc == AllocCode(old(pool.Steady()), old(pool.Free()))
      ensures rc != Success ==> pages == old(pages) && Refused(rc, old(pool.pins))
      ensures rc == Success ==> n !in old(pages) && n >= 2 && pages == old(pages)[n := nd] && pages.Keys == old(pages).Keys + {n}
      ensures rc == Success ==>
        PoolOk() && pool.pins == old(pool.pins) + multiset{n} && pool.Free() == old(pool.Free()) - 1 && pool.Steady()
    {
      rc, n := AllocateIndexPage();
      if rc == Success {
        pages := pages[n := nd];
      }
    }

    /** `split` of an internal page: the right half of its children moves to a fresh page. */
    method SplitInternalPage(q: int) returns (ok: bool, n: int)
      requires PoolOk() && pool.Steady() && q in pages && pages[q].Internal? && |pages[q].kids| >= 2
      requires forall i :: 0 <= i < |pages[q].kids| ==> pages[q].kids[i].page in pages
      modifies `pages, pool
      ensures ok <==> old(pool.Free()) > 0
      ensures !ok ==> pages == old(pages) && PoolOk() && pool.pins == old(pool.pins) && pool.Free() == old(pool.Free())
      ensures ok ==> n !in old(pages) && n >= 2 && pages == CutPages(old(pages), q, n) && pages.Keys == old(pages).Keys + {n}
      ensures ok ==>
        PoolOk() && pool.pins == old(pool.pins) + multiset{n} && pool.Free() == old(pool.Free()) - 1 && pool.Steady()
    {
      var nd := pages[q];
      var m := |nd.kids| / 2;
      var rc;
      rc, n := NewPage(Internal(nd.parent, []));
      ok := rc == Success;
      if !ok {
        return;
      }
      SetParents(nd.kids[m..], n);
      WritePage(q, nd.(kids := nd.kids[..m]));
      WritePage(n, Internal(nd.parent, nd.kids[m..]));
      CutPagesIs(old(pages), q, n);
    }

    /** A full parent `q` is split, and the new child goes into the half its key belongs to. */
    method SplitParent(n: int, key: int, q: int, ghost j: int, ghost s: St) returns (ok: bool, n2: int)
      requires PoolOk() && pool.Steady() && s == S()
      requires q in s.pages && s.pages[q].Internal? && |s.pages[q].kids| >= 2 && n in s.pages && n != q
      requires forall i :: 0 <= i < |s.pages[q].kids| ==> s.pages[q].kids[i].page in s.pages
      requires KidBelongs(s.pages[q].kids, j, key) && KeysFromOne(c, s.pages[q].kids) && 0 <= key < c.limit
      modifies `pages, pool
      ensures ok <==> old(pool.Free()) > 0
      ensures !ok ==> pages == s.pages && PoolOk() && pool.pins == old(pool.pins) && pool.Free() == old(pool.Free())
      ensures ok ==> n2 !in s.pages && n2 >= 2 && pages.Keys == s.pages.Keys + {n2}
      ensures ok ==> pages == SplitAndInsert(s, q, n, key, j, n2)
      ensures ok ==>
        PoolOk() && pool.pins == old(pool.pins) + multiset{n2} && pool.Free() == old(pool.Free()) - 1 && pool.Steady()
    {
      ok, n2 := SplitInternalPage(q);
      if !ok {
        return;
      }
      EnterHalf(n, key, q, j, n2, s);
    }

    /** The new child goes into the half of the split page `q` that its key belongs to. */
    method EnterHalf(n: int, key: int, q: int, ghost j: int, n2: int, ghost s: St)
      requires q in s.pages && s.pages[q].Internal? && |s.pages[q].kids| >= 2 && n in s.pages && n != q && n2 !in s.pages
      requires KidBelongs(s.pages[q].kids, j, key) && KeysFromOne(c, s.pages[q].kids) && 0 <= key < c.limit
      requires pages == CutPages(s.pages, q, n2)
      modifies `pages
      ensures pages.Keys == old(pages).Keys && pages == SplitAndInsert(s, q, n, key, j, n2)
    {
      ghost var m := |s.pages[q].kids| / 2;
      HalfPosition(c, s.pages[q].kids, j, m, key);
      EnterHalfIs(s, q, n, key, j, n2);
      var right := c.cmp(key, pages[n2].kids[0].key) > 0;
      assert right <==> j > m;
      if right {
        EnterKid(n, key, n2, j - m);
      } else {
        EnterKid(n, key, q, j);
      }
    }

    /** The parentless case of `insert_entry_into_parent`. */
    method InsertAboveRoot(l: int, n: int, key: int) returns (rc: Rc)
      requires Pending(l, n, key) && l == root
      modifies this, pool
      ensures rc == if old(pool.Free()) == 0 then NoBuf else Success
      ensures rc == NoBuf ==> S() == old(S()) && HalfSplit(l, n, old(pool.pins) - multiset{l} - multiset{n})
      ensures rc == Success ==>
        && Valid() && pool.Steady() && root != -1 && Contents(S()) == old(Contents(S()))
        && pool.pins == old(pool.pins) - multiset{l} - multiset{n} && pool.Free() == old(pool.Free()) - 1
    {
      ghost var s := S();
      assert l != n && pool.pins[l] > 0 && pool.pins[n] > 0;
      PinsKept(pool.pins, l, n);
      rc := InsertNewRoot(l, n, key);
      if rc == Success {
        NewRootDone(c, s, l, n, root);
      }
    }

    /** The case of a parent with room. */
    method InsertBelowRoomy(l: int, n: int, key: int, q: int)
      requires Pending(l, n, key) && l != root && q == pages[l].parent
      requires q in pages && pages[q].Internal? && |pages[q].kids| < c.internalMax && q != l && q != n
      modifies this, pool`pins, pool`resident
      ensures Valid() && root != -1 && Contents(S()) == old(Contents(S()))
      ensures pool.pins == old(pool.pins) - multiset{l} - multiset{n} && pool.Free() == old(pool.Free())
    {
      assert l != n && pool.pins[l] > 0 && pool.pins[n] > 0 && q in pool.alloc && root != -1;
      InsertIntoRoomyParent(l, n, key, q, S());
      FetchAndUnpin(l, n, q);
    }

    /** `SplitParent` with the spans of the two halves. */
    method SplitParentPages(n: int, key: int, q: int, ghost j: int, ghost s: St) returns (ok: bool, n2: int)
      requires PoolOk() && pool.Steady() && s == S() && q in s.pages && s.pages[q].Internal? && |s.pages[q].kids| >= 2
      requires n in s.pages && n != q && q in s.g
      requires forall i :: 0 <= i < |s.pages[q].kids| ==> s.pages[q].kids[i].page in s.pages
      requires KidBelongs(s.pages[q].kids, j, key) && KeysFromOne(c, s.pages[q].kids) && 0 <= key < c.limit
      modifies `pages, `g, pool
      ensures ok <==> old(pool.Free()) > 0
      ensures !ok ==> S() == s && PoolOk() && pool.pins == old(pool.pins) && pool.Free() == old(pool.Free())
      ensures ok ==> ParentSplit(s, S(), q, n, key, j, n2) && n2 !in s.pages && n2 >= 2
      ensures ok ==>
        PoolOk() && pool.pins == old(pool.pins) + multiset{n2} && pool.Free() == old(pool.Free()) - 1 && pool.Steady()
    {
      ok, n2 := SplitParent(n, key, q, j, s);
      if ok {
        SplitNotEmpty(s, q, n, key, j, n2);
        CutAt(q, n2, pages[n2].kids[0].key);
      }
    }

    /** The page work of `insert_entry_into_parent` at a full parent. */
    method SplitParentPinned(l: int, n: int, key: int, q: int, ghost j: int, ghost s: St) returns (ok: bool, n2: int)
      requires PoolOk() && pool.Steady() && s == S() && q in s.pages && s.pages[q].Internal? && |s.pages[q].kids| >= 2
      requires n in s.pages && l != n && n != q && q != l && q in s.g
      requires pool.pins[l] > 0 && pool.pins[n] > 0
      requires forall i :: 0 <= i < |s.pages[q].kids| ==> s.pages[q].kids[i].page in s.pages
      requires KidBelongs(s.pages[q].kids, j, key) && KeysFromOne(c, s.pages[q].kids) && 0 <= key < c.limit
      modifies this, pool
      ensures ok <==> old(pool.Free()) > 0
      ensures !ok ==> S() == s && PoolOk() && pool.pins == old(pool.pins) - multiset{l} - multiset{n} && pool.Free() == 0
      ensures ok ==> ParentSplit(s, S(), q, n, key, j, n2) && n2 !in s.pages && n2 >= 2
      ensures ok ==> PoolOk() && pool.Free() == old(pool.Free()) - 1 && pool.Steady()
      ensures ok ==> pool.pins == old(pool.pins) + multiset{q} + multiset{n2} - multiset{l} - multiset{n}
    {
      ghost var pins := pool.pins;
      pool.GetThisPage(q);
      ok, n2 := SplitParentPages(n, key, q, j, s);
      if ok {
        PinsHeld(pins, l, n, q, n2);
        UnpinPair(l, n);
      } else {
        UnpinFailed(l, n, q, pins);
      }
    }

    method UnpinFailed(l: int, n: int, q: int, ghost pins: multiset<int>)
      requires pool.Valid() && l != n && n != q && q != l && pins[l] > 0 && pins[n] > 0 && pool.pins == pins + multiset{q}
      modifies pool`pins
      ensures pool.Valid() && pool.pins == pins - multiset{l} - multiset{n}
    {
      UnpinThree(l, n, q);
      PinsCancel(pins, l, n, q);
    }

    /** The spans of the two halves of a split page. */
    ghost method CutAt(p: int, n: int, key: int)
      requires p in g
      modifies `g
      ensures g == CutSpans(old(g), p, n, key)
    {
      g := CutSpans(g, p, n, key);
    }

    /** The case of a full parent: it is split, and its own right half is pending afterwards. */
    method InsertBelowFull(l: int, n: int, key: int, q: int, ghost j: int, ghost s: St) returns (ok: bool, n2: int)
      requires Pending(l, n, key) && s == S() && CanAdd(c, s, l, n, j)
      requires q == s.pages[l].parent && KidBelongs(s.pages[q].kids, j, key) && KeysFromOne(c, s.pages[q].kids) && 0 <= key < c.limit
      requires |s.pages[q].kids| == c.internalMax
      modifies this, pool
      ensures ok <==> old(pool.Free()) > 0
      ensures !ok ==> S() == s && HalfSplit(l, n, old(pool.pins) - multiset{l} - multiset{n})
      ensures ok ==> n2 in pages && pages[n2].Internal? && pages[n2].kids != [] && Pending(q, n2, pages[n2].kids[0].key)
      ensures ok ==> Contents(S()) == Contents(s) && NeedAbove(c, S(), q) == NeedAbove(c, s, q)
      ensures ok ==> pool.Free() == old(pool.Free()) - 1 && g[root].ht - g[q].ht < s.g[s.root].ht - s.g[l].ht
      ensures ok ==> pool.pins == old(pool.pins) + multiset{q} + multiset{n2} - multiset{l} - multiset{n}
    {
      assert KidsAt(c, s, l, n, q);
      KidPages(c, s, l, n, q);
      ok, n2 := SplitParentPinned(l, n, key, q, j, s);
      if ok {
        FullParentDone(c, s, l, n, j, n2, S());
      }
    }

    method InsertEntryIntoParent(l: int, n: int, key: int) returns (rc: Rc)
      requires Pending(l, n, key)
      modifies this, pool
      ensures rc == if old(pool.Free()) < old(NeedAbove(c, S(), l)) then NoBuf else Success
      ensures rc == NoBuf ==> Contents(S()) == old(Contents(S()))
      ensures rc == NoBuf ==> exists l2, n2 :: HalfSplit(l2, n2, old(pool.pins) - multiset{l} - multiset{n})
      ensures rc == Success ==>
        && Valid() && pool.Steady() && root != -1 && Contents(S()) == old(Contents(S()))
        && pool.pins == old(pool.pins) - multiset{l} - multiset{n}
        && pool.Free() == old(pool.Free()) - old(NeedAbove(c, S(), l))
      decreases g[root].ht - g[l].ht, 1
    {
      var q := pages[l].parent;
      if q == -1 {
        BPlusInsertRefine.RootHasNoParent(c, S(), l, n);
        rc := InsertAboveRoot(l, n, key);
        return;
      }
      ghost var j := PendingPosition(c, S(), l, n);
      ParentHeight(c, S(), l, n, j);
      ParentFits(c, S(), l, n, j);
      if |pages[q].kids| < c.internalMax {
        InsertBelowRoomy(l, n, key, q);
        return Success;
      }
      rc := InsertThroughFull(l, n, key, q, j);
    }

    /** A full parent is split, and what the split leaves pending is entered one level up. */
    method InsertThroughFull(l: int, n: int, key: int, q: int, ghost j: int) returns (rc: Rc)
      requires Pending(l, n, key) && CanAdd(c, S(), l, n, j)
      requires q == pages[l].parent && KidBelongs(pages[q].kids, j, key) && KeysFromOne(c, pages[q].kids) && 0 <= key < c.limit
      requires |pages[q].kids| == c.internalMax
      modifies this, pool
      ensures rc == if old(pool.Free()) < 1 + old(NeedAbove(c, S(), q)) then NoBuf else Success
      ensures rc == NoBuf ==> Contents(S()) == old(Contents(S()))
      ensures rc == NoBuf ==> exists l2, n2 :: HalfSplit(l2, n2, old(pool.pins) - multiset{l} - multiset{n})
      ensures rc == Success ==>
        && Valid() && pool.Steady() && root != -1 && Contents(S()) == old(Contents(S()))
        && pool.pins == old(pool.pins) - multiset{l} - multiset{n}
        && pool.Free() == old(pool.Free()) - 1 - old(NeedAbove(c, S(), q))
      decreases g[root].ht - g[l].ht, 0
    {
      var ok, n2 := InsertBelowFull(l, n, key, q, j, S());
      if !ok {
        return NoBuf;
      }
      PinsPass(old(pool.pins), l, n, q, n2);
      rc := InsertEntryIntoParent(q, n2, pages[n2].kids[0].key);
    }

    /** A full leaf is split and takes the entry in the half where it belongs. */
    method SplitLeafEntries(leaf: int, e: Entry, pos: int, ghost s: St) returns (rc: Rc, n: int)
      requires PoolOk() && s == S() && leaf in s.pages && s.pages[leaf].Leaf?
      requires |s.pages[leaf].entries| >= 2 && 0 <= pos <= |s.pages[leaf].entries|
      modifies `pages, pool
      ensures rc == AllocCode(old(pool.Steady()), old(pool.Free()))
      ensures rc != Success ==> pages == s.pages && Refused(rc, old(pool.pins))
      ensures rc == Success ==> n !in s.pages && n >= 2 && pages.Keys == s.pages.Keys + {n}
      ensures rc == Success ==> pages == SplitLeafAndInsert(s, leaf, pos, e, n)
      ensures rc == Success ==>
        PoolOk() && pool.Free() == old(pool.Free()) - 1 && pool.pins == old(pool.pins) + multiset{n} && pool.Steady()
    {
      var nd := pages[leaf];
      var m := |nd.entries| / 2;
      rc, n := NewPage(Leaf(nd.parent, nd.next, nd.entries[m..]));
      if rc == Success {
        EnterLeafHalf(leaf, e, pos, n, s);
      }
    }

    /** The entry goes into the half of the split leaf that it belongs to. */
    method EnterLeafHalf(leaf: int, e: Entry, pos: int, n: int, ghost s: St)
      requires leaf in s.pages && s.pages[leaf].Leaf? && 0 <= pos <= |s.pages[leaf].entries| && n !in s.pages
      requires pages == s.pages[n := Leaf(s.pages[leaf].parent, s.pages[leaf].next, s.pages[leaf].entries[|s.pages[leaf].entries| / 2..])]
      modifies `pages
      ensures pages.Keys == old(pages).Keys && pages == SplitLeafAndInsert(s, leaf, pos, e, n)
    {
      var nd := pages[leaf];
      var m := |nd.entries| / 2;
      WritePage(leaf, Leaf(nd.parent, n, nd.entries[..m]));
      if pos < m {
        WritePage(leaf, Leaf(nd.parent, n, InsertEntryAt(nd.entries[..m], pos, e)));
      } else {
        WritePage(n, Leaf(nd.parent, nd.next, InsertEntryAt(nd.entries[m..], pos - m, e)));
      }
    }

    method SplitLeafPage(leaf: int, e: Entry, pos: int, ghost s: St) returns (rc: Rc, n: int)
      requires PoolOk() && s == S() && leaf in s.pages && s.pages[leaf].Leaf? && leaf in s.g
      requires |s.pages[leaf].entries| >= 2 && 0 <= pos <= |s.pages[leaf].entries|
      modifies `pages, `g, pool
      ensures rc == AllocCode(old(pool.Steady()), old(pool.Free()))
      ensures rc != Success ==> S() == s && Refused(rc, old(pool.pins))
      ensures rc == Success ==> LeafSplit(s, S(), leaf, pos, e, n) && n !in s.pages && n >= 2
      ensures rc == Success ==>
        PoolOk() && pool.Free() == old(pool.Free()) - 1 && pool.pins == old(pool.pins) + multiset{n} && pool.Steady()
    {
      rc, n := SplitLeafEntries(leaf, e, pos, s);
      if rc == Success {
        LeafSplitNotEmpty(s, leaf, pos, e, n);
        CutAt(leaf, n, pages[n].entries[0].key);
      }
    }

    /** What the split of a full leaf comes to: its right half is pending, with all of `all` in place, and
        `need` more pages are wanted; or the allocation was refused and nothing has changed. */
    ghost predicate SplitResult(rc: Rc, leaf: int, n: int, s: St, all: set<Entry>, need: nat, steady: bool, free: int, pins: multiset<int>)
      reads this, pool
    {
      && rc == AllocCode(steady, free)
      && (rc != Success ==> S() == s && Refused(rc, pins))
      && (rc == Success ==>
        && n in pages && pages[n].Leaf? && pages[n].entries != [] && Pending(leaf, n, pages[n].entries[0].key)
        && Contents(S()) == all && NeedAbove(c, S(), leaf) == need
        && pool.Free() == free - 1 && pool.pins == pins + multiset{n})
    }

    /** What an insertion into a full leaf comes to, from the state `s` with `free` free pages and the
        pins `pins`, one of them on the leaf. */
    ghost predicate FullLeafResult(rc: Rc, leaf: int, s: St, all: set<Entry>, need: nat, steady: bool, free: int, pins: multiset<int>)
      reads this, pool
    {
      && rc == InsertCode(1 + need, steady, free)
      && (rc == Success ==>
        && Valid() && pool.Steady() && root != -1 && Contents(S()) == all
        && pool.pins == pins - multiset{leaf} && pool.Free() == free - 1 - need)
      && (rc == IoErrRead || (rc == NoBuf && free == 0) ==> S() == s && Refused(rc, pins))
      && (rc == NoBuf && free > 0 ==> LeftHalfSplit(all, pins - multiset{leaf}))
    }

    /** A full leaf: the split leaves its right half pending, with the entry in place. */
    method SplitFullLeaf(leaf: int, e: Entry, pos: int, ghost s: St) returns (rc: Rc, n: int)
      requires PoolOk() && s == S() && Inv(c, s) && Covers(s, leaf, e.key) && pool.pins[leaf] > 0
      requires |s.pages[leaf].entries| == c.leafMax && Belongs(s.pages[leaf].entries, pos, e.key)
      requires pos < |s.pages[leaf].entries| ==> s.pages[leaf].entries[pos].key != e.key
      modifies this, pool
      ensures SplitResult(rc, leaf, n, s, Contents(s) + {e}, NeedAbove(c, s, leaf), old(pool.Steady()), old(pool.Free()), old(pool.pins))
    {
      rc, n := SplitLeafPage(leaf, e, pos, s);
      if rc == Success {
        FullLeafDone(c, s, leaf, pos, e, n, S());
      }
    }

    /** A full leaf: split, then enter the right half in the parent. */
    method InsertIntoFullLeaf(leaf: int, e: Entry, pos: int, ghost s: St) returns (rc: Rc)
      requires PoolOk() && s == S() && Inv(c, s) && Covers(s, leaf, e.key) && pool.pins[leaf] > 0
      requires |s.pages[leaf].entries| == c.leafMax && Belongs(s.pages[leaf].entries, pos, e.key)
      requires pos < |s.pages[leaf].entries| ==> s.pages[leaf].entries[pos].key != e.key
      modifies this, pool
      ensures FullLeafResult(rc, leaf, s, Contents(s) + {e}, NeedAbove(c, s, leaf), old(pool.Steady()), old(pool.Free()), old(pool.pins))
    {
      ghost var steady, free, pins := pool.Steady(), pool.Free(), pool.pins;
      var split, n := SplitFullLeaf(leaf, e, pos, s);
      rc := EnterNewLeaf(split, leaf, n, s, Contents(s) + {e}, NeedAbove(c, s, leaf), steady, free, pins);
    }

    /** What follows the split of a full leaf: its right half, if there is one, is entered in the parent. */
    method EnterNewLeaf(split: Rc, leaf: int, n: int, ghost s: St, ghost all: set<Entry>, ghost need: nat, ghost steady: bool,
        ghost free: int, ghost pins: multiset<int>)
      returns (rc: Rc)
      requires SplitResult(split, leaf, n, s, all, need, steady, free, pins)
      modifies this, pool
      ensures FullLeafResult(rc, leaf, s, all, need, steady, free, pins)
    {
      if split != Success {
        return split;
      }
      PinsPassed(pins, leaf, n);
      rc := InsertEntryIntoParent(leaf, n, pages[n].entries[0].key);
    }

    /** A leaf with room takes the entry. */
    method InsertIntoRoomyLeaf(leaf: int, e: Entry, pos: int, ghost s: St)
      requires PoolOk() && s == S() && Inv(c, s) && Covers(s, leaf, e.key) && pool.pins[leaf] > 0
      requires |s.pages[leaf].entries| < c.leafMax && Belongs(s.pages[leaf].entries, pos, e.key)
      requires pos < |s.pages[leaf].entries| ==> s.pages[leaf].entries[pos].key != e.key
      modifies this, pool`pins
      ensures Valid() && root != -1 && Contents(S()) == Contents(s) + {e}
      ensures pool.pins == old(pool.pins) - multiset{leaf} && pool.Free() == old(pool.Free())
    {
      PutEntry(leaf, e, pos, s);
      pool.UnpinPage(leaf);
    }

    method PutEntry(leaf: int, e: Entry, pos: int, ghost s: St)
      requires PoolOk() && s == S() && Inv(c, s) && Covers(s, leaf, e.key)
      requires |s.pages[leaf].entries| < c.leafMax && Belongs(s.pages[leaf].entries, pos, e.key)
      requires pos < |s.pages[leaf].entries| ==> s.pages[leaf].entries[pos].key != e.key
      modifies `pages
      ensures Valid() && Contents(S()) == Contents(s) + {e}
    {
      InsertLeafDone(c, s, leaf, pos, e);
      WriteEntries(leaf, InsertEntryAt(pages[leaf].entries, pos, e), s);
    }

    method InsertEntryIntoLeafNode(leaf: int, e: Entry, ghost s: St) returns (rc: Rc)
      requires PoolOk() && s == S() && Inv(c, s) && Covers(s, leaf, e.key) && pool.pins[leaf] > 0
      modifies this, pool
      ensures rc == if HasKey(s, e.key) then DuplicateKey else InsertCode(Need(c, s, leaf), old(pool.Steady()), old(pool.Free()))
      ensures rc == DuplicateKey ==> Valid() && S() == s && pool.pins == old(pool.pins) && pool.Free() == old(pool.Free())
      ensures rc == Success ==>
        && Valid() && root != -1 && Contents(S()) == Contents(s) + {e}
        && pool.pins == old(pool.pins) - multiset{leaf} && pool.Free() == old(pool.Free()) - Need(c, s, leaf)
      ensures rc == Success || rc == DuplicateKey ==> pool.Steady() == old(pool.Steady())
      ensures rc == IoErrRead || (rc == NoBuf && old(pool.Free()) == 0) ==> S() == s && Refused(rc, old(pool.pins))
      ensures rc == NoBuf && old(pool.Free()) > 0 ==> LeftHalfSplit(Contents(s) + {e}, old(pool.pins) - multiset{leaf})
    {
      InLeaf(c, s, leaf, e.key);
      var pos, exists_ := LeafLookup(c, pages[leaf].entries, e.key);
      if exists_ {
        return DuplicateKey;
      }
      assert pos < |s.pages[leaf].entries| ==> s.pages[leaf].entries[pos] in s.pages[leaf].entries;
      if |pages[leaf].entries| < c.leafMax {
        InsertIntoRoomyLeaf(leaf, e, pos, s);
        return Success;
      }
      assert SizeOk(c, s.pages[leaf], leaf == s.root);
      rc := InsertIntoFullLeaf(leaf, e, pos, s);
    }

    /** The first entry of an empty tree makes a tree of one leaf. */
    method CreateNewTree(e: Entry, ghost s: St) returns (rc: Rc)
      requires PoolOk() && s == S() && s == St(map[], -1, map[])
      modifies this, pool
      ensures rc == AllocCode(old(pool.Steady()), old(pool.Free()))
      ensures rc != Success ==> S() == s && Refused(rc, old(pool.pins))
      ensures rc == Success ==> PoolOk() && pool.pins == old(pool.pins) && pool.Steady()
      ensures rc == Success ==> root >= 2 && S() == Single(c, root, e) && pool.Free() == old(pool.Free()) - 1
    {
      var p;
      rc, p := NewUnpinnedPage(Leaf(-1, -1, [e]));
      if rc != Success {
        return;
      }
      root, g := p, map[p := Span(0, c.limit, 0)];
      assert pages == map[p := Leaf(-1, -1, [e])];
    }

    method NewUnpinnedPage(nd: Node) returns (rc: Rc, n: int)
      requires PoolOk()
      modifies `pages, pool
      ensures rc == AllocCode(old(pool.Steady()), old(pool.Free()))
      ensures rc != Success ==> pages == old(pages) && Refused(rc, old(pool.pins))
      ensures rc == Success ==> PoolOk() && pool.pins == old(pool.pins) && pool.Steady()
      ensures rc == Success ==> n !in old(pages) && n >= 2 && pages == old(pages)[n := nd] && pool.Free() == old(pool.Free()) - 1
    {
      rc, n := NewPage(nd);
      if rc == Success {
        pool.UnpinPage(n);
      }
    }

    /** The tree holds `all`, with a split pending that no page was free to finish. */
    ghost predicate LeftHalfSplit(all: set<Entry>, base: multiset<int>)
      reads this, pool
    {
      Contents(S()) == all && exists l, n :: HalfSplit(l, n, base)
    }

    /** The leaf on which an insertion of `key` was given up stays pinned. */
    ghost predicate LeafPinned(key: int, base: multiset<int>)
      reads this, pool
    {
      exists leaf :: Covers(S(), leaf, key) && pool.pins == base + multiset{leaf}
    }

    /** An allocation was refused before anything in the tree changed: the leaf the insertion was given up
        on, if there is one, stays pinned. */
    ghost predicate GivenUp(rc: Rc, key: int, base: multiset<int>)
      reads this, pool
    {
      if root == -1 then Refused(rc, base) else exists leaf :: Covers(S(), leaf, key) && Refused(rc, base + multiset{leaf})
    }

    /** What inserting `e` into `s` comes to, with `free` free pages and the pins `base`. A key already
        present is reported and nothing changes, but the leaf stays pinned. An insertion that needs pages
        fails if a page that was in use before comes up and cannot be read, and then only that page is
        lost. Out of pages, nothing changes exactly if no page at all was free; otherwise the entry is in,
        the last free page is used up and a split stays pending. */
    ghost predicate Inserted(rc: Rc, e: Entry, s: St, steady: bool, free: int, base: multiset<int>)
      reads this, pool
    {
      && rc == (if HasKey(s, e.key) then DuplicateKey
                else if EnoughAt(c, s, if steady then free else 0, e.key) then Success
                else if steady then NoBuf else IoErrRead)
      && (rc == Success ==> Valid() && Contents(S()) == Contents(s) + {e} && pool.pins == base)
      && (rc == Success ==> UsedAt(c, s, free - pool.Free(), e.key))
      && (rc == DuplicateKey ==> Valid() && S() == s && LeafPinned(e.key, base))
      && (rc == Success || rc == DuplicateKey ==> pool.Steady() == steady)
      && (rc == NoBuf ==> (S() == s <==> free == 0))
      && (rc == IoErrRead || (rc == NoBuf && free == 0) ==> S() == s && GivenUp(rc, e.key, base))
      && (rc == NoBuf && free > 0 ==> LeftHalfSplit(Contents(s) + {e}, base))
    }

    /** Inserts an entry. */
    method InsertEntry(e: Entry) returns (rc: Rc)
      requires Valid() && 0 <= e.key < c.limit
      modifies this, pool
      ensures Inserted(rc, e, old(S()), old(pool.Steady()), old(pool.Free()), old(pool.pins))
    {
      if root == -1 {
        rc := InsertFirst(e, S());
        return;
      }
      var _, leaf := FindLeaf(e.key);
      rc := InsertFound(leaf, e, old(pool.pins), S());
    }

    /** The insertion into an empty tree. */
    method InsertFirst(e: Entry, ghost s: St) returns (rc: Rc)
      requires PoolOk() && s == S() && Inv(c, s) && s.root == -1 && 0 <= e.key < c.limit
      modifies this, pool
      ensures Inserted(rc, e, s, old(pool.Steady()), old(pool.Free()), old(pool.pins))
    {
      rc := CreateNewTree(e, s);
      if rc == Success {
        SingleOk(c, root, e);
      }
      assert Contents(s) == {};
    }

    /** The insertion once its leaf has been found and pinned. */
    method InsertFound(leaf: int, e: Entry, ghost base: multiset<int>, ghost s: St) returns (rc: Rc)
      requires PoolOk() && s == S() && Inv(c, s) && Covers(s, leaf, e.key) && Pinned(base, multiset{leaf})
      modifies this, pool
      ensures Inserted(rc, e, s, old(pool.Steady()), old(pool.Free()), base)
    {
      OneCovers(c, s, leaf, e.key);
      PinnedLeaf(base, leaf);
      rc := InsertEntryIntoLeafNode(leaf, e, s);
      if rc == NoBuf && Contents(S()) == Contents(s) + {e} {
        NotThere(s, e);
      }
    }

    // ---- deletion ----

    /** `dispose_page` of an index page; it fails if somebody still holds the page. */
    method DropPage(r: int) returns (ok: bool)
      requires PoolOk() && r in pages && r >= 2 && r in pool.resident
      modifies `pages, pool`allocatedPages, pool`bitmap, pool`alloc, pool`resident, pool`pins
      ensures ok <==> old(pool.pins)[r] == 0
      ensures ok ==> pages == old(pages) - {r} && pages.Keys == old(pages).Keys - {r}
      ensures ok ==> PoolOk() && pool.pins == old(pool.pins) && pool.Free() == old(pool.Free()) + 1
    {
      var d := pool.DisposePage(r);
      ok := d == Disposed;
      pages := pages - {r};
    }

    /** `remove` in the parent and `move_to` from the right leaf to the left one. */
    method MergeLeafPages(q: int, i: int, l: int, r: int, ghost s: St, ghost after: St)
      requires s == S() && Pair(s, q, i, l, r) && s.pages[l].Leaf? && s.pages[r].Leaf? && after == MergeLeaf(s, q, i)
      modifies `pages, `g
      ensures St(pages - {r}, root, g) == after && pages.Keys == s.pages.Keys
    {
      MergeLeafPagesIs(s, q, i, l, r);
      var left, right := pages[l], pages[r];
      WritePage(q, pages[q].(kids := RemoveKid(pages[q].kids, i)));
      WritePage(l, left.(next := right.next, entries := left.entries + right.entries));
      WritePage(r, right.(entries := []));
      g := MergeSpans(g, l, r);
    }

    /** `remove` in the parent and `move_to` from the right internal node to the left one. */
    method MergeInternalPages(q: int, i: int, l: int, r: int, ghost s: St, ghost after: St)
      requires PoolOk() && s == S() && Pair(s, q, i, l, r) && s.pages[l].Internal? && s.pages[r].Internal?
      requires !HasKid(s.pages[r].kids, q) && !HasKid(s.pages[r].kids, l) && !HasKid(s.pages[r].kids, r)
      requires forall x :: 0 <= x < |s.pages[r].kids| ==> s.pages[r].kids[x].page in s.pages
      requires after == MergeInternal(s, q, i)
      modifies `pages, `g, pool`pins, pool`resident
      ensures St(pages - {r}, root, g) == after && pages.Keys == s.pages.Keys
      ensures PoolOk() && pool.pins == old(pool.pins)
    {
      MergeInternalPagesIs(s, q, i, l, r);
      var left, right := pages[l], pages[r];
      WritePage(q, pages[q].(kids := RemoveKid(pages[q].kids, i)));
      SetParents(right.kids, l);
      WritePage(l, left.(kids := left.kids + right.kids));
      WritePage(r, right.(kids := []));
      g := MergeSpans(g, l, r);
    }

    /** `redistribute` on leaves: one entry crosses from the neighbour at `nb`. */
    method ShiftLeafPages(q: int, i: int, l: int, r: int, fromRight: bool, ghost s: St, ghost m: int, ghost after: St)
      requires s == S() && Pair(s, q, i, l, r) && s.pages[l].Leaf? && s.pages[r].Leaf?
      requires if fromRight then |s.pages[r].entries| >= 2 else |s.pages[l].entries| >= 1 && |s.pages[l].entries| + |s.pages[r].entries| >= 1
      requires m == if fromRight then |s.pages[l].entries| + 1 else |s.pages[l].entries| - 1
      requires after == ShiftLeaf(s, q, i, m)
      modifies `pages, `g
      ensures S() == after
      ensures pages.Keys == old(pages).Keys
    {
      ShiftLeafPagesIs(s, q, i, l, r);
      var a, b := pages[l].entries, pages[r].entries;
      if fromRight {
        WritePage(l, pages[l].(entries := a + [b[0]]));
        LeaveEntry(r, b[1..], q, i, l, r);
      } else {
        WritePage(r, pages[r].(entries := [a[|a| - 1]] + b));
        LeaveEntry(l, a[..|a| - 1], q, i, l, r);
      }
    }

    /** The end of a move between leaves `l` and `r`: page `p` keeps the entries `es`, and the parent gets
        the first key of `r`. */
    method LeaveEntry(p: int, es: seq<Entry>, q: int, i: int, l: int, r: int)
      requires l in pages && r in pages && q in pages && p in {l, r} && q != l && q != r && l in g && r in g
      requires pages[p].Leaf? && pages[r].Leaf? && (if p == r then es else pages[r].entries) != []
      requires pages[q].Internal? && 0 <= i < |pages[q].kids|
      modifies `pages, `g
      ensures var was := old(pages); var key := (if p == r then es else was[r].entries)[0].key;
        && pages == was[p := was[p].(entries := es)][q := was[q].(kids := was[q].kids[i := Kid(key, r)])]
        && g == ShiftSpans(old(g), l, r, key)
      ensures pages.Keys == old(pages).Keys
    {
      WritePage(p, pages[p].(entries := es));
      var key := pages[r].entries[0].key;
      WritePage(q, pages[q].(kids := pages[q].kids[i := Kid(key, r)]));
      g := ShiftSpans(g, l, r, key);
    }

    /** The end of a move between `l` and `r`: page `p` keeps the children `ks`, and the parent gets the
        first key of `r`. */
    method LeaveKid(p: int, ks: seq<Kid>, q: int, i: int, l: int, r: int)
      requires l in pages && r in pages && q in pages && p in {l, r} && q != l && q != r && l in g && r in g
      requires pages[p].Internal? && pages[r].Internal? && (if p == r then ks else pages[r].kids) != []
      requires pages[q].Internal? && 0 <= i < |pages[q].kids|
      modifies `pages, `g
      ensures var was := old(pages); var key := (if p == r then ks else was[r].kids)[0].key;
        && pages == was[p := was[p].(kids := ks)][q := was[q].(kids := was[q].kids[i := Kid(key, r)])]
        && g == ShiftSpans(old(g), l, r, key)
      ensures pages.Keys == old(pages).Keys
    {
      WritePage(p, pages[p].(kids := ks));
      var key := pages[r].kids[0].key;
      WritePage(q, pages[q].(kids := pages[q].kids[i := Kid(key, r)]));
      g := ShiftSpans(g, l, r, key);
    }

    /** The first child of `r` crosses to `l`. */
    method MoveFirstKid(q: int, i: int, l: int, r: int, ghost s: St, ghost after: St)
      requires PoolOk() && s == S() && CanMoveFirst(s, q, i, l, r) && after == FirstKidMoved(s, q, i, l, r)
      modifies `pages, `g, pool`pins, pool`resident
      ensures S() == after
      ensures pages.Keys == s.pages.Keys && PoolOk() && pool.pins == old(pool.pins)
    {
      var a, b := pages[l].kids, pages[r].kids;
      WritePage(l, pages[l].(kids := a + [b[0]]));
      SetParent(b[0].page, l);
      LeaveKid(r, b[1..], q, i, l, r);
    }

    /** The last child of `l` crosses to `r`. */
    method MoveLastKid(q: int, i: int, l: int, r: int, ghost s: St, ghost after: St)
      requires PoolOk() && s == S() && CanMoveLast(s, q, i, l, r) && after == LastKidMoved(s, q, i, l, r)
      modifies `pages, `g, pool`pins, pool`resident
      ensures S() == after
      ensures pages.Keys == s.pages.Keys && PoolOk() && pool.pins == old(pool.pins)
    {
      var a, b := pages[l].kids, pages[r].kids;
      var k := a[|a| - 1];
      SetParent(k.page, r);
      WritePage(r, pages[r].(kids := [k] + b));
      LeaveKid(l, a[..|a| - 1], q, i, l, r);
    }

    method RedistributeLeaf(nb: int, p: int, q: int, index: int, ghost s: St)
      requires s == S() && Neighbours(c, s, p, q, index, nb) && s.pages[p].Leaf? && nb in s.pages && s.pages[nb].Leaf?
      requires |s.pages[p].entries| < c.leafMax - c.leafMax / 2 && |s.pages[p].entries| + |s.pages[nb].entries| > c.leafMax
      modifies `pages, `g
      ensures Inv(c, S()) && Contents(S()) == Contents(s) && pages.Keys == s.pages.Keys
    {
      if index == 0 {
        ShiftFromRight(nb, p, q, s);
      } else {
        ShiftFromLeft(nb, p, q, index, s);
      }
    }

    method ShiftFromRight(nb: int, p: int, q: int, ghost s: St)
      requires s == S() && Neighbours(c, s, p, q, 0, nb) && s.pages[p].Leaf? && nb in s.pages && s.pages[nb].Leaf?
      requires |s.pages[p].entries| < c.leafMax - c.leafMax / 2 && |s.pages[p].entries| + |s.pages[nb].entries| > c.leafMax
      modifies `pages, `g
      ensures Inv(c, S()) && Contents(S()) == Contents(s) && pages.Keys == s.pages.Keys
    {
      ghost var m := |s.pages[p].entries| + 1;
      ghost var after := BorrowFirstEntry(c, s, p, q, nb, m);
      ShiftLeafPages(q, 1, p, nb, true, s, m, after);
    }

    method ShiftFromLeft(nb: int, p: int, q: int, index: int, ghost s: St)
      requires s == S() && Neighbours(c, s, p, q, index, nb) && index > 0
      requires s.pages[p].Leaf? && nb in s.pages && s.pages[nb].Leaf?
      requires |s.pages[p].entries| < c.leafMax - c.leafMax / 2 && |s.pages[p].entries| + |s.pages[nb].entries| > c.leafMax
      modifies `pages, `g
      ensures Inv(c, S()) && Contents(S()) == Contents(s) && pages.Keys == s.pages.Keys
    {
      ghost var m := |s.pages[nb].entries| - 1;
      ghost var after := BorrowLastEntry(c, s, p, q, index, nb, m);
      ShiftLeafPages(q, index, nb, p, false, s, m, after);
    }

    method BorrowFromRight(nb: int, p: int, q: int, i: int, ghost s: St)
      requires PoolOk() && s == S() && Neighbours(c, s, p, q, i - 1, nb) && i == 1
      requires s.pages[p].Internal? && nb in s.pages && s.pages[nb].Internal?
      requires |s.pages[p].kids| < c.internalMax - c.internalMax / 2 && |s.pages[p].kids| + |s.pages[nb].kids| > c.internalMax
      modifies `pages, `g, pool`pins, pool`resident
      ensures Inv(c, S()) && Contents(S()) == Contents(s) && pages.Keys == s.pages.Keys
      ensures PoolOk() && pool.pins == old(pool.pins)
    {
      ghost var after := BorrowFirst(c, s, p, q, i, nb);
      MoveFirstKid(q, i, p, nb, s, after);
    }

    method BorrowFromLeft(nb: int, p: int, q: int, index: int, ghost s: St)
      requires PoolOk() && s == S() && Neighbours(c, s, p, q, index, nb) && index > 0
      requires s.pages[p].Internal? && nb in s.pages && s.pages[nb].Internal?
      requires |s.pages[p].kids| < c.internalMax - c.internalMax / 2 && |s.pages[p].kids| + |s.pages[nb].kids| > c.internalMax
      modifies `pages, `g, pool`pins, pool`resident
      ensures Inv(c, S()) && Contents(S()) == Contents(s) && pages.Keys == s.pages.Keys
      ensures PoolOk() && pool.pins == old(pool.pins)
    {
      ghost var after := BorrowLast(c, s, p, q, index, nb);
      MoveLastKid(q, index, nb, p, s, after);
    }

    method RedistributeInternal(nb: int, p: int, q: int, index: int, ghost s: St)
      requires PoolOk() && s == S() && Neighbours(c, s, p, q, index, nb)
      requires s.pages[p].Internal? && nb in s.pages && s.pages[nb].Internal?
      requires |s.pages[p].kids| < c.internalMax - c.internalMax / 2 && |s.pages[p].kids| + |s.pages[nb].kids| > c.internalMax
      modifies `pages, `g, pool`pins, pool`resident
      ensures Inv(c, S()) && Contents(S()) == Contents(s) && pages.Keys == s.pages.Keys
      ensures PoolOk() && pool.pins == old(pool.pins)
    {
      if index == 0 {
        BorrowFromRight(nb, p, q, index + 1, s);
      } else {
        BorrowFromLeft(nb, p, q, index, s);
      }
    }

    /** Merging `p` with its neighbour: the pages without the emptied right one are the merged tree,
        with the parent possibly short. */
    method CoalesceLeaf(nb: int, p: int, q: int, index: int, ghost s: St) returns (r: int)
      requires s == S() && Neighbours(c, s, p, q, index, nb) && s.pages[p].Leaf? && nb in s.pages && s.pages[nb].Leaf?
      requires |s.pages[p].entries| + |s.pages[nb].entries| <= c.leafMax
      modifies `pages, `g
      ensures r == (if index == 0 then nb else p) && r in {p, nb} && r != q && r >= 2 && pages.Keys == s.pages.Keys
      ensures MergedBelow(c, s, St(pages - {r}, root, g), q)
    {
      NeighbourPair(c, s, p, q, index, nb);
      if index == 0 {
        MergeLeafDone(c, s, p, q, 1);
        MergeLeafPages(q, 1, p, nb, s, MergeLeaf(s, q, 1));
        r := nb;
      } else {
        MergeLeafDone(c, s, p, q, index);
        MergeLeafPages(q, index, nb, p, s, MergeLeaf(s, q, index));
        r := p;
      }
    }

    /** The right internal node `r` is emptied into the left one, one of the two being short. */
    method MergeInternalInto(q: int, i: int, l: int, r: int, ghost p: int, ghost s: St)
      requires PoolOk() && s == S() && Short(c, s, p) && p != s.root && CanMerge(c, s, q, i, false) && (p == l || p == r)
      requires s.pages[q].kids[i - 1].page == l && s.pages[q].kids[i].page == r
      requires |s.pages[l].kids| + |s.pages[r].kids| <= c.internalMax
      modifies `pages, `g, pool`pins, pool`resident
      ensures pages.Keys == s.pages.Keys && MergedBelow(c, s, St(pages - {r}, root, g), q)
      ensures PoolOk() && pool.pins == old(pool.pins)
    {
      SiblingKidsApart(c, s, q, i);
      MergeInternalDone(c, s, p, q, i);
      MergeInternalPages(q, i, l, r, s, MergeInternal(s, q, i));
    }

    method CoalesceInternal(nb: int, p: int, q: int, index: int, ghost s: St) returns (r: int)
      requires PoolOk() && s == S() && Neighbours(c, s, p, q, index, nb)
      requires s.pages[p].Internal? && nb in s.pages && s.pages[nb].Internal?
      requires |s.pages[p].kids| + |s.pages[nb].kids| <= c.internalMax
      modifies `pages, `g, pool`pins, pool`resident
      ensures r == (if index == 0 then nb else p) && r in {p, nb} && r != q && r >= 2 && pages.Keys == s.pages.Keys
      ensures MergedBelow(c, s, St(pages - {r}, root, g), q)
      ensures PoolOk() && pool.pins == old(pool.pins)
    {
      NeighbourPair(c, s, p, q, index, nb);
      if index == 0 {
        MergeInternalInto(q, 1, p, nb, p, s);
        r := nb;
      } else {
        MergeInternalInto(q, index, nb, p, p, s);
        r := p;
      }
    }

    /** Pages are pinned as in `base`, and as `extra` says. */
    ghost predicate Pinned(base: multiset<int>, extra: multiset<int>)
      reads pool
    {
      pool.pins == base + extra
    }

    /** The end of `coalesce`: both siblings are unpinned and the emptied one is disposed of. */
    method DiscardRight(nb: int, p: int, q: int, r: int, ghost base: multiset<int>, ghost after: St) returns (ok: bool)
      requires PoolOk() && Pinned(base, multiset{p, q, nb}) && nb != p && p != q && nb != q
      requires r in {p, nb} && r in pages && r >= 2 && after == St(pages - {r}, root, g)
      modifies `pages, pool`allocatedPages, pool`bitmap, pool`alloc, pool`resident, pool`pins
      ensures ok <==> base[r] == 0
      ensures ok ==> S() == after && pages.Keys == old(pages).Keys - {r} && PoolOk() && Pinned(base, multiset{q}) && pool.Free() == old(pool.Free()) + 1
    {
      UnpinTwo(p, nb, q, base);
      ok := DropPage(r);
    }

    method UnpinTwo(p: int, nb: int, q: int, ghost base: multiset<int>)
      requires pool.Valid() && Pinned(base, multiset{p, q, nb}) && nb != p && p != q && nb != q
      modifies pool`pins
      ensures pool.Valid() && Pinned(base, multiset{q}) && p in pool.resident && nb in pool.resident
    {
      PinsTwo(base, p, nb, q);
      assert p in pool.pins && nb in pool.pins;
      pool.UnpinPage(p);
      pool.UnpinPage(nb);
    }

    /** Both instances of `coalesce`. */
    method CoalescePages(nb: int, p: int, q: int, index: int, ghost s: St) returns (r: int)
      requires PoolOk() && s == S() && Neighbours(c, s, p, q, index, nb)
      requires nb in s.pages && (s.pages[nb].Leaf? <==> s.pages[p].Leaf?)
      requires SizeOf(s.pages[p]) + SizeOf(s.pages[nb]) <= MaxOf(c, s.pages[p])
      modifies `pages, `g, pool`pins, pool`resident
      ensures r == (if index == 0 then nb else p) && r in {p, nb} && r != q && r >= 2 && pages.Keys == s.pages.Keys
      ensures MergedBelow(c, s, St(pages - {r}, root, g), q)
      ensures PoolOk() && pool.pins == old(pool.pins)
    {
      if pages[p].Leaf? {
        r := CoalesceLeaf(nb, p, q, index, s);
      } else {
        r := CoalesceInternal(nb, p, q, index, s);
      }
    }

    /** `coalesce` up to its recursive call: afterwards the parent may be short. It fails exactly if
        somebody else holds the page it empties. */
    method Coalesce(nb: int, p: int, q: int, index: int, ghost base: multiset<int>, ghost more: set<int>, ghost s: St)
      returns (ok: bool)
      requires PoolOk() && s == S() && Neighbours(c, s, p, q, index, nb)
      requires nb in s.pages && (s.pages[nb].Leaf? <==> s.pages[p].Leaf?)
      requires SizeOf(s.pages[p]) + SizeOf(s.pages[nb]) <= MaxOf(c, s.pages[p])
      requires Pinned(base, multiset{p, q, nb}) && nb != p && nb != q && p != q
      requires more == DropsAt(c, s, q, SizeOf(s.pages[q]) - 1)
      modifies this, pool`allocatedPages, pool`bitmap, pool`alloc, pool`resident, pool`pins
      ensures ok <==> base[if index == 0 then nb else p] == 0
      ensures ok ==> PoolOk() && Short(c, S(), q) && Contents(S()) == Contents(s)
      ensures ok ==> root == s.root && root in s.g && g[q] == s.g[q] && g[root] == s.g[root]
      ensures ok ==> more == DropsAt(c, S(), q, SizeOf(pages[q]))
      ensures ok ==> Pinned(base, multiset{q}) && pages.Keys == s.pages.Keys - {if index == 0 then nb else p}
    {
      var r := CoalescePages(nb, p, q, index, s);
      ghost var after := St(pages - {r}, root, g);
      ok := DiscardRight(nb, p, q, r, base, after);
    }

    /** Both instances of `redistribute`. */
    method RedistributePages(nb: int, p: int, q: int, index: int, ghost s: St)
      requires PoolOk() && s == S() && Neighbours(c, s, p, q, index, nb)
      requires nb in s.pages && (s.pages[nb].Leaf? <==> s.pages[p].Leaf?)
      requires SizeOf(s.pages[p]) < MaxOf(c, s.pages[p]) - MaxOf(c, s.pages[p]) / 2
      requires SizeOf(s.pages[p]) + SizeOf(s.pages[nb]) > MaxOf(c, s.pages[p])
      modifies `pages, `g, pool`pins, pool`resident
      ensures Inv(c, S()) && Contents(S()) == Contents(s) && pages.Keys == s.pages.Keys
      ensures PoolOk() && pool.pins == old(pool.pins)
    {
      if pages[p].Leaf? {
        RedistributeLeaf(nb, p, q, index, s);
      } else {
        RedistributeInternal(nb, p, q, index, s);
      }
    }

    method Redistribute(nb: int, p: int, q: int, index: int, ghost base: multiset<int>, ghost s: St)
      requires PoolOk() && s == S() && Neighbours(c, s, p, q, index, nb)
      requires nb in s.pages && (s.pages[nb].Leaf? <==> s.pages[p].Leaf?)
      requires SizeOf(s.pages[p]) < MaxOf(c, s.pages[p]) - MaxOf(c, s.pages[p]) / 2
      requires SizeOf(s.pages[p]) + SizeOf(s.pages[nb]) > MaxOf(c, s.pages[p])
      requires Pinned(base, multiset{p, q, nb}) && nb != p && nb != q && p != q
      modifies `pages, `g, pool`pins, pool`resident
      ensures Valid() && Contents(S()) == Contents(s) && pool.pins == base && pages.Keys == s.pages.Keys
    {
      RedistributePages(nb, p, q, index, s);
      UnpinSiblings(nb, p, q, base);
    }

    method UnpinSiblings(nb: int, p: int, q: int, ghost base: multiset<int>)
      requires pool.Valid() && Pinned(base, multiset{p, q, nb}) && nb != p && nb != q && p != q
      modifies pool`pins
      ensures pool.Valid() && pool.pins == base
    {
      PinsThree(base, p, nb, q);
      UnpinThree(nb, p, q);
      PinsBack(base, nb, p, q);
    }

    /** The last steps of `adjust_root`: the old root is unpinned and disposed of. */
    method ReleasePage(p: int, ghost base: multiset<int>) returns (ok: bool)
      requires PoolOk() && Pinned(base, multiset{p}) && p in pages && p >= 2
      modifies `pages, pool`allocatedPages, pool`bitmap, pool`alloc, pool`resident, pool`pins
      ensures ok <==> base[p] == 0
      ensures ok ==> pages == old(pages) - {p} && PoolOk() && pool.pins == base && pool.Free() == old(pool.Free()) + 1
    {
      UnpinLast(p, base);
      ok := DropPage(p);
    }

    method UnpinLast(p: int, ghost base: multiset<int>)
      requires pool.Valid() && Pinned(base, multiset{p})
      modifies pool`pins
      ensures pool.Valid() && pool.pins == base && p in pool.resident
    {
      assert p in pool.pins;
      pool.UnpinPage(p);
      assert pool.pins == base;
    }

    /** `adjust_root` for a root leaf that has lost its last entry: the tree is empty. */
    method DropEmptyRoot(p: int, ghost base: multiset<int>) returns (ok: bool)
      requires PoolOk() && Pinned(base, multiset{p}) && pages.Keys == {p} && p >= 2
      modifies this, pool`allocatedPages, pool`bitmap, pool`alloc, pool`resident, pool`pins
      ensures ok <==> base[p] == 0
      ensures ok ==> PoolOk() && S() == St(map[], -1, map[]) && pool.pins == base
    {
      root, g := -1, map[];
      ok := ReleasePage(p, base);
      if ok {
        assert pages == map[];
      }
    }

    /** `adjust_root` for an internal root with one child: the child becomes the root. */
    method ReplaceRoot(p: int, ghost base: multiset<int>) returns (ok: bool)
      requires PoolOk() && Pinned(base, multiset{p}) && p == root && p in pages && pages[p].Internal? && |pages[p].kids| >= 1
      requires pages[p].kids[0].page in pages && pages[p].kids[0].page != p && p >= 2
      modifies this, pool`allocatedPages, pool`bitmap, pool`alloc, pool`resident, pool`pins
      ensures ok <==> base[p] == 0
      ensures ok ==> PoolOk() && S() == CollapseRoot(old(S())) && pool.pins == base && pages.Keys == old(pages.Keys) - {p}
    {
      CollapsePagesIs(S());
      var child := pages[p].kids[0].page;
      SetParent(child, -1);
      root := child;
      ok := ReleasePage(p, base);
      g := map x | x in g && x != p :: g[x];
    }

    /** `adjust_root`: a root leaf without entries ends the tree, a root with one child gives way to it. */
    method AdjustRoot(p: int, ghost base: multiset<int>, ghost drops: set<int>) returns (ok: bool)
      requires PoolOk() && Short(c, S(), p) && p == root && SizeOf(pages[p]) <= 1 && Pinned(base, multiset{p})
      requires drops == DropsAt(c, S(), p, SizeOf(pages[p]))
      modifies this, pool`allocatedPages, pool`bitmap, pool`alloc, pool`resident, pool`pins
      ensures ok <==> Unheld(base, drops)
      ensures ok ==> Repaired(old(S()), drops, base)
    {
      RootDrops(c, S(), p);
      if pages[p].Leaf? && |pages[p].entries| > 0 {
        EnoughAlready(c, S(), p);
        UnpinLast(p, base);
        ok := true;
      } else if pages[p].Leaf? {
        EmptyRoot(c, S(), p);
        ok := DropEmptyRoot(p, base);
      } else {
        CollapseDone(c, S());
        ok := ReplaceRoot(p, base);
      }
    }

    /** The lookup of a short node in its parent, and the neighbour the code picks. The assertion
        the code makes about the lookup holds. */
    method FindNeighbour(p: int, ghost s: St) returns (q: int, index: int, nb: int)
      requires s == S() && Short(c, s, p) && p != s.root
      ensures q == s.pages[p].parent && Neighbours(c, s, p, q, index, nb)
      ensures nb in s.pages && (s.pages[nb].Leaf? <==> s.pages[p].Leaf?) && nb != p && nb != q && p != q && q in s.g
      ensures s.g[q].ht == s.g[p].ht + 1 && s.g[q].ht <= s.g[s.root].ht
    {
      q := pages[p].parent;
      ParentOfShort(c, s, p);
      LastKeyInside(c, s, p);
      var key := LastKey(pages[p]);
      var slot, _ := InternalLookup(c, pages[q].kids, key);
      index := slot;
      LookupSelf(c, s, p, index);
      assert s.pages[q].kids[index].page == p;
      nb := pages[q].kids[if index == 0 then 1 else index - 1].page;
      NeighbourPair(c, s, p, q, index, nb);
    }

    /** The tree holds what `s` held, without the pages `drops`, and pages are pinned as in `base`. */
    ghost predicate Repaired(s: St, drops: set<int>, base: multiset<int>)
      reads this, pool
    {
      Valid() && Contents(S()) == Contents(s) && pool.pins == base && pages.Keys == s.pages.Keys - drops
    }

    /** Nothing more to repair: the node is unpinned. */
    method Settle(p: int, ghost base: multiset<int>)
      requires PoolOk() && Inv(c, S()) && Pinned(base, multiset{p})
      modifies pool`pins
      ensures Valid() && pool.pins == base
    {
      UnpinLast(p, base);
    }

    /** The short node is the root. */
    method SettleRoot(p: int, ghost base: multiset<int>, ghost drops: set<int>) returns (ok: bool)
      requires PoolOk() && Short(c, S(), p) && p == root && Pinned(base, multiset{p})
      requires SizeOf(pages[p]) < MaxOf(c, pages[p]) - MaxOf(c, pages[p]) / 2
      requires drops == DropsAt(c, S(), p, SizeOf(pages[p]))
      modifies this, pool`allocatedPages, pool`bitmap, pool`alloc, pool`resident, pool`pins
      ensures ok <==> Unheld(base, drops)
      ensures ok ==> Repaired(old(S()), drops, base)
    {
      if SizeOf(pages[p]) > 1 {
        RootDrops(c, S(), p);
        FullEnough(c, S(), p);
        Settle(p, base);
        ok := true;
      } else {
        ok := AdjustRoot(p, base, drops);
      }
    }

    /** `coalesce_or_redistribute`, up to the root if need be: it fails exactly if somebody else holds
        a page it disposes of, and those pages are exactly the ones that go. */
    method CoalesceOrRedistribute(p: int, ghost base: multiset<int>, ghost drops: set<int>) returns (ok: bool)
      requires PoolOk() && Short(c, S(), p) && Pinned(base, multiset{p})
      requires drops == DropsAt(c, S(), p, SizeOf(pages[p]))
      modifies this, pool`allocatedPages, pool`bitmap, pool`alloc, pool`resident, pool`pins
      ensures ok <==> Unheld(base, drops)
      ensures ok ==> Repaired(old(S()), drops, base)
      decreases g[root].ht - g[p].ht, 3
    {
      var max := MaxOf(c, pages[p]);
      if SizeOf(pages[p]) >= max - max / 2 {
        FullEnough(c, S(), p);
        Settle(p, base);
        return true;
      }
      if pages[p].parent == -1 {
        BPlusDeleteRefine.RootHasNoParent(c, S(), p);
        ok := SettleRoot(p, base, drops);
        return;
      }
      RootIsParentless(c, S(), p);
      ok := UseSibling(p, base, drops, S());
    }

    /** A short node below the root borrows from its neighbour or is merged with it. */
    method UseSibling(p: int, ghost base: multiset<int>, ghost drops: set<int>, ghost s: St) returns (ok: bool)
      requires PoolOk() && s == S() && Short(c, s, p) && p != s.root && Pinned(base, multiset{p})
      requires SizeOf(s.pages[p]) < MaxOf(c, s.pages[p]) - MaxOf(c, s.pages[p]) / 2
      requires drops == DropsAt(c, s, p, SizeOf(s.pages[p]))
      modifies this, pool`allocatedPages, pool`bitmap, pool`alloc, pool`resident, pool`pins
      ensures ok <==> Unheld(base, drops)
      ensures ok ==> Repaired(s, drops, base)
      decreases s.g[s.root].ht - s.g[p].ht, 2
    {
      var q, index, nb := FindNeighbour(p, s);
      DropsStep(c, s, p, q, index, nb);
      GetTwo(q, nb, p, base);
      ok := MergeOrBorrow(nb, p, q, index, base, drops, s);
    }

    /** The branch on whether the two siblings fit in one page. */
    method MergeOrBorrow(nb: int, p: int, q: int, index: int, ghost base: multiset<int>, ghost drops: set<int>, ghost s: St)
      returns (ok: bool)
      requires PoolOk() && s == S() && Neighbours(c, s, p, q, index, nb)
      requires nb in s.pages && (s.pages[nb].Leaf? <==> s.pages[p].Leaf?)
      requires SizeOf(s.pages[p]) < MaxOf(c, s.pages[p]) - MaxOf(c, s.pages[p]) / 2
      requires Pinned(base, multiset{p, q, nb}) && nb != p && nb != q && p != q && q in s.g
      requires s.g[q].ht == s.g[p].ht + 1 && s.g[q].ht <= s.g[s.root].ht
      requires drops == if SizeOf(s.pages[p]) + SizeOf(s.pages[nb]) > MaxOf(c, s.pages[p]) then {}
                        else {if index == 0 then nb else p} + DropsAt(c, s, q, |s.pages[q].kids| - 1)
      modifies this, pool`allocatedPages, pool`bitmap, pool`alloc, pool`resident, pool`pins
      ensures ok <==> Unheld(base, drops)
      ensures ok ==> Repaired(s, drops, base)
      decreases s.g[s.root].ht - s.g[p].ht, 1
    {
      if SizeOf(pages[p]) + SizeOf(pages[nb]) > MaxOf(c, pages[p]) {
        Redistribute(nb, p, q, index, base, s);
        ok := true;
      } else {
        ok := CoalesceUp(nb, p, q, index, base, DropsAt(c, s, q, SizeOf(s.pages[q]) - 1), s);
      }
    }

    /** `coalesce` with its recursive call. */
    method CoalesceUp(nb: int, p: int, q: int, index: int, ghost base: multiset<int>, ghost more: set<int>, ghost s: St)
      returns (ok: bool)
      requires PoolOk() && s == S() && Neighbours(c, s, p, q, index, nb)
      requires nb in s.pages && (s.pages[nb].Leaf? <==> s.pages[p].Leaf?)
      requires SizeOf(s.pages[p]) + SizeOf(s.pages[nb]) <= MaxOf(c, s.pages[p])
      requires Pinned(base, multiset{p, q, nb}) && nb != p && nb != q && p != q
      requires s.g[q].ht == s.g[p].ht + 1 && s.g[q].ht <= s.g[s.root].ht
      requires more == DropsAt(c, s, q, SizeOf(s.pages[q]) - 1)
      modifies this, pool`allocatedPages, pool`bitmap, pool`alloc, pool`resident, pool`pins
      ensures ok <==> Unheld(base, {if index == 0 then nb else p} + more)
      ensures ok ==> Repaired(s, {if index == 0 then nb else p} + more, base)
      decreases s.g[s.root].ht - s.g[p].ht, 0
    {
      ghost var r := if index == 0 then nb else p;
      UnheldPlus(base, r, more);
      ok := Coalesce(nb, p, q, index, base, more, s);
      if ok {
        MinusBoth(s.pages.Keys, r, more);
        ok := CoalesceOrRedistribute(q, base, more);
      }
    }

    method GetTwo(q: int, nb: int, p: int, ghost base: multiset<int>)
      requires PoolOk() && Pinned(base, multiset{p}) && q in pages && nb in pages
      modifies pool`pins, pool`resident
      ensures PoolOk() && Pinned(base, multiset{p, q, nb})
    {
      pool.GetThisPage(q);
      pool.GetThisPage(nb);
      assert pool.pins == base + multiset{p, q, nb};
    }

    /** `LeafIndexNodeHandler::remove` of the entry at `pos`. */
    method RemoveFromLeaf(leaf: int, pos: int, ghost base: multiset<int>, ghost drops: set<int>, ghost s: St)
      requires PoolOk() && s == S() && Inv(c, s) && Pinned(base, multiset{leaf})
      requires leaf in s.pages && s.pages[leaf].Leaf? && 0 <= pos < |s.pages[leaf].entries|
      requires drops == DropsAt(c, s, leaf, |s.pages[leaf].entries| - 1)
      modifies `pages
      ensures PoolOk() && Short(c, S(), leaf) && Contents(S()) == Contents(s) - {s.pages[leaf].entries[pos]}
      ensures Pinned(base, multiset{leaf}) && pages.Keys == s.pages.Keys
      ensures drops == DropsAt(c, S(), leaf, SizeOf(pages[leaf]))
    {
      RemoveLeafDone(c, s, leaf, pos);
      WriteEntries(leaf, RemoveEntryAt(pages[leaf].entries, pos), s);
    }

    method WriteEntries(leaf: int, es: seq<Entry>, ghost s: St)
      requires s == S() && leaf in s.pages && s.pages[leaf].Leaf?
      modifies `pages
      ensures S() == SetEntries(s, leaf, es) && pages.Keys == s.pages.Keys
    {
      WritePage(leaf, pages[leaf].(entries := es));
    }

    /** What deleting `key` from `s` comes to, with the pins `base`. */
    ghost predicate Deleted(rc: Rc, key: int, s: St, base: multiset<int>)
      reads this, pool
    {
      && rc == (if !HasKey(s, key) then NotExist else if Unheld(base, Drops(c, s, key)) then Success else AssertionFailed)
      && (rc != AssertionFailed ==> Valid() && pool.pins == base && pages.Keys == s.pages.Keys - Drops(c, s, key))
      && (rc == NotExist ==> S() == s)
      && (rc == Success ==> forall e :: e in Contents(s) && e.key == key ==> Contents(S()) == Contents(s) - {e})
    }

    /** The part of `delete_entry_internal` after the removal. */
    method Repair(leaf: int, ghost base: multiset<int>, ghost drops: set<int>) returns (ok: bool)
      requires PoolOk() && Short(c, S(), leaf) && pages[leaf].Leaf? && Pinned(base, multiset{leaf})
      requires drops == DropsAt(c, S(), leaf, SizeOf(pages[leaf]))
      modifies this, pool`allocatedPages, pool`bitmap, pool`alloc, pool`resident, pool`pins
      ensures ok <==> Unheld(base, drops)
      ensures ok ==> Repaired(old(S()), drops, base)
    {
      if |pages[leaf].entries| >= c.leafMax - c.leafMax / 2 {
        FullEnough(c, S(), leaf);
        Settle(leaf, base);
        return true;
      }
      ok := CoalesceOrRedistribute(leaf, base, drops);
    }

    method DeleteEntryInternal(leaf: int, key: int, ghost base: multiset<int>, ghost s: St) returns (rc: Rc)
      requires PoolOk() && s == S() && Inv(c, s) && Covers(s, leaf, key) && Pinned(base, multiset{leaf})
      modifies this, pool`allocatedPages, pool`bitmap, pool`alloc, pool`resident, pool`pins
      ensures Deleted(rc, key, s, base)
    {
      InLeaf(c, s, leaf, key);
      var pos, found := LeafLookup(c, pages[leaf].entries, key);
      if !found {
        NothingDropped(c, s, key);
        Settle(leaf, base);
        return NotExist;
      }
      EntryAt(c, s, leaf, pos);
      DropsOf(c, s, leaf, key);
      rc := DeleteFound(leaf, pos, base, Drops(c, s, key), s);
    }

    /** `delete_entry_internal` for a key found at `pos`. */
    method DeleteFound(leaf: int, pos: int, ghost base: multiset<int>, ghost drops: set<int>, ghost s: St) returns (rc: Rc)
      requires PoolOk() && s == S() && Inv(c, s) && Pinned(base, multiset{leaf})
      requires leaf in s.pages && s.pages[leaf].Leaf? && 0 <= pos < |s.pages[leaf].entries|
      requires drops == DropsAt(c, s, leaf, |s.pages[leaf].entries| - 1)
      modifies this, pool`allocatedPages, pool`bitmap, pool`alloc, pool`resident, pool`pins
      ensures rc == if Unheld(base, drops) then Success else AssertionFailed
      ensures rc == Success ==>
        && Valid() && pool.pins == base && pages.Keys == s.pages.Keys - drops
        && Contents(S()) == Contents(s) - {s.pages[leaf].entries[pos]}
    {
      RemoveFromLeaf(leaf, pos, base, drops, s);
      var ok := Repair(leaf, base, drops);
      rc := if ok then Success else AssertionFailed;
    }

    /** Deletes the entry with the given key, whatever is pinned. Exactly the pages of `Drops` are
        given back; if one of them is pinned, an assertion stops the process. */
    method DeleteEntry(key: int) returns (rc: Rc)
      requires Valid() && 0 <= key < c.limit
      modifies this, pool`allocatedPages, pool`bitmap, pool`alloc, pool`resident, pool`pins
      ensures Deleted(rc, key, old(S()), old(pool.pins))
      ensures rc != AssertionFailed ==> pool.Free() == old(pool.Free()) + |old(Drops(c, S(), key))|
      ensures rc != AssertionFailed ==> (pool.Steady() <==> pool.stored || (old(pool.Steady()) && old(Drops(c, S(), key)) == {}))
    {
      ghost var keys, drops, alloc := pages.Keys, Drops(c, S(), key), pool.alloc;
      DropsInTree(c, S(), key);
      rc := DeleteKey(key, S());
      if rc != AssertionFailed {
        PagesLeft(keys, drops, alloc, pool.alloc);
      }
    }

    method DeleteKey(key: int, ghost s: St) returns (rc: Rc)
      requires Valid() && s == S() && 0 <= key < c.limit
      modifies this, pool`allocatedPages, pool`bitmap, pool`alloc, pool`resident, pool`pins
      ensures Deleted(rc, key, s, old(pool.pins))
    {
      if root == -1 {
        return NotExist;
      }
      var _, leaf := FindLeaf(key);
      rc := DeleteEntryInternal(leaf, key, old(pool.pins), s);
    }
  }
}
