/** The range scanner over the leaf chain. */
module BPlusScanner {
  import opened Wrappers
  import opened BPlusState
  import opened BPlusContents
  import opened BPlusInsertRefine
  import opened BPlusSearch
  import opened BPlusChain
  import opened BPlusTree

  /** The entries from slot `i` of leaf `p` on. */
  ghost function Tail(c: Cfg, s: St, p: int, i: int): seq<Entry>
    requires Struct(c, s, -1, -1) && p in s.pages && s.pages[p].Leaf? && 0 <= i <= |s.pages[p].entries|
  {
    ChainItems(c, s, p)[i..]
  }

  /** The leading entries that do not lie beyond the right end. */
  ghost function Upto(es: seq<Entry>, right: Option<int>): seq<Entry> {
    if right.None? then es
    else if es == [] || es[0].key > right.value then []
    else [es[0]] + Upto(es[1..], right)
  }

  /** On a sorted sequence these are all entries up to the right end, still sorted. */
  lemma {:induction false} UptoAll(es: seq<Entry>, right: Option<int>)
    requires Sorted(es)
    ensures Sorted(Upto(es, right))
    ensures forall e :: e in Upto(es, right) <==> e in es && (right.Some? ==> e.key <= right.value)
  {
    if right.Some? && es != [] && es[0].key <= right.value {
      UptoAll(es[1..], right);
      assert es == [es[0]] + es[1..];
    } else if right.Some? && es != [] {
      assert forall e :: e in es ==> e.key >= es[0].key;
    }
  }

  /** Past the last entry of a leaf, what remains is the next leaf. */
  lemma TailNext(c: Cfg, s: St, p: int)
    requires Struct(c, s, -1, -1) && p in s.pages && s.pages[p].Leaf?
    ensures var q := s.pages[p].next; var n := |s.pages[p].entries|;
      if q == -1 then Tail(c, s, p, n) == [] else q in s.pages && s.pages[q].Leaf? && Tail(c, s, p, n) == Tail(c, s, q, 0)
  {
    assert ChainAt(c, s, p);
  }

  lemma TailStep(c: Cfg, s: St, p: int, i: int)
    requires Struct(c, s, -1, -1) && p in s.pages && s.pages[p].Leaf? && 0 <= i < |s.pages[p].entries|
    ensures Tail(c, s, p, i) == [s.pages[p].entries[i]] + Tail(c, s, p, i + 1)
  {
  }

  /** From the slot where `key` belongs, the chain holds exactly the entries not below `key`. */
  lemma TailFrom(c: Cfg, s: St, p: int, i: int, key: int)
    requires Struct(c, s, -1, -1) && Covers(s, p, key) && Belongs(s.pages[p].entries, i, key)
    ensures Sorted(Tail(c, s, p, i))
    ensures forall e :: e in Tail(c, s, p, i) <==> e in Contents(s) && key <= e.key
  {
    var all := ChainItems(c, s, p);
    ChainSorted(c, s, p);
    SplitsAt(c, s, p, i, key);
    forall e
      ensures e in all[i..] <==> e in Contents(s) && key <= e.key
    {
      ChainAll(c, s, p, e);
      InTail(all, i, key, e);
    }
  }

  /** The chain from `p` is below `key` before slot `i` and not below it from there on. */
  lemma SplitsAt(c: Cfg, s: St, p: int, i: int, key: int)
    requires Struct(c, s, -1, -1) && Covers(s, p, key) && Belongs(s.pages[p].entries, i, key)
    ensures var all := ChainItems(c, s, p);
      && i <= |all| && (forall x :: 0 <= x < i ==> all[x].key < key) && (i < |all| ==> key <= all[i].key)
  {
    var all := ChainItems(c, s, p);
    assert LeafAt(s.pages[p].entries, s.g[p].lo, s.g[p].hi) && ChainAt(c, s, p);
    assert forall x :: 0 <= x < |s.pages[p].entries| ==> all[x] == s.pages[p].entries[x];
    if |s.pages[p].entries| == i < |all| {
      LaterAbove(c, s, p, i);
    }
  }

  lemma InTail(all: seq<Entry>, i: int, key: int, e: Entry)
    requires Sorted(all) && 0 <= i <= |all| && (forall x :: 0 <= x < i ==> all[x].key < key) && (i < |all| ==> key <= all[i].key)
    ensures e in all[i..] <==> e in all && key <= e.key
  {
    if e in all && key <= e.key {
      var x :| 0 <= x < |all| && all[x] == e;
      assert all[i..][x - i] == e;
    }
  }

  lemma LaterAbove(c: Cfg, s: St, p: int, i: int)
    requires Struct(c, s, -1, -1) && p in s.pages && s.pages[p].Leaf?
    requires i == |s.pages[p].entries| && i < |ChainItems(c, s, p)|
    ensures s.g[p].hi <= ChainItems(c, s, p)[i].key
  {
    assert ChainAt(c, s, p);
    var q := s.pages[p].next;
    ChainSorted(c, s, q);
    assert ChainItems(c, s, p)[i] == ChainItems(c, s, q)[0];
  }

  lemma FirstChild(c: Cfg, s: St, q: int)
    requires Struct(c, s, -1, -1) && q in s.pages && s.pages[q].Internal?
    ensures |s.pages[q].kids| >= 1
    ensures var k := s.pages[q].kids[0].page; k in s.pages && s.g[k].lo == s.g[q].lo && s.g[k].ht + 1 == s.g[q].ht
  {
    assert KidsAt(c, s, -1, -1, q) && KidAt(c, s, -1, -1, q, 0);
  }

  lemma KeysFromZero(c: Cfg, s: St)
    requires Struct(c, s, -1, -1)
    ensures forall e :: e in Contents(s) ==> 0 <= e.key
  {
    forall e | e in Contents(s)
      ensures 0 <= e.key
    {
      KeyBelowLimit(c, s, e);
    }
  }

  /** From key 0 on is everything. */
  lemma FromZero(c: Cfg, s: St, right: Option<int>, es: seq<Entry>)
    requires Struct(c, s, -1, -1) && Between(Contents(s), Some(0), right, es)
    ensures Between(Contents(s), None, right, es)
  {
    KeysFromZero(c, s);
  }

  /** From the first slot of the leftmost leaf everything is ahead. */
  lemma TailAll(c: Cfg, s: St, p: int)
    requires Inv(c, s) && p in s.pages && s.pages[p].Leaf? && s.g[p].lo == 0
    ensures Sorted(Tail(c, s, p, 0))
    ensures forall e :: e in Tail(c, s, p, 0) <==> e in Contents(s) && 0 <= e.key
  {
    WholeChain(c, s, p);
    KeysFromZero(c, s);
    assert ChainItems(c, s, p)[0..] == ChainItems(c, s, p);
  }

  /** Exactly the entries from `left` on are ahead of slot `i` of leaf `p`, in order. */
  ghost predicate Ahead(c: Cfg, s: St, p: int, i: int, left: int)
    requires Struct(c, s, -1, -1) && p in s.pages && s.pages[p].Leaf? && 0 <= i <= |s.pages[p].entries|
  {
    Sorted(Tail(c, s, p, i)) && forall e :: e in Tail(c, s, p, i) <==> e in Contents(s) && left <= e.key
  }

  /** `es` lists the entries between the bounds, in key order. */
  ghost predicate Between(all: set<Entry>, left: Option<int>, right: Option<int>, es: seq<Entry>) {
    && Sorted(es)
    && forall e :: e in es <==> e in all && (left.Some? ==> left.value <= e.key) && (right.Some? ==> e.key <= right.value)
  }

  /** All entries of leaf `p` lie below `left`, and the scan goes on in the next leaf. */
  ghost predicate Passed(s: St, p: int, left: int) {
    p in s.pages && s.pages[p].Leaf? && s.pages[p].next != -1 && forall e :: e in s.pages[p].entries ==> e.key < left
  }

  /** The three places a left key can lead to. */
  lemma SeekFrom(c: Cfg, s: St, p: int, i: int, left: int)
    requires Inv(c, s) && Covers(s, p, left) && Belongs(s.pages[p].entries, i, left)
    ensures i < |s.pages[p].entries| ==> Ahead(c, s, p, i, left)
    ensures Passed(s, p, left) <==> i == |s.pages[p].entries| && s.pages[p].next != -1
    ensures i == |s.pages[p].entries| && s.pages[p].next == -1 ==> forall e :: e in Contents(s) ==> e.key < left
    ensures i == |s.pages[p].entries| && s.pages[p].next != -1 ==>
      var q := s.pages[p].next; q in s.pages && s.pages[q].Leaf? && |s.pages[q].entries| > 0 && Ahead(c, s, q, 0, left)
  {
    TailFrom(c, s, p, i, left);
    assert i < |s.pages[p].entries| ==> s.pages[p].entries[i] in s.pages[p].entries;
    if i == |s.pages[p].entries| {
      TailNext(c, s, p);
      var q := s.pages[p].next;
      if q != -1 {
        assert SizeOk(c, s.pages[q], q == s.root);
      } else {
        assert forall e :: e !in Tail(c, s, p, i);
      }
    }
  }

  /** What a scan delivers from slot `i` of leaf `p` on, or from nowhere. */
  ghost function RestAt(c: Cfg, s: St, p: int, i: int, right: Option<int>): seq<Entry>
    requires p != -1 ==> Struct(c, s, -1, -1) && p in s.pages && s.pages[p].Leaf? && 0 <= i <= |s.pages[p].entries|
  {
    if p == -1 then [] else Upto(Tail(c, s, p, i), right)
  }

  /** Cutting what is ahead at the right end. */
  lemma CutRight(c: Cfg, s: St, p: int, i: int, left: int, right: Option<int>)
    requires Struct(c, s, -1, -1) && p in s.pages && s.pages[p].Leaf? && 0 <= i < |s.pages[p].entries| && Ahead(c, s, p, i, left)
    ensures var at := if right.Some? && s.pages[p].entries[i].key > right.value then -1 else p;
      Between(Contents(s), Some(left), right, RestAt(c, s, at, i, right))
  {
    UptoAll(Tail(c, s, p, i), right);
    TailStep(c, s, p, i);
  }

  lemma EmitStep(e: Entry, rest: seq<Entry>, right: Option<int>)
    requires right.Some? ==> e.key <= right.value
    ensures Upto([e] + rest, right) == [e] + Upto(rest, right)
  {
    assert ([e] + rest)[1..] == rest;
  }

  lemma LeafKeysIn(c: Cfg, s: St, p: int)
    requires Struct(c, s, -1, -1) && p in s.pages && s.pages[p].Leaf?
    ensures KeysIn(c, s.pages[p].entries)
  {
    assert LeafAt(s.pages[p].entries, s.g[p].lo, s.g[p].hi);
  }

  class BplusTreeScanner {
    const tree: BplusTreeHandler
    var inited: bool
    var current: int          // page of the current frame, -1 when there is none
    var iter: int             // slot of the next entry
    var right: Option<int>    // right end of the scan
    var firstEmitted: bool

    ghost predicate Valid()
      reads this, tree, tree.pool
    {
      && tree.Valid() && RightOk(right)
      && (current != -1 ==>
          && tree.root != -1 && current in tree.pages && tree.pages[current].Leaf? && tree.pool.pins[current] > 0
          && 0 <= iter <= |tree.pages[current].entries|
          && (!firstEmitted ==> iter < |tree.pages[current].entries| && !Beyond(tree.pages[current].entries[iter].key)))
    }

    ghost predicate RightOk(r: Option<int>) {
      r.Some? ==> 0 <= r.value < tree.c.limit
    }

    ghost predicate Beyond(key: int)
      reads `right
    {
      right.Some? && key > right.value
    }

    /** The pin of the current frame. */
    ghost function Held(): multiset<int>
      reads `current
    {
      if current == -1 then multiset{} else multiset{current}
    }

    /** The current frame is pinned beyond `base`. */
    ghost predicate Over(base: multiset<int>)
      reads `current, tree.pool
    {
      tree.pool.pins == base + Held()
    }

    /** `touch_end`. */
    method TouchEnd() returns (b: bool)
      requires tree.Valid() && tree.root != -1 && RightOk(right)
      requires current in tree.pages && tree.pages[current].Leaf? && 0 <= iter < |tree.pages[current].entries|
      ensures b == Beyond(tree.pages[current].entries[iter].key)
    {
      if right.None? {
        return false;
      }
      LeafKeysIn(tree.c, tree.S(), current);
      b := tree.c.cmp(tree.pages[current].entries[iter].key, right.value) > 0;
    }

    /** What the scan still has to deliver. */
    ghost function Remaining(): seq<Entry>
      reads this, tree, tree.pool
      requires Valid()
    {
      RestAt(tree.c, tree.S(), current, iter, right)
    }

    constructor (t: BplusTreeHandler)
      requires t.Valid()
      ensures Valid() && tree == t && !inited && current == -1 && Remaining() == []
    {
      tree := t;
      inited, current, iter, right, firstEmitted := false, -1, 0, None, false;
    }

    /** `fetch_item` and the step to the next slot. */
    method Emit() returns (rid: Rid)
      requires Valid() && current != -1 && iter < |tree.pages[current].entries| && !Beyond(tree.pages[current].entries[iter].key)
      modifies this
      ensures Valid() && firstEmitted && current == old(current) && right == old(right) && inited == old(inited)
      ensures old(Remaining()) != [] && rid == old(Remaining())[0].rid && Remaining() == old(Remaining())[1..]
    {
      ghost var s := tree.S();
      TailStep(tree.c, s, current, iter);
      EmitStep(tree.pages[current].entries[iter], Tail(tree.c, s, current, iter + 1), right);
      rid := tree.pages[current].entries[iter].rid;
      firstEmitted := true;
      iter := iter + 1;
    }

    /** Moving from the end of a leaf to the start of the next one changes nothing for the scan. */
    method NextLeaf(q: int, ghost base: multiset<int>)
      requires Over(base) && Valid() && current != -1 && firstEmitted && iter == |tree.pages[current].entries|
      requires q == tree.pages[current].next && q != -1
      modifies this, tree.pool`pins, tree.pool`resident
      ensures Valid() && current == q && iter == 0 && firstEmitted && right == old(right) && inited == old(inited)
      ensures iter < |tree.pages[current].entries|
      ensures Remaining() == old(Remaining()) && Over(base)
    {
      ghost var s := tree.S();
      TailNext(tree.c, s, current);
      assert SizeOk(tree.c, s.pages[q], q == s.root);
      SwapPins(current, q, base);
      current, iter := q, 0;
    }

    method SwapPins(p: int, q: int, ghost base: multiset<int>)
      requires tree.PoolOk() && q in tree.pages && tree.pool.pins == base + multiset{p}
      modifies tree.pool`pins, tree.pool`resident
      ensures tree.PoolOk() && tree.pool.pins == base + multiset{q}
    {
      tree.pool.UnpinPage(p);
      tree.pool.GetThisPage(q);
    }

    /** `next_entry` without deletion: delivers what remains, one entry at a time. */
    method NextEntry(ghost base: multiset<int>) returns (found: bool, rid: Rid)
      requires Valid() && Over(base)
      modifies this, tree.pool`pins, tree.pool`resident
      ensures Valid() && inited == old(inited) && Over(base)
      ensures found <==> old(Remaining()) != []
      ensures found ==> rid == old(Remaining())[0].rid && Remaining() == old(Remaining())[1..]
      ensures !found ==> Remaining() == []
      decreases if current != -1 && iter == |tree.pages[current].entries| then 1 else 0
    {
      rid := Rid(-1, -1);
      if current == -1 {
        return false, rid;
      }
      if !firstEmitted {
        rid := Emit();
        return true, rid;
      }
      if iter < |tree.pages[current].entries| {
        var end := TouchEnd();
        if end {
          TailStep(tree.c, tree.S(), current, iter);
          return false, rid;
        }
        rid := Emit();
        return true, rid;
      }
      var q := tree.pages[current].next;
      if q == -1 {
        TailNext(tree.c, tree.S(), current);
        return false, rid;
      }
      NextLeaf(q, base);
      found, rid := NextEntry(base);
    }

    /** `left_most_page`. */
    method LeftMostPage() returns (rc: Rc, leaf: int)
      requires tree.Valid()
      modifies tree.pool`pins, tree.pool`resident
      ensures tree.Valid()
      ensures rc == if tree.root == -1 then Empty else Success
      ensures rc == Empty ==> tree.pool.pins == old(tree.pool.pins)
      ensures rc == Success ==>
        leaf in tree.pages && tree.pages[leaf].Leaf? && tree.g[leaf].lo == 0 && tree.pool.pins == old(tree.pool.pins) + multiset{leaf}
    {
      if tree.root == -1 {
        return Empty, -1;
      }
      ghost var s, base := tree.S(), tree.pool.pins;
      leaf := tree.root;
      tree.pool.GetThisPage(leaf);
      while !tree.pages[leaf].Leaf?
        invariant tree.PoolOk() && leaf in s.pages && leaf in s.g && s.g[leaf].lo == 0
        invariant tree.pool.pins == base + multiset{leaf}
        decreases s.g[leaf].ht
      {
        FirstChild(tree.c, s, leaf);
        var child := tree.pages[leaf].kids[0].page;
        SwapPins(leaf, child, base);
        leaf := child;
      }
      rc := Success;
    }

    /** The leaf and slot where `left` belongs. */
    method LookupLeft(left: int, ghost s: St) returns (leaf: int, pos: int)
      requires tree.PoolOk() && s == tree.S() && Inv(tree.c, s) && s.root != -1 && 0 <= left < tree.c.limit
      modifies tree.pool`pins, tree.pool`resident
      ensures tree.PoolOk() && tree.pool.pins == old(tree.pool.pins) + multiset{leaf}
      ensures Covers(s, leaf, left) && Belongs(s.pages[leaf].entries, pos, left)
    {
      var _, p := tree.FindLeaf(left);
      leaf := p;
      InLeaf(tree.c, s, leaf, left);
      var i, _ := LeafLookup(tree.c, tree.pages[leaf].entries, left);
      pos := i;
    }

    /** Positions the scanner at the first entry not below `left`. */
    method SeekLeft(left: int, ghost s: St) returns (ghost leak: multiset<int>)
      requires tree.PoolOk() && s == tree.S() && Inv(tree.c, s) && s.root != -1 && 0 <= left < tree.c.limit
      modifies `current, `iter, tree.pool`pins, tree.pool`resident
      ensures tree.PoolOk() && Over(old(tree.pool.pins) + leak) && LeakIs(leak, left, s)
      ensures current == -1 ==> forall e :: e in Contents(s) ==> e.key < left
      ensures current != -1 ==> Positioned(left, s)
    {
      ghost var base := tree.pool.pins;
      var leaf, pos := LookupLeft(left, s);
      SeekFrom(tree.c, s, leaf, pos, left);
      leak := if Passed(s, leaf, left) then multiset{leaf} else multiset{};
      FromLeaf(leaf, pos, base, leak, s);
    }

    /** The scanner's place once the leaf to start from has been searched: in that leaf, at the start of
        the next one, or nowhere. Moving on to the next leaf keeps the first one pinned. */
    method FromLeaf(leaf: int, pos: int, ghost base: multiset<int>, ghost leak: multiset<int>, ghost s: St)
      requires tree.PoolOk() && s == tree.S() && leaf in s.pages && s.pages[leaf].Leaf? && 0 <= pos <= |s.pages[leaf].entries|
      requires pos == |s.pages[leaf].entries| && s.pages[leaf].next != -1 ==> s.pages[leaf].next in s.pages
      requires tree.pool.pins == base + multiset{leaf}
      requires leak == if pos == |s.pages[leaf].entries| && s.pages[leaf].next != -1 then multiset{leaf} else multiset{}
      modifies `current, `iter, tree.pool`pins, tree.pool`resident
      ensures tree.PoolOk() && Over(base + leak)
      ensures current == if pos < |s.pages[leaf].entries| then leaf else s.pages[leaf].next
      ensures current != -1 ==> iter == if pos < |s.pages[leaf].entries| then pos else 0
    {
      if pos < |tree.pages[leaf].entries| {
        current, iter := leaf, pos;
        return;
      }
      var q := tree.pages[leaf].next;
      if q == -1 {
        tree.pool.UnpinPage(leaf);
        current := -1;
      } else {
        MoveOn(q, base + leak);
      }
    }

    /** Onto the first slot of leaf `q`. */
    method MoveOn(q: int, ghost pins: multiset<int>)
      requires tree.PoolOk() && q in tree.pages && tree.pool.pins == pins
      modifies `current, `iter, tree.pool`pins, tree.pool`resident
      ensures tree.PoolOk() && current == q && iter == 0 && tree.pool.pins == pins + multiset{q}
    {
      tree.pool.GetThisPage(q);
      current, iter := q, 0;
    }

    /** Moving on from a leaf that lies below `left` leaves that leaf pinned. */
    ghost predicate LeakIs(leak: multiset<int>, left: int, s: St) {
      exists p :: Covers(s, p, left) && leak == if Passed(s, p, left) then multiset{p} else multiset{}
    }

    /** At an entry, with exactly the entries from `left` on ahead. */
    ghost predicate Positioned(left: int, s: St)
      reads `current, `iter, tree.pool
      requires Inv(tree.c, s) && s.root != -1
    {
      && current in s.pages && s.pages[current].Leaf? && tree.pool.pins[current] > 0
      && 0 <= iter < |s.pages[current].entries| && Ahead(tree.c, s, current, iter, left)
    }

    method SeekFirst(ghost s: St) returns (rc: Rc)
      requires tree.PoolOk() && s == tree.S() && Inv(tree.c, s)
      modifies `current, `iter, tree.pool`pins, tree.pool`resident
      ensures tree.PoolOk() && rc == if s.root == -1 then Empty else Success
      ensures rc == Empty ==> current == old(current) && tree.pool.pins == old(tree.pool.pins)
      ensures rc == Success ==> current != -1 && Positioned(0, s) && Over(old(tree.pool.pins))
    {
      var r, leaf := LeftMostPage();
      if r == Empty {
        return r;
      }
      assert SizeOk(tree.c, s.pages[leaf], leaf == s.root);
      TailAll(tree.c, s, leaf);
      current, iter := leaf, 0;
      rc := Success;
    }

    /** Drops the current frame: nothing is left to deliver. */
    method Drop(ghost base: multiset<int>)
      requires tree.PoolOk() && Over(base)
      modifies `current, tree.pool`pins
      ensures tree.PoolOk() && current == -1 && tree.pool.pins == base
    {
      if current != -1 {
        tree.pool.UnpinPage(current);
        current := -1;
      }
    }

    /** Sets the right end and drops the frame if the first entry is already beyond it. */
    method SetRight(r: Option<int>, ghost left: int, ghost base: multiset<int>, ghost s: St)
      requires tree.PoolOk() && s == tree.S() && Inv(tree.c, s) && s.root != -1
      requires current != -1 && Positioned(left, s) && RightOk(r) && Over(base)
      modifies this, tree.pool`pins
      ensures Over(base)
      ensures Valid() && inited == old(inited) && Between(Contents(s), Some(left), r, Remaining())
    {
      right, firstEmitted := r, false;
      CutRight(tree.c, s, current, iter, left, r);
      DropIfBeyond(base, s);
    }

    /** Drops the current frame if its entry lies beyond the right end. */
    method DropIfBeyond(ghost base: multiset<int>, ghost s: St)
      requires tree.PoolOk() && s == tree.S() && Inv(tree.c, s) && s.root != -1 && RightOk(right) && Over(base)
      requires current in s.pages && s.pages[current].Leaf? && tree.pool.pins[current] > 0
      requires 0 <= iter < |s.pages[current].entries|
      modifies `current, tree.pool`pins
      ensures tree.PoolOk() && Over(base)
      ensures current == if old(Beyond(s.pages[current].entries[iter].key)) then -1 else old(current)
    {
      var end := TouchEnd();
      if end {
        Drop(base);
      }
    }

    /** `open` on key bounds: on success the scan will deliver exactly the entries in range. Beyond the
        current frame it leaves one leaf pinned if it has to move on from it. */
    method OpenKeys(left: Option<int>, r: Option<int>) returns (rc: Rc, ghost leak: multiset<int>)
      requires Valid() && (!inited ==> current == -1) && (left.Some? ==> 0 <= left.value < tree.c.limit) && RightOk(r)
      modifies this, tree.pool`pins, tree.pool`resident
      ensures Valid() && inited
      ensures rc == if old(inited) then InternalError else if left.None? && tree.root == -1 then Empty else Success
      ensures rc == InternalError ==> Remaining() == old(Remaining())
      ensures rc == Success ==> Between(Contents(tree.S()), left, r, Remaining())
      ensures rc == Empty ==> current == -1
      ensures !old(inited) ==> Over(old(tree.pool.pins) + leak)
      ensures if rc == Success && left.Some? && tree.root != -1 then LeakIs(leak, left.value, tree.S()) else leak == multiset{}
    {
      leak := multiset{};
      if inited {
        return InternalError, leak;
      }
      ghost var s := tree.S();
      inited := true;
      rc, leak := OpenAt(left, r, s);
    }

    /** `open` on a scanner that was closed. */
    method OpenAt(left: Option<int>, r: Option<int>, ghost s: St) returns (rc: Rc, ghost leak: multiset<int>)
      requires tree.PoolOk() && s == tree.S() && Inv(tree.c, s) && (left.Some? ==> 0 <= left.value < tree.c.limit)
      requires inited && current == -1 && RightOk(r) && RightOk(right)
      modifies this, tree.pool`pins, tree.pool`resident
      ensures Valid() && inited && Over(old(tree.pool.pins) + leak)
      ensures rc == if left.None? && s.root == -1 then Empty else Success
      ensures rc == Success ==> Between(Contents(s), left, r, Remaining())
      ensures rc == Empty ==> current == -1
      ensures if rc == Success && left.Some? && s.root != -1 then LeakIs(leak, left.value, s) else leak == multiset{}
    {
      leak := multiset{};
      assert tree.pool.pins + multiset{} == tree.pool.pins;
      if left.None? {
        rc := OpenFirst(r, s);
      } else if tree.root == -1 {
        assert Contents(s) == {} && Remaining() == [];
        rc := Success;
      } else {
        leak := OpenLeft(left.value, r, s);
        rc := Success;
      }
    }

    /** The part of `open` without a left bound. */
    method OpenFirst(r: Option<int>, ghost s: St) returns (rc: Rc)
      requires tree.PoolOk() && s == tree.S() && Inv(tree.c, s) && inited && current == -1 && RightOk(r) && RightOk(right)
      modifies this, tree.pool`pins, tree.pool`resident
      ensures Valid() && inited && Over(old(tree.pool.pins)) && rc == if s.root == -1 then Empty else Success
      ensures rc == Success ==> Between(Contents(s), None, r, Remaining())
      ensures rc == Empty ==> current == -1
    {
      ghost var base := tree.pool.pins;
      rc := SeekFirst(s);
      if rc == Success {
        SetRight(r, 0, base, s);
        FromZero(tree.c, s, r, Remaining());
      }
    }

    /** The part of `open` with a left bound, on a tree that is not empty. */
    method OpenLeft(left: int, r: Option<int>, ghost s: St) returns (ghost leak: multiset<int>)
      requires tree.PoolOk() && s == tree.S() && Inv(tree.c, s) && s.root != -1 && 0 <= left < tree.c.limit
      requires inited && current == -1 && RightOk(r) && RightOk(right)
      modifies this, tree.pool`pins, tree.pool`resident
      ensures Valid() && inited && Over(old(tree.pool.pins) + leak) && LeakIs(leak, left, s)
      ensures Between(Contents(s), Some(left), r, Remaining())
    {
      leak := SeekLeft(left, s);
      if current != -1 {
        SetRight(r, left, old(tree.pool.pins) + leak, s);
      }
    }

    /** `close`: the scanner can be opened again. */
    method Close(ghost base: multiset<int>)
      requires Valid() && Over(base)
      modifies this, tree.pool`pins
      ensures Valid() && !inited && current == -1 && Remaining() == [] && tree.pool.pins == base
    {
      Drop(base);
      inited := false;
    }
  }
}
