/** Range scans as a client sees them: attribute bounds in, record identifiers out. */
module BPlusRange {
  import opened Wrappers
  import opened ByteStrings
  import opened BPlusState
  import opened BPlusTree
  import opened BPlusScanner
  import opened Keys

  /** An attribute bound as a rank. */
  datatype Bound = Bound(rank: int, inclusive: bool)

  /** The key a left bound is searched with: RID::min keeps equal attributes in, RID::max leaves them out. */
  function LeftKey(b: Bound): int {
    b.rank * RID_RANGE + if b.inclusive then 0 else RID_RANGE - 1
  }

  function RightKey(b: Bound): int {
    b.rank * RID_RANGE + if b.inclusive then RID_RANGE - 1 else 0
  }

  /** The RID in the key is one a record can have: neither RID::min nor RID::max. */
  ghost predicate RealKey(key: int) {
    0 < key % RID_RANGE < RID_RANGE - 1
  }

  /** The attribute rank lies within the bounds. */
  predicate Within(rank: int, left: Option<Bound>, right: Option<Bound>) {
    && (left.Some? ==> if left.value.inclusive then left.value.rank <= rank else left.value.rank < rank)
    && (right.Some? ==> if right.value.inclusive then rank <= right.value.rank else rank < right.value.rank)
  }

  /** For real keys, comparing with the two search keys is comparing attributes with the bounds. */
  lemma BoundKeys(key: int, b: Bound)
    requires RealKey(key)
    ensures LeftKey(b) <= key <==> if b.inclusive then b.rank <= key / RID_RANGE else b.rank < key / RID_RANGE
    ensures key <= RightKey(b) <==> if b.inclusive then key / RID_RANGE <= b.rank else key / RID_RANGE < b.rank
  {
    assert key == key / RID_RANGE * RID_RANGE + key % RID_RANGE;
  }

  ghost function Rids(es: seq<Entry>): seq<Rid> {
    seq(|es|, i requires 0 <= i < |es| => es[i].rid)
  }

  lemma RidsFirst(es: seq<Entry>, rids: seq<Rid>)
    requires es != []
    ensures rids + [es[0].rid] + Rids(es[1..]) == rids + Rids(es)
  {
  }

  /** `rids` are the RIDs of exactly the entries within the bounds, once each, in key order. */
  ghost predicate Delivers(all: set<Entry>, left: Option<Bound>, right: Option<Bound>, rids: seq<Rid>) {
    exists es ::
      && Sorted(es) && rids == Rids(es)
      && forall e :: e in es <==> e in all && Within(e.key / RID_RANGE, left, right)
  }

  /** Calling `next_entry` until it reports the end delivers everything that remained. */
  method Drain(sc: BplusTreeScanner, ghost base: multiset<int>) returns (rids: seq<Rid>)
    requires sc.Valid() && sc.Over(base)
    modifies sc, sc.tree.pool`pins, sc.tree.pool`resident
    ensures sc.Valid() && sc.Over(base) && sc.Remaining() == [] && rids == Rids(old(sc.Remaining()))
  {
    rids := [];
    ghost var all := Rids(sc.Remaining());
    assert rids + all == all;
    var found := true;
    while found
      invariant sc.Valid() && sc.Over(base) && rids + Rids(sc.Remaining()) == all && (!found ==> sc.Remaining() == [])
      decreases |sc.Remaining()| + if found then 1 else 0
    {
      found, rids := TakeNext(sc, base, rids);
    }
    assert rids + Rids([]) == rids;
  }

  /** One call of `next_entry`. */
  method TakeNext(sc: BplusTreeScanner, ghost base: multiset<int>, rids: seq<Rid>) returns (found: bool, more: seq<Rid>)
    requires sc.Valid() && sc.Over(base)
    modifies sc, sc.tree.pool`pins, sc.tree.pool`resident
    ensures sc.Valid() && sc.Over(base) && more + Rids(sc.Remaining()) == rids + Rids(old(sc.Remaining()))
    ensures if found then |sc.Remaining()| < |old(sc.Remaining())| else sc.Remaining() == [] == old(sc.Remaining())
  {
    ghost var left := sc.Remaining();
    var rid;
    found, rid := sc.NextEntry(base);
    more := rids;
    if found {
      RidsFirst(left, rids);
      more := rids + [rid];
    }
  }

  /** A whole scan between two attribute bounds. */
  method ScanBounds(tree: BplusTreeHandler, left: Option<Bound>, right: Option<Bound>)
    returns (rc: Rc, rids: seq<Rid>, ghost leak: multiset<int>)
    requires tree.Valid() && (forall e :: e in Contents(tree.S()) ==> RealKey(e.key))
    requires left.Some? ==> 0 <= LeftKey(left.value) < tree.c.limit
    requires right.Some? ==> 0 <= RightKey(right.value) < tree.c.limit
    modifies tree.pool`pins, tree.pool`resident
    ensures tree.Valid() && tree.pool.pins == old(tree.pool.pins) + leak && |leak| <= 1
    ensures rc == if left.None? && tree.root == -1 then Empty else Success
    ensures rc == Success ==> Delivers(Contents(tree.S()), left, right, rids)
  {
    var l: Option<int> := if left.None? then None else Some(LeftKey(left.value));
    var r: Option<int> := if right.None? then None else Some(RightKey(right.value));
    rc, rids, leak := ScanKeys(tree, l, r);
    if rc == Success {
      ghost var all := Contents(tree.S());
      ghost var es :| Between(all, l, r, es) && rids == Rids(es);
      RangeIsBounds(all, left, right, es);
    }
  }

  /** A whole scan between two key bounds: opened, read to the end and closed. It may leave one leaf
      pinned. */
  method ScanKeys(tree: BplusTreeHandler, left: Option<int>, right: Option<int>)
    returns (rc: Rc, rids: seq<Rid>, ghost leak: multiset<int>)
    requires tree.Valid() && (left.Some? ==> 0 <= left.value < tree.c.limit) && (right.Some? ==> 0 <= right.value < tree.c.limit)
    modifies tree.pool`pins, tree.pool`resident
    ensures tree.Valid() && tree.pool.pins == old(tree.pool.pins) + leak && |leak| <= 1
    ensures rc == if left.None? && tree.root == -1 then Empty else Success
    ensures rc == Success ==> exists es :: Between(Contents(tree.S()), left, right, es) && rids == Rids(es)
  {
    ghost var s, base := tree.S(), tree.pool.pins;
    var sc := new BplusTreeScanner(tree);
    rids := [];
    rc, leak := sc.OpenKeys(left, right);
    if rc == Success {
      ghost var es := sc.Remaining();
      rids := DrainAndClose(sc, base + leak);
      assert Between(Contents(s), left, right, es);
    }
  }

  method DrainAndClose(sc: BplusTreeScanner, ghost base: multiset<int>) returns (rids: seq<Rid>)
    requires sc.Valid() && sc.Over(base)
    modifies sc, sc.tree.pool`pins, sc.tree.pool`resident
    ensures sc.Valid() && sc.tree.pool.pins == base && rids == Rids(old(sc.Remaining()))
  {
    rids := Drain(sc, base);
    sc.Close(base);
  }

  lemma RangeIsBounds(all: set<Entry>, left: Option<Bound>, right: Option<Bound>, es: seq<Entry>)
    requires forall e :: e in all ==> RealKey(e.key)
    requires forall e :: e in es <==>
      e in all && (left.Some? ==> LeftKey(left.value) <= e.key) && (right.Some? ==> e.key <= RightKey(right.value))
    ensures forall e :: e in es <==> e in all && Within(e.key / RID_RANGE, left, right)
  {
    forall e | e in all
      ensures e in es <==> Within(e.key / RID_RANGE, left, right)
    {
      if left.Some? {
        BoundKeys(e.key, left.value);
      }
      if right.Some? {
        BoundKeys(e.key, right.value);
      }
    }
  }

  // ---- INTS indexes ----

  datatype IntBound = IntBound(v: int, inclusive: bool)

  function IntRank(w: int, b: Option<IntBound>): Option<Bound> {
    if b.None? then None else Some(Bound(b.value.v - w, b.value.inclusive))
  }

  /** The attribute value of an entry of an index with base `w`. */
  function IntOf(w: int, e: Entry): int {
    w + e.key / RID_RANGE
  }

  predicate IntWithin(v: int, left: Option<IntBound>, right: Option<IntBound>) {
    && (left.Some? ==> if left.value.inclusive then left.value.v <= v else left.value.v < v)
    && (right.Some? ==> if right.value.inclusive then v <= right.value.v else v < right.value.v)
  }

  /** The argument check of `open` on an INTS index. */
  predicate RejectedInts(left: Option<IntBound>, right: Option<IntBound>) {
    left.Some? && right.Some? &&
    var m := CompareInt(left.value.v, right.value.v);
    m > 0 || (m == 0 && !(left.value.inclusive && right.value.inclusive))
  }

  /** Integer bounds are refused only if no value lies between them, provided their difference
      fits in 32 bits; otherwise the overflowing comparison refuses a non-empty range or admits an empty one. */
  lemma RejectedIntsEmpty(left: IntBound, right: IntBound)
    requires IsInt32(left.v) && IsInt32(right.v)
    ensures IsInt32(left.v - right.v) ==>
      (RejectedInts(Some(left), Some(right)) <==>
        left.v > right.v || (left.v == right.v && !(left.inclusive && right.inclusive)))
    ensures !IsInt32(left.v - right.v) ==> (RejectedInts(Some(left), Some(right)) <==> left.v < right.v)
    ensures IsInt32(left.v - right.v) && RejectedInts(Some(left), Some(right)) ==>
      forall v :: !IntWithin(v, Some(left), Some(right))
  {
    CompareIntSign(left.v, right.v);
    if !IsInt32(left.v - right.v) {
      CompareIntWraps(left.v, right.v);
    }
  }

  /** The bound lies in the window of the index, so that it can be compared with every value there. */
  predicate InBase(w: int, b: Option<IntBound>) {
    b.Some? ==> w <= b.value.v < w + HALF
  }

  /** `rids` are the RIDs of exactly the entries with values within the bounds, once each, in key order. */
  ghost predicate DeliversInts(all: set<Entry>, w: int, left: Option<IntBound>, right: Option<IntBound>, rids: seq<Rid>) {
    exists es ::
      && Sorted(es) && rids == Rids(es)
      && forall e :: e in es <==> e in all && IntWithin(IntOf(w, e), left, right)
  }

  /** `open` on integer bounds, `next_entry` to the end, `close`, on an index whose comparator is the
      source's. Values and bounds lie in one window, where that comparator does not overflow. */
  method ScanInts(tree: BplusTreeHandler, w: int, left: Option<IntBound>, right: Option<IntBound>)
    returns (rc: Rc, rids: seq<Rid>, ghost leak: multiset<int>)
    requires tree.Valid() && Base(Ints, w) && tree.c == KeyCfg(Ints, w, tree.c.leafMax, tree.c.internalMax)
    requires InBase(w, left) && InBase(w, right) && (forall e :: e in Contents(tree.S()) ==> RealKey(e.key))
    modifies tree.pool`pins, tree.pool`resident
    ensures tree.Valid() && tree.pool.pins == old(tree.pool.pins) + leak && |leak| <= 1
    ensures rc == if RejectedInts(left, right) then InvalidArgument
                  else if left.None? && tree.root == -1 then Empty else Success
    ensures rc == Success ==> DeliversInts(Contents(tree.S()), w, left, right, rids)
  {
    rids, leak := [], multiset{};
    assert tree.pool.pins + leak == tree.pool.pins;
    if RejectedInts(left, right) {
      return InvalidArgument, [], leak;
    }
    rc, rids, leak := ScanBounds(tree, IntRank(w, left), IntRank(w, right));
    if rc == Success {
      IntsDelivered(Contents(tree.S()), w, left, right, rids);
    }
  }

  lemma IntsDelivered(all: set<Entry>, w: int, left: Option<IntBound>, right: Option<IntBound>, rids: seq<Rid>)
    requires Delivers(all, IntRank(w, left), IntRank(w, right), rids)
    ensures DeliversInts(all, w, left, right, rids)
  {
    var es :| Sorted(es) && rids == Rids(es)
      && forall e :: e in es <==> e in all && Within(e.key / RID_RANGE, IntRank(w, left), IntRank(w, right));
    assert forall e: Entry :: Within(e.key / RID_RANGE, IntRank(w, left), IntRank(w, right)) <==> IntWithin(IntOf(w, e), left, right);
  }

  /** `rids` are the RIDs of exactly the entries with value `v`, once each, in key order. */
  ghost predicate DeliversInt(all: set<Entry>, w: int, v: int, rids: seq<Rid>) {
    exists es :: Sorted(es) && rids == Rids(es) && forall e :: e in es <==> e in all && IntOf(w, e) == v
  }

  /** `get_entry` on an INTS index: a scan with the value as both bounds. */
  method GetIntEntry(tree: BplusTreeHandler, w: int, v: int) returns (rc: Rc, rids: seq<Rid>, ghost leak: multiset<int>)
    requires tree.Valid() && Base(Ints, w) && tree.c == KeyCfg(Ints, w, tree.c.leafMax, tree.c.internalMax)
    requires w <= v < w + HALF && forall e :: e in Contents(tree.S()) ==> RealKey(e.key)
    modifies tree.pool`pins, tree.pool`resident
    ensures tree.Valid() && tree.pool.pins == old(tree.pool.pins) + leak && |leak| <= 1
    ensures rc == Success && DeliversInt(Contents(tree.S()), w, v, rids)
  {
    var b := Some(IntBound(v, true));
    rc, rids, leak := ScanInts(tree, w, b, b);
    EqualInts(Contents(tree.S()), w, v, rids);
  }

  lemma EqualInts(all: set<Entry>, w: int, v: int, rids: seq<Rid>)
    requires DeliversInts(all, w, Some(IntBound(v, true)), Some(IntBound(v, true)), rids)
    ensures DeliversInt(all, w, v, rids)
  {
    var b := Some(IntBound(v, true));
    var es :| Sorted(es) && rids == Rids(es) && forall e :: e in es <==> e in all && IntWithin(IntOf(w, e), b, b);
    assert forall e :: e in es <==> e in all && IntOf(w, e) == v;
  }
}
