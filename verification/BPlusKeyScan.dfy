/** What comes out of an index is what went in: runs on keys followed by a scan. */
module BPlusKeyScan {
  import opened Wrappers
  import opened ByteStrings
  import opened BPlusState
  import opened BPlusRun
  import opened BPlusTree
  import opened BPlusKeyRun
  import opened BPlusRange
  import opened BPlusTextScan
  import opened Keys
  import opened UserKeys

  // ---- what a scan should deliver ----

  ghost predicate Ascending(keys: seq<Key>) {
    forall i, j :: 0 <= i < j < |keys| ==> Precedes(keys[i], keys[j])
  }

  /** `rids` are the RIDs of exactly the keys that `keep` picks, once each, in key order. */
  ghost predicate Lists(all: set<Key>, keep: Key -> bool, rids: seq<Rid>) {
    exists keys: seq<Key> ::
      && Ascending(keys) && |keys| == |rids| && (forall i :: 0 <= i < |keys| ==> rids[i] == keys[i].rid)
      && forall k :: k in keys <==> k in all && keep(k)
  }

  predicate IntInside(a: Attr, left: Option<IntBound>, right: Option<IntBound>) {
    && a.IntAttr?
    && (left.Some? ==> left.value.v < a.v || (left.value.inclusive && left.value.v == a.v))
    && (right.Some? ==> a.v < right.value.v || (right.value.inclusive && a.v == right.value.v))
  }

  /** Integer bounds that no value satisfies because of their order. */
  predicate IntsCrossed(left: Option<IntBound>, right: Option<IntBound>) {
    left.Some? && right.Some? &&
    (left.value.v > right.value.v || (left.value.v == right.value.v && (!left.value.inclusive || !right.value.inclusive)))
  }

  ghost predicate TextInside(a: Attr, left: Option<TextBound>, right: Option<TextBound>) {
    && a.CharsAttr?
    && (left.Some? ==> TextBefore(left.value.text, a.bs) || (left.value.inclusive && SameText(left.value.text, a.bs)))
    && (right.Some? ==> TextBefore(a.bs, right.value.text) || (right.value.inclusive && SameText(a.bs, right.value.text)))
  }

  /** The RID is one that a record can have. */
  ghost predicate RecordRid(r: Rid) {
    r != Rid(0, 0) && r != Rid(HALF - 1, HALF - 1)
  }

  // ---- an index that holds a set of keys ----

  ghost predicate HoldsKeys(tree: BplusTreeHandler, t: AttrType, w: int, all: set<Key>)
    reads tree, tree.pool
  {
    && tree.Valid() && Base(t, w) && tree.c == KeyCfg(t, w, tree.c.leafMax, tree.c.internalMax)
    && AllInWindow(t, w, all) && (forall k :: k in all ==> RecordRid(k.rid)) && Contents(tree.S()) == EntriesOf(w, all)
  }

  lemma EntryKey(t: AttrType, w: int, all: set<Key>, e: Entry) returns (k: Key)
    requires Base(t, w) && AllInWindow(t, w, all) && e in EntriesOf(w, all)
    ensures k in all && e == EntryOf(w, k) && k == KeyAt(t, w, e.key) && k.rid == e.rid
  {
    k :| k in all && e == EntryOf(w, k);
    KeyBack(t, w, k);
  }

  lemma KeysReal(t: AttrType, w: int, all: set<Key>)
    requires Base(t, w) && AllInWindow(t, w, all) && forall k :: k in all ==> RecordRid(k.rid)
    ensures forall e :: e in EntriesOf(w, all) ==> RealKey(e.key)
  {
    forall e | e in EntriesOf(w, all)
      ensures RealKey(e.key)
    {
      var k := EntryKey(t, w, all, e);
      RankRange(t, w, k);
    }
  }

  /** Entries in rank order are keys in key order. */
  lemma ListsKeys(t: AttrType, w: int, all: set<Key>, keep: Key -> bool, es: seq<Entry>, rids: seq<Rid>)
    requires Base(t, w) && AllInWindow(t, w, all) && Sorted(es) && rids == Rids(es)
    requires forall e :: e in es <==> e in EntriesOf(w, all) && keep(KeyAt(t, w, e.key))
    ensures Lists(all, keep, rids)
  {
    var keys := seq(|es|, i requires 0 <= i < |es| => KeyAt(t, w, es[i].key));
    forall i | 0 <= i < |es|
      ensures keys[i] in all && Rank(w, keys[i]) == es[i].key && rids[i] == keys[i].rid && keep(keys[i])
    {
      assert es[i] in es;
      var k := EntryKey(t, w, all, es[i]);
    }
    forall i, j | 0 <= i < j < |keys|
      ensures Precedes(keys[i], keys[j])
    {
      RankOrders(t, w, keys[i], keys[j]);
    }
    forall k | k in all && keep(k)
      ensures k in keys
    {
      KeyBack(t, w, k);
      assert EntryOf(w, k) in EntriesOf(w, all);
      var i :| 0 <= i < |es| && es[i] == EntryOf(w, k);
      assert keys[i] == k;
    }
  }

  // ---- INTS indexes ----

  lemma IntsListed(w: int, all: set<Key>, left: Option<IntBound>, right: Option<IntBound>, rids: seq<Rid>)
    requires Base(Ints, w) && AllInWindow(Ints, w, all) && DeliversInts(EntriesOf(w, all), w, left, right, rids)
    ensures Lists(all, (k: Key) => IntInside(k.attr, left, right), rids)
  {
    var es :| Sorted(es) && rids == Rids(es) && forall e :: e in es <==> e in EntriesOf(w, all) && IntWithin(IntOf(w, e), left, right);
    forall e | e in EntriesOf(w, all)
      ensures IntWithin(IntOf(w, e), left, right) <==> IntInside(KeyAt(Ints, w, e.key).attr, left, right)
    {
      var k := EntryKey(Ints, w, all, e);
      RankRange(Ints, w, k);
    }
    ListsKeys(Ints, w, all, (k: Key) => IntInside(k.attr, left, right), es, rids);
  }

  lemma RootOfEmpty(tree: BplusTreeHandler, t: AttrType, w: int, all: set<Key>)
    requires HoldsKeys(tree, t, w, all)
    ensures tree.root == -1 <==> all == {}
  {
    if all == {} {
      EmptyTree(tree.c, tree.S());
    } else {
      assert forall k :: k in all ==> EntryOf(w, k) in Contents(tree.S());
    }
  }

  /** A scan of an INTS index: refused if and only if the bounds cross, and otherwise it delivers the RIDs of
      exactly the keys within them. */
  method ScanIntKeys(tree: BplusTreeHandler, w: int, ghost all: set<Key>, left: Option<IntBound>, right: Option<IntBound>)
    returns (rc: Rc, rids: seq<Rid>)
    requires HoldsKeys(tree, Ints, w, all) && InBase(w, left) && InBase(w, right)
    modifies tree.pool`pins, tree.pool`resident
    ensures HoldsKeys(tree, Ints, w, all)
    ensures rc == if IntsCrossed(left, right) then InvalidArgument else if left.None? && all == {} then Empty else Success
    ensures rc == Success ==> Lists(all, (k: Key) => IntInside(k.attr, left, right), rids)
  {
    KeysReal(Ints, w, all);
    RootOfEmpty(tree, Ints, w, all);
    if left.Some? && right.Some? {
      RejectedIntsEmpty(left.value, right.value);
    }
    ghost var leak;
    rc, rids, leak := ScanInts(tree, w, left, right);
    if rc == Success {
      IntsListed(w, all, left, right, rids);
    }
  }

  // ---- CHARS indexes ----

  lemma InsideText(bs: seq<int>, left: Option<TextBound>, right: Option<TextBound>)
    ensures TextWithin(bs, left, right) <==> TextInside(CharsAttr(bs), left, right)
  {
    if left.Some? {
      TextOrder(bs, left.value.text);
    }
    if right.Some? {
      TextOrder(bs, right.value.text);
    }
  }

  lemma TextListed(width: nat, all: set<Key>, left: Option<TextBound>, right: Option<TextBound>, rids: seq<Rid>)
    requires AllInWindow(Chars(width), 0, all) && forall e :: e in EntriesOf(0, all) ==> e.key >= 0
    requires DeliversText(EntriesOf(0, all), width, left, right, rids)
    ensures Lists(all, (k: Key) => TextInside(k.attr, left, right), rids)
  {
    var es :| Sorted(es) && rids == Rids(es)
      && forall e :: e in es <==> e in EntriesOf(0, all) && TextWithin(Digits(e.key / RID_RANGE, width), left, right);
    forall e | e in EntriesOf(0, all)
      ensures TextWithin(Digits(e.key / RID_RANGE, width), left, right) <==> TextInside(KeyAt(Chars(width), 0, e.key).attr, left, right)
    {
      InsideText(Digits(e.key / RID_RANGE, width), left, right);
    }
    ListsKeys(Chars(width), 0, all, (k: Key) => TextInside(k.attr, left, right), es, rids);
  }

  /** A scan of a CHARS index, over text bounds of any length. */
  method ScanTextKeys(tree: BplusTreeHandler, width: nat, ghost all: set<Key>, left: Option<TextBound>, right: Option<TextBound>)
    returns (rc: Rc, rids: seq<Rid>)
    requires width >= 1 && HoldsKeys(tree, Chars(width), 0, all) && Usable(left, width) && Usable(right, width)
    modifies tree.pool`pins, tree.pool`resident
    ensures HoldsKeys(tree, Chars(width), 0, all)
    ensures rc == if left.Some? && right.Some? && OutOfOrder(CutBound(left.value, width), CutBound(right.value, width)) then InvalidArgument
                  else if left.None? && all == {} then Empty else Success
    ensures rc == Success && BumpFits(left, width) ==> Lists(all, (k: Key) => TextInside(k.attr, left, right), rids)
  {
    KeysReal(Chars(width), 0, all);
    RootOfEmpty(tree, Chars(width), 0, all);
    ghost var leak;
    rc, rids, leak := ScanText(tree, width, left, right);
    if rc == Success && BumpFits(left, width) {
      TextListed(width, all, left, right, rids);
    }
  }

  // ---- runs followed by a scan ----

  lemma {:induction false} KeysFromOps(ops: seq<KeyOp>)
    requires forall i :: 0 <= i < |ops| ==> RecordRid(ops[i].k.rid)
    ensures forall k :: k in KeysAfterAll(ops) ==> RecordRid(k.rid)
  {
    if ops != [] {
      KeysFromOps(ops[..|ops| - 1]);
    }
  }

  /** A new index after any run that is not stopped. */
  method RunTo(t: AttrType, w: int, leafMax: int, internalMax: int, bytes: nat, stored: bool, ops: seq<KeyOp>)
    returns (tree: BplusTreeHandler, rcs: seq<Rc>)
    requires Base(t, w) && leafMax >= 4 && internalMax >= 6 && bytes >= 1
    requires forall i :: 0 <= i < |ops| ==> InWindow(t, w, ops[i].k) && RecordRid(ops[i].k.rid)
    ensures fresh(tree) && fresh(tree.pool) && |rcs| <= |ops| && rcs == KeyAnswers(ops[..|rcs|])
    ensures |rcs| == |ops| ==> HoldsKeys(tree, t, w, KeysAfterAll(ops))
  {
    KeysFromOps(ops);
    RunsAgree(t, w, ops);
    var stop;
    ghost var trace;
    tree, rcs, stop, trace := RunKeys(t, w, leafMax, internalMax, bytes, stored, ops);
  }

  /** After any run of insertions and deletions that is not stopped, a scan delivers the RIDs of exactly the
      inserted and not deleted keys whose integer lies within the bounds. */
  method RunThenScanInts(w: int, leafMax: int, internalMax: int, bytes: nat, stored: bool, ops: seq<KeyOp>,
      left: Option<IntBound>, right: Option<IntBound>)
    returns (rcs: seq<Rc>, rc: Rc, rids: seq<Rid>)
    requires Base(Ints, w) && leafMax >= 4 && internalMax >= 6 && bytes >= 1 && InBase(w, left) && InBase(w, right)
    requires forall i :: 0 <= i < |ops| ==> InWindow(Ints, w, ops[i].k) && RecordRid(ops[i].k.rid)
    ensures |rcs| <= |ops| && rcs == KeyAnswers(ops[..|rcs|])
    ensures |rcs| == |ops| ==>
      rc == if IntsCrossed(left, right) then InvalidArgument else if left.None? && KeysAfterAll(ops) == {} then Empty else Success
    ensures |rcs| == |ops| && rc == Success ==> Lists(KeysAfterAll(ops), (k: Key) => IntInside(k.attr, left, right), rids)
  {
    var tree;
    tree, rcs := RunTo(Ints, w, leafMax, internalMax, bytes, stored, ops);
    rc, rids := Success, [];
    if |rcs| == |ops| {
      rc, rids := ScanIntKeys(tree, w, KeysAfterAll(ops), left, right);
    }
  }

  /** The same over text. */
  method RunThenScanText(width: nat, leafMax: int, internalMax: int, bytes: nat, stored: bool, ops: seq<KeyOp>,
      left: Option<TextBound>, right: Option<TextBound>)
    returns (rcs: seq<Rc>, rc: Rc, rids: seq<Rid>)
    requires width >= 1 && leafMax >= 4 && internalMax >= 6 && bytes >= 1 && Usable(left, width) && Usable(right, width)
    requires forall i :: 0 <= i < |ops| ==> InWindow(Chars(width), 0, ops[i].k) && RecordRid(ops[i].k.rid)
    ensures |rcs| <= |ops| && rcs == KeyAnswers(ops[..|rcs|])
    ensures |rcs| == |ops| ==>
      rc == if left.Some? && right.Some? && OutOfOrder(CutBound(left.value, width), CutBound(right.value, width)) then InvalidArgument
            else if left.None? && KeysAfterAll(ops) == {} then Empty else Success
    ensures |rcs| == |ops| && rc == Success && BumpFits(left, width) ==>
      Lists(KeysAfterAll(ops), (k: Key) => TextInside(k.attr, left, right), rids)
  {
    var tree;
    tree, rcs := RunTo(Chars(width), 0, leafMax, internalMax, bytes, stored, ops);
    rc, rids := Success, [];
    if |rcs| == |ops| {
      rc, rids := ScanTextKeys(tree, width, KeysAfterAll(ops), left, right);
    }
  }

  // ---- runs followed by a lookup ----

  /** After any run that is not stopped, `get_entry` delivers the RIDs of exactly the keys with this attribute. */
  method RunThenGet(t: AttrType, w: int, leafMax: int, internalMax: int, bytes: nat, stored: bool, ops: seq<KeyOp>, value: Attr)
    returns (rcs: seq<Rc>, rc: Rc, rids: seq<Rid>)
    requires Base(t, w) && leafMax >= 4 && internalMax >= 6 && bytes >= 1 && (t.Chars? ==> w == 0 && t.length >= 1)
    requires ValidAttr(t, value) && (t.Ints? ==> w <= value.v < w + HALF)
    requires forall i :: 0 <= i < |ops| ==> InWindow(t, w, ops[i].k) && RecordRid(ops[i].k.rid)
    ensures |rcs| <= |ops| && rcs == KeyAnswers(ops[..|rcs|])
    ensures |rcs| == |ops| ==> rc == Success && Lists(KeysAfterAll(ops), (k: Key) => k.attr == value, rids)
  {
    var tree;
    tree, rcs := RunTo(t, w, leafMax, internalMax, bytes, stored, ops);
    rc, rids := Success, [];
    if |rcs| == |ops| {
      rc, rids := GetKeys(tree, t, w, KeysAfterAll(ops), value);
    }
  }

  /** `get_entry`, on either kind of index. */
  method GetKeys(tree: BplusTreeHandler, t: AttrType, w: int, ghost all: set<Key>, value: Attr) returns (rc: Rc, rids: seq<Rid>)
    requires HoldsKeys(tree, t, w, all) && ValidAttr(t, value) && (t.Ints? ==> w <= value.v < w + HALF)
    requires t.Chars? ==> w == 0 && t.length >= 1
    modifies tree.pool`pins, tree.pool`resident
    ensures HoldsKeys(tree, t, w, all)
    ensures rc == Success && Lists(all, (k: Key) => k.attr == value, rids)
  {
    KeysReal(t, w, all);
    ghost var leak;
    match t
    case Ints =>
      rc, rids, leak := GetIntEntry(tree, w, value.v);
      IntListed(w, all, value.v, rids);
    case Chars(width) =>
      rc, rids, leak := GetEntry(tree, width, value.bs);
      ValueListed(width, all, value.bs, rids);
  }

  lemma IntListed(w: int, all: set<Key>, v: int, rids: seq<Rid>)
    requires Base(Ints, w) && AllInWindow(Ints, w, all) && DeliversInt(EntriesOf(w, all), w, v, rids)
    ensures Lists(all, (k: Key) => k.attr == IntAttr(v), rids)
  {
    var es :| Sorted(es) && rids == Rids(es) && forall e :: e in es <==> e in EntriesOf(w, all) && IntOf(w, e) == v;
    forall e | e in EntriesOf(w, all)
      ensures IntOf(w, e) == v <==> KeyAt(Ints, w, e.key).attr == IntAttr(v)
    {
      var k := EntryKey(Ints, w, all, e);
      RankRange(Ints, w, k);
    }
    ListsKeys(Ints, w, all, (k: Key) => k.attr == IntAttr(v), es, rids);
  }

  lemma ValueListed(width: nat, all: set<Key>, value: seq<int>, rids: seq<Rid>)
    requires AllInWindow(Chars(width), 0, all) && forall e :: e in EntriesOf(0, all) ==> e.key >= 0
    requires DeliversValue(EntriesOf(0, all), width, value, rids)
    ensures Lists(all, (k: Key) => k.attr == CharsAttr(value), rids)
  {
    var es :| Sorted(es) && rids == Rids(es)
      && forall e :: e in es <==> e in EntriesOf(0, all) && Digits(e.key / RID_RANGE, width) == value;
    forall e | e in EntriesOf(0, all)
      ensures Digits(e.key / RID_RANGE, width) == value <==> KeyAt(Chars(width), 0, e.key).attr == CharsAttr(value)
    {
    }
    ListsKeys(Chars(width), 0, all, (k: Key) => k.attr == CharsAttr(value), es, rids);
  }
}
