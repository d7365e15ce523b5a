/** Runs of an index on keys: attribute values with record identifiers, compared as the source compares them. */
module BPlusKeyRun {
  import opened BPlusState
  import opened BPlusRun
  import opened BPlusTree
  import opened Keys

  /** `insert_entry` and `delete_entry`: both build the key from the attribute and the RID, and the
      value stored with a key is its RID. */
  datatype KeyOp = InsertKey(k: Key) | DeleteKey(k: Key)

  function OpOf(w: int, op: KeyOp): Op {
    match op
    case InsertKey(k) => Insert(EntryOf(w, k))
    case DeleteKey(k) => Delete(Rank(w, k))
  }

  function EntryOf(w: int, k: Key): Entry {
    Entry(Rank(w, k), k.rid)
  }

  function OpsOf(w: int, ops: seq<KeyOp>): (r: seq<Op>)
    ensures |r| == |ops| && forall i :: 0 <= i < |ops| ==> r[i] == OpOf(w, ops[i])
  {
    seq(|ops|, i requires 0 <= i < |ops| => OpOf(w, ops[i]))
  }

  // ---- the abstract index: a set of keys ----

  ghost function KeysAfter(all: set<Key>, op: KeyOp): set<Key> {
    match op
    case InsertKey(k) => all + {k}
    case DeleteKey(k) => all - {k}
  }

  ghost function KeyAnswer(all: set<Key>, op: KeyOp): Rc {
    match op
    case InsertKey(k) => if k in all then DuplicateKey else Success
    case DeleteKey(k) => if k in all then Success else NotExist
  }

  ghost function KeysAfterAll(ops: seq<KeyOp>): set<Key> {
    if ops == [] then {} else KeysAfter(KeysAfterAll(ops[..|ops| - 1]), ops[|ops| - 1])
  }

  ghost function KeyAnswers(ops: seq<KeyOp>): seq<Rc> {
    if ops == [] then []
    else KeyAnswers(ops[..|ops| - 1]) + [KeyAnswer(KeysAfterAll(ops[..|ops| - 1]), ops[|ops| - 1])]
  }

  /** The number of insertions of a key that is present by then. */
  ghost function KeyRepeats(ops: seq<KeyOp>): nat {
    if ops == [] then 0
    else
      var n := |ops| - 1;
      KeyRepeats(ops[..n]) + if ops[n].InsertKey? && ops[n].k in KeysAfterAll(ops[..n]) then 1 else 0
  }

  ghost function EntriesOf(w: int, all: set<Key>): set<Entry> {
    set k | k in all :: EntryOf(w, k)
  }

  ghost predicate AllInWindow(t: AttrType, w: int, ks: set<Key>) {
    forall k :: k in ks ==> InWindow(t, w, k)
  }

  /** Among the keys of a window, a rank names one key. */
  lemma HoldsKey(t: AttrType, w: int, all: set<Key>, k: Key)
    requires AllInWindow(t, w, all) && InWindow(t, w, k)
    ensures Holds(EntriesOf(w, all), Rank(w, k)) <==> k in all
  {
    if Holds(EntriesOf(w, all), Rank(w, k)) {
      var e :| e in EntriesOf(w, all) && e.key == Rank(w, k);
      var x :| x in all && e == EntryOf(w, x);
      CompareKeyIsRank(t, w, x, k);
    }
    assert k in all ==> EntryOf(w, k) in EntriesOf(w, all);
  }

  lemma KeysAfterIs(t: AttrType, w: int, all: set<Key>, op: KeyOp)
    requires AllInWindow(t, w, all) && InWindow(t, w, op.k)
    ensures AllInWindow(t, w, KeysAfter(all, op))
    ensures After(EntriesOf(w, all), OpOf(w, op)) == EntriesOf(w, KeysAfter(all, op))
    ensures Answer(EntriesOf(w, all), OpOf(w, op)) == KeyAnswer(all, op)
  {
    HoldsKey(t, w, all, op.k);
    if op.InsertKey? {
      assert EntriesOf(w, all + {op.k}) == EntriesOf(w, all) + {EntryOf(w, op.k)};
      assert op.k in all ==> all + {op.k} == all;
    } else {
      DeleteKeyIs(t, w, all, op.k);
    }
  }

  lemma DeleteKeyIs(t: AttrType, w: int, all: set<Key>, k: Key)
    requires AllInWindow(t, w, all) && InWindow(t, w, k)
    ensures (set e | e in EntriesOf(w, all) && e.key != Rank(w, k)) == EntriesOf(w, all - {k})
  {
    forall x | x in all
      ensures Rank(w, x) == Rank(w, k) <==> x == k
    {
      CompareKeyIsRank(t, w, x, k);
    }
  }

  /** Both sets grow and shrink together. */
  lemma SameGrowth(t: AttrType, w: int, all: set<Key>, op: KeyOp)
    requires AllInWindow(t, w, all) && InWindow(t, w, op.k) && |EntriesOf(w, all)| == |all|
    ensures |EntriesOf(w, KeysAfter(all, op))| == |KeysAfter(all, op)|
  {
    HoldsKey(t, w, all, op.k);
    HoldsKey(t, w, all - {op.k}, op.k);
    var less, e := EntriesOf(w, all - {op.k}), EntryOf(w, op.k);
    assert e !in less;
    if op.k in all {
      assert all == (all - {op.k}) + {op.k};
      EntriesPlus(w, all - {op.k}, op.k);
    } else {
      assert all - {op.k} == all;
      EntriesPlus(w, all, op.k);
    }
    assert op.k in all ==> all + {op.k} == all;
  }

  lemma EntriesPlus(w: int, all: set<Key>, k: Key)
    ensures EntriesOf(w, all + {k}) == EntriesOf(w, all) + {EntryOf(w, k)}
  {
  }

  /** The index over ranks and the index over keys agree on every run. */
  lemma {:induction false} RunsAgree(t: AttrType, w: int, ops: seq<KeyOp>)
    requires forall i :: 0 <= i < |ops| ==> InWindow(t, w, ops[i].k)
    ensures AllInWindow(t, w, KeysAfterAll(ops))
    ensures AfterAll({}, OpsOf(w, ops)) == EntriesOf(w, KeysAfterAll(ops))
    ensures Answers({}, OpsOf(w, ops)) == KeyAnswers(ops)
    ensures Repeats({}, OpsOf(w, ops)) == KeyRepeats(ops) && |AfterAll({}, OpsOf(w, ops))| == |KeysAfterAll(ops)|
  {
    if ops != [] {
      var n := |ops| - 1;
      RunsAgree(t, w, ops[..n]);
      assert OpsOf(w, ops)[..n] == OpsOf(w, ops[..n]);
      KeysAfterIs(t, w, KeysAfterAll(ops[..n]), ops[n]);
      SameGrowth(t, w, KeysAfterAll(ops[..n]), ops[n]);
      HoldsKey(t, w, KeysAfterAll(ops[..n]), ops[n].k);
    }
  }

  lemma PrefixAgrees(t: AttrType, w: int, ops: seq<KeyOp>, n: nat)
    requires n <= |ops| && forall i :: 0 <= i < |ops| ==> InWindow(t, w, ops[i].k)
    ensures AfterAll({}, OpsOf(w, ops)[..n]) == EntriesOf(w, KeysAfterAll(ops[..n]))
    ensures Answers({}, OpsOf(w, ops)[..n]) == KeyAnswers(ops[..n])
    ensures n == |ops| ==> ops[..n] == ops
  {
    assert OpsOf(w, ops)[..n] == OpsOf(w, ops[..n]);
    RunsAgree(t, w, ops[..n]);
  }

  /** What a stop after `n` operations says about the operations and the set of keys. */
  ghost predicate KeyCause(bytes: nat, stored: bool, ops: seq<KeyOp>, n: nat, stop: Rc)
    requires n <= |ops|
  {
    && (stop == NoBuf ==> n < |ops| && ops[n].InsertKey? && 8 * bytes - 2 < |KeysAfterAll(ops[..n])|)
    && (stop == IoErrRead ==> n < |ops| && ops[n].InsertKey? && !stored && exists i :: 0 <= i < n && ops[i].DeleteKey?)
    && (stop == AssertionFailed ==> n < |ops| && ops[n].DeleteKey? && KeyRepeats(ops[..n]) > 0)
  }

  lemma CauseOfKeys(t: AttrType, w: int, c: Cfg, bytes: nat, stored: bool, ops: seq<KeyOp>, n: nat, stop: Rc)
    requires n <= |ops| && forall i :: 0 <= i < |ops| ==> InWindow(t, w, ops[i].k)
    requires Cause(NewFile(c, bytes, stored), {}, OpsOf(w, ops), n, stop)
    ensures KeyCause(bytes, stored, ops, n, stop)
  {
    assert OpsOf(w, ops)[..n] == OpsOf(w, ops[..n]);
    RunsAgree(t, w, ops[..n]);
    if stop == IoErrRead {
      var i :| 0 <= i < n && OpsOf(w, ops)[i].Delete?;
      assert ops[i].DeleteKey?;
    }
  }

  /** Any run of insertions and deletions of keys on a new index file, with nodes of any permitted size:
      if the keys lie in one window of 2^31 consecutive integers (CHARS keys always do), the index
      answers like a set of keys and holds the set's keys, until it is stopped as `BPlusRun.Run` says.
      Out of pages, the set has more keys than the bitmap has bits for index pages; an unreadable page is
      one that a deletion gave back; and a deletion fails only after a repeated insertion.
      That the comparator works on the pairs of keys that it meets is not assumed but follows. */
  method RunKeys(t: AttrType, w: int, leafMax: int, internalMax: int, bytes: nat, stored: bool, ops: seq<KeyOp>)
    returns (tree: BplusTreeHandler, rcs: seq<Rc>, stop: Rc, ghost trace: seq<St>)
    requires Base(t, w) && leafMax >= 4 && internalMax >= 6 && bytes >= 1
    requires forall i :: 0 <= i < |ops| ==> InWindow(t, w, ops[i].k)
    ensures fresh(tree) && fresh(tree.pool) && tree.c == KeyCfg(t, w, leafMax, internalMax)
    ensures |rcs| <= |ops| && rcs == KeyAnswers(ops[..|rcs|])
    ensures |rcs| == |ops| ==> tree.Valid() && Contents(tree.S()) == EntriesOf(w, KeysAfterAll(ops))
    ensures Ends(NewFile(KeyCfg(t, w, leafMax, internalMax), bytes, stored), trace, OpsOf(w, ops), |rcs|, stop)
    ensures trace[0] == St(map[], -1, map[]) && Contents(trace[|rcs|]) == EntriesOf(w, KeysAfterAll(ops[..|rcs|]))
    ensures KeyCause(bytes, stored, ops, |rcs|, stop)
  {
    var c := KeyCfg(t, w, leafMax, internalMax);
    KeyCfgOk(t, w, leafMax, internalMax);
    forall i | 0 <= i < |ops|
      ensures InLimit(c, OpsOf(w, ops)[i])
    {
      RankRange(t, w, ops[i].k);
    }
    tree, rcs, stop, trace := RunFromEmpty(c, bytes, stored, OpsOf(w, ops));
    PrefixAgrees(t, w, ops, |rcs|);
    CauseOfKeys(t, w, c, bytes, stored, ops, |rcs|, stop);
  }
}
